/** The score of one chain step, in exact integer arithmetic:
    floor(removed * 10 * 1.5^(d-1) * (1 + 0.3 * (groups - 1))), where
    1.5^(d-1) = 3^(d-1) / 2^(d-1) and 1 + 0.3 * (g - 1) = (10 + 3 * (g - 1)) / 10. */
module Scoring {

  function Pow(b: nat, e: nat): (r: nat)
    ensures b >= 1 ==> r >= 1
  {
    if e == 0 then 1 else b * Pow(b, e - 1)
  }

  /** The score added by a chain step at depth d (1 for the first step of
      a chain) that removes `removed` puyos in `groups` groups: the floor of
      removed * 10 * (3/2)^(d-1) * (10 + 3 * (groups - 1)) / 10. */
  function StepScore(removed: nat, groups: nat, depth: nat): (add: nat)
    requires groups >= 1 && depth >= 1
    ensures add * (10 * Pow(2, depth - 1)) <= removed * 10 * Pow(3, depth - 1) * (10 + 3 * (groups - 1))
    ensures removed * 10 * Pow(3, depth - 1) * (10 + 3 * (groups - 1)) < (add + 1) * (10 * Pow(2, depth - 1))
  {
    ScaleBy10(removed, groups, Pow(3, depth - 1), Pow(2, depth - 1));
    removed * (7 + 3 * groups) * Pow(3, depth - 1) / Pow(2, depth - 1)
  }

  lemma ScaleBy10(removed: nat, groups: nat, m: nat, q: nat)
    requires groups >= 1 && q >= 1
    ensures var a := removed * (7 + 3 * groups) * m / q;
      a * (10 * q) <= removed * 10 * m * (10 + 3 * (groups - 1)) < (a + 1) * (10 * q)
  {
    var n := removed * (7 + 3 * groups) * m;
    var a := n / q;
    assert a * q <= n < (a + 1) * q;
    assert 10 + 3 * (groups - 1) == 7 + 3 * groups;
    assert removed * 10 * m * (7 + 3 * groups) == 10 * n;
    assert a * (10 * q) == 10 * (a * q);
    assert (a + 1) * (10 * q) == 10 * ((a + 1) * q);
  }

  /** One group of four at depth 1 scores 40. */
  lemma OneGroupOfFour()
    ensures StepScore(4, 1, 1) == 40
  {
  }

  /** Groups of four and five cleared together at depth 1 score 117. */
  lemma TwoGroupsAtOnce()
    ensures StepScore(9, 2, 1) == 117
  {
  }

  /** One group of four at depth 2 scores 60. */
  lemma SecondStepOfFour()
    ensures StepScore(4, 1, 2) == 60
  {
  }

  lemma {:induction false} PowGrowsFaster(e: nat)
    ensures Pow(2, e) <= Pow(3, e)
  {
    if e > 0 {
      PowGrowsFaster(e - 1);
    }
  }

  /** If a * d <= m then a <= m / d. */
  lemma DivAtLeast(a: nat, d: nat, m: nat)
    requires d >= 1 && a * d <= m
    ensures a <= m / d
  {
    var k := m / d;
    assert m < (k + 1) * d;
    if a > k {
      MulMono(k + 1, a, d);
    }
  }

  lemma MulMono(b: nat, a: nat, d: nat)
    requires b <= a
    ensures b * d <= a * d
  {
    var t := a - b;
    assert a * d == b * d + t * d;
  }

  /** Every step scores at least ten points per removed puyo. */
  lemma StepScoreAtLeast(removed: nat, groups: nat, depth: nat)
    requires groups >= 1 && depth >= 1
    ensures StepScore(removed, groups, depth) >= 10 * removed
  {
    var m, q := Pow(3, depth - 1), Pow(2, depth - 1);
    PowGrowsFaster(depth - 1);
    var n := removed * (7 + 3 * groups) * m;
    assert (10 * removed) * q <= n by {
      assert 10 * removed <= removed * (7 + 3 * groups);
      assert (10 * removed) * q <= removed * (7 + 3 * groups) * q;
      assert removed * (7 + 3 * groups) * q <= removed * (7 + 3 * groups) * m;
    }
    DivAtLeast(10 * removed, q, n);
  }

  /** The same clear scores at least as much one step deeper into a chain. */
  lemma DeeperScoresMore(removed: nat, groups: nat, depth: nat)
    requires groups >= 1 && depth >= 1
    ensures StepScore(removed, groups, depth + 1) >= StepScore(removed, groups, depth)
  {
    var m, q := Pow(3, depth - 1), Pow(2, depth - 1);
    var n := removed * (7 + 3 * groups) * m;
    var a := n / q;
    assert a * q <= n;
    assert Pow(3, depth) == 3 * m && Pow(2, depth) == 2 * q;
    var n' := removed * (7 + 3 * groups) * (3 * m);
    assert n' == 3 * n;
    assert a * (2 * q) <= n' by {
      assert a * (2 * q) == 2 * (a * q);
    }
    DivAtLeast(a, 2 * q, n');
  }
}
