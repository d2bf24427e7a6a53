/** Gravity after a clear: every column is compacted downwards, keeping the
    top-to-bottom order of its puyos. Also the two ways of counting the
    puyos on a board (column by column, and as a set of positions). */
module Gravity {
  import opened Board

  /** The colours of the puyos of a column, top to bottom. */
  function Stones(col: seq<Cell>): (s: seq<Color>)
    ensures |s| <= |col|
  {
    if col == [] then []
    else (if col[0].Puyo? then [col[0].color] else []) + Stones(col[1..])
  }

  /** n empty cells. */
  function Blanks(n: nat): (c: seq<Cell>)
    ensures |c| == n
  {
    seq(n, _ => Empty)
  }

  /** The puyos of the given colours, one per cell. */
  function Puyos(s: seq<Color>): (c: seq<Cell>)
    ensures |c| == |s|
  {
    seq(|s|, i requires 0 <= i < |s| => Puyo(s[i]))
  }

  /** No empty cell lies below a puyo. */
  predicate Settled(col: seq<Cell>) {
    forall i, j | 0 <= i < j < |col| && col[i].Puyo? :: col[j].Puyo?
  }

  /** The compacted column: empty cells on top, then the column's puyos in
      their original order. */
  function Settle(col: seq<Cell>): (r: seq<Cell>)
    ensures |r| == |col|
  {
    Blanks(|col| - |Stones(col)|) + Puyos(Stones(col))
  }

  lemma {:induction false} StonesAppend(a: seq<Cell>, b: seq<Cell>)
    ensures Stones(a + b) == Stones(a) + Stones(b)
  {
    if a == [] {
      assert a + b == b;
    } else {
      var t := a + b;
      assert t[0] == a[0];
      assert t[1..] == a[1..] + b;
      StonesAppend(a[1..], b);
      assert Stones(t) == (if a[0].Puyo? then [a[0].color] else []) + Stones(a[1..] + b);
    }
  }

  lemma {:induction false} StonesBlanks(n: nat)
    ensures Stones(Blanks(n)) == []
  {
    if n > 0 {
      assert Blanks(n)[1..] == Blanks(n - 1);
      StonesBlanks(n - 1);
    }
  }

  lemma {:induction false} StonesPuyos(s: seq<Color>)
    ensures Stones(Puyos(s)) == s
  {
    if s != [] {
      assert Puyos(s)[1..] == Puyos(s[1..]);
      StonesPuyos(s[1..]);
    }
  }

  /** The compacted column is settled and holds the same colours in the same
      order. */
  lemma SettleProps(col: seq<Cell>)
    ensures Settled(Settle(col))
    ensures Stones(Settle(col)) == Stones(col)
  {
    StonesAppend(Blanks(|col| - |Stones(col)|), Puyos(Stones(col)));
    StonesBlanks(|col| - |Stones(col)|);
    StonesPuyos(Stones(col));
  }

  /** A column whose every cell holds a puyo lists them all. */
  lemma {:induction false} AllFilled(c: seq<Cell>)
    requires forall i | 0 <= i < |c| :: c[i].Puyo?
    ensures Puyos(Stones(c)) == c
  {
    if c != [] {
      AllFilled(c[1..]);
      assert Stones(c) == [c[0].color] + Stones(c[1..]);
    }
  }

  /** A settled column is its own compaction. */
  lemma {:induction false} SettledIsFixed(c: seq<Cell>)
    requires Settled(c)
    ensures Settle(c) == c
  {
    if c == [] {
    } else if c[0] == Empty {
      var t := c[1..];
      assert Settled(t) by {
        forall i, j | 0 <= i < j < |t| && t[i].Puyo? ensures t[j].Puyo? {
          assert c[i + 1] == t[i] && c[j + 1] == t[j];
        }
      }
      SettledIsFixed(t);
      assert Stones(c) == Stones(t);
      assert Blanks(|c| - |Stones(c)|) == [Empty] + Blanks(|t| - |Stones(t)|);
      assert c == [Empty] + t;
    } else {
      assert forall j | 0 <= j < |c| :: c[j].Puyo? by {
        forall j | 0 < j < |c| ensures c[j].Puyo? {
          assert c[0].Puyo?;
        }
      }
      AllFilled(c);
      assert |Stones(c)| == |c|;
      assert Blanks(0) == [];
    }
  }

  /** Compaction is characterised by its two properties: a settled column of
      the same height holding the same colours in the same order is the
      compacted column. */
  lemma SettleUnique(col: seq<Cell>, c: seq<Cell>)
    requires |c| == |col| && Settled(c) && Stones(c) == Stones(col)
    ensures c == Settle(col)
  {
    SettledIsFixed(c);
  }

  /** Compacting a compacted column changes nothing. */
  lemma SettleIdempotent(col: seq<Cell>)
    ensures Settle(Settle(col)) == Settle(col)
  {
    SettleProps(col);
    SettledIsFixed(Settle(col));
  }

  /** Below row y no empty cell lies under a puyo. */
  predicate SettledFrom(col: seq<Cell>, y: int) {
    forall i, j | 0 <= i < j < |col| && y < j && col[i].Puyo? :: col[j].Puyo?
  }

  /** One step of the bottom-up compaction loop: row y is filled from above
      when anything above it holds a puyo, rows below y are untouched, and
      no row above y gains a puyo. The part of the column that is settled
      then grows by row y. */
  lemma DropKeepsSettled(c: seq<Cell>, d: seq<Cell>, y: int)
    requires |c| == |d| && 0 <= y < |c| && SettledFrom(c, y)
    requires forall j | y < j < |c| :: d[j] == c[j]
    requires forall i | 0 <= i < y :: d[i].Puyo? ==> c[i].Puyo?
    requires d[y].Puyo? || forall i | 0 <= i < y :: !d[i].Puyo?
    requires d[y].Puyo? ==> c[y].Puyo? || exists i | 0 <= i < y :: c[i].Puyo?
    ensures SettledFrom(d, y - 1)
  {
    forall i, j | 0 <= i < j < |d| && y - 1 < j && d[i].Puyo? ensures d[j].Puyo? {
      if j > y && i == y && !c[y].Puyo? {
        var k :| 0 <= k < y && c[k].Puyo?;
        assert c[j].Puyo?;
      }
    }
  }

  /** Moving the puyo at row yy down into the empty row y, across empty rows
      only, keeps the column's colours and their order. */
  lemma StonesMove(c: seq<Cell>, yy: int, y: int)
    requires 0 <= yy < y < |c| && c[yy].Puyo?
    requires forall i | yy < i <= y :: c[i] == Empty
    ensures Stones(c[y := c[yy]][yy := Empty]) == Stones(c)
  {
    var d := c[y := c[yy]][yy := Empty];
    var gap := c[yy + 1..y];
    var front, back := c[..yy], c[y + 1..];
    var m1 := [c[yy]] + gap + [Empty];
    var m2 := [Empty] + gap + [c[yy]];
    assert c == front + m1 + back;
    assert d == front + m2 + back;
    assert Stones(m1) == Stones(m2) by {
      assert gap == Blanks(|gap|);
      StonesBlanks(|gap|);
      StonesAppend([c[yy]] + gap, [Empty]);
      StonesAppend([c[yy]], gap);
      StonesAppend([Empty] + gap, [c[yy]]);
      StonesAppend([Empty], gap);
    }
    StonesAppend(front + m1, back);
    StonesAppend(front, m1);
    StonesAppend(front + m2, back);
    StonesAppend(front, m2);
  }

  /** Column x of the board, top to bottom. */
  function Column(g: Grid, x: int): (c: seq<Cell>)
    requires WellFormed(g) && 0 <= x < COLS
    ensures |c| == ROWS && forall y | 0 <= y < ROWS :: c[y] == g[y][x]
  {
    seq(ROWS, y requires 0 <= y < ROWS => g[y][x])
  }

  /** The board after gravity: every column compacted. */
  function SettleGrid(g: Grid): (h: Grid)
    requires WellFormed(g)
    ensures WellFormed(h)
  {
    seq(ROWS, y requires 0 <= y < ROWS =>
      seq(COLS, x requires 0 <= x < COLS => Settle(Column(g, x))[y]))
  }

  lemma SettleGridColumn(g: Grid, x: int)
    requires WellFormed(g) && 0 <= x < COLS
    ensures Column(SettleGrid(g), x) == Settle(Column(g, x))
  {
  }

  /** After gravity no column has an empty cell below a puyo, and every
      column holds the same colours in the same top-to-bottom order. */
  lemma SettleGridProps(g: Grid)
    requires WellFormed(g)
    ensures forall x | 0 <= x < COLS :: Settled(Column(SettleGrid(g), x))
    ensures forall x | 0 <= x < COLS :: Stones(Column(SettleGrid(g), x)) == Stones(Column(g, x))
  {
    forall x | 0 <= x < COLS
      ensures Settled(Column(SettleGrid(g), x))
      ensures Stones(Column(SettleGrid(g), x)) == Stones(Column(g, x))
    {
      SettleGridColumn(g, x);
      SettleProps(Column(g, x));
    }
  }

  /** Gravity applied twice is gravity applied once. */
  lemma SettleGridIdempotent(g: Grid)
    requires WellFormed(g)
    ensures SettleGrid(SettleGrid(g)) == SettleGrid(g)
  {
    var h := SettleGrid(g);
    forall y, x | 0 <= y < ROWS && 0 <= x < COLS
      ensures SettleGrid(h)[y][x] == h[y][x]
    {
      SettleGridColumn(g, x);
      SettleIdempotent(Column(g, x));
      assert Column(h, x) == Settle(Column(g, x));
      assert SettleGrid(h)[y][x] == Settle(Column(h, x))[y];
    }
    assert forall y | 0 <= y < ROWS :: SettleGrid(h)[y] == h[y];
  }

  /** The positions of all puyos on the board. */
  ghost function FilledSet(g: Grid): set<Pos>
    requires WellFormed(g)
  {
    set y, x | 0 <= y < ROWS && 0 <= x < COLS && g[y][x].Puyo? :: Pos(x, y)
  }

  /** The number of puyos, counted column by column over the first n columns. */
  function StoneCount(g: Grid, n: int): nat
    requires WellFormed(g) && 0 <= n <= COLS
  {
    if n == 0 then 0 else StoneCount(g, n - 1) + |Stones(Column(g, n - 1))|
  }

  ghost function ColumnFilled(g: Grid, x: int, n: int): set<Pos>
    requires WellFormed(g) && 0 <= n <= ROWS
  {
    set y | 0 <= y < n && 0 <= x < COLS && g[y][x].Puyo? :: Pos(x, y)
  }

  ghost function FilledUpTo(g: Grid, n: int): set<Pos>
    requires WellFormed(g)
  {
    set y, x | 0 <= y < ROWS && 0 <= x < n && x < COLS && g[y][x].Puyo? :: Pos(x, y)
  }

  lemma {:induction false} ColumnFilledCard(g: Grid, x: int, n: int)
    requires WellFormed(g) && 0 <= x < COLS && 0 <= n <= ROWS
    ensures |ColumnFilled(g, x, n)| == |Stones(Column(g, x)[..n])|
  {
    if n > 0 {
      ColumnFilledCard(g, x, n - 1);
      var c := Column(g, x);
      assert c[..n] == c[..n - 1] + [c[n - 1]];
      StonesAppend(c[..n - 1], [c[n - 1]]);
      ColumnFilledStep(g, x, n);
    }
  }

  lemma ColumnFilledStep(g: Grid, x: int, n: int)
    requires WellFormed(g) && 0 <= x < COLS && 0 < n <= ROWS
    ensures Pos(x, n - 1) !in ColumnFilled(g, x, n - 1)
    ensures ColumnFilled(g, x, n) ==
      ColumnFilled(g, x, n - 1) + (if g[n - 1][x].Puyo? then {Pos(x, n - 1)} else {})
  {
  }

  lemma {:induction false} FilledUpToCard(g: Grid, n: int)
    requires WellFormed(g) && 0 <= n <= COLS
    ensures |FilledUpTo(g, n)| == StoneCount(g, n)
  {
    if n == 0 {
      assert FilledUpTo(g, 0) == {};
    } else {
      FilledUpToCard(g, n - 1);
      ColumnCard(g, n - 1);
      FilledUpToStep(g, n);
    }
  }

  lemma ColumnCard(g: Grid, x: int)
    requires WellFormed(g) && 0 <= x < COLS
    ensures |ColumnFilled(g, x, ROWS)| == |Stones(Column(g, x))|
  {
    ColumnFilledCard(g, x, ROWS);
    assert Column(g, x)[..ROWS] == Column(g, x);
  }

  lemma FilledUpToStep(g: Grid, n: int)
    requires WellFormed(g) && 0 < n <= COLS
    ensures |FilledUpTo(g, n)| == |FilledUpTo(g, n - 1)| + |ColumnFilled(g, n - 1, ROWS)|
  {
    var a, b := FilledUpTo(g, n - 1), ColumnFilled(g, n - 1, ROWS);
    assert FilledUpTo(g, n) == a + b;
    assert a * b == {};
  }

  /** Counting the puyos column by column gives the number of occupied
      positions. */
  lemma CountIsFilled(g: Grid)
    requires WellFormed(g)
    ensures StoneCount(g, COLS) == |FilledSet(g)|
  {
    FilledUpToCard(g, COLS);
    assert FilledUpTo(g, COLS) == FilledSet(g);
  }

  lemma {:induction false} StoneCountSame(g: Grid, h: Grid, n: int)
    requires WellFormed(g) && WellFormed(h) && 0 <= n <= COLS
    requires forall x | 0 <= x < n :: Stones(Column(h, x)) == Stones(Column(g, x))
    ensures StoneCount(h, n) == StoneCount(g, n)
  {
    if n > 0 {
      StoneCountSame(g, h, n - 1);
    }
  }

  /** Gravity neither creates nor destroys puyos. */
  lemma SettleGridKeepsCount(g: Grid)
    requires WellFormed(g)
    ensures |FilledSet(SettleGrid(g))| == |FilledSet(g)|
  {
    SettleGridProps(g);
    StoneCountSame(g, SettleGrid(g), COLS);
    CountIsFilled(g);
    CountIsFilled(SettleGrid(g));
  }
}
