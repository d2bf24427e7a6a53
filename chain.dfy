/** Chain resolution as a trace: the board before each step and the groups
    detected on it. One step clears the groups and applies gravity; a chain
    ends on a board with no group. Score and cleared count of a chain. */
module Chain {
  import opened Board
  import opened Gravity
  import opened Groups
  import opened Scoring

  /** One resolution step: the board when groups were detected, and the
      groups found. */
  datatype ChainStep = ChainStep(before: Grid, groups: seq<seq<Pos>>)

  /** A step that clears something: its groups are a correct, non-empty
      answer of the match detector for its board. */
  ghost predicate ValidStep(s: ChainStep) {
    WellFormed(s.before) && IsGroupList(s.before, s.groups) && |s.groups| > 0
  }

  /** The board after a step: groups cleared, then gravity. */
  ghost function AfterStep(s: ChainStep): (h: Grid)
    requires WellFormed(s.before)
    ensures WellFormed(h)
  {
    SettleGrid(Cleared(s.before, s.groups))
  }

  /** The steps of trace, in order, lead from board start to board end: the
      first step is taken on start, and the rest lead on from the board it
      leaves. */
  ghost predicate Links(start: Grid, trace: seq<ChainStep>, end: Grid)
    decreases |trace|
  {
    if trace == [] then end == start
    else ValidStep(trace[0]) && trace[0].before == start && Links(AfterStep(trace[0]), trace[1..], end)
  }

  /** A complete chain: the steps lead from start to end, and end has no
      group left. */
  ghost predicate IsChain(start: Grid, trace: seq<ChainStep>, end: Grid) {
    WellFormed(start) && WellFormed(end) && Links(start, trace, end) && IsGroupList(end, [])
  }

  predicate AllClear(trace: seq<ChainStep>) {
    forall i | 0 <= i < |trace| :: |trace[i].groups| >= 1
  }

  /** The puyos a chain removes: `totalTurnCleared`. */
  function ChainCleared(trace: seq<ChainStep>): nat {
    if trace == [] then 0 else ChainCleared(trace[..|trace| - 1]) + TotalSize(trace[|trace| - 1].groups)
  }

  /** The score a chain earns: `totalAddScore`, step k (from 1) scored at
      chain depth k. */
  function ChainScore(trace: seq<ChainStep>): nat
    requires AllClear(trace)
  {
    if trace == [] then 0
    else
      var last := trace[|trace| - 1];
      ChainScore(trace[..|trace| - 1]) + StepScore(TotalSize(last.groups), |last.groups|, |trace|)
  }

  /** A step taken on the board a chain leads to extends the chain. */
  lemma {:induction false} LinksSnoc(start: Grid, trace: seq<ChainStep>, mid: Grid, s: ChainStep, end: Grid)
    requires Links(start, trace, mid) && ValidStep(s) && s.before == mid && end == AfterStep(s)
    ensures Links(start, trace + [s], end)
    decreases |trace|
  {
    var t := trace + [s];
    if trace == [] {
      assert t[1..] == [];
    } else {
      LinksSnoc(AfterStep(trace[0]), trace[1..], mid, s, end);
      assert t[0] == trace[0] && t[1..] == trace[1..] + [s];
    }
  }

  /** The same chain read from its last step: the steps before it lead to
      the board it is taken on, and end is the board it leaves. */
  lemma {:induction false} LinksBack(start: Grid, trace: seq<ChainStep>, end: Grid)
    requires trace != []
    ensures Links(start, trace, end) <==>
      var front, last := trace[..|trace| - 1], trace[|trace| - 1];
      ValidStep(last) && Links(start, front, last.before) && end == AfterStep(last)
    decreases |trace|
  {
    var front, last := trace[..|trace| - 1], trace[|trace| - 1];
    if |trace| == 1 {
      assert trace[1..] == [] && front == [] && trace[0] == last;
    } else {
      var tail := trace[1..];
      assert tail[|tail| - 1] == last;
      assert front[0] == trace[0] && front[1..] == tail[..|tail| - 1];
      if WellFormed(trace[0].before) {
        LinksBack(AfterStep(trace[0]), tail, end);
      }
    }
  }

  /** Every step of a chain is a valid step, so each clears something. */
  lemma {:induction false} LinksClear(start: Grid, trace: seq<ChainStep>, end: Grid)
    requires Links(start, trace, end)
    ensures AllClear(trace)
    ensures forall i | 0 <= i < |trace| :: ValidStep(trace[i])
    decreases |trace|
  {
    if trace != [] {
      LinksClear(AfterStep(trace[0]), trace[1..], end);
      forall i | 0 <= i < |trace| ensures ValidStep(trace[i]) && |trace[i].groups| >= 1 {
        if i > 0 {
          assert trace[i] == trace[1..][i - 1];
        }
      }
    }
  }

  /** Appending a step that clears something to a chain adds its cleared
      puyos and its score at the next chain depth. */
  lemma ChainSnoc(trace: seq<ChainStep>, s: ChainStep)
    requires AllClear(trace) && |s.groups| >= 1
    ensures AllClear(trace + [s])
    ensures ChainCleared(trace + [s]) == ChainCleared(trace) + TotalSize(s.groups)
    ensures ChainScore(trace + [s]) == ChainScore(trace) + StepScore(TotalSize(s.groups), |s.groups|, |trace| + 1)
  {
    var t := trace + [s];
    assert t[..|t| - 1] == trace;
    assert t[|t| - 1] == s;
    forall i | 0 <= i < |t| ensures |t[i].groups| >= 1 {
      if i < |trace| {
        assert t[i] == trace[i];
      }
    }
  }

  /** A step taken where a chain from start ended extends the chain: its
      score and cleared count grow by the step's, and the count stays within
      the puyos start holds, so a chain cannot go on forever. */
  lemma ChainExtend(start: Grid, trace: seq<ChainStep>, s: ChainStep, end: Grid)
    requires WellFormed(start) && Links(start, trace, s.before) && AllClear(trace)
    requires ValidStep(s) && end == AfterStep(s)
    ensures Links(start, trace + [s], end) && AllClear(trace + [s])
    ensures ChainCleared(trace + [s]) == ChainCleared(trace) + TotalSize(s.groups)
    ensures ChainScore(trace + [s]) == ChainScore(trace) + StepScore(TotalSize(s.groups), |s.groups|, |trace| + 1)
    ensures ChainCleared(trace) + MIN_GROUP <= ChainCleared(trace + [s]) <= |FilledSet(start)|
  {
    ChainSnoc(trace, s);
    TotalSizeAtLeast(s.groups);
    LinksSnoc(start, trace, s.before, s, end);
    ChainBounded(start, trace + [s], end);
  }

  /** Every step of a chain empties at least MIN_GROUP cells, and the cells a
      chain reports cleared are exactly the puyos that vanished from the
      board. */
  lemma {:induction false} ChainCounts(start: Grid, trace: seq<ChainStep>, end: Grid)
    requires WellFormed(start) && Links(start, trace, end)
    ensures WellFormed(end)
    ensures ChainCleared(trace) == |FilledSet(start)| - |FilledSet(end)|
    ensures ChainCleared(trace) >= MIN_GROUP * |trace|
  {
    if trace != [] {
      var last := trace[|trace| - 1];
      LinksBack(start, trace, end);
      ChainCounts(start, trace[..|trace| - 1], last.before);
      ClearRemoves(last.before, last.groups);
      SettleGridKeepsCount(Cleared(last.before, last.groups));
    }
  }

  /** A chain cannot clear more puyos than its first board holds. */
  lemma ChainBounded(start: Grid, trace: seq<ChainStep>, end: Grid)
    requires WellFormed(start) && Links(start, trace, end)
    ensures ChainCleared(trace) <= |FilledSet(start)|
  {
    ChainCounts(start, trace, end);
  }

  /** A chain scores at least ten points per cleared puyo. */
  lemma {:induction false} ChainScoreAtLeast(trace: seq<ChainStep>)
    requires AllClear(trace)
    ensures ChainScore(trace) >= 10 * ChainCleared(trace)
  {
    if trace != [] {
      var front, last := trace[..|trace| - 1], trace[|trace| - 1];
      assert forall i | 0 <= i < |front| :: front[i] == trace[i];
      ChainScoreAtLeast(front);
      StepScoreAtLeast(TotalSize(last.groups), |last.groups|, |trace|);
    }
  }

  /** A board without a group resolves to itself in zero steps, earning
      nothing: a lock that forms no group leaves the board as it is. */
  lemma QuietBoard(start: Grid, trace: seq<ChainStep>, end: Grid)
    requires IsChain(start, trace, end) && IsGroupList(start, [])
    ensures trace == [] && end == start
  {
    if trace != [] {
      StepNeedsGroup(trace[0]);
      assert false;
    }
  }

  /** A step is taken only on a board that holds a group. */
  lemma StepNeedsGroup(s: ChainStep)
    ensures ValidStep(s) ==> !IsGroupList(s.before, [])
  {
    if ValidStep(s) {
      assert IsComponent(s.before, s.groups[0]);
    }
  }

  /** Resolution is deterministic: whatever the order of the groups each
      detection returns, a chain from a given board has the same number of
      steps, the same final board, the same number of cleared puyos and the
      same score. */
  lemma ChainDeterministic(start: Grid, t1: seq<ChainStep>, e1: Grid, t2: seq<ChainStep>, e2: Grid)
    requires IsChain(start, t1, e1) && IsChain(start, t2, e2)
    ensures |t1| == |t2| && e1 == e2 && ChainCleared(t1) == ChainCleared(t2)
    ensures AllClear(t1) && AllClear(t2) && ChainScore(t1) == ChainScore(t2)
  {
    ChainsAlign(start, t1, e1, t2, e2);
    LinksClear(start, t1, e1);
    LinksClear(start, t2, e2);
    forall k | 0 <= k < |t1|
      ensures TotalSize(t1[k].groups) == TotalSize(t2[k].groups) && |t1[k].groups| == |t2[k].groups|
    {
      GroupListsAgree(t1[k].before, t1[k].groups, t2[k].groups);
    }
    ChainSame(t1, t2);
  }

  /** Two chains from the same board take their steps on the same boards and
      end on the same board. */
  lemma {:induction false} ChainsAlign(start: Grid, t1: seq<ChainStep>, e1: Grid, t2: seq<ChainStep>, e2: Grid)
    requires IsChain(start, t1, e1) && IsChain(start, t2, e2)
    ensures |t1| == |t2| && e1 == e2
    ensures forall k | 0 <= k < |t1| :: t1[k].before == t2[k].before
    decreases |t1|
  {
    if t1 == [] {
      QuietBoard(start, t2, e2);
    } else if t2 == [] {
      QuietBoard(start, t1, e1);
    } else {
      ChainTail(start, t1, e1);
      ChainTail(start, t2, e2);
      StepsAgree(start, t1[0], t2[0]);
      ChainsAlign(AfterStep(t1[0]), t1[1..], e1, t2[1..], e2);
      forall k | 0 < k < |t1| ensures t1[k].before == t2[k].before {
        assert t1[k] == t1[1..][k - 1] && t2[k] == t2[1..][k - 1];
      }
    }
  }

  /** Two traces whose steps, position by position, clear as many puyos in
      as many groups have the same cleared count and the same score. */
  lemma {:induction false} ChainSame(t1: seq<ChainStep>, t2: seq<ChainStep>)
    requires AllClear(t1) && AllClear(t2) && |t1| == |t2|
    requires forall k | 0 <= k < |t1| ::
      TotalSize(t1[k].groups) == TotalSize(t2[k].groups) && |t1[k].groups| == |t2[k].groups|
    ensures ChainCleared(t1) == ChainCleared(t2) && ChainScore(t1) == ChainScore(t2)
  {
    if t1 != [] {
      var f1, f2 := t1[..|t1| - 1], t2[..|t2| - 1];
      assert forall k | 0 <= k < |f1| :: f1[k] == t1[k] && f2[k] == t2[k];
      ChainSame(f1, f2);
    }
  }

  /** A chain without its first step is a chain from the board that step
      leaves. */
  lemma ChainTail(start: Grid, trace: seq<ChainStep>, end: Grid)
    requires IsChain(start, trace, end) && trace != []
    ensures ValidStep(trace[0]) && trace[0].before == start
    ensures IsChain(AfterStep(trace[0]), trace[1..], end)
  {
  }

  /** Two correct detections on the same board lead to the same next board. */
  lemma StepsAgree(start: Grid, s1: ChainStep, s2: ChainStep)
    requires ValidStep(s1) && ValidStep(s2) && s1.before == start && s2.before == start
    ensures AfterStep(s1) == AfterStep(s2)
  {
    GroupListsAgree(start, s1.groups, s2.groups);
  }
}
