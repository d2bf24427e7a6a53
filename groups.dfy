/** Match groups: maximal 4-connected sets of same-coloured puyos, the
    clearing of a list of groups, and the cell counts a clear removes. */
module Groups {
  import opened Board
  import opened Gravity

  /** The minimum size of a group that is cleared. */
  const MIN_GROUP: int := 4

  /** No position occurs twice. */
  predicate Distinct(s: seq<Pos>) {
    forall i, j | 0 <= i < j < |s| :: s[i] != s[j]
  }

  /** Every position after the first is a 4-neighbour of an earlier one: the
      order in which a flood fill reaches the cells of a connected set. */
  ghost predicate Linked(s: seq<Pos>) {
    forall i | 0 < i < |s| :: Reached(s, i)
  }

  /** Position i is a 4-neighbour of an earlier position. */
  ghost predicate Reached(s: seq<Pos>, i: int)
    requires 0 <= i < |s|
  {
    exists j, k | 0 <= j < i && 0 <= k < 4 :: s[i] == Step(s[j], k)
  }

  /** Every position is on the board and holds a puyo of colour c. */
  predicate Monochrome(g: Grid, s: seq<Pos>, c: Color)
    requires WellFormed(g)
  {
    forall i | 0 <= i < |s| :: InGrid(s[i]) && At(g, s[i]) == Puyo(c)
  }

  /** Every 4-neighbour of a member holding the same content is a member. */
  ghost predicate Closed(g: Grid, s: seq<Pos>)
    requires WellFormed(g)
  {
    forall i, k {:trigger Step(s[i], k)} | 0 <= i < |s| && 0 <= k < 4 ::
      InGrid(s[i]) && InGrid(Step(s[i], k)) && At(g, Step(s[i], k)) == At(g, s[i]) ==> Step(s[i], k) in s
  }

  /** A connected component of same-coloured puyos, listed without repetition
      in an order in which a flood fill can reach them. */
  ghost predicate IsComponent(g: Grid, s: seq<Pos>)
    requires WellFormed(g)
  {
    |s| > 0 && InGrid(s[0]) && At(g, s[0]).Puyo? &&
    Monochrome(g, s, At(g, s[0]).color) && Distinct(s) && Linked(s) && Closed(g, s)
  }

  /** The positions of a sequence, as a set. */
  ghost function Elems(s: seq<Pos>): set<Pos> {
    set p | p in s
  }

  ghost predicate Disjoint(a: seq<Pos>, b: seq<Pos>) {
    forall p | p in a :: p !in b
  }

  /** groups is a correct answer of the match detector for board g: each
      group is a component of at least MIN_GROUP puyos, no two groups share
      a cell, and every component of at least MIN_GROUP puyos is one of the
      groups. */
  ghost predicate IsGroupList(g: Grid, groups: seq<seq<Pos>>)
    requires WellFormed(g)
  {
    GroupsSound(g, groups) && GroupsDisjoint(groups) && GroupsComplete(g, groups)
  }

  /** Each group is a component of at least MIN_GROUP puyos. */
  ghost predicate GroupsSound(g: Grid, groups: seq<seq<Pos>>)
    requires WellFormed(g)
  {
    forall i | 0 <= i < |groups| :: IsComponent(g, groups[i]) && |groups[i]| >= MIN_GROUP
  }

  ghost predicate GroupsDisjoint(groups: seq<seq<Pos>>) {
    forall i, j | 0 <= i < j < |groups| :: Disjoint(groups[i], groups[j])
  }

  /** Every component of at least MIN_GROUP puyos is one of the groups. */
  ghost predicate GroupsComplete(g: Grid, groups: seq<seq<Pos>>)
    requires WellFormed(g)
  {
    forall s: seq<Pos> {:trigger IsComponent(g, s)} | IsComponent(g, s) && |s| >= MIN_GROUP ::
      exists i | 0 <= i < |groups| :: Elems(s) == Elems(groups[i])
  }

  /** If t is linked and of one colour and one of its cells lies in the
      closed set s of the same colour, then its first cell does too. */
  lemma {:induction false} ReachBack(g: Grid, s: seq<Pos>, t: seq<Pos>, c: Color, k: int)
    requires WellFormed(g) && Monochrome(g, s, c) && Closed(g, s)
    requires Monochrome(g, t, c) && Linked(t)
    requires 0 <= k < |t| && t[k] in s
    ensures t[0] in s
    decreases k
  {
    if k > 0 {
      assert Reached(t, k);
      var j, d :| 0 <= j < k && 0 <= d < 4 && t[k] == Step(t[j], d);
      StepBack(t[j], d);
      var i :| 0 <= i < |s| && s[i] == t[k];
      assert Step(s[i], Opposite(d)) == t[j];
      ReachBack(g, s, t, c, j);
    }
  }

  /** ... and then every cell of t lies in s. */
  lemma {:induction false} ReachForward(g: Grid, s: seq<Pos>, t: seq<Pos>, c: Color, k: int)
    requires WellFormed(g) && Monochrome(g, s, c) && Closed(g, s)
    requires Monochrome(g, t, c) && Linked(t)
    requires 0 <= k < |t| && t[0] in s
    ensures t[k] in s
    decreases k
  {
    if k > 0 {
      assert Reached(t, k);
      var j, d :| 0 <= j < k && 0 <= d < 4 && t[k] == Step(t[j], d);
      ReachForward(g, s, t, c, j);
      var i :| 0 <= i < |s| && s[i] == t[j];
      assert Step(s[i], d) == t[k];
    }
  }

  /** Two components that share a cell have the same cells: the components
      of a board do not depend on where the flood fill starts. */
  lemma ComponentsMeet(g: Grid, s: seq<Pos>, t: seq<Pos>, p: Pos)
    requires WellFormed(g) && IsComponent(g, s) && IsComponent(g, t)
    requires p in s && p in t
    ensures Elems(s) == Elems(t)
  {
    var c := At(g, s[0]).color;
    assert At(g, t[0]).color == c by {
      var i :| 0 <= i < |s| && s[i] == p;
      var j :| 0 <= j < |t| && t[j] == p;
    }
    var ks :| 0 <= ks < |s| && s[ks] == p;
    var kt :| 0 <= kt < |t| && t[kt] == p;
    ReachBack(g, s, t, c, kt);
    ReachBack(g, t, s, c, ks);
    forall q | q in t ensures q in s {
      var k :| 0 <= k < |t| && t[k] == q;
      ReachForward(g, s, t, c, k);
    }
    forall q | q in s ensures q in t {
      var k :| 0 <= k < |s| && s[k] == q;
      ReachForward(g, t, s, c, k);
    }
  }

  /** A sequence without repetition has as many elements as its set. */
  lemma {:induction false} DistinctCard(s: seq<Pos>)
    requires Distinct(s)
    ensures |Elems(s)| == |s|
  {
    if s != [] {
      var t := s[..|s| - 1];
      assert Distinct(t);
      DistinctCard(t);
      assert s == t + [s[|s| - 1]];
      assert Elems(s) == Elems(t) + {s[|s| - 1]};
      assert s[|s| - 1] !in Elems(t);
    }
  }

  /** A component has no more cells than the board has puyos. */
  lemma ComponentBounded(g: Grid, s: seq<Pos>)
    requires WellFormed(g) && IsComponent(g, s)
    ensures |s| <= |FilledSet(g)|
  {
    DistinctCard(s);
    forall p | p in Elems(s) ensures p in FilledSet(g) {
      FilledSetMember(g, p);
    }
    SubsetCard(Elems(s), FilledSet(g));
  }

  lemma SubsetCard(a: set<Pos>, b: set<Pos>)
    requires a <= b
    ensures |a| <= |b|
  {
    assert b == a + (b - a);
  }

  /** A board holding fewer than MIN_GROUP puyos has no group: the empty
      list is the detector's correct answer for it. */
  lemma FewPuyosNoGroup(g: Grid)
    requires WellFormed(g) && |FilledSet(g)| < MIN_GROUP
    ensures IsGroupList(g, [])
  {
    forall s: seq<Pos> | IsComponent(g, s) ensures |s| < MIN_GROUP {
      ComponentBounded(g, s);
    }
  }

  /** The number of cells in all groups: `removedCount`. */
  function TotalSize(groups: seq<seq<Pos>>): nat {
    if groups == [] then 0 else TotalSize(groups[..|groups| - 1]) + |groups[|groups| - 1]|
  }

  /** All cells of all groups. */
  ghost function Cover(groups: seq<seq<Pos>>): set<Pos> {
    if groups == [] then {} else Cover(groups[..|groups| - 1]) + Elems(groups[|groups| - 1])
  }

  lemma {:induction false} CoverMember(groups: seq<seq<Pos>>, p: Pos)
    ensures p in Cover(groups) <==> exists i | 0 <= i < |groups| :: p in groups[i]
  {
    if groups != [] {
      var front := groups[..|groups| - 1];
      CoverMember(front, p);
      if p in Cover(groups) && p !in Elems(groups[|groups| - 1]) {
        var i :| 0 <= i < |front| && p in front[i];
        assert groups[i] == front[i];
      }
      if exists i | 0 <= i < |groups| :: p in groups[i] {
        var i :| 0 <= i < |groups| && p in groups[i];
        if i < |front| {
          assert front[i] == groups[i];
        }
      }
    }
  }

  /** The groups without repetition, pairwise disjoint: the cells they cover
      number exactly their total size. */
  lemma {:induction false} CoverCard(groups: seq<seq<Pos>>)
    requires forall i | 0 <= i < |groups| :: Distinct(groups[i])
    requires forall i, j | 0 <= i < j < |groups| :: Disjoint(groups[i], groups[j])
    ensures |Cover(groups)| == TotalSize(groups)
  {
    if groups != [] {
      var n := |groups| - 1;
      var front := groups[..n];
      assert forall i | 0 <= i < |front| :: front[i] == groups[i];
      CoverCard(front);
      DistinctCard(groups[n]);
      assert Cover(front) * Elems(groups[n]) == {} by {
        forall p | p in Cover(front) ensures p !in Elems(groups[n]) {
          CoverMember(front, p);
          var i :| 0 <= i < |front| && p in front[i];
          assert Disjoint(groups[i], groups[n]);
        }
      }
    }
  }

  /** The board with every cell of every group emptied. */
  ghost function Cleared(g: Grid, groups: seq<seq<Pos>>): (h: Grid)
    requires WellFormed(g)
    ensures WellFormed(h)
  {
    seq(ROWS, y requires 0 <= y < ROWS =>
      seq(COLS, x requires 0 <= x < COLS => if Pos(x, y) in Cover(groups) then Empty else g[y][x]))
  }

  lemma FilledSetMember(g: Grid, p: Pos)
    requires WellFormed(g)
    ensures p in FilledSet(g) <==> InGrid(p) && At(g, p).Puyo?
  {
    if InGrid(p) && At(g, p).Puyo? {
      assert p == Pos(p.x, p.y);
    }
  }

  /** The cells of sound groups hold puyos. */
  lemma CoverFilled(g: Grid, groups: seq<seq<Pos>>)
    requires WellFormed(g) && GroupsSound(g, groups)
    ensures Cover(groups) <= FilledSet(g)
  {
    forall p | p in Cover(groups) ensures p in FilledSet(g) {
      CoverMember(groups, p);
      var i :| 0 <= i < |groups| && p in groups[i];
      var k :| 0 <= k < |groups[i]| && groups[i][k] == p;
      assert IsComponent(g, groups[i]);
      assert InGrid(p) && At(g, p).Puyo?;
      FilledSetMember(g, p);
    }
  }

  /** Clearing empties exactly the covered cells. */
  lemma ClearedFilled(g: Grid, groups: seq<seq<Pos>>)
    requires WellFormed(g)
    ensures FilledSet(Cleared(g, groups)) == FilledSet(g) - Cover(groups)
  {
    var h := Cleared(g, groups);
    forall p ensures p in FilledSet(h) <==> p in FilledSet(g) - Cover(groups) {
      CoverMember(groups, p);
      FilledSetMember(g, p);
      FilledSetMember(h, p);
    }
  }

  /** Clearing a list of sound, pairwise disjoint groups removes exactly the
      cells of the groups, which are puyos; they number the groups' total
      size, at least MIN_GROUP per group. */
  lemma ClearRemoves(g: Grid, groups: seq<seq<Pos>>)
    requires WellFormed(g) && GroupsSound(g, groups) && GroupsDisjoint(groups)
    ensures Cover(groups) <= FilledSet(g)
    ensures FilledSet(Cleared(g, groups)) == FilledSet(g) - Cover(groups)
    ensures |FilledSet(g)| - |FilledSet(Cleared(g, groups))| == TotalSize(groups) >= MIN_GROUP * |groups|
  {
    CoverFilled(g, groups);
    ClearedFilled(g, groups);
    assert forall i | 0 <= i < |groups| :: Distinct(groups[i]);
    CoverCard(groups);
    assert FilledSet(g) * Cover(groups) == Cover(groups);
    TotalSizeAtLeast(groups);
  }

  lemma {:induction false} TotalSizeAtLeast(groups: seq<seq<Pos>>)
    requires forall i | 0 <= i < |groups| :: |groups[i]| >= MIN_GROUP
    ensures TotalSize(groups) >= MIN_GROUP * |groups|
  {
    if groups != [] {
      TotalSizeAtLeast(groups[..|groups| - 1]);
    }
  }

  /** Two correct answers of the match detector for the same board cover the
      same cells and the same number of them, so they clear the board
      identically: only the order of the groups may differ. */
  lemma GroupListsAgree(g: Grid, gs: seq<seq<Pos>>, hs: seq<seq<Pos>>)
    requires WellFormed(g) && IsGroupList(g, gs) && IsGroupList(g, hs)
    ensures Cover(gs) == Cover(hs)
    ensures TotalSize(gs) == TotalSize(hs)
    ensures Cleared(g, gs) == Cleared(g, hs)
    ensures |gs| == |hs|
  {
    GroupListsCover(g, gs, hs);
    GroupListsSameLength(g, gs, hs);
  }

  lemma GroupListsCover(g: Grid, gs: seq<seq<Pos>>, hs: seq<seq<Pos>>)
    requires WellFormed(g) && IsGroupList(g, gs) && IsGroupList(g, hs)
    ensures Cover(gs) == Cover(hs)
    ensures TotalSize(gs) == TotalSize(hs)
    ensures Cleared(g, gs) == Cleared(g, hs)
  {
    CoverAgree(g, gs, hs);
    CoverAgree(g, hs, gs);
    CoverCard(gs);
    CoverCard(hs);
    ClearedByCover(g, gs, hs);
  }

  /** The cell sets of the groups, in order. */
  ghost function Shapes(gs: seq<seq<Pos>>): seq<set<Pos>> {
    seq(|gs|, i requires 0 <= i < |gs| => Elems(gs[i]))
  }

  /** Two correct answers of the match detector for the same board list the
      same number of groups: both list every large component exactly once. */
  lemma GroupListsSameLength(g: Grid, gs: seq<seq<Pos>>, hs: seq<seq<Pos>>)
    requires WellFormed(g) && IsGroupList(g, gs) && IsGroupList(g, hs)
    ensures |gs| == |hs|
  {
    var a, b := Shapes(gs), Shapes(hs);
    ShapesDistinct(g, gs);
    ShapesDistinct(g, hs);
    ShapesCovered(g, gs, hs);
    ShapesCovered(g, hs, gs);
    assert (set x | x in a) == (set x | x in b);
    DistinctShapesCard(a);
    DistinctShapesCard(b);
  }

  /** Disjoint non-empty groups have pairwise different cell sets. */
  lemma ShapesDistinct(g: Grid, gs: seq<seq<Pos>>)
    requires WellFormed(g) && GroupsSound(g, gs) && GroupsDisjoint(gs)
    ensures forall i, j | 0 <= i < j < |gs| :: Shapes(gs)[i] != Shapes(gs)[j]
  {
    forall i, j | 0 <= i < j < |gs| ensures Shapes(gs)[i] != Shapes(gs)[j] {
      assert IsComponent(g, gs[i]);
      assert Disjoint(gs[i], gs[j]);
      assert gs[i][0] in Elems(gs[i]) && gs[i][0] !in Elems(gs[j]);
    }
  }

  /** Every cell set of a sound answer is a cell set of a complete one. */
  lemma ShapesCovered(g: Grid, gs: seq<seq<Pos>>, hs: seq<seq<Pos>>)
    requires WellFormed(g) && GroupsSound(g, gs) && GroupsComplete(g, hs)
    ensures forall x | x in Shapes(gs) :: x in Shapes(hs)
  {
    forall x | x in Shapes(gs) ensures x in Shapes(hs) {
      var i :| 0 <= i < |gs| && Shapes(gs)[i] == x;
      assert IsComponent(g, gs[i]) && |gs[i]| >= MIN_GROUP;
      var j :| 0 <= j < |hs| && Elems(gs[i]) == Elems(hs[j]);
      assert Shapes(hs)[j] == x;
    }
  }

  /** A sequence of pairwise different cell sets has as many elements as the
      set of its elements. */
  lemma {:induction false} DistinctShapesCard(s: seq<set<Pos>>)
    requires forall i, j | 0 <= i < j < |s| :: s[i] != s[j]
    ensures |set x | x in s| == |s|
  {
    if s != [] {
      var t := s[..|s| - 1];
      DistinctShapesCard(t);
      assert s == t + [s[|s| - 1]];
      assert (set x | x in s) == (set x | x in t) + {s[|s| - 1]};
      assert s[|s| - 1] !in (set x | x in t);
    }
  }

  /** The cleared board depends only on the cells covered. */
  lemma ClearedByCover(g: Grid, gs: seq<seq<Pos>>, hs: seq<seq<Pos>>)
    requires WellFormed(g) && Cover(gs) == Cover(hs)
    ensures Cleared(g, gs) == Cleared(g, hs)
  {
    forall y, x | 0 <= y < ROWS && 0 <= x < COLS
      ensures Cleared(g, gs)[y][x] == Cleared(g, hs)[y][x]
    {
      CoverMember(gs, Pos(x, y));
      CoverMember(hs, Pos(x, y));
    }
    assert forall y | 0 <= y < ROWS :: Cleared(g, gs)[y] == Cleared(g, hs)[y];
  }

  lemma CoverAgree(g: Grid, gs: seq<seq<Pos>>, hs: seq<seq<Pos>>)
    requires WellFormed(g) && GroupsSound(g, gs) && GroupsComplete(g, hs)
    ensures Cover(gs) <= Cover(hs)
  {
    forall p | p in Cover(gs) ensures p in Cover(hs) {
      CoverMember(gs, p);
      var i :| 0 <= i < |gs| && p in gs[i];
      assert IsComponent(g, gs[i]) && |gs[i]| >= MIN_GROUP;
      var j :| 0 <= j < |hs| && Elems(gs[i]) == Elems(hs[j]);
      assert p in Elems(hs[j]);
      CoverMember(hs, p);
    }
  }

  /** A set of cells closed under same-content 4-adjacency: the cells a
      flood fill has already visited. */
  ghost predicate ClosedSet(g: Grid, s: set<Pos>)
    requires WellFormed(g)
  {
    forall p, k | p in s && 0 <= k < 4 && InGrid(p) && InGrid(Step(p, k)) && At(g, Step(p, k)) == At(g, p) ::
      Step(p, k) in s
  }

  /** A same-content neighbour of a cell outside a closed set is outside it
      too. */
  lemma ClosedSetBack(g: Grid, s: set<Pos>, p: Pos, k: int)
    requires WellFormed(g) && ClosedSet(g, s) && 0 <= k < 4
    ensures InGrid(p) && InGrid(Step(p, k)) && At(g, Step(p, k)) == At(g, p) && Step(p, k) in s ==> p in s
  {
    StepBack(p, k);
  }

  /** Adding a component to a closed set keeps it closed. */
  lemma ClosedUnion(g: Grid, s: set<Pos>, c: seq<Pos>)
    requires WellFormed(g) && ClosedSet(g, s) && IsComponent(g, c)
    ensures ClosedSet(g, s + Elems(c))
  {
    forall p, k | p in s + Elems(c) && 0 <= k < 4 && InGrid(p) && InGrid(Step(p, k)) && At(g, Step(p, k)) == At(g, p)
      ensures Step(p, k) in s + Elems(c)
    {
      if p !in s {
        var i :| 0 <= i < |c| && c[i] == p;
      }
    }
  }

  /** Appending a neighbour of a listed position keeps the list linked. */
  lemma LinkedAppend(s: seq<Pos>, n: int, d: int)
    requires Linked(s) && 0 <= n < |s| && 0 <= d < 4
    ensures Linked(s + [Step(s[n], d)])
  {
    var t := s + [Step(s[n], d)];
    forall i | 0 < i < |t| ensures Reached(t, i) {
      if i < |s| {
        assert Reached(s, i);
        var j, k :| 0 <= j < i && 0 <= k < 4 && s[i] == Step(s[j], k);
        assert t[i] == Step(t[j], k);
      } else {
        assert t[i] == Step(t[n], d);
      }
    }
  }

  /** The cells of the first i + 1 groups are those of the first i and
      those of group i. */
  lemma CoverSnoc(groups: seq<seq<Pos>>, i: int)
    requires 0 <= i < |groups|
    ensures Cover(groups[..i + 1]) == Cover(groups[..i]) + Elems(groups[i])
  {
    assert groups[..i + 1][..i] == groups[..i];
  }

  /** The cells a flood fill from start has reached so far, in the order
      reached: in the grid, of content col, without repetition, each after
      the first next to an earlier one, and none of them in seen. */
  ghost predicate Fill(g: Grid, seen: set<Pos>, order: seq<Pos>, col: Cell, start: Pos)
    requires WellFormed(g)
  {
    |order| > 0 && order[0] == start &&
    (forall i | 0 <= i < |order| :: InGrid(order[i]) && At(g, order[i]) == col) &&
    Distinct(order) && Linked(order) &&
    (forall p | p in order :: p !in seen)
  }

  /** The cell in direction k of p is on the grid and holds col. */
  predicate SameNeighbour(g: Grid, p: Pos, k: int, col: Cell)
    requires WellFormed(g)
  {
    InGrid(Step(p, k)) && At(g, Step(p, k)) == col
  }

  /** The first n cells reached have all their neighbours of content col
      already reached. */
  ghost predicate ClosedUpTo(g: Grid, order: seq<Pos>, n: int, col: Cell)
    requires WellFormed(g) && 0 <= n <= |order|
  {
    forall i, k | 0 <= i < n && 0 <= k < 4 && SameNeighbour(g, order[i], k, col) :: Step(order[i], k) in order
  }

  /** Reaching an unreached, unseen neighbour of content col extends the
      fill and keeps what is closed closed. */
  lemma FillAppend(g: Grid, seen: set<Pos>, order: seq<Pos>, col: Cell, start: Pos, n: int, j: int, d: int)
    requires WellFormed(g) && Fill(g, seen, order, col, start)
    requires 0 <= n <= |order| && ClosedUpTo(g, order, n, col)
    requires 0 <= j < |order| && 0 <= d < 4 && SameNeighbour(g, order[j], d, col)
    requires Step(order[j], d) !in order && Step(order[j], d) !in seen
    ensures Fill(g, seen, order + [Step(order[j], d)], col, start)
    ensures ClosedUpTo(g, order + [Step(order[j], d)], n, col)
  {
    var p := Step(order[j], d);
    var t := order + [p];
    LinkedAppend(order, j, d);
    assert forall i | 0 <= i < |order| :: t[i] == order[i];
    assert forall q | q in order :: q in t;
  }

  /** Once every neighbour of cell n - 1 is reached, the first n cells are
      closed. */
  lemma ClosedUpToNext(g: Grid, order: seq<Pos>, n: int, col: Cell, cur: Pos)
    requires WellFormed(g) && 0 < n <= |order| && ClosedUpTo(g, order, n - 1, col) && cur == order[n - 1]
    requires forall k | 0 <= k < 4 && SameNeighbour(g, cur, k, col) :: Step(cur, k) in order
    ensures ClosedUpTo(g, order, n, col)
  {
  }

  /** A fill whose every cell is closed is a component. */
  lemma FillDone(g: Grid, seen: set<Pos>, order: seq<Pos>, col: Cell, start: Pos)
    requires WellFormed(g) && Fill(g, seen, order, col, start) && col.Puyo?
    requires ClosedUpTo(g, order, |order|, col)
    ensures IsComponent(g, order)
  {
    forall i, k | 0 <= i < |order| && 0 <= k < 4 &&
      InGrid(order[i]) && InGrid(Step(order[i], k)) && At(g, Step(order[i], k)) == At(g, order[i])
      ensures Step(order[i], k) in order
    {
      assert SameNeighbour(g, order[i], k, col);
    }
  }

  /** Every component found is a component. */
  ghost predicate AllComponents(g: Grid, comps: seq<seq<Pos>>)
    requires WellFormed(g)
  {
    forall c | c in comps :: IsComponent(g, c)
  }

  /** The cells seen are exactly the cells of the components found. */
  ghost predicate SeenIs(seen: set<Pos>, comps: seq<seq<Pos>>) {
    (forall p | p in seen :: exists i | 0 <= i < |comps| :: p in comps[i]) &&
    (forall i, p | 0 <= i < |comps| && p in comps[i] :: p in seen)
  }

  /** The components of at least MIN_GROUP cells, in the order found. */
  function Large(comps: seq<seq<Pos>>): (r: seq<seq<Pos>>)
    ensures |r| <= |comps|
  {
    if comps == [] then []
    else
      var front, last := comps[..|comps| - 1], comps[|comps| - 1];
      if |last| >= MIN_GROUP then Large(front) + [last] else Large(front)
  }

  lemma {:induction false} LargeMember(comps: seq<seq<Pos>>, c: seq<Pos>)
    ensures c in Large(comps) <==> c in comps && |c| >= MIN_GROUP
  {
    if comps != [] {
      var front, last := comps[..|comps| - 1], comps[|comps| - 1];
      LargeMember(front, c);
      assert comps == front + [last];
      assert c in comps <==> c in front || c == last;
    }
  }

  lemma LargeAdd(comps: seq<seq<Pos>>, c: seq<Pos>)
    ensures Large(comps + [c]) == if |c| >= MIN_GROUP then Large(comps) + [c] else Large(comps)
  {
    assert (comps + [c])[..|comps|] == comps;
  }

  lemma AllComponentsAdd(g: Grid, comps: seq<seq<Pos>>, c: seq<Pos>)
    requires WellFormed(g) && AllComponents(g, comps) && IsComponent(g, c)
    ensures AllComponents(g, comps + [c])
  {
  }

  lemma SeenIsAdd(seen: set<Pos>, comps: seq<seq<Pos>>, c: seq<Pos>)
    requires SeenIs(seen, comps)
    ensures SeenIs(seen + Elems(c), comps + [c])
  {
    var seen', comps' := seen + Elems(c), comps + [c];
    forall p | p in seen' ensures exists i | 0 <= i < |comps'| :: p in comps'[i] {
      if p in seen {
        var i :| 0 <= i < |comps| && p in comps[i];
        assert comps'[i] == comps[i];
      } else {
        assert comps'[|comps|] == c;
      }
    }
    forall i, p | 0 <= i < |comps'| && p in comps'[i] ensures p in seen' {
      if i < |comps| {
        assert comps'[i] == comps[i];
      }
    }
  }

  /** A new component disjoint from the cells seen is disjoint from every
      group kept. */
  lemma DisjointAdd(seen: set<Pos>, comps: seq<seq<Pos>>, c: seq<Pos>)
    requires GroupsDisjoint(Large(comps)) && SeenIs(seen, comps)
    requires forall p | p in c :: p !in seen
    ensures GroupsDisjoint(Large(comps + [c]))
  {
    LargeAdd(comps, c);
    if |c| >= MIN_GROUP {
      var groups := Large(comps);
      var t := groups + [c];
      forall i, j | 0 <= i < j < |t| ensures Disjoint(t[i], t[j]) {
        if j < |groups| {
          assert t[i] == groups[i] && t[j] == groups[j];
        } else {
          assert t[i] == groups[i] && t[j] == c;
          LargeMember(comps, groups[i]);
          var k :| 0 <= k < |comps| && comps[k] == groups[i];
        }
      }
    }
  }

  /** A component of at least MIN_GROUP cells that meets a component found
      has the cells of one of the groups kept. */
  lemma FoundAmongGroups(g: Grid, comps: seq<seq<Pos>>, groups: seq<seq<Pos>>, s: seq<Pos>, i: int)
    requires WellFormed(g) && IsComponent(g, s) && |s| >= MIN_GROUP
    requires 0 <= i < |comps| && IsComponent(g, comps[i]) && s[0] in comps[i] && groups == Large(comps)
    ensures exists j | 0 <= j < |groups| :: Elems(s) == Elems(groups[j])
  {
    ComponentsMeet(g, s, comps[i], s[0]);
    DistinctCard(s);
    DistinctCard(comps[i]);
    LargeMember(comps, comps[i]);
    var j :| 0 <= j < |groups| && groups[j] == comps[i];
  }

  /** The groups kept are components of at least MIN_GROUP cells. */
  lemma KeptSound(g: Grid, comps: seq<seq<Pos>>, groups: seq<seq<Pos>>)
    requires WellFormed(g) && AllComponents(g, comps) && groups == Large(comps)
    ensures GroupsSound(g, groups)
  {
    forall i | 0 <= i < |groups| ensures IsComponent(g, groups[i]) && |groups[i]| >= MIN_GROUP {
      LargeMember(comps, groups[i]);
    }
  }

  /** When the scan has seen every puyo, every component of at least
      MIN_GROUP cells is among the groups kept. */
  lemma KeptComplete(g: Grid, seen: set<Pos>, comps: seq<seq<Pos>>, groups: seq<seq<Pos>>)
    requires WellFormed(g) && AllComponents(g, comps) && SeenIs(seen, comps) && groups == Large(comps)
    requires forall y, x | 0 <= y < ROWS && 0 <= x < COLS && g[y][x].Puyo? :: Pos(x, y) in seen
    ensures GroupsComplete(g, groups)
  {
    forall s: seq<Pos> {:trigger IsComponent(g, s)} | IsComponent(g, s) && |s| >= MIN_GROUP
      ensures exists j | 0 <= j < |groups| :: Elems(s) == Elems(groups[j])
    {
      HeadSeen(g, seen, s);
      var i := CompOf(seen, comps, s[0]);
      assert comps[i] in comps;
      FoundAmongGroups(g, comps, groups, s, i);
    }
  }

  lemma HeadSeen(g: Grid, seen: set<Pos>, s: seq<Pos>)
    requires WellFormed(g) && IsComponent(g, s)
    requires forall y, x | 0 <= y < ROWS && 0 <= x < COLS && g[y][x].Puyo? :: Pos(x, y) in seen
    ensures s[0] in seen
  {
    var p := s[0];
    assert g[p.y][p.x].Puyo?;
    assert Pos(p.x, p.y) in seen;
  }

  lemma CompOf(seen: set<Pos>, comps: seq<seq<Pos>>, p: Pos) returns (i: int)
    requires SeenIs(seen, comps) && p in seen
    ensures 0 <= i < |comps| && p in comps[i]
  {
    i :| 0 <= i < |comps| && p in comps[i];
  }
}
