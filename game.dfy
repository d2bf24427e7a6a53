/** The running game: the board array, the active piece, the look-ahead
    queue, the counters and flags, and the operations that update them in
    place. Each operation is proved against the specification in Turn. */
module Game {
  import opened Board
  import opened Piece
  import opened Gravity
  import opened Groups
  import opened Scoring
  import opened Chain
  import opened Turn

  /** The positions of a visited-grid not yet marked. */
  ghost function Unvisited(visited: array2<bool>): set<Pos>
    reads visited
    requires visited.Length0 == ROWS && visited.Length1 == COLS
  {
    set y, x | 0 <= y < ROWS && 0 <= x < COLS && !visited[y, x] :: Pos(x, y)
  }

  /** The visited-grid marks exactly the cells of seen and of fill. */
  ghost predicate Marked(visited: array2<bool>, seen: set<Pos>, fill: seq<Pos>)
    reads visited
    requires visited.Length0 == ROWS && visited.Length1 == COLS
  {
    forall yy, xx | 0 <= yy < ROWS && 0 <= xx < COLS ::
      visited[yy, xx] <==> Pos(xx, yy) in seen || Pos(xx, yy) in fill
  }

  /** The contents of a board array as a value. */
  ghost function GridOf(b: array2<Cell>): (g: Grid)
    reads b
    requires b.Length0 == ROWS && b.Length1 == COLS
    ensures WellFormed(g)
    ensures forall y, x | 0 <= y < ROWS && 0 <= x < COLS :: g[y][x] == b[y, x]
  {
    seq(ROWS, y requires 0 <= y < ROWS reads b => seq(COLS, x requires 0 <= x < COLS reads b => b[y, x]))
  }

  /** `createBoard(ROWS, COLS)`: a new board array with every cell empty. */
  method CreateBoard() returns (b: array2<Cell>)
    ensures fresh(b) && b.Length0 == ROWS && b.Length1 == COLS
    ensures GridOf(b) == EmptyGrid()
  {
    b := new Cell[ROWS, COLS]((_, _) => Empty);
    assert forall y | 0 <= y < ROWS :: GridOf(b)[y] == EmptyGrid()[y];
  }

  class Game {
    /** ROWS x COLS cells, indexed [y, x]; row 0 is the hidden row. */
    var board: array2<Cell>
    var active: Piece
    /** The upcoming pairs; the front one spawns next. */
    var nextQueue: seq<Pair>
    var score: int
    /** The depth of the chain step being resolved; 0 between turns. */
    var chainDisplay: int
    var totalCleared: int
    var gameOver: bool
    var resolving: bool
    var paused: bool
    /** The steps of the chain resolved by the most recent lock. */
    ghost var lastChain: seq<ChainStep>

    ghost predicate Dims()
      reads this`board
    {
      board.Length0 == ROWS && board.Length1 == COLS
    }

    /** The board as a value. */
    ghost function Grid(): (g: Grid)
      reads this`board, board
      requires Dims()
      ensures WellFormed(g)
      ensures forall y, x | 0 <= y < ROWS && 0 <= x < COLS :: g[y][x] == board[y, x]
    {
      GridOf(board)
    }

    /** Column x of the board array, top to bottom. */
    ghost function BoardColumn(x: int): (c: seq<Cell>)
      reads this`board, board
      requires Dims() && 0 <= x < COLS
      ensures c == Column(Grid(), x)
    {
      var b := board;
      seq(ROWS, y requires 0 <= y < ROWS reads b => b[y, x])
    }

    /** The state the commands act on, as a value. */
    ghost function Snap(): State
      reads this, board
      requires Dims()
    {
      State(Grid(), active, nextQueue, score, totalCleared, gameOver, paused)
    }

    /** Between commands no chain is being resolved and the state is
        consistent. */
    ghost predicate Valid()
      reads this, board
    {
      Dims() && !resolving && chainDisplay == 0 && Consistent(Snap())
    }

    /** Cell (x, y) is on the board and holds no puyo. */
    function CellFree(x: int, y: int): (ok: bool)
      reads this, board
      requires Dims()
      ensures ok == Free(Grid(), x, y)
    {
      InBounds(x, y) && board[y, x] == Empty
    }

    /** Both cells of piece p are on the board and empty. */
    function FitsNow(p: Piece): (ok: bool)
      reads this, board
      requires Dims()
      ensures ok == Fits(Grid(), p)
    {
      var cells := ActiveCells(p);
      CellFree(cells[0].x, cells[0].y) && CellFree(cells[1].x, cells[1].y)
    }

    /** `canMoveActive(dx, dy, dir)`: the active piece, translated by
        (dx, dy) and turned to dir (its own orientation when dir is None),
        would fit. */
    function CanMoveActive(dx: int, dy: int, dir: Option<int>): (ok: bool)
      reads this, board
      requires Dims()
      ensures ok == Fits(Grid(), Moved(active, dx, dy, if dir.None? then active.dir else dir.value))
    {
      FitsNow(Moved(active, dx, dy, if dir.None? then active.dir else dir.value))
    }

    /** `canMoveActiveFor(obj, dx, dy)`: piece obj translated by (dx, dy)
        would fit. */
    function CanMoveActiveFor(obj: Piece, dx: int, dy: int): (ok: bool)
      reads this, board
      requires Dims()
      ensures ok == Fits(Grid(), Moved(obj, dx, dy, obj.dir))
    {
      FitsNow(Moved(obj, dx, dy, obj.dir))
    }

    /** Writes one cell of the board. */
    method Put(x: int, y: int, c: Cell)
      requires Dims() && InBounds(x, y)
      modifies board
      ensures Grid() == old(Grid())[y := old(Grid())[y][x := c]]
    {
      ghost var g0 := Grid();
      board[y, x] := c;
      assert forall yy | 0 <= yy < ROWS :: Grid()[yy] == g0[y := g0[y][x := c]][yy];
    }

    /** `spawnPiece`: takes the queue front, appends `next`, places the pair
        upright at the spawn point and ends the game when it does not fit.
        The board is not touched. */
    method SpawnPiece(next: Pair)
      requires Dims() && |nextQueue| >= 1
      modifies this
      ensures board == old(board) && Grid() == old(Grid())
      ensures nextQueue == old(nextQueue)[1..] + [next]
      ensures active == SpawnedPiece(old(nextQueue)[0])
      ensures gameOver == (old(gameOver) || !Fits(Grid(), active))
      ensures score == old(score) && totalCleared == old(totalCleared) && paused == old(paused)
      ensures chainDisplay == old(chainDisplay) && resolving == old(resolving) && lastChain == old(lastChain)
    {
      var p := nextQueue[0];
      nextQueue := nextQueue[1..] + [next];
      active := Piece(COLS / 2 - 1, HIDDEN_ROWS, 0, p.a, p.b);
      var positions := ActiveCells(active);
      for i := 0 to |positions|
        invariant forall j | 0 <= j < i :: Free(Grid(), positions[j].x, positions[j].y)
      {
        var pos := positions[i];
        if !InBounds(pos.x, pos.y) || board[pos.y, pos.x] != Empty {
          gameOver := true;
          return;
        }
      }
    }

    /** `togglePause`: flips the pause flag unless the game is over. */
    method TogglePause()
      requires Dims()
      modifies this
      ensures board == old(board) && PauseSpec(old(Snap()), Snap())
      ensures chainDisplay == old(chainDisplay) && resolving == old(resolving)
      ensures lastChain == old(lastChain)
    {
      if gameOver {
        return;
      }
      paused := !paused;
    }

    /** `rotateActive(dir)`: tries the kicks in order and applies the first
        one with which the turned piece fits. */
    method RotateActive(dir: int)
      requires Valid()
      modifies this`active
      ensures Valid() && RotateSpec(old(Snap()), dir, Snap())
    {
      ghost var s0 := Snap();
      var newDir := RotatedDir(active.dir, dir);
      var kicks := KICKS;
      for i := 0 to |kicks|
        invariant active == s0.active
        invariant FirstKick(s0.grid, s0.active, newDir, 0) == FirstKick(s0.grid, s0.active, newDir, i)
      {
        var k := kicks[i];
        if CanMoveActive(k.0, k.1, Some(newDir)) {
          active := active.(x := active.x + k.0, y := active.y + k.1, dir := newDir);
          assert Snap() == s0.(active := Kicked(s0.active, i, newDir));
          RotateKeepsConsistent(s0, dir, Snap());
          return;
        }
      }
      assert Snap() == s0;
    }

    /** The ghost projection: a copy of the active piece dropped as far as it
        fits, computed without changing anything. */
    method ProjectGhost() returns (landing: Piece)
      requires Dims()
      ensures landing == Landing(Grid(), active)
    {
      landing := active;
      while CanMoveActiveFor(landing, 0, 1)
        invariant landing == active.(y := landing.y) && landing.y >= active.y
        invariant forall k | active.y < k <= landing.y :: Fits(Grid(), active.(y := k))
        decreases ROWS - landing.y
      {
        landing := landing.(y := landing.y + 1);
      }
      LandingUnique(Grid(), active, landing.y);
    }

    /** One column of `applyGravityFull`: scanning upwards from the bottom,
        every empty cell takes the nearest puyo above it. */
    method SettleColumn(x: int)
      requires Dims() && 0 <= x < COLS
      modifies board
      ensures Column(Grid(), x) == Settle(Column(old(Grid()), x))
      ensures forall xx | 0 <= xx < COLS && xx != x :: Column(Grid(), xx) == Column(old(Grid()), xx)
    {
      ghost var c0 := BoardColumn(x);
      var y := ROWS - 1;
      while y >= 0
        invariant -1 <= y < ROWS
        invariant Stones(BoardColumn(x)) == Stones(c0)
        invariant SettledFrom(BoardColumn(x), y)
        invariant forall yy, xx | 0 <= yy < ROWS && 0 <= xx < COLS && xx != x :: board[yy, xx] == old(board[yy, xx])
      {
        ghost var c := BoardColumn(x);
        if board[y, x] == Empty {
          DropInto(x, y);
        }
        DropKeepsSettled(c, BoardColumn(x), y);
        y := y - 1;
      }
      assert Settled(BoardColumn(x));
      SettleUnique(c0, BoardColumn(x));
    }

    /** Fills the empty cell (x, y) with the nearest puyo above it in the
        column, if there is one. The column keeps its colours in order, and
        no cell above y gains a puyo. */
    method DropInto(x: int, y: int)
      requires Dims() && 0 <= x < COLS && 0 <= y < ROWS && board[y, x] == Empty
      modifies board
      ensures Stones(BoardColumn(x)) == Stones(old(BoardColumn(x)))
      ensures forall yy, xx | 0 <= yy < ROWS && 0 <= xx < COLS && xx != x :: board[yy, xx] == old(board[yy, xx])
      ensures forall j | y < j < ROWS :: board[j, x] == old(board[j, x])
      ensures forall i | 0 <= i < y :: board[i, x].Puyo? ==> old(board[i, x]).Puyo?
      ensures board[y, x].Puyo? <==> exists i | 0 <= i < y :: old(board[i, x]).Puyo?
      ensures (forall i | 0 <= i < y :: old(board[i, x]) == Empty) ==> BoardColumn(x) == old(BoardColumn(x))
      ensures forall yy | 0 <= yy < y && old(board[yy, x]).Puyo? && (forall i | yy < i < y :: old(board[i, x]) == Empty) ::
                BoardColumn(x) == old(BoardColumn(x))[y := old(board[yy, x])][yy := Empty]
    {
      var yy := y - 1;
      while yy >= 0
        invariant -1 <= yy < y
        invariant forall i | yy < i <= y :: board[i, x] == Empty
        invariant board == old(board) && unchanged(board)
      {
        if board[yy, x] != Empty {
          ghost var c := BoardColumn(x);
          board[y, x] := board[yy, x];
          board[yy, x] := Empty;
          StonesMove(c, yy, y);
          assert BoardColumn(x) == c[y := c[yy]][yy := Empty];
          return;
        }
        yy := yy - 1;
      }
    }

    /** `applyGravityFull`: every column compacted downwards. */
    method ApplyGravityFull()
      requires Dims()
      modifies board
      ensures Grid() == SettleGrid(old(Grid()))
    {
      ghost var g0 := Grid();
      for x := 0 to COLS
        invariant forall xx | 0 <= xx < x :: Column(Grid(), xx) == Settle(Column(g0, xx))
        invariant forall xx | x <= xx < COLS :: Column(Grid(), xx) == Column(g0, xx)
      {
        SettleColumn(x);
      }
      forall y, x | 0 <= y < ROWS && 0 <= x < COLS
        ensures Grid()[y][x] == SettleGrid(g0)[y][x]
      {
        assert Grid()[y][x] == Column(Grid(), x)[y];
      }
      assert forall y | 0 <= y < ROWS :: Grid()[y] == SettleGrid(g0)[y];
    }

    /** The clearing loop of a chain step: every cell of every group emptied. */
    method ClearGroups(groups: seq<seq<Pos>>)
      requires Dims()
      requires forall i, j | 0 <= i < |groups| && 0 <= j < |groups[i]| :: InGrid(groups[i][j])
      modifies board
      ensures Grid() == Cleared(old(Grid()), groups)
    {
      ghost var g0 := Grid();
      for i := 0 to |groups|
        invariant forall y, x | 0 <= y < ROWS && 0 <= x < COLS ::
          board[y, x] == if Pos(x, y) in Cover(groups[..i]) then Empty else g0[y][x]
      {
        var grp := groups[i];
        for j := 0 to |grp|
          invariant forall y, x | 0 <= y < ROWS && 0 <= x < COLS ::
            board[y, x] == if Pos(x, y) in Cover(groups[..i]) || Pos(x, y) in grp[..j] then Empty else g0[y][x]
        {
          var cell := grp[j];
          board[cell.y, cell.x] := Empty;
          assert grp[..j + 1] == grp[..j] + [cell];
        }
        CoverSnoc(groups, i);
        assert grp[..|grp|] == grp;
      }
      assert groups[..|groups|] == groups;
      assert forall y | 0 <= y < ROWS :: Grid()[y] == Cleared(g0, groups)[y];
    }

    /** The board update of a chain step: the groups cleared, then gravity. */
    method ClearAndSettle(groups: seq<seq<Pos>>)
      requires Dims() && ValidStep(ChainStep(Grid(), groups))
      modifies board
      ensures Grid() == AfterStep(ChainStep(old(Grid()), groups))
    {
      ghost var before := Grid();
      forall i, j | 0 <= i < |groups| && 0 <= j < |groups[i]| ensures InGrid(groups[i][j]) {
        assert IsComponent(before, groups[i]);
      }
      ClearGroups(groups);
      ApplyGravityFull();
    }

    /** One step of the fill's neighbour loop: the neighbour of cur in
        direction d is marked and enqueued when it is on the board, not yet
        visited and of colour col. grp is the part of the fill already
        dequeued, cur its last cell. */
    method VisitNeighbour(visited: array2<bool>, cur: Pos, d: int, col: Cell, q: seq<Pos>,
                          ghost grp: seq<Pos>, ghost seen: set<Pos>, ghost start: Pos) returns (q': seq<Pos>)
      requires Dims() && visited.Length0 == ROWS && visited.Length1 == COLS
      requires 0 <= d < 4 && |grp| > 0 && grp[|grp| - 1] == cur
      requires ClosedSet(Grid(), seen) && Fill(Grid(), seen, grp + q, col, start)
      requires Marked(visited, seen, grp + q)
      requires ClosedUpTo(Grid(), grp + q, |grp| - 1, col)
      modifies visited
      ensures q' == if SameNeighbour(Grid(), cur, d, col) && Step(cur, d) !in grp + q && Step(cur, d) !in seen
                    then q + [Step(cur, d)] else q
      ensures Fill(Grid(), seen, grp + q', col, start)
      ensures Marked(visited, seen, grp + q')
      ensures ClosedUpTo(Grid(), grp + q', |grp| - 1, col)
      ensures forall p | p in grp + q :: p in grp + q'
      ensures SameNeighbour(Grid(), cur, d, col) ==> Step(cur, d) in grp + q'
      ensures Unvisited(visited) <= old(Unvisited(visited))
      ensures |q'| == |q| ==> Unvisited(visited) == old(Unvisited(visited))
      ensures |q'| > |q| ==> Unvisited(visited) < old(Unvisited(visited))
    {
      ghost var g := Grid();
      var nx, ny := cur.x + DX(d), cur.y + DY(d);
      ghost var before := grp + q;
      ghost var next := Step(before[|grp| - 1], d);
      assert before[|grp| - 1] == cur && next == Pos(nx, ny);
      if 0 <= nx < COLS && 0 <= ny < ROWS && !visited[ny, nx] && board[ny, nx] == col {
        ghost var u1 := Unvisited(visited);
        FillAppend(g, seen, before, col, start, |grp| - 1, |grp| - 1, d);
        visited[ny, nx] := true;
        q' := q + [Pos(nx, ny)];
        assert grp + q' == before + [next];
        assert forall p | p in before :: p in grp + q';
        assert next in grp + q';
        assert Pos(nx, ny) in u1 && Pos(nx, ny) !in Unvisited(visited);
        assert Unvisited(visited) <= u1;
      } else {
        q' := q;
        ClosedSetBack(g, seen, cur, d);
        if SameNeighbour(g, cur, d, col) {
          assert cur in before;
          assert visited[ny, nx];
          assert next !in seen;
        }
      }
    }

    /** The neighbour loop of the fill for cur, the cell just dequeued and
        appended to grp: every direction visited in turn, after which every
        same-colour neighbour of cur has been reached. */
    method VisitNeighbours(visited: array2<bool>, cur: Pos, col: Cell, q: seq<Pos>,
                           ghost grp: seq<Pos>, ghost seen: set<Pos>, ghost start: Pos) returns (q': seq<Pos>)
      requires Dims() && visited.Length0 == ROWS && visited.Length1 == COLS
      requires |grp| > 0 && grp[|grp| - 1] == cur
      requires ClosedSet(Grid(), seen) && Fill(Grid(), seen, grp + q, col, start)
      requires Marked(visited, seen, grp + q)
      requires ClosedUpTo(Grid(), grp + q, |grp| - 1, col)
      modifies visited
      ensures Fill(Grid(), seen, grp + q', col, start)
      ensures Marked(visited, seen, grp + q')
      ensures ClosedUpTo(Grid(), grp + q', |grp|, col)
      ensures |q'| >= |q| && Unvisited(visited) <= old(Unvisited(visited))
      ensures |q'| == |q| ==> Unvisited(visited) == old(Unvisited(visited))
      ensures |q'| > |q| ==> Unvisited(visited) < old(Unvisited(visited))
    {
      ghost var g := Grid();
      ghost var u0 := Unvisited(visited);
      q' := q;
      for d := 0 to 4
        invariant Grid() == g && |q'| >= |q|
        invariant Fill(g, seen, grp + q', col, start)
        invariant Marked(visited, seen, grp + q')
        invariant ClosedUpTo(g, grp + q', |grp| - 1, col)
        invariant forall k | 0 <= k < d && SameNeighbour(g, cur, k, col) :: Step(cur, k) in grp + q'
        invariant Unvisited(visited) <= u0
        invariant |q'| == |q| ==> Unvisited(visited) == u0
        invariant |q'| > |q| ==> Unvisited(visited) < u0
      {
        ghost var prev := q';
        q' := VisitNeighbour(visited, cur, d, col, q', grp, seen, start);
        forall k | 0 <= k <= d && SameNeighbour(g, cur, k, col) ensures Step(cur, k) in grp + q' {
          if k < d {
            assert Step(cur, k) in grp + prev;
          }
        }
      }
      ClosedUpToNext(g, grp + q', |grp|, col, cur);
    }

    /** The breadth-first fill of `findGroups` from (x, y): drains a queue,
        marking and enqueueing every unvisited 4-neighbour of the same
        colour. The cells visited before, `seen`, are closed under
        same-colour adjacency and do not contain (x, y). */
    method FloodFill(visited: array2<bool>, x: int, y: int, ghost seen: set<Pos>) returns (grp: seq<Pos>)
      requires Dims() && visited.Length0 == ROWS && visited.Length1 == COLS
      requires InBounds(x, y) && board[y, x].Puyo? && !visited[y, x]
      requires forall yy, xx | 0 <= yy < ROWS && 0 <= xx < COLS :: visited[yy, xx] <==> Pos(xx, yy) in seen
      requires ClosedSet(Grid(), seen)
      modifies visited
      ensures IsComponent(Grid(), grp) && grp[0] == Pos(x, y)
      ensures forall p | p in grp :: p !in seen
      ensures forall yy, xx | 0 <= yy < ROWS && 0 <= xx < COLS ::
        visited[yy, xx] <==> Pos(xx, yy) in seen || Pos(xx, yy) in grp
    {
      ghost var g := Grid();
      var start := Pos(x, y);
      var col := board[y, x];
      var q := [start];
      grp := [];
      visited[y, x] := true;
      while |q| > 0
        invariant Grid() == g
        invariant Fill(g, seen, grp + q, col, start)
        invariant forall yy, xx | 0 <= yy < ROWS && 0 <= xx < COLS ::
          visited[yy, xx] <==> Pos(xx, yy) in seen || Pos(xx, yy) in grp + q
        invariant ClosedUpTo(g, grp + q, |grp|, col)
        decreases Unvisited(visited), |q|
      {
        ghost var order := grp + q;
        var cur := q[0];
        q := q[1..];
        grp := grp + [cur];
        assert grp + q == order;
        q := VisitNeighbours(visited, cur, col, q, grp, seen, start);
      }
      assert grp + q == grp;
      FillDone(g, seen, grp, col, start);
    }

    /** `findGroups`: scans the board row by row, starts a fill at every
        puyo not yet visited, and keeps the components of at least
        MIN_GROUP cells. Nothing is changed; the result is a correct answer
        for the current board. */
    method FindGroups() returns (groups: seq<seq<Pos>>)
      requires Dims()
      ensures IsGroupList(Grid(), groups)
    {
      ghost var g := Grid();
      var visited := new bool[ROWS, COLS]((_, _) => false);
      groups := [];
      ghost var comps: seq<seq<Pos>> := [];
      ghost var seen: set<Pos> := {};
      for y := 0 to ROWS
        invariant Grid() == g
        invariant forall yy, xx | 0 <= yy < ROWS && 0 <= xx < COLS :: visited[yy, xx] <==> Pos(xx, yy) in seen
        invariant ClosedSet(g, seen) && AllComponents(g, comps) && SeenIs(seen, comps)
        invariant groups == Large(comps) && GroupsDisjoint(groups)
        invariant forall yy, xx | 0 <= yy < y && 0 <= xx < COLS && g[yy][xx].Puyo? :: Pos(xx, yy) in seen
      {
        for x := 0 to COLS
          invariant Grid() == g
          invariant forall yy, xx | 0 <= yy < ROWS && 0 <= xx < COLS :: visited[yy, xx] <==> Pos(xx, yy) in seen
          invariant ClosedSet(g, seen) && AllComponents(g, comps) && SeenIs(seen, comps)
          invariant groups == Large(comps) && GroupsDisjoint(groups)
          invariant forall yy, xx | 0 <= yy < ROWS && 0 <= xx < COLS && (yy < y || (yy == y && xx < x)) && g[yy][xx].Puyo? ::
            Pos(xx, yy) in seen
        {
          var col := board[y, x];
          if col != Empty && !visited[y, x] {
            var grp := FloodFill(visited, x, y, seen);
            ClosedUnion(g, seen, grp);
            AllComponentsAdd(g, comps, grp);
            SeenIsAdd(seen, comps, grp);
            DisjointAdd(seen, comps, grp);
            LargeAdd(comps, grp);
            comps := comps + [grp];
            seen := seen + Elems(grp);
            if |grp| >= MIN_GROUP {
              groups := groups + [grp];
            }
          }
        }
      }
      KeptSound(g, comps, groups);
      KeptComplete(g, seen, comps, groups);
    }
  
    /** One pass of the `step` closure of `startResolveChains`, taken where
        the chain `trace` from board start has led: the groups of the board
        are detected; when there are none the pass reports done and changes
        nothing; otherwise the chain depth goes up by one, the step is scored
        at that depth, its groups are cleared and gravity is applied, and the
        chain grows by that step. */
    method ResolveStep(ghost start: Grid, ghost trace: seq<ChainStep>, turnCleared: int, addScore: int)
      returns (done: bool, ghost trace': seq<ChainStep>, turnCleared': int, addScore': int)
      requires Dims() && WellFormed(start) && Links(start, trace, Grid()) && AllClear(trace)
      requires chainDisplay == |trace| && turnCleared == ChainCleared(trace) && addScore == ChainScore(trace)
      modifies this`chainDisplay, board
      ensures Links(start, trace', Grid()) && AllClear(trace') && chainDisplay == |trace'|
      ensures turnCleared' == ChainCleared(trace') && addScore' == ChainScore(trace')
      ensures done ==> trace' == trace && Grid() == old(Grid()) && IsGroupList(Grid(), [])
      ensures !done ==> |trace'| == |trace| + 1 && trace'[..|trace|] == trace && trace'[|trace|].before == old(Grid())
      ensures !done ==> turnCleared + MIN_GROUP <= turnCleared' <= |FilledSet(start)|
    {
      var groups := FindGroups();
      if |groups| == 0 {
        return true, trace, turnCleared, addScore;
      }
      done := false;
      trace', turnCleared', addScore' := ClearStep(start, trace, groups, turnCleared, addScore);
    }

    /** The clearing half of a step that found groups: the chain depth goes
        up by one, the step is scored at that depth, its groups are cleared
        and gravity is applied; the chain grows by that step. */
    method ClearStep(ghost start: Grid, ghost trace: seq<ChainStep>, groups: seq<seq<Pos>>, turnCleared: int, addScore: int)
      returns (ghost trace': seq<ChainStep>, turnCleared': int, addScore': int)
      requires Dims() && WellFormed(start) && Links(start, trace, Grid()) && AllClear(trace)
      requires ValidStep(ChainStep(Grid(), groups))
      requires chainDisplay == |trace| && turnCleared == ChainCleared(trace) && addScore == ChainScore(trace)
      modifies this`chainDisplay, board
      ensures trace' == trace + [ChainStep(old(Grid()), groups)]
      ensures Links(start, trace', Grid()) && AllClear(trace') && chainDisplay == |trace'|
      ensures turnCleared' == ChainCleared(trace') && addScore' == ChainScore(trace')
      ensures turnCleared + MIN_GROUP <= turnCleared' <= |FilledSet(start)|
    {
      ghost var step := ChainStep(Grid(), groups);
      chainDisplay := chainDisplay + 1;
      var removedCount := TotalSize(groups);
      turnCleared' := turnCleared + removedCount;
      addScore' := addScore + StepScore(removedCount, |groups|, chainDisplay);
      ClearAndSettle(groups);
      ChainExtend(start, trace, step, Grid());
      trace' := trace + [step];
    }

    /** The loop of `startResolveChains`: steps run, the chain depth
        counting up, until the detector finds no group; the chain leads from
        the board at the call to a board without a group, and the totals
        are its cleared count and score. */
    method RunChain() returns (ghost trace: seq<ChainStep>, turnCleared: int, addScore: int)
      requires Dims() && chainDisplay == 0
      modifies this`chainDisplay, board
      ensures IsChain(old(Grid()), trace, Grid()) && AllClear(trace) && chainDisplay == |trace|
      ensures addScore == ChainScore(trace) && turnCleared == ChainCleared(trace)
    {
      turnCleared, addScore := 0, 0;
      ghost var start := Grid();
      trace := [];
      var done := false;
      while !done
        invariant Links(start, trace, Grid()) && chainDisplay == |trace|
        invariant AllClear(trace) && addScore == ChainScore(trace)
        invariant turnCleared == ChainCleared(trace) <= |FilledSet(start)|
        invariant done ==> IsGroupList(Grid(), [])
        decreases !done, |FilledSet(start)| - turnCleared
      {
        done, trace, turnCleared, addScore := ResolveStep(start, trace, turnCleared, addScore);
      }
    }

    /** The branch of `startResolveChains` that ends a resolution: totals
        committed, the flags reset, and the next piece spawned unless the
        game is over. The board is not touched. */
    method FinishChain(turnCleared: int, addScore: int, next: Pair)
      requires Dims() && |nextQueue| >= 1
      modifies this
      ensures board == old(board) && Grid() == old(Grid()) && lastChain == old(lastChain)
      ensures totalCleared == old(totalCleared) + turnCleared && score == old(score) + addScore
      ensures !resolving && chainDisplay == 0 && paused == old(paused)
      ensures if old(gameOver) then
          active == old(active) && nextQueue == old(nextQueue) && gameOver
        else
          active == SpawnedPiece(old(nextQueue)[0]) && nextQueue == old(nextQueue)[1..] + [next] &&
          gameOver == !Fits(Grid(), active)
    {
      resolving := false;
      totalCleared := totalCleared + turnCleared;
      score := score + addScore;
      chainDisplay := 0;
      if !gameOver {
        SpawnPiece(next);
      }
    }

    /** `startResolveChains`: the chain runs to a board without a group, the
        accumulated score and cleared count are committed, the chain depth
        returns to 0, and the next piece spawns unless the game is over. A
        call while a resolution is under way does nothing. */
    method ResolveChains(next: Pair)
      requires Dims() && |nextQueue| >= 1
      modifies this, board
      ensures board == old(board)
      ensures old(resolving) ==> Snap() == old(Snap()) && resolving && chainDisplay == old(chainDisplay)
      ensures !old(resolving) ==> !resolving && chainDisplay == 0 && Resolved(old(Snap()), next, lastChain, Snap())
    {
      if resolving {
        return;
      }
      Resolve(next);
    }

    /** The part of `startResolveChains` past its re-entry guard. */
    method Resolve(next: Pair)
      requires Dims() && |nextQueue| >= 1
      modifies this, board
      ensures board == old(board) && !resolving && chainDisplay == 0
      ensures Resolved(old(Snap()), next, lastChain, Snap())
    {
      ghost var s0 := Snap();
      resolving := true;
      chainDisplay := 0;
      var totalTurnCleared, totalAddScore;
      lastChain, totalTurnCleared, totalAddScore := RunChain();
      ghost var g1 := Grid();
      assert IsChain(s0.grid, lastChain, g1);
      assert score == s0.score && totalCleared == s0.totalCleared && gameOver == s0.gameOver;
      assert active == s0.active && nextQueue == s0.queue && paused == s0.paused;
      FinishChain(totalTurnCleared, totalAddScore, next);
      assert Grid() == g1;
    }

    /** `lockActive`: the two cells of the active piece are written into the
        board, each one only when it is on the board, a cell off the board
        ending the game; then the chain is resolved. */
    method LockActive(next: Pair)
      requires Dims() && |nextQueue| >= 1 && !resolving && chainDisplay == 0
      modifies this, board
      ensures board == old(board) && !resolving && chainDisplay == 0
      ensures LockedInto(old(Snap()), next, lastChain, Snap())
    {
      ghost var s0 := Snap();
      var cells := ActiveCells(active);
      for i := 0 to |cells|
        invariant board == old(board) && Grid() == PaintAll(s0.grid, cells[..i])
        invariant gameOver == (s0.gameOver || !AllInBounds(cells[..i]))
        invariant active == s0.active && nextQueue == s0.queue && score == s0.score
        invariant totalCleared == s0.totalCleared && paused == s0.paused
        invariant !resolving && chainDisplay == 0
      {
        var c := cells[i];
        assert cells[..i + 1][..i] == cells[..i] && cells[..i + 1][i] == c;
        if InBounds(c.x, c.y) {
          Put(c.x, c.y, Puyo(c.color));
        } else {
          gameOver := true;
        }
      }
      assert cells[..|cells|] == cells;
      assert Snap() == Lock(s0);
      ResolveChains(next);
    }

    /** `moveActive(dx, dy)`: the piece moves when it fits at the target; a
        blocked move one row down locks it; any other blocked move is
        ignored. */
    method MoveActive(dx: int, dy: int, next: Pair)
      requires Valid()
      modifies this, board
      ensures board == old(board) && Valid()
      ensures MoveSpec(old(Snap()), dx, dy, next, lastChain, Snap())
    {
      ghost var s0 := Snap();
      if CanMoveActive(dx, dy, None) {
        active := active.(x := active.x + dx, y := active.y + dy);
      } else if dy == 1 {
        LockActive(next);
        LockKeepsConsistent(s0, next, lastChain, Snap());
      }
    }

    /** `softDrop`: one row down when the piece fits there, otherwise it
        locks. */
    method SoftDrop(next: Pair)
      requires Valid()
      modifies this, board
      ensures board == old(board) && Valid()
      ensures MoveSpec(old(Snap()), 0, 1, next, lastChain, Snap())
    {
      ghost var s0 := Snap();
      if CanMoveActive(0, 1, None) {
        active := active.(y := active.y + 1);
      } else {
        LockActive(next);
        LockKeepsConsistent(s0, next, lastChain, Snap());
      }
    }

    /** The loop of `hardDrop`: the piece moves down while the row below
        fits; it ends on its landing row. */
    method FallToLanding()
      requires Dims()
      modifies this`active
      ensures active == Landing(Grid(), old(active))
    {
      while CanMoveActive(0, 1, None)
        invariant active == old(active).(y := active.y) && active.y >= old(active).y
        invariant forall k | old(active).y < k <= active.y :: Fits(Grid(), old(active).(y := k))
        decreases ROWS - active.y
      {
        active := active.(y := active.y + 1);
      }
      LandingUnique(Grid(), old(active), active.y);
    }

    /** `hardDrop`: the piece falls while the row below fits, then locks. */
    method HardDrop(next: Pair)
      requires Valid()
      modifies this, board
      ensures board == old(board) && Valid()
      ensures HardDropSpec(old(Snap()), next, lastChain, Snap())
    {
      ghost var s0 := Snap();
      FallToLanding();
      ghost var s1 := Snap();
      assert s1 == s0.(active := Landing(s0.grid, s0.active));
      LockActive(next);
      LockKeepsConsistent(s1, next, lastChain, Snap());
    }

    /** The key handler: P toggles the pause at any time; every other key is
        ignored while the game is over, a chain is resolving or the game is
        paused, and otherwise runs its command. */
    method KeyDown(cmd: Command, next: Pair)
      requires Valid()
      modifies this, board
      ensures board == old(board) && Valid()
      ensures CommandSpec(cmd, old(Snap()), next, lastChain, Snap())
    {
      if cmd == Pause {
        TogglePause();
        return;
      }
      if gameOver || resolving || paused {
        return;
      }
      match cmd
      case Left => MoveActive(-1, 0, next);
      case Right => MoveActive(1, 0, next);
      case SoftDrop => SoftDrop(next);
      case HardDrop => HardDrop(next);
      case InstantDrop => HardDrop(next);
      case RotateLeft => RotateActive(-1);
      case RotateRight => RotateActive(1);
    }

    /** `init` (also the restart button): a fresh empty board, the counters
        and flags reset, the look-ahead queue filled with the given pairs,
        and the first piece spawned from it with `next` appended. */
    method Init(queue: seq<Pair>, next: Pair)
      requires |queue| == QUEUE_LEN
      modifies this
      ensures fresh(board) && Valid()
      ensures Grid() == EmptyGrid()
      ensures score == 0 && totalCleared == 0 && !gameOver && !paused
      ensures active == SpawnedPiece(queue[0]) && nextQueue == queue[1..] + [next]
    {
      board := CreateBoard();
      score, chainDisplay, totalCleared := 0, 0, 0;
      nextQueue := queue;
      resolving := false;
      gameOver := false;
      paused := false;
      SpawnPiece(next);
      FreshConsistent(queue, next);
      assert Snap() == State(EmptyGrid(), SpawnedPiece(queue[0]), queue[1..] + [next], 0, 0, false, false);
    }

    /** A new game, set up by `init`. */
    constructor (queue: seq<Pair>, next: Pair)
      requires |queue| == QUEUE_LEN
      ensures Valid() && Grid() == EmptyGrid()
      ensures score == 0 && totalCleared == 0 && !gameOver && !paused
      ensures active == SpawnedPiece(queue[0]) && nextQueue == queue[1..] + [next]
    {
      board := new Cell[ROWS, COLS]((_, _) => Empty);
      new;
      Init(queue, next);
    }
  }
}
