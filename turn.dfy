/** The game state as a value and what each player command does to it: the
    specification that the methods of the Game class are proved against,
    and the properties a turn keeps. */
module Turn {
  import opened Board
  import opened Piece
  import opened Gravity
  import opened Groups
  import opened Scoring
  import opened Chain

  /** The state the commands act on: board, active piece, look-ahead queue,
      score, cleared-puyo counter and the game-over and pause flags. */
  datatype State = State(grid: Grid, active: Piece, queue: seq<Pair>, score: int,
                         totalCleared: int, gameOver: bool, paused: bool)

  /** The state a running game keeps between commands: a full queue, counters
      that never went down, ten points at least per cleared puyo, and a
      piece that fits whenever the game is not over. */
  ghost predicate Consistent(s: State) {
    WellFormed(s.grid) && |s.queue| == QUEUE_LEN &&
    0 <= s.totalCleared && 10 * s.totalCleared <= s.score &&
    (!s.gameOver ==> Fits(s.grid, s.active))
  }

  /** The state after chain resolution from state s: the chain (trace lists
      its steps) runs to a board without a group, the accumulated score and
      cleared count are committed, and, unless the game is over, the next
      piece spawns from the queue front with `next` appended. */
  ghost predicate Resolved(s: State, next: Pair, trace: seq<ChainStep>, t: State)
    requires WellFormed(s.grid) && |s.queue| >= 1
  {
    WellFormed(t.grid) && IsChain(s.grid, trace, t.grid) && AllClear(trace) &&
    t.score == s.score + ChainScore(trace) &&
    t.totalCleared == s.totalCleared + ChainCleared(trace) &&
    t.paused == s.paused &&
    if s.gameOver then
      t.active == s.active && t.queue == s.queue && t.gameOver
    else
      t.active == SpawnedPiece(s.queue[0]) && t.queue == s.queue[1..] + [next] &&
      t.gameOver == !Fits(t.grid, t.active)
  }

  /** The state right after the two cells of the active piece are written:
      a cell off the board is skipped and ends the game. */
  function Lock(s: State): (t: State)
    requires WellFormed(s.grid)
    ensures WellFormed(t.grid) && t.queue == s.queue && t.active == s.active
    ensures t.gameOver <==> s.gameOver || !CellsInBounds(s.active)
    ensures t.grid == LockGrid(s.grid, s.active)
    ensures t.score == s.score && t.totalCleared == s.totalCleared && t.paused == s.paused
  {
    s.(grid := LockGrid(s.grid, s.active), gameOver := s.gameOver || !CellsInBounds(s.active))
  }

  /** The state after the active piece locks: written into the board, then
      the chain resolved. */
  ghost predicate LockedInto(s: State, next: Pair, trace: seq<ChainStep>, t: State)
    requires WellFormed(s.grid) && |s.queue| >= 1
  {
    Resolved(Lock(s), next, trace, t)
  }

  /** `moveActive(dx, dy)`: the piece moves if the target fits; a blocked
      downward move locks it; any other blocked move does nothing. */
  ghost predicate MoveSpec(s: State, dx: int, dy: int, next: Pair, trace: seq<ChainStep>, t: State)
    requires WellFormed(s.grid) && |s.queue| >= 1
  {
    var m := Moved(s.active, dx, dy, s.active.dir);
    if Fits(s.grid, m) then t == s.(active := m)
    else if dy == 1 then LockedInto(s, next, trace, t)
    else t == s
  }

  /** `hardDrop`: the piece falls to its landing row and locks there. */
  ghost predicate HardDropSpec(s: State, next: Pair, trace: seq<ChainStep>, t: State)
    requires WellFormed(s.grid) && |s.queue| >= 1
  {
    LockedInto(s.(active := Landing(s.grid, s.active)), next, trace, t)
  }

  /** `rotateActive(d)`: the piece turns to (dir + d + 4) % 4 with the first
      kick that fits; when none fits nothing changes. */
  ghost predicate RotateSpec(s: State, d: int, t: State)
    requires WellFormed(s.grid)
  {
    var nd := RotatedDir(s.active.dir, d);
    match FirstKick(s.grid, s.active, nd, 0)
    case Some(i) => t == s.(active := Kicked(s.active, i, nd))
    case None => t == s
  }

  /** `togglePause`: flips the pause flag unless the game is over. */
  ghost predicate PauseSpec(s: State, t: State) {
    t == if s.gameOver then s else s.(paused := !s.paused)
  }

  /** The keys the game reacts to: arrows left, right and down, Space, Z or
      ArrowUp, X or either Shift, C, and P. */
  datatype Command = Left | Right | SoftDrop | HardDrop | RotateLeft | RotateRight | InstantDrop | Pause

  /** A key press: P is always handled; every other key is ignored while the
      game is over or paused, and otherwise runs its command. */
  ghost predicate CommandSpec(cmd: Command, s: State, next: Pair, trace: seq<ChainStep>, t: State)
    requires WellFormed(s.grid) && |s.queue| >= 1
  {
    if cmd == Pause then PauseSpec(s, t)
    else if s.gameOver || s.paused then t == s
    else match cmd
      case Left => MoveSpec(s, -1, 0, next, trace, t)
      case Right => MoveSpec(s, 1, 0, next, trace, t)
      case SoftDrop => MoveSpec(s, 0, 1, next, trace, t)
      case HardDrop => HardDropSpec(s, next, trace, t)
      case InstantDrop => HardDropSpec(s, next, trace, t)
      case RotateLeft => RotateSpec(s, -1, t)
      case RotateRight => RotateSpec(s, 1, t)
  }

  /** A lock keeps the state consistent. */
  lemma LockKeepsConsistent(s: State, next: Pair, trace: seq<ChainStep>, t: State)
    requires Consistent(s) && LockedInto(s, next, trace, t)
    ensures Consistent(t)
  {
    ChainScoreAtLeast(trace);
  }

  /** A rotation keeps the state consistent: a piece that turns fits. */
  lemma RotateKeepsConsistent(s: State, d: int, t: State)
    requires Consistent(s) && RotateSpec(s, d, t)
    ensures Consistent(t)
  {
  }

  /** A new game is consistent: an empty board, zero counters, a full
      queue, and a spawned piece that fits. */
  lemma FreshConsistent(queue: seq<Pair>, next: Pair)
    requires |queue| == QUEUE_LEN
    ensures Consistent(State(EmptyGrid(), SpawnedPiece(queue[0]), queue[1..] + [next], 0, 0, false, false))
  {
  }

  /** Every command keeps the state consistent. */
  lemma CommandKeepsConsistent(cmd: Command, s: State, next: Pair, trace: seq<ChainStep>, t: State)
    requires Consistent(s) && CommandSpec(cmd, s, next, trace, t)
    ensures Consistent(t)
  {
    if cmd != Pause && !s.gameOver && !s.paused {
      match cmd
      case Left =>
      case Right =>
      case SoftDrop =>
        if !Fits(s.grid, Moved(s.active, 0, 1, s.active.dir)) {
          LockKeepsConsistent(s, next, trace, t);
        }
      case HardDrop =>
        LockKeepsConsistent(s.(active := Landing(s.grid, s.active)), next, trace, t);
      case InstantDrop =>
        LockKeepsConsistent(s.(active := Landing(s.grid, s.active)), next, trace, t);
      case RotateLeft =>
      case RotateRight =>
    }
  }

  /** What a lock does to the counters: the score and the cleared count only
      grow; the count grows by exactly the puyos the chain removed from the
      board, at least MIN_GROUP per chain step, and the score by at least ten
      per removed puyo. */
  lemma LockAccounts(s: State, next: Pair, trace: seq<ChainStep>, t: State)
    requires WellFormed(s.grid) && |s.queue| >= 1 && LockedInto(s, next, trace, t)
    ensures t.totalCleared - s.totalCleared ==
      |FilledSet(LockGrid(s.grid, s.active))| - |FilledSet(t.grid)|
    ensures t.totalCleared - s.totalCleared >= MIN_GROUP * |trace|
    ensures t.score - s.score >= 10 * (t.totalCleared - s.totalCleared) >= 0
  {
    ChainCounts(LockGrid(s.grid, s.active), trace, t.grid);
    ChainScoreAtLeast(trace);
  }

  /** A lock that forms no group scores nothing and leaves the two cells
      written and every other cell as it was; in particular no gravity is
      applied, so a half-supported horizontal pair stays where it locked. */
  lemma QuietLock(s: State, next: Pair, trace: seq<ChainStep>, t: State)
    requires WellFormed(s.grid) && |s.queue| >= 1 && LockedInto(s, next, trace, t)
    requires IsGroupList(LockGrid(s.grid, s.active), [])
    ensures trace == [] && t.grid == LockGrid(s.grid, s.active)
    ensures t.score == s.score && t.totalCleared == s.totalCleared
  {
    QuietBoard(LockGrid(s.grid, s.active), trace, t.grid);
  }

  /** A hard drop from the spawn point on an empty board: the pair falls
      upright to the bottom row, locks there, forms no group, scores
      nothing, and the next piece spawns. */
  lemma HardDropOnEmptyBoard(s: State, next: Pair, trace: seq<ChainStep>, t: State)
    requires s.grid == EmptyGrid() && |s.queue| >= 1 && !s.gameOver
    requires s.active == SpawnedPiece(Pair(s.active.a, s.active.b))
    requires HardDropSpec(s, next, trace, t)
    ensures Landing(s.grid, s.active) == s.active.(y := ROWS - 1)
    ensures trace == [] && t.score == s.score && t.totalCleared == s.totalCleared
    ensures forall y, x | 0 <= y < ROWS && 0 <= x < COLS ::
      t.grid[y][x] == (if x == SPAWN_X && y == ROWS - 1 then Puyo(s.active.a)
                       else if x == SPAWN_X && y == ROWS - 2 then Puyo(s.active.b)
                       else Empty)
    ensures t.active == SpawnedPiece(s.queue[0]) && t.queue == s.queue[1..] + [next] && !t.gameOver
  {
    var p := s.active;
    LandingUnique(s.grid, p, ROWS - 1);
    var l := p.(y := ROWS - 1);
    var h := LockGrid(s.grid, l);
    assert FilledSet(h) <= {Pos(SPAWN_X, ROWS - 1), Pos(SPAWN_X, ROWS - 2)};
    CardAtMostTwo(FilledSet(h), Pos(SPAWN_X, ROWS - 1), Pos(SPAWN_X, ROWS - 2));
    FewPuyosNoGroup(h);
    QuietLock(s.(active := l), next, trace, t);
  }

  lemma CardAtMostTwo(a: set<Pos>, p: Pos, q: Pos)
    requires a <= {p, q}
    ensures |a| <= 2
  {
    var b := {p, q};
    assert |b| <= 2;
    SubsetCard(a, b);
  }

  /** The outcome of a lock does not depend on the order in which the match
      detector lists the groups: the final board, the number of chain steps,
      the cleared count, the score, the queue, the piece and the game-over
      flag are determined by the state before the lock. */
  lemma LockDeterministic(s: State, next: Pair, t1: seq<ChainStep>, u1: State, t2: seq<ChainStep>, u2: State)
    requires WellFormed(s.grid) && |s.queue| >= 1
    requires LockedInto(s, next, t1, u1) && LockedInto(s, next, t2, u2)
    ensures |t1| == |t2| && u1.grid == u2.grid && u1.totalCleared == u2.totalCleared
    ensures u1.score == u2.score
    ensures u1.active == u2.active && u1.queue == u2.queue && u1.gameOver == u2.gameOver
  {
    ChainDeterministic(LockGrid(s.grid, s.active), t1, u1.grid, t2, u2.grid);
  }
}
