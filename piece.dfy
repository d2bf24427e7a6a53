/** The falling two-cell piece: the cells it occupies, whether it fits on a
    board, the rotation kick search, where it lands, where it spawns and how
    it is written into the board when it locks. */
module Piece {
  import opened Board

  datatype Option<T> = None | Some(value: T)

  /** The two colours of a queued piece. */
  datatype Pair = Pair(a: Color, b: Color)

  /** The active piece: anchor (x, y), orientation dir, anchor colour a and
      satellite colour b. */
  datatype Piece = Piece(x: int, y: int, dir: int, a: Color, b: Color)

  /** An absolute cell of a piece with its colour. */
  datatype Placed = Placed(x: int, y: int, color: Color)

  /** Number of pieces kept in the look-ahead queue. */
  const QUEUE_LEN: int := 6

  /** The satellite's column and row: above, right of, below or left of the
      anchor for dir 0, 1, 2, 3; on the anchor for any other value. */
  function SatelliteX(p: Piece): int {
    if p.dir == 1 then p.x + 1 else if p.dir == 3 then p.x - 1 else p.x
  }
  function SatelliteY(p: Piece): int {
    if p.dir == 0 then p.y - 1 else if p.dir == 2 then p.y + 1 else p.y
  }

  /** The two cells of the piece: part A at the anchor, then part B. */
  function ActiveCells(p: Piece): (cells: seq<Placed>)
    ensures |cells| == 2
    ensures cells[0] == Placed(p.x, p.y, p.a) && cells[1].color == p.b
    ensures p.dir == 0 ==> cells[1].x == p.x && cells[1].y == p.y - 1
    ensures p.dir == 1 ==> cells[1].x == p.x + 1 && cells[1].y == p.y
    ensures p.dir == 2 ==> cells[1].x == p.x && cells[1].y == p.y + 1
    ensures p.dir == 3 ==> cells[1].x == p.x - 1 && cells[1].y == p.y
    ensures 0 <= p.dir < 4 <==> (cells[1].x - p.x) * (cells[1].x - p.x) + (cells[1].y - p.y) * (cells[1].y - p.y) == 1
    ensures !(0 <= p.dir < 4) ==> cells[1].x == p.x && cells[1].y == p.y
  {
    [Placed(p.x, p.y, p.a), Placed(SatelliteX(p), SatelliteY(p), p.b)]
  }

  /** Turning the orientation one step clockwise (dir + 1 modulo 4) turns the
      satellite's offset from the anchor a quarter turn clockwise on screen,
      where y grows downwards: (dx, dy) becomes (-dy, dx). */
  lemma SatelliteTurnsClockwise(p: Piece)
    requires 0 <= p.dir < 4
    ensures var q := p.(dir := (p.dir + 1) % 4);
      SatelliteX(q) - q.x == -(SatelliteY(p) - p.y) &&
      SatelliteY(q) - q.y == SatelliteX(p) - p.x
  {
  }

  /** The cell (x, y) is on the board and holds no puyo. */
  predicate Free(g: Grid, x: int, y: int)
    requires WellFormed(g)
  {
    InBounds(x, y) && g[y][x] == Empty
  }

  /** Both cells of the piece are on the board and empty. */
  predicate Fits(g: Grid, p: Piece)
    requires WellFormed(g)
  {
    var cs := ActiveCells(p);
    Free(g, cs[0].x, cs[0].y) && Free(g, cs[1].x, cs[1].y)
  }

  /** Both cells of the piece are on the board. */
  predicate CellsInBounds(p: Piece) {
    var cs := ActiveCells(p);
    InBounds(cs[0].x, cs[0].y) && InBounds(cs[1].x, cs[1].y)
  }

  /** The piece translated by (dx, dy) and turned to orientation dir. */
  function Moved(p: Piece, dx: int, dy: int, dir: int): Piece {
    p.(x := p.x + dx, y := p.y + dy, dir := dir)
  }

  /** The piece one row lower. */
  function Down(p: Piece): Piece {
    p.(y := p.y + 1)
  }

  /** The remainder of JavaScript's `%` operator, whose sign follows the
      dividend (unlike Dafny's Euclidean `%`). */
  function JsRem(a: int, n: int): (r: int)
    requires n > 0
    ensures a >= 0 ==> 0 <= r < n
    ensures a < 0 ==> -n < r <= 0
    ensures a == (if a >= 0 then a / n else -((-a) / n)) * n + r
  {
    if a >= 0 then a % n else -((-a) % n)
  }

  /** The orientation after a rotation request d (+1 clockwise, -1
      counter-clockwise), computed as (dir + d + 4) % 4. Whenever the
      dividend is not negative this is the cyclic rotation modulo 4. */
  function RotatedDir(dir: int, d: int): (r: int)
    ensures dir + d + 4 >= 0 ==> 0 <= r < 4 && r == (dir + d) % 4
  {
    JsRem(dir + d + 4, 4)
  }

  /** The two rotations undo each other, and a rotation keeps a valid
      orientation valid. */
  lemma RotationsInverse(dir: int)
    requires 0 <= dir < 4
    ensures 0 <= RotatedDir(dir, 1) < 4 && 0 <= RotatedDir(dir, -1) < 4
    ensures RotatedDir(RotatedDir(dir, 1), -1) == dir
    ensures RotatedDir(RotatedDir(dir, -1), 1) == dir
  {
    if dir == 0 {
      assert RotatedDir(0, 1) == 1 && RotatedDir(0, -1) == 3;
    } else if dir == 1 {
      assert RotatedDir(1, 1) == 2 && RotatedDir(1, -1) == 0;
    } else if dir == 2 {
      assert RotatedDir(2, 1) == 3 && RotatedDir(2, -1) == 1;
    } else {
      assert RotatedDir(3, 1) == 0 && RotatedDir(3, -1) == 2;
    }
  }

  /** The wall-kick offsets tried, in order, when a rotation is requested:
      none, left 1, right 1, up 1, left 2, right 2. */
  const KICKS: seq<(int, int)> := [(0, 0), (-1, 0), (1, 0), (0, -1), (-2, 0), (2, 0)]

  /** The piece moved by kick i and turned to orientation dir. */
  function Kicked(p: Piece, i: int, dir: int): Piece
    requires 0 <= i < |KICKS|
  {
    Moved(p, KICKS[i].0, KICKS[i].1, dir)
  }

  /** The first kick, from index i on, that lets the piece fit in orientation
      dir; None when no remaining kick fits. */
  function FirstKick(g: Grid, p: Piece, dir: int, i: nat): (r: Option<nat>)
    requires WellFormed(g) && i <= |KICKS|
    decreases |KICKS| - i
    ensures r.Some? ==> i <= r.value < |KICKS| && Fits(g, Kicked(p, r.value, dir))
    ensures r.Some? ==> forall j | i <= j < r.value :: !Fits(g, Kicked(p, j, dir))
    ensures r.None? ==> forall j | i <= j < |KICKS| :: !Fits(g, Kicked(p, j, dir))
  {
    if i == |KICKS| then None
    else if Fits(g, Kicked(p, i, dir)) then Some(i)
    else FirstKick(g, p, dir, i + 1)
  }

  /** Where the piece comes to rest when it falls straight down: the result
      differs only in its row, every row passed on the way is free, and the
      row below the result is not. */
  function Landing(g: Grid, p: Piece): (l: Piece)
    requires WellFormed(g)
    decreases ROWS - p.y
    ensures l == p.(y := l.y) && l.y >= p.y
    ensures !Fits(g, Down(l))
    ensures forall k | p.y < k <= l.y :: Fits(g, p.(y := k))
    ensures Fits(g, p) ==> Fits(g, l)
  {
    if Fits(g, Down(p)) then Landing(g, Down(p)) else p
  }

  /** The landing row is the only row that is reachable by free rows and has
      no free row below it. */
  lemma LandingUnique(g: Grid, p: Piece, k: int)
    requires WellFormed(g) && k >= p.y
    requires forall j | p.y < j <= k :: Fits(g, p.(y := j))
    requires !Fits(g, p.(y := k + 1))
    ensures Landing(g, p) == p.(y := k)
  {
  }

  /** The spawn column: the middle of the board, rounded down, minus one. */
  const SPAWN_X: int := COLS / 2 - 1
  /** The spawn row: the first row below the hidden buffer. */
  const SPAWN_Y: int := HIDDEN_ROWS

  /** A queued pair placed at the spawn point, standing upright (dir 0). */
  function SpawnedPiece(pr: Pair): (p: Piece)
    ensures p.x == SPAWN_X && p.y == SPAWN_Y
    ensures p.dir == 0 && p.a == pr.a && p.b == pr.b
    ensures CellsInBounds(p)
    ensures forall g: Grid | WellFormed(g) ::
      Fits(g, p) <==> g[SPAWN_Y][SPAWN_X] == Empty && g[SPAWN_Y - 1][SPAWN_X] == Empty
  {
    Piece(SPAWN_X, SPAWN_Y, 0, pr.a, pr.b)
  }

  /** The board with the placed cell written into it when it is on the board. */
  function Paint(g: Grid, c: Placed): (h: Grid)
    requires WellFormed(g)
    ensures WellFormed(h)
  {
    if InBounds(c.x, c.y) then g[c.y := g[c.y][c.x := Puyo(c.color)]] else g
  }

  /** The board with the placed cells written into it in order, each one
      only when it is on the board. */
  function PaintAll(g: Grid, cs: seq<Placed>): (h: Grid)
    requires WellFormed(g)
    ensures WellFormed(h)
  {
    if cs == [] then g else Paint(PaintAll(g, cs[..|cs| - 1]), cs[|cs| - 1])
  }

  /** Every placed cell is on the board. */
  predicate AllInBounds(cs: seq<Placed>) {
    forall i | 0 <= i < |cs| :: InBounds(cs[i].x, cs[i].y)
  }

  /** The board after the piece locks: part A, then part B, written where on
      the board; every other cell keeps its content. */
  function LockGrid(g: Grid, p: Piece): (h: Grid)
    requires WellFormed(g)
    ensures WellFormed(h)
    ensures forall y, x | 0 <= y < ROWS && 0 <= x < COLS ::
      h[y][x] == (if x == SatelliteX(p) && y == SatelliteY(p) then Puyo(p.b)
                  else if x == p.x && y == p.y then Puyo(p.a)
                  else g[y][x])
  {
    var cs := ActiveCells(p);
    var first := cs[..1];
    assert first[..0] == [] && first[0] == cs[0] && cs[..|cs| - 1] == first;
    assert PaintAll(g, first) == Paint(PaintAll(g, []), cs[0]);
    assert PaintAll(g, cs) == Paint(PaintAll(g, first), cs[1]);
    PaintAll(g, cs)
  }
}
