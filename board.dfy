/** The playing field of the puyo puzzle engine: its fixed dimensions, the
    colours a cell can hold, grid positions and their four neighbours. */
module Board {

  /** Number of columns. */
  const COLS: int := 6
  /** Rows shown on screen. */
  const VISIBLE_ROWS: int := 12
  /** Buffer rows above the visible area, used for spawning and top-out. */
  const HIDDEN_ROWS: int := 1
  /** All rows of the board; row 0 is the top (hidden) row. */
  const ROWS: int := VISIBLE_ROWS + HIDDEN_ROWS

  /** The five colours of the palette (the keys R, G, B, Y, P). */
  datatype Color = R | G | B | Y | P

  /** A board cell: empty (`null` in the game) or a resting puyo of one colour. */
  datatype Cell = Empty | Puyo(color: Color)

  /** A cell coordinate: column x, row y. */
  datatype Pos = Pos(x: int, y: int)

  /** The board as a value: ROWS rows of COLS cells, indexed g[y][x]. */
  type Grid = seq<seq<Cell>>

  predicate WellFormed(g: Grid) {
    |g| == ROWS && forall y | 0 <= y < ROWS :: |g[y]| == COLS
  }

  /** A coordinate lies on the board (hidden row included). */
  predicate InBounds(x: int, y: int) {
    0 <= x < COLS && 0 <= y < ROWS
  }

  /** The bounds test guards exactly the cells a board can be indexed at. */
  lemma InBoundsIndexes(g: Grid, x: int, y: int)
    requires WellFormed(g)
    ensures InBounds(x, y) <==> 0 <= y < |g| && 0 <= x < |g[y]|
  {
  }

  predicate InGrid(p: Pos) {
    InBounds(p.x, p.y)
  }

  function At(g: Grid, p: Pos): Cell
    requires WellFormed(g) && InGrid(p)
  {
    g[p.y][p.x]
  }

  /** A freshly created board: every cell empty. */
  function EmptyGrid(): (g: Grid)
    ensures WellFormed(g)
    ensures forall y, x | 0 <= y < ROWS && 0 <= x < COLS :: g[y][x] == Empty
  {
    seq(ROWS, _ => seq(COLS, _ => Empty))
  }

  /** The four directions in the order the match detector tries them:
      right, left, down, up. */
  function DX(k: int): int {
    if k == 0 then 1 else if k == 1 then -1 else 0
  }
  function DY(k: int): int {
    if k == 2 then 1 else if k == 3 then -1 else 0
  }

  /** The neighbour of p in direction k. */
  function Step(p: Pos, k: int): Pos {
    Pos(p.x + DX(k), p.y + DY(k))
  }

  /** The direction opposite to k. */
  function Opposite(k: int): (o: int)
    requires 0 <= k < 4
    ensures 0 <= o < 4
  {
    if k == 0 then 1 else if k == 1 then 0 else if k == 2 then 3 else 2
  }

  /** Stepping in a direction and then in the opposite one returns to the
      start: 4-adjacency is symmetric. */
  lemma StepBack(p: Pos, k: int)
    requires 0 <= k < 4
    ensures Step(Step(p, k), Opposite(k)) == p
    ensures Step(p, k) != p
  {
  }
}
