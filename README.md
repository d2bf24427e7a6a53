# Puyo puzzle engine — a verified Dafny model

This project models the simulation engine of a two-cell falling-piece
("puyo") game played on a 6 × 13 board: 12 visible rows under one hidden
spawn row. A pair of coloured puyos falls from the spawn point. The player
moves it, rotates it with wall kicks, soft-drops or hard-drops it, and it
locks into the board. Locking starts a chain: every 4-connected
same-coloured group of at least four puyos is cleared, gravity compacts the
columns, and detection repeats until no group is left. Each step scores
`floor(removed · 10 · 1.5^(d−1) · (1 + 0.3·(groups − 1)))` at chain depth
`d`. The score and the cleared count are committed when the chain ends, and
the next pair spawns from a six-deep look-ahead queue.

Layout, one module per component:

- `board.dfy` (`Board`): the dimensions, colours, cells, positions and
  4-neighbours.
- `piece.dfy` (`Piece`): the active piece, its two cells, the fit test, the
  kick search, the landing row, the spawn placement and the board after a
  lock.
- `gravity.dfy` (`Gravity`): column compaction as a function, and puyo
  counting.
- `groups.dfy` (`Groups`): connected components, what a correct
  `findGroups` answer is, and clearing.
- `scoring.dfy` (`Scoring`): the exact step score.
- `chain.dfy` (`Chain`): a chain as a trace of steps, with its score and
  cleared count.
- `turn.dfy` (`Turn`): the game state as a value and what each command does
  to it. This is the specification the class is proved against.
- `game.dfy` (`Game`): the class `Game`. It holds the board as an
  `array2<Cell>` and the piece, queue, counters and flags as fields. Its
  methods do what the source's functions do, step by step, with loop
  invariants.

The score is computed exactly. `StepScore` is
`removed · (7 + 3g) · 3^(d−1) div 2^(d−1)`, and its contract proves that this
is the floor of the real-valued formula. Chain resolution runs as one
synchronous loop. The random pair the source draws after each spawn is a
method parameter (`next`), and the initial queue is a parameter of `Init`.

Two behaviours of the code are worth knowing, and the model keeps both:

- A lock whose two cells form no group applies no gravity. A horizontal pair
  locked with one half over a gap therefore stays with that half floating
  (`Turn.QuietLock`). Columns are compacted only after a step that cleared
  something (`Gravity.SettleGridProps`).
- When a spawn fails, `active` has already been replaced by the new piece
  before `gameOver` is set. The board is left untouched.

## Model

| member | source | states |
|---|---|---|
| Game.CreateBoard | script.js:40 | a fresh ROWS × COLS board array whose every cell is empty |
| Board.StepBack | script.js:193-195 | 4-adjacency is symmetric: stepping in a direction and back returns to the cell, and a step always changes the cell |
| Piece.ActiveCells | script.js:82-89 | exactly two cells; A is the anchor with colour a; B has colour b and lies above, right of, below or left of the anchor for dir 0, 1, 2, 3, at distance one exactly when dir is 0–3, and on the anchor for any other dir |
| Piece.SatelliteTurnsClockwise | script.js:82-89 | raising dir by one turns B's offset from the anchor a quarter turn clockwise on screen |
| Piece.JsRem | script.js:256 | JavaScript's `%`: the remainder has the dividend's sign and satisfies the truncated-division identity |
| Piece.RotatedDir | script.js:256 | `(dir + d + 4) % 4`, evaluated with JavaScript's `%`, is the cyclic rotation (dir + d) mod 4 whenever the dividend is not negative, so it lies in 0–3 |
| Piece.RotationsInverse | script.js:255-256 | `(dir + d + 4) % 4` keeps a valid orientation valid, and rotating by +1 and then −1 (or −1 then +1) gives back the orientation |
| Piece.FirstKick | script.js:257-262 | the kick chosen is the first in the fixed order (0,0), (−1,0), (1,0), (0,−1), (−2,0), (2,0) with which the turned piece fits; every earlier kick fails; None means that no kick fits |
| Piece.Landing | script.js:294-296 | the landing piece differs from the start only in a row that is not higher; every row passed fits; the row below does not fit; a piece that fits lands where it fits |
| Piece.LandingUnique | script.js:253 | the landing row is the only row reachable through fitting rows with a non-fitting row below it |
| Piece.SpawnedPiece | script.js:68 | the pair is placed upright (dir 0) at SPAWN_X = COLS/2 − 1 and SPAWN_Y = HIDDEN_ROWS with its queued colours, both of its cells are on the board, and it fits exactly when those two cells are empty |
| Piece.LockGrid | script.js:103-111 | after a lock, B's cell holds colour b, A's cell holds colour a, and every other cell keeps its content; off-board cells are skipped |
| Scoring.StepScore | script.js:136-141 | the step score is the floor of removed · 10 · (3/2)^(d−1) · (10 + 3(g−1))/10, stated as two integer inequalities |
| Scoring.OneGroupOfFour | script.js:139-141 | one group of four at depth 1 scores 40 |
| Scoring.TwoGroupsAtOnce | script.js:139-141 | groups of four and five cleared together at depth 1 score 117 |
| Scoring.SecondStepOfFour | script.js:139-141 | one group of four at depth 2 scores 60 |
| Scoring.StepScoreAtLeast | script.js:139-141 | every step scores at least ten points per removed puyo |
| Scoring.DeeperScoresMore | script.js:139 | the same clear scores at least as much one chain step deeper |
| Gravity.SettleProps | script.js:210-223 | a compacted column has no empty cell below a puyo and keeps the column's colours in their top-to-bottom order |
| Gravity.SettledIsFixed | script.js:210-223 | compacting a column that is already settled leaves it unchanged |
| Gravity.SettleUnique | script.js:210-223 | the compacted column is the only settled column of the same height with the same colours in the same order |
| Gravity.SettleIdempotent | script.js:210-223 | compacting a column twice gives the same column as compacting it once |
| Gravity.StonesMove | script.js:214-219 | moving the nearest puyo above down into an empty cell, across empty cells only, keeps the column's colour sequence |
| Gravity.SettleGridProps | script.js:210-223 | after gravity, no column has an empty cell below a puyo, and each column keeps its colour sequence |
| Gravity.SettleGridIdempotent | script.js:210-223 | applying gravity twice to a board is the same as applying it once |
| Gravity.SettleGridKeepsCount | script.js:210-223 | gravity neither creates nor destroys puyos |
| Gravity.CountIsFilled | script.js:210-223 | counting puyos column by column gives the number of occupied positions |
| Groups.ComponentsMeet | script.js:180-207 | two components that share a cell have the same cells, so components do not depend on where the flood fill starts |
| Groups.DistinctCard | script.js:136 | a cell list without repetition has as many cells as its set |
| Groups.ComponentBounded | script.js:180-207 | a component has no more cells than the board has puyos |
| Groups.FewPuyosNoGroup | script.js:203 | a board with fewer than four puyos has no group: the empty list is the correct detector answer |
| Groups.TotalSizeAtLeast | script.js:136 | `removedCount`, the sum of the group sizes, is at least four per group when every group has at least four cells |
| Groups.CoverCard | script.js:136 | pairwise disjoint groups without repetition cover exactly `removedCount` cells |
| Groups.ClearRemoves | script.js:144-151 | clearing sound, disjoint groups empties exactly their cells, which all held puyos; the board loses `removedCount` puyos, at least four per group |
| Groups.GroupListsAgree | script.js:180-207 | two correct detector answers for one board cover the same cells and the same number of them, list the same number of groups, and clear the board identically; only the order of the groups may differ |
| Groups.GroupListsSameLength | script.js:180-207 | two correct detector answers for one board list the same number of groups, since each lists every component of four or more exactly once |
| Chain.ChainSnoc | script.js:135-142 | the accumulators `totalTurnCleared` and `totalAddScore`: a step adds its `removedCount` to the cleared count and its step score, at depth one more than the steps before it, to the score |
| Chain.ChainSame | script.js:135-142 | two traces whose steps, position by position, clear as many puyos in as many groups have the same cleared count and score |
| Chain.LinksClear | script.js:123-142 | every step of a chain is a valid step: its groups are a correct, non-empty detector answer |
| Chain.ChainExtend | script.js:123-142 | a step taken where a chain ended extends the chain; the cleared count and score grow by the step's, scored at the next depth; the count grows by at least four and stays within the puyos the start board held |
| Chain.ChainCounts | script.js:136-151 | a chain's cleared count equals the number of puyos that vanished from the board, and is at least four per step |
| Chain.ChainBounded | script.js:123-133 | a chain cannot clear more puyos than its start board holds, so resolution terminates |
| Chain.ChainScoreAtLeast | script.js:139-142 | a chain scores at least ten points per cleared puyo |
| Chain.QuietBoard | script.js:124-133 | on a board without a group, resolution takes no step and leaves the board as it is |
| Chain.StepNeedsGroup | script.js:125 | a step is taken only on a board that holds a group |
| Chain.ChainDeterministic | script.js:116-177 | whatever order the detector lists the groups in, a chain from a given board has the same number of steps, final board, cleared count and score |
| Chain.ChainsAlign | script.js:123-176 | two chains from one board take their steps on the same boards, have the same length and end on the same board |
| Chain.StepsAgree | script.js:144-175 | two correct detections on one board lead to the same next board |
| Turn.Lock | script.js:103-111 | the grid becomes `LockGrid` of the piece (the piece written into the board), game over is set exactly when a cell of the piece is off the board, and the piece, queue, score, cleared count and pause flag are kept |
| Turn.LockKeepsConsistent | script.js:103-133 | a lock keeps the queue length six, the counters consistent, and a fitting piece while the game is not over |
| Turn.RotateKeepsConsistent | script.js:255-263 | a rotation keeps the state consistent: the turned piece fits |
| Turn.FreshConsistent | script.js:46-57 | a new game, with an empty board, zero counters, a full queue and the spawned piece, is consistent |
| Turn.CommandKeepsConsistent | script.js:229-263 | every key command keeps the state consistent |
| Turn.LockAccounts | script.js:127-128 | after a lock, the cleared count grows by exactly the puyos the chain removed, at least four per step, and the score grows by at least ten per removed puyo, so neither ever decreases |
| Turn.QuietLock | script.js:103-133 | a lock that forms no group scores nothing and leaves the two written cells and every other cell in place, with no gravity |
| Turn.HardDropOnEmptyBoard | script.js:253 | a hard drop from the spawn point on an empty board lands on the bottom row, forms no group, scores nothing, leaves exactly the two puyos on the board and spawns the next pair |
| Turn.LockDeterministic | script.js:103-177 | the outcome of a lock (board, step count, cleared count, score, piece, queue and game over) does not depend on the order of the detected groups |
| Board.InBoundsIndexes | script.js:43 | `inBounds` holds exactly for the cells a board can be indexed at |
| Game.Game.CellFree | script.js:43 | a cell is free exactly when it is on the board and empty |
| Game.Game.FitsNow | script.js:95-99 | a piece fits exactly when both of its cells are free |
| Game.Game.CanMoveActive | script.js:92-100 | `canMoveActive` is true exactly when the active piece, translated and turned to dir (its own dir if none is given), fits; as a function it changes nothing |
| Game.Game.CanMoveActiveFor | script.js:366-374 | `canMoveActiveFor` is true exactly when the given piece, translated, fits |
| Game.Game.Put | script.js:107 | writing a cell changes that cell and no other |
| Game.Game.SpawnPiece | script.js:65-79 | the queue front is taken and the new pair appended; the piece is placed upright at the spawn point; game over is set when it does not fit; the board and counters are untouched |
| Game.Game.TogglePause | script.js:450-460 | pause flips unless the game is over |
| Game.Game.RotateActive | script.js:255-263 | the piece turns to `(dir + d + 4) % 4` with the first kick that fits, and is left unchanged when none fits; the state stays consistent |
| Game.Game.ProjectGhost | script.js:294-296 | the ghost projection is the landing piece, computed without changing anything |
| Game.Game.SettleColumn | script.js:212-222 | one column becomes its compaction and the other columns are untouched |
| Game.Game.DropInto | script.js:213-220 | the inner search moves the nearest puyo above the empty cell down into it and empties its old cell, leaving the rest of the column as it was; with no puyo above, the column is unchanged; the column keeps its colours in order; rows below and other columns are untouched |
| Game.Game.ApplyGravityFull | script.js:210-225 | the board becomes the settled board, every column compacted |
| Game.Game.ClearGroups | script.js:144-151 | every cell of every group is emptied and nothing else changes |
| Game.Game.ClearAndSettle | script.js:144-173 | a chain step's board update: the groups cleared, then gravity |
| Game.Game.VisitNeighbour | script.js:193-201 | a neighbour is marked and enqueued exactly when it is on the board, unvisited and of the fill's colour; the fill stays a valid partial flood fill |
| Game.Game.VisitNeighbours | script.js:193-201 | after the four directions, every same-coloured neighbour of the dequeued cell has been reached |
| Game.Game.FloodFill | script.js:187-202 | the breadth-first fill returns the whole component of its start cell, disjoint from earlier fills, and marks exactly it |
| Game.Game.FindGroups | script.js:180-207 | the result is a correct answer for the board: each group is a component of at least four same-coloured puyos, the groups are pairwise disjoint, and every such component is one of them |
| Game.Game.ResolveStep | script.js:123-142 | one step: with no group it reports done and changes nothing; otherwise the chain depth goes up by one and the chain grows by the step just taken |
| Game.Game.ClearStep | script.js:135-173 | a step that found groups adds `removedCount` and the step score at the new depth, clears the groups and applies gravity |
| Game.Game.RunChain | script.js:116-176 | the loop runs to a board without a group; the totals are the chain's cleared count and score, and the depth equals the number of steps |
| Game.Game.FinishChain | script.js:125-132 | the totals are committed, the flags reset, and the next pair spawns unless the game is over |
| Game.Game.ResolveChains | script.js:116-122 | a call while resolving does nothing; otherwise the chain is resolved and committed as in `Resolved` |
| Game.Game.Resolve | script.js:118-177 | the resolution past the re-entry guard ends in the state `Resolved` describes |
| Game.Game.LockActive | script.js:103-113 | the in-bounds cells of the piece are written, an off-board cell sets game over, and then the chain is resolved |
| Game.Game.MoveActive | script.js:245-251 | the piece moves when the target fits; a blocked move one row down locks it; any other blocked move is ignored; the state stays consistent |
| Game.Game.SoftDrop | script.js:252 | one row down when that fits, otherwise a lock |
| Game.Game.FallToLanding | script.js:253 | the hard-drop loop leaves the piece on its landing row |
| Game.Game.HardDrop | script.js:253-254 | the piece falls to its landing row and locks there; the state stays consistent |
| Game.Game.KeyDown | script.js:229-242 | P toggles the pause; every other key is ignored while the game is over, resolving or paused, and otherwise runs its command |
| Game.Game.Init | script.js:46-62 | a new game has an empty board, zero counters, cleared flags, and the first pair spawned from the given queue |
| Game.Game.constructor | script.js:22-37 | a game starts as `init` sets it up |

## Left out

- Canvas, DOM and HUD rendering (`draw`, `drawCell`, `drawPuyoAt`, `roundRect`, `renderNext`, `drawNextCanvas`, `renderChainPopEffects`, `updateHUD`, the pause overlay and the game-over `alert`). These are presentation only.
- The `popAnimations` and `chainPopEffects` records. They only feed the drawing code.
- Frame timing: `requestAnimationFrame`, `performance.now`, the drop timer, the resync after a resume, and the 420/300/120 ms delays between chain phases. Resolution is one synchronous loop, so the `resolving` guard is always false when a command runs.
- The passive drop in `loop` (script.js:399-405). Outside a chain, when its timer fires it does what `Game.Game.SoftDrop` does. Its timing is left out, and so is the stale-piece window it opens.
- The stale-piece window. `dropTimer` keeps counting while `resolving` is set (script.js:400-401), and each clearing step waits 420 + 300 ms (script.js:172-175). After every chain with at least one clearing step, the timer has therefore passed 700 ms when `resolving` is cleared (script.js:126). The next frame falls inside the 120 ms before `spawnPiece` (script.js:131). It then soft-drops or re-locks the piece that has already locked (script.js:402-403, 103-112), with no key involved. A re-lock can write that piece's colours over cells that gravity has since filled, bringing back a cleared puyo. It also starts a second resolution whose spawn follows the first, so one queued pair is skipped. A key press in the same window has the same effect. The synchronous model follows the order lock → resolve → spawn instead: no command sees the locked piece between the lock and the next spawn.
- Two more timer races that the synchronous model cannot express. The restart button (script.js:467) calls `init` while a chain's timeouts may still be pending, and the old chain then adds its totals to the new game's counters and spawns a second time (script.js:127-131). Pausing during a chain (script.js:230) does not stop the chain's timeouts (script.js:172-175).
- `Math.random` in `randColor`/`randPiece`. The new pair is a parameter instead.
- The `keys` map that ignores auto-repeated key presses. This is input handling.
- The ghost on/off button. Only the projection it shows is modelled.
- IEEE floating point in `Math.pow(1.5, d−1)` and `0.3·(g−1)`. The model takes the exact floor. Rounding of the float product could, in rare cases, give one point less than the exact floor.
