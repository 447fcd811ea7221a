# vibe-tetris board simulation in Dafny

This project models the game logic of `script.js` in a browser Tetris:
- a 20 x 12 arena of integer cells, where 0 is empty and 1..7 is a colour;
- the seven piece matrices of the `pieces` table;
- the player's matrix and position;
- the score, the drop timer and the start/pause flags;
- the operations the keys, the timer and the buttons trigger on that state.

It is written in the source's own imperative style.
- The globals live in one class, `Game.Tetris`. The `arena` is a `const` array of row arrays that the script mutates in place (script.js:86, 133, 175-176). It is modelled as a `Grid` field that each operation reassigns.
- The piece matrices are `array2<int>` objects in `Game.Tetris.pieces`. `player.matrix` is a reference to one of them, exactly as in the script. Rotating the player's piece therefore turns the table's matrix in place, and every later spawn of that kind starts from the turned matrix. The ghost field `shapes` records what each array holds, and the class invariant ties the two together.
- Each loop of the script is a method with loop invariants, proved against a specification function:

  | loop | method | specification |
  |---|---|---|
  | `collide` | `Board.Collide` | `Collides` |
  | `merge` | `Board.Merge` | `Merged` |
  | the transpose and reversals of `rotate` | `Pieces.Transpose`, `ReverseEachRow`, `ReverseRowOrder` | `Rotated` |
  | the kick search of `playerRotate` | `Game.KickSearch` | `FirstKick` |
  | the sweep | `Tetris.ArenaSweep` | `Sweep` / `SweepResult` |
  | the hard-drop fall | `Game.Fall` | `DropRow` |

The specification functions are each a plain recursive or comprehension definition:
- `Collides` is "some non-zero cell of the piece reads a board value other than 0". An undefined row or column is not 0, so a block off the board in any direction collides.
- `Merged` is the board with the piece's blocks written in.
- `Rotated` is the transpose followed by a reversal.
- `FirstKick` is the first retry at which the turned piece is free.
- `DropRow` is the row a falling piece stops on.
- `Sweep` is the bottom-to-top scan, with its quirk. Once a row is removed, the row that slides into its place is passed over.
- `Spawn`, `Settled` and `Landing` are the effect of `playerReset()` and then `arenaSweep()` on board and score.

The lemmas beside these functions state what the game promises of them:
- collision in board coordinates;
- the index formulas of a quarter turn, the round trip, and four turns;
- the kick offsets tried;
- the unique landing row;
- the sweep keeps the board's shape, removes only full rows, keeps the others in order, scores 10·(2^k − 1) and skips the row above a removed one;
- a game over leaves nothing to sweep.

Two behaviours of the code that are easy to miss:
- **Collision in columns.** `(arena[r] && arena[r][c]) !== 0` is also true for a column off the board, because `undefined !== 0`. `Board.Collides` is therefore true for a block outside rows 0..19 or columns 0..11.
- **Hard drop from a colliding position.** The step back at script.js:242 runs even when the piece already collides where it is, so the piece moves one row up. A freshly spawned piece can come to overlap a block, because it is placed before the sweep (lemma `Game.SpawnOverlapsAfterSweep`). When it does, the step back can lift a block above row 0, and `merge` then throws a TypeError on the undefined row before writing anything. `Game.Tetris.HardDrop` returns `ok == false` for exactly that case and states the state it leaves.

Inputs from the environment are parameters:
- The kind `Math.random` would pick (script.js:129) is the argument `k` or `next`.
- The timer is only the `dropCounter` field, which the drops set to 0.

## Model

| member | source | states |
|---|---|---|
| Board.CreateMatrix | script.js:14-20 | the result has `rows` rows of `cols` cells and every cell is 0 |
| Board.Cleared | script.js:133 | clearing keeps the number of rows and every row's length |
| Board.ClearedRect | script.js:133 | clearing a rows x cols board gives the all-zero rows x cols board |
| Board.Clear | script.js:133 | the row-by-row `fill(0)` gives `Cleared(b)`, so every cell becomes 0 |
| Board.Collide | script.js:92-106 | the scan returns true exactly when `Collides` holds for the matrix the array holds |
| Board.CollisionMeaning | script.js:95-102 | on a 20 x 12 board, a collision is exactly a non-zero piece cell mapped outside rows 0..19 or columns 0..11, or onto a non-zero board cell; a zero cell can never cause one |
| Board.FitsOnBoard | script.js:97-99 | a piece that does not collide has every block on the board |
| Board.AboveFloor | script.js:97-99 | a piece that does not collide has each block on or above the last row |
| Board.OnBoardParts | script.js:86 | a block lies on the board exactly when its row exists and it lies within that row |
| Board.Lookup | script.js:99 | defines the value of `arena[r] && arena[r][c]`: the cell when row and column exist, otherwise undefined |
| Board.Full | script.js:170-173 | defines the condition the inner scan looks for: no cell of the row is 0 |
| Board.Collides | script.js:92-106 | defines a collision: some non-zero cell of the piece at (x + j, y + i) reads a board value other than 0, where a missing row or column reads as undefined |
| Board.Merged | script.js:82-90 | merging keeps the number of rows and every row's length |
| Board.Merge | script.js:82-90 | the merge succeeds exactly when every block's row exists; it then gives `Merged`; otherwise it stops at the first block whose row is missing, leaving exactly the rows of the piece before that one written |
| Board.StoppedAboveBoard | script.js:83-87 | a merge stopped before any piece row that reaches row 0 has written nothing |
| Board.MergeWritesPiece | script.js:85-86 | after a merge each block's cell holds the block's value, and every cell the piece does not cover is unchanged |
| Board.MergedPieceCollides | script.js:82-106 | once merged, a piece with a block collides with itself at the spot it was merged |
| Board.Sweep | script.js:167-180 | defines the bottom-to-top scan as the rows it keeps and the rows it removes, top to bottom; the row that slides into a removed row's place is kept without being examined |
| Board.SweepResult | script.js:167-180 | defines the board after the sweep, one empty row on top per removed row above the kept rows, and the points 10·(2^k − 1) for k removed rows |
| Board.SweepParts | script.js:167-180 | the rows a sweep keeps and the rows it removes together are the board's rows, as a multiset, and every removed row was full |
| Board.SweepKeepsShape | script.js:175-176 | a sweep keeps the board at 20 rows of 12 cells |
| Board.SweepKeepStep | script.js:168-173 | one loop step that finds an empty cell passes the row to the kept rows below the scan |
| Board.SweepRemoveStep | script.js:175-179 | one loop step that finds a full row removes it, puts an empty row on top and passes over the row that slid down |
| Board.SweepNoFullRow | script.js:167-180 | a board without a full row is left as it is and earns no points |
| Board.SweepEmptyBoard | script.js:167-180 | sweeping the empty board changes nothing and adds no points |
| Board.SweepSkipsRowAbove | script.js:168 | with both bottom rows full, the bottom one is removed and the full one above it is kept in the same pass |
| Board.RemovedAt | script.js:168-179 | defines the indices of the rows a sweep removes; each is an index of the board |
| Board.RemovedAtCount | script.js:175-178 | a sweep removes exactly as many rows as `RemovedAt` has indices, so the score counts those rows |
| Board.RemovedAtLast | script.js:169-175 | the bottom row is removed exactly when it is examined and full |
| Board.SweepRemovedAt | script.js:169-176 | any other row is removed exactly when it is full and the row below it was not removed, because a removal slides the next row up into the index the scan has just left |
| Board.SweepAtMostHalf | script.js:168-179 | no two neighbouring rows are removed in one pass: if row i is removed, row i + 1 is not; so at most half the rows, rounded up, go |
| Board.SweepKeepsOrder | script.js:175-176 | the rows kept by a sweep are the board's rows with some deleted, in their original order |
| Board.SweepKeepsOpenRows | script.js:169-173 | every row with an empty cell survives the sweep, as often as it occurred |
| Pieces.Shape | script.js:24-60 | defines the seven matrices of the table as written, kinds 0..6 in the key order T, O, L, J, I, S, Z |
| Pieces.Rotated | script.js:139-150 | defines a turn: the transpose, then every row reversed when dir > 0 and the row order reversed otherwise |
| Pieces.ShapesOK | script.js:24-60 | each matrix of the table is square of its kind's side (2, 3 or 4), holds only 0 and kind + 1, and has a block |
| Pieces.RotatedAt | script.js:139-150 | on an n x n matrix the turn sends old[n-1-j][i] to (i, j) clockwise and old[j][n-1-i] to (i, j) otherwise, and keeps the size |
| Pieces.RotateRoundTrip | script.js:139-150 | turning one way and then the other restores the matrix |
| Pieces.HalfTurn | script.js:139-150 | two clockwise turns send cell (i, j) to (n-1-i, n-1-j) |
| Pieces.FourTurns | script.js:139-150 | four clockwise turns restore the matrix |
| Pieces.RotatedCellsFrom | script.js:139-150 | every cell of the turned matrix is some cell of the original |
| Pieces.RotatedCellsTo | script.js:139-150 | every cell of the original appears in the turned matrix |
| Pieces.RotateKeepsPiece | script.js:139-150 | a turned piece is still a well-formed piece of its kind |
| Pieces.Transpose | script.js:140-144 | the swap loop leaves m[a, b] holding the old m[b, a] |
| Pieces.ReverseEachRow | script.js:146 | each row is reversed in place |
| Pieces.ReverseRowOrder | script.js:148 | the order of the rows is reversed in place |
| Pieces.Rotate | script.js:139-150 | the array that held g holds `Rotated(g, dir)` afterwards |
| Pieces.FromGrid | script.js:24-60 | a new square array holding the given matrix |
| Pieces.CreateCatalog | script.js:24-60 | seven new, distinct square arrays, the k-th of side `Side(k)` holding the k-th shape of the table |
| Game.SpawnX | script.js:131 | defines the spawn column floor(12 / 2) − floor(w / 2) for a piece of width w |
| Game.Spawn | script.js:130-136 | defines board and score after `playerReset()`: the empty board and 0 when the new piece collides at its spawn, otherwise both unchanged |
| Game.Settled | script.js:113-114 | defines board and score after `playerReset()` and then `arenaSweep()`: `Spawn`, then `SweepResult`, adding its points |
| Game.Landing | script.js:111-114 | defines board and score after a piece lands at (x, y): `Merged`, then `Settled` |
| Game.KickStep | script.js:154-158 | defines the shift applied on retry t, the successive values of `offset`: 1, −2, 3, −4, … |
| Game.Kick | script.js:157 | defines `player.pos.x − pos` after t retries: 0, 1, −1, 2, −2, … |
| Game.KickLimit | script.js:159 | defines how many offsets the kick search tests for a piece of width n (2 for widths up to 2, n for even n, n + 1 for odd n): the abort at line 159 comes right after the shift that makes the next one larger than n |
| Game.FirstKick | script.js:153-164 | defines the first retry from the t-th on at which the turned piece is free at offset `Kick` from x0, or none within `KickLimit` |
| Game.DropRow | script.js:239-242 | defines the row the hard drop stops on: one above the first colliding row from y down, so y − 1 when the piece already collides at y |
| Game.SpawnOnBoard | script.js:130-131 | a square piece no wider than the board, spawned at row 0, column 6 − floor(width/2), has every block on the board |
| Game.SpawnFitsEmpty | script.js:131-133 | on the empty board a freshly spawned piece never collides |
| Game.SpawnFits | script.js:127-137 | after the spawn the new piece does not collide; board and score are either unchanged or the empty board and 0 |
| Game.LandingKeepsShape | script.js:110-114 | merging, respawning and sweeping keep the board at 20 x 12 |
| Game.GameOverLanding | script.js:113-114 | when the next piece collides at its spawn, a landing ends with the empty board and score 0: the wipe precedes the sweep, which then adds nothing |
| Game.SpawnOverlapsAfterSweep | script.js:113-114 | a concrete board on which the T piece spawns free, yet the sweep that follows slides a block under it |
| Game.KickNext | script.js:157-158 | each retry moves x by the current shift, and the next shift is −(shift + sign(shift)): the offsets tried are 0, 1, −1, 2, −2, ... |
| Game.KickDistinct | script.js:157-158 | no offset is tried twice |
| Game.KicksTried | script.js:156-159 | the offsets tried are 0 and 1 for the 2-wide O piece, and 0, 1, −1, 2 for the 3- and 4-wide pieces |
| Game.FirstKickFrom | script.js:156-164 | when the retries before s all collided, the search from s finds a free retry with all earlier ones colliding, or finds nothing and then every retry collides |
| Game.FirstKickMeaning | script.js:156-164 | the kick search finds retry t exactly when t is within the limit, the piece is free there and every earlier retry collides; it finds nothing exactly when every retry within the limit collides |
| Game.DropRowFalls | script.js:239-242 | the hard-drop loop terminates, and the piece stops at a row from which every row down to its start is free and the next one collides |
| Game.DropRowUnique | script.js:239-242 | that row is the only one with this property |
| Game.ColsAnyRow | script.js:239-241 | moving a piece that is on the board up or down keeps its blocks on the board's columns |
| Game.Fall | script.js:239-242 | the loop and the step back give exactly `DropRow` |
| Game.Respawn | script.js:130-136 | x is 6 − floor(width/2); board and score are as `Spawn` says; afterwards the piece is on the board and does not collide |
| Game.KickSearch | script.js:153-164 | the loop finds a free offset exactly when `FirstKick` does, at x0 + Kick(t) for that retry t, with the piece then on the board; otherwise it gives up with x back at x0 |
| Game.LandingRow | script.js:239-243 | a piece on the board drops to a row within the board's columns; it is off the board there only when it already collided at its start and stepped back a row; a piece that did not collide lands on the board |
| Game.ThrowWritesNothing | script.js:243 | a merge one row above a position on the board that stops has written nothing |
| Game.DropAndMerge | script.js:239-243 | the piece lands on `DropRow`; the merge succeeds exactly when the piece is on the board there and then gives `Merged`; otherwise it is one row above its start and the board is unchanged; a piece that did not collide always merges |
| Game.MergeLanded | script.js:243 | for a piece on the board or one row above such a position, the merge either writes the whole piece or throws before writing anything |
| Game.ScanRow | script.js:169-173 | the inner scan reports a full row exactly when no cell is 0 |
| Game.Tetris.constructor | script.js:8-60 | the state on load: the empty 20 x 12 arena and the table as written (lines 8-60), drop timer 0 (line 189), score 0 (line 217), no player matrix (lines 223-226), not started, not paused |
| Game.Tetris.PlayerReset | script.js:127-137 | the player takes the table's array for kind k at row 0, column 6 − floor(width/2); arena and score are as `Spawn` says; the piece then does not collide and the invariant holds |
| Game.Tetris.PlayerMove | script.js:120-125 | x moves by dir unless the piece would then collide, in which case it stays; y and the matrix are unchanged; a piece that did not collide still does not |
| Game.Tetris.Turn | script.js:139-150 | the player's matrix, which is the table's array, is turned in place and only that kind's recorded shape changes |
| Game.Tetris.PlayerRotate | script.js:152-165 | if the kick search finds retry t, x moves by Kick(t) and the table's matrix for the kind is turned; otherwise matrix and x are as before; y never changes and the invariant holds |
| Game.Tetris.ArenaSweep | script.js:167-180 | the arena becomes the sweep's board and the score rises by the sweep's 10·(2^k − 1) |
| Game.Tetris.Settle | script.js:113-114 | respawn with the next kind, then sweep: arena and score are as `Settled` says |
| Game.Tetris.Land | script.js:111-114 | the piece merged where it is, the next piece spawned and the rows swept: arena and score are as `Landing` says |
| Game.Tetris.PlayerDrop | script.js:108-118 | a piece free one row down moves down with nothing else changed; otherwise it lands where it is; either way the drop timer is 0 |
| Game.Tetris.HardDrop | script.js:239-247 | the piece falls to `DropRow`; if it is on the board there, it lands there and the timer restarts; otherwise (only when it already collided) merge throws, y is one row up and nothing else changes; a piece that did not collide always lands |
| Game.Tetris.SettleMerged | script.js:243-247 | the merged board is taken, the next piece spawns, rows are swept and the timer restarts |
| Game.Tetris.RestartTimer | script.js:117 | the drop timer is set to 0; the invariant still holds |
| Game.Tetris.StartGame | script.js:253-268 | a second call does nothing; the first starts the game unpaused and spawns kind k |
| Game.Tetris.PauseGame | script.js:270-275 | a started game becomes paused; otherwise nothing changes |
| Game.Tetris.ResumeGame | script.js:277-283 | a started, paused game resumes; otherwise nothing changes |
| Game.Tetris.PauseButton | script.js:285-291 | the button resumes a paused game and pauses a started one that is running |

## Left out

- Rendering: `drawMatrix`, `draw`, `colors` and the canvas set-up (script.js:2-4, 62-80, 182-187, 206-215). They are output only.
- `updateScore` and the score display created by `startGame` (script.js:219-221, 260-264). They write to the page only.
- The `update` animation loop, `lastTime`, `dropInterval` and `animationId`, with `requestAnimationFrame` and `performance.now()` (script.js:190-204, 274, 281-282). They are scheduling with floating-point timestamps. The model keeps `dropCounter` and every operation that sets it, but not the loop that adds elapsed time to it.
- The page changes of the buttons: `startGame` showing the canvas and the pause button and hiding the start button (script.js:257-259), and `pauseGame`/`resumeGame` setting the pause button's text (script.js:273, 280). They write to the page only.
- `Math.random` (script.js:129). The kind it would pick is an argument.
- The key dispatch and the button listeners (script.js:228-237, 285, 293). The hard-drop block they contain is `Game.Tetris.HardDrop`, and the pause button's handler is `Game.Tetris.PauseButton`.
- Keys pressed before the game starts. `player.matrix` is then null and the script throws. Every player operation requires a player (`matrix != null`).
- Game.Tetris.HardDrop: when the merge throws, the result states the state after the throw but not the invariant. While the piece stays in that position, every later drop throws the same way, and a throw from the timer's drop inside `update` (script.js:199) ends the animation loop, because `requestAnimationFrame` is not reached. A rotation can still bring the piece back onto the board: a vertical I turned horizontal lies in board row 0. The model does not follow a game past the throw, because the other operations require the invariant.
- Game.Tetris.PlayerRotate: requires `dir != 0`. The script only ever passes 1. With 0 it would not restore the matrix on giving up: `rotate(m, 0)` and `rotate(m, -0)` both turn counter-clockwise.
- Board.Merge: requires every block that lands on an existing row to lie within that row's 12 columns. In the script a write to a column of 12 or more would grow that row's array instead, and a write to a negative column would set a property that is not an array index, leaving the 12 cells as they were. No call in the game can reach that case: each merged piece has been on the board's columns since it spawned.
- Rows of the arena are values. `fill(0)` on the removed row and its reuse at the top (script.js:175-176) are modelled by content. The identity of the row arrays is not modelled, and nothing else holds them.
