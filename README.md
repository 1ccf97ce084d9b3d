# Tetris game-state engine in Dafny

This project models the game-state engine of the browser Tetris in `Tetris/tetris.js` and proves properties of it.

The engine has these parts:
- a catalog of seven tetromino templates;
- a clockwise rotation of a shape matrix;
- a collision test of a shape against a 20 x 10 board;
- a controller that holds the board, the active piece and its anchor `(posX, posY)`.

The controller's commands are `moveDown`, `moveLeft`, `moveRight`, the ArrowUp rotate command, `mergeBlockToBoard` and `clearLines`.

The project has three modules:

- `Pieces` (`pieces.dfy`) holds the catalog, `getRandomTetromino` and `rotate`. `getRandomTetromino` is a method that picks some catalog index. `rotate` is a function, with lemmas that four turns give the shape back and that the cell values are preserved as a multiset.
- `Playfield` (`playfield.dfy`) holds the board and the functions that specify the two board updates:
  - the board is a `seq<seq<int>>` of 20 rows of 10 cells;
  - `isCollision` is a recursive scan in the loop order of the source, proved equivalent to "every filled cell lands inside the board on an empty cell";
  - `Merged` is the board after a merge;
  - `Cleared` is the board after a line clear. It is built from `KeptRows`, the rows the bottom-up scan keeps.
- `Tetris` (`game.dfy`) holds the class `Game`.
  - Its fields are the board, the anchor and the active piece. Two ghost fields record which template the piece came from and how many quarter turns it has had.
  - Every command is a method that updates these fields, and is proved against the `Playfield` functions.
  - `mergeBlockToBoard` keeps the nested loops of the source. The scan of `clearLines` is the loop of `ClearRows`, which splices the full row out and puts an empty row on top at each removal.

Two behaviours of the source are modelled as they are:

- **`clearLines` does not re-examine the row above a removed row.** After a removal the row above moves down into the removed row's index, and the loop then moves one index up. So two adjacent full rows are never both removed in one call: the row just above a removed row is kept unexamined (`RemovedRows`, `ClearSkipsRowAbove`). With three full rows at the bottom, the bottom one and the top one of the three are removed and the middle one stays (`ThreeFullRows`).
- **Merging, rotating and respawning are unchecked.**
  - Merging writes cells without a bounds check, so `MergeBlockToBoard` requires the piece to be in bounds.
  - The moves keep a piece that fits fitting (`Fits`).
  - Rotation can push a fitting piece off the board (`RotateCanLeaveBoard`).
  - A respawned piece can overlap settled cells (`SpawnCanCollide`), but it always lies inside the board (`TemplateInBoundsAtOrigin`).
  - Every command except rotation keeps the active piece inside the board. So without rotation, the in-bounds requirement of a landing is always met.

## Model

| member | source | states |
|---|---|---|
| Pieces.CatalogWellFormed | Tetris/tetris.js:9-50 | There are exactly 7 templates. Each is a non-empty rectangular matrix with cells in 0..7, and template `i` has no filled cell other than colour `i + 1`. |
| Pieces.RandomTetromino | Tetris/tetris.js:142-145 | Returns an index below 7 and the catalog template at that index (a rectangular shape with cells in 0..7). Which index is left open. |
| Pieces.Rotate | Tetris/tetris.js:56-68 | An R x C matrix becomes a C x R matrix whose cell (i, j) is input cell (R-1-j, i). Rectangularity and the 0..7 cell range are preserved. |
| Pieces.RotateMovesCells | Tetris/tetris.js:61-65 | The loop's assignment holds for every cell: input cell (row, col) sits at (col, R-1-row) of the result. |
| Pieces.RotateFourTimes | Tetris/tetris.js:56-68 | Four rotations of a non-empty rectangular matrix give back the original, cell for cell. |
| Pieces.RotatePreservesCells | Tetris/tetris.js:56-68 | Rotation keeps the multiset of cell values: no cell is lost or invented. |
| Pieces.Turned | Tetris/tetris.js:204 | Any number of rotations of a shape is again a non-empty rectangular shape, and cells stay in 0..7. |
| Pieces.TurnedFour | Tetris/tetris.js:204 | Pressing rotate four times brings a piece back to its starting orientation. |
| Playfield.EmptyBoard | Tetris/tetris.js:53 | The starting board has 20 rows of 10 cells, all 0. |
| Playfield.CollisionFrom | Tetris/tetris.js:73-83 | The nested scan, started at cell (row, col), returns true exactly when some filled cell at or after that point (in row-major order) lies outside the board or on an occupied cell. |
| Playfield.IsCollision | Tetris/tetris.js:72-84 | `isCollision` is false exactly when every filled cell (row, col) lands on `0 <= y+row < 20`, `0 <= x+col < 10`, with board cell 0. |
| Playfield.NoCollisionInBounds | Tetris/tetris.js:72-84 | When `isCollision` is false, every filled cell of the shape lies inside the board, which is what the merge writes need. |
| Playfield.TemplateInBoundsAtOrigin | Tetris/tetris.js:97-99 | Every catalog template anchored at (0, 0) lies inside the board, so a respawned piece never sticks out of it. |
| Playfield.LeftWallBlocks | Tetris/tetris.js:103-107 | A shape with a filled cell in its first column collides at x = -1, so `moveLeft` at x = 0 does nothing. |
| Playfield.SpawnCanCollide | Tetris/tetris.js:97-99 | Respawning is unchecked: when the first four cells of the top row are occupied, every template collides at (0, 0). |
| Playfield.RotateCanLeaveBoard | Tetris/tetris.js:204 | Rotating is unchecked: the I piece fits lying on the bottom row of an empty board. Once rotated upright it collides and sticks out below the board. |
| Playfield.Merged | Tetris/tetris.js:115-123 | For each filled piece cell (row, col), board cell (posY+row, posX+col) takes the piece's value. Every other cell is unchanged, the board keeps its dimensions, and cells stay in 0..7. |
| Playfield.KeptRows | Tetris/tetris.js:126-140 | The kept row indices are in strictly increasing order, so surviving rows keep their relative order. |
| Playfield.RemovedRows | Tetris/tetris.js:126-140 | Row `i` is removed exactly when it is full and the row below it (if any) was kept. So only full rows are removed, and the row just above a removed row is never removed in the same call. |
| Playfield.Cleared | Tetris/tetris.js:126-140 | After clearing, the board still has 20 rows of 10 cells, with cells in 0..7. |
| Playfield.ThreeFullRows | Tetris/tetris.js:127-139 | With the three bottom rows full, the bottom and the top one of them are removed, while the middle one and the row above them are kept. |
| Playfield.ClearedLayout | Tetris/tetris.js:134-138 | After clearing, the board has one all-zero row on top for each removed row, followed by the kept rows in their original order. |
| Playfield.NothingFullNothingCleared | Tetris/tetris.js:126-140 | When no row is full, clearing leaves the board unchanged. |
| Playfield.ClearSkipsRowAbove | Tetris/tetris.js:127-139 | When the bottom row is full, the row above it ends at the bottom unexamined, even if it is full. |
| Tetris.RowIsFull | Tetris/tetris.js:128-132 | The inner scan reports a row as full exactly when none of its 10 cells is 0. |
| Tetris.ClearRows | Tetris/tetris.js:126-140 | The bottom-up loop, with its splice and unshift, produces exactly `Cleared` of its input. |
| Tetris.Game.constructor | Tetris/tetris.js:87-89 | The game starts with an empty board (line 53), the anchor at (0, 0) and a catalog template as the active piece, which lies inside the board. |
| Tetris.Game.MoveLeft | Tetris/tetris.js:103-107 | Only `posX` changes. It becomes `posX - 1` exactly when that position is collision-free and otherwise stays as it was. So a piece that fits keeps fitting, and a piece inside the board stays inside it. |
| Tetris.Game.MoveRight | Tetris/tetris.js:109-113 | Only `posX` changes. It becomes `posX + 1` exactly when that position is collision-free and otherwise stays as it was. So a piece that fits keeps fitting, and a piece inside the board stays inside it. |
| Tetris.Game.RotatePiece | Tetris/tetris.js:204 | The active piece becomes `Rotate` of itself, and nothing else changes. It stays a rotation of its catalog template. |
| Tetris.Game.MergeBlockToBoard | Tetris/tetris.js:115-123 | When the piece is in bounds, the nested loops turn the board into `Merged` of the old board. |
| Tetris.Game.Respawn | Tetris/tetris.js:97-99 | The anchor is reset to (0, 0), and the active piece becomes an unrotated catalog template, which lies inside the board. Nothing is checked against the settled cells. |
| Tetris.Game.MoveDown | Tetris/tetris.js:91-101 | Which branch is taken depends on whether the piece collides one row lower. If it does not, `posY` goes up by 1 with board, `posX` and piece unchanged, and the piece fits. If it does, the board becomes `Merged` of the old board and piece, the anchor is reset to (0, 0), and the new piece is a catalog template. Either way the active piece ends inside the board. |
| Tetris.Game.ClearLines | Tetris/tetris.js:126-140 | The board becomes `Cleared` of the old board. The class invariant (board size, cell range, piece shape) is kept. |

## Left out

- Drawing to the canvas is not modelled: the canvas context, `drawSquare`, `drawBoard`, the drawing part of `gameLoop`, and the HSL colour strings (lines 1-3, 147-181). They are output to the host graphics API.
- Scheduling by `requestAnimationFrame` and `setInterval` is not modelled. Each command is an atomic method call, and `gameLoop`'s call of `clearLines` is just a call of `ClearLines`.
- The `keydown` dispatch (lines 195-210) is not modelled. Each key's action is its own method, and the ArrowUp case is `RotatePiece`.
- `Math.random` is replaced by a nondeterministic choice of a catalog index. Uniformity is not modelled.
- Tetris.Game.MergeBlockToBoard requires every filled cell of the piece to lie inside the board. Out of bounds, the source either throws (a row index off the board) or stores outside the 10 columns (a column index off the board). The model does not capture either behaviour.
- Tetris.Game.MoveDown requires the merge precondition when the piece lands. Every command except `RotatePiece` leaves the piece inside the board (`NoCollisionInBounds`, `TemplateInBoundsAtOrigin`), so this only excludes landings after an unchecked rotate.
- Tetris.Game.ClearLines runs its scan on the board value (`ClearRows`) and writes the result back in one assignment. No other code observes the board during the scan, so nothing is lost by this.
- The board is a sequence of row values, not an array of arrays. `splice` and `unshift` become sequence operations, and rows are never shared between board positions.
- `getRandomTetromino` returns the catalog's own array object, so the active piece aliases a template. The model copies the template value instead. No code writes into a piece (`rotate` builds a fresh matrix), so this makes no difference.
- Truthiness tests on cells (`matrix[row][col] &&`, `!board[row][col]`) are modelled as comparisons with 0. Every cell is an integer in 0..7.
- Positions are unbounded integers. The source's doubles never leave the small range the game uses.
