# A verified model of the java.js falling-block engine

`java.js` is a browser Tetris. Its engine is a handful of functions over a
12-by-20 arena of cell tags and a `player` record: the active piece's
square matrix and the position of its top-left corner. This project models
that engine in Dafny and proves what each operation does to the board and
the piece.

The modules follow the engine's parts:

- `Options` (`option.dfy`): the `Option` type used by the wall-kick search.
- `Board` (`board.dfy`): the arena as a `seq<seq<int>>`, with 0 for an empty cell and 1..7 for a locked cell. It contains:
  - `createMatrix`;
  - `collide` as the function `Collide`, a scan with early return;
  - what `merge` produces, as `Merged`;
  - what `arenaSweep` produces, as `Swept` (empty rows for the full ones on top, then the other rows in order);
  - the step lemmas the imperative loops are proved with.
- `Pieces` (`pieces.dfy`): the seven types and their layouts (`createPiece`). Pieces live in an `array2<int>`, because `rotate` changes them in place. `Rows` views such an array as a value.
- `Rotation` (`rotation.dfy`): `rotate` in place, the clockwise quarter turn `Rotated` as a value, and its laws:
  - four turns are the identity;
  - the half turn;
  - the counter-clockwise inverse;
  - every cell value keeps its number of occurrences.
- `Tetris` (`game.dfy`): the session as a class `Game`, with fields `arena`, `matrix`, `x`, `y`, `gameOver` and `dropCounter`. It holds:
  - the player actions `playerReset`, `playerMove`, `playerDrop` and `playerRotate`;
  - the sweep, whose bottom-up loop `SweepRows` runs on the arena's rows;
  - the reset button's board clear;
  - the wall-kick search of `playerRotate`, specified by the function `Kick`.

A piece cell that falls outside the board in either direction collides.
In JavaScript the missing row or cell reads as `undefined`, which is `!== 0`.
`Lands` and `OffBoard` state this.

`playerDrop` spawns the next piece before it sweeps. Game over is therefore
judged against the unswept arena, and `PlayerDrop` states it that way.

`Math.random` becomes a parameter `p` in 0..6. It indexes the string
'TJLOSZI', which is `Order` in the model.

## Model

| member | source | states |
|---|---|---|
| Board.CreateMatrix | java.js:24-28 | the result has `h` rows of `w` cells each, all empty |
| Board.RowCollidesLands | java.js:74-80 | the inner scan over one piece row reports a collision iff some cell of that row is non-zero and lands off the board or on a non-zero arena cell |
| Board.RowCollides | java.js:74-80 | the inner loop of `collide` over one piece row, with early return; it carries no contract of its own and is characterised both ways by `RowCollidesLands` |
| Board.Collide | java.js:70-83 | `collide(arena, player)`, the nested scan with early return; it carries no contract of its own and is characterised both ways by `CollideLands` |
| Board.CollideLands | java.js:70-83 | `collide` is true iff some non-zero piece cell at (x+j, y+i) lies outside the board on either axis or on an occupied arena cell |
| Board.OffBoardCollides | java.js:75-77 | a piece with a non-zero cell off the board always collides (the `undefined !== 0` case) |
| Board.CollideOverCells | java.js:70-83 | for a piece whose cells are all on the board, `collide` is true iff a non-zero piece cell lies over a non-zero arena cell |
| Board.MergedPlacesPiece | java.js:60-68 | after `merge`, every non-zero piece cell's value is at its board position; every other cell keeps its value, including those under zero piece cells; height, row width and the tag range are kept |
| Board.LockedPieceOccupies | java.js:60-83 | a piece merged where it did not collide collides at the same place afterwards, as long as it has a non-zero cell |
| Board.MergeStep | java.js:61-66 | one turn of the inner `forEach` of `merge`: a non-zero cell is written at its in-bounds board position; a zero cell changes nothing |
| Board.FirstEmpty | java.js:141-145 | the inner loop of `arenaSweep` returns the first empty cell of the row, and reaches the end iff the row is full |
| Board.KeepStep | java.js:141-143 | passing a row with an empty cell (`continue outer`) keeps it in place, among the rows that stay |
| Board.CutStep | java.js:146-148 | cutting out a full row and putting it back emptied on top adds one empty row above, and index `y` then holds the row that was above |
| Board.SweptShape | java.js:139-150 | sweeping keeps height, row width and the tag range, and leaves no full row, so all full rows, adjacent or not, go in one call |
| Board.NoFullRowsUnswept | java.js:139-150 | on an arena without full rows the sweep changes nothing |
| Board.SweptIdempotent | java.js:139-150 | sweeping a second time changes nothing |
| Board.SplitConcat | java.js:140-148 | the sweep treats each row on its own: the kept rows and the count of cleared rows of two stacked parts are those of each part |
| Pieces.Tag | java.js:30-39 | every type's tag lies in 1..7 |
| Pieces.Shape | java.js:30-39 | every layout is a square of side 2, 3 or 4; side 2 iff O, side 4 iff I; every cell is 0 or the type's tag |
| Pieces.FourCells | java.js:30-39 | every layout has exactly four non-zero cells |
| Pieces.TagsDistinct | java.js:30-39 | distinct types carry distinct tags |
| Pieces.CreatePiece | java.js:30-39 | `createPiece` allocates new storage holding the type's layout |
| Rotation.Transpose | java.js:86-90 | the swap loop across the diagonal transposes the square matrix in place |
| Rotation.ReverseRow | java.js:91 | `row.reverse()` reverses one row and leaves the other rows alone |
| Rotation.Rotate | java.js:85-92 | `rotate` turns the matrix a quarter clockwise in place: new[i][j] = old[n-1-j][i] |
| Rotation.Rotated | java.js:85-92 | the clockwise turn keeps a square matrix square and the same size |
| Rotation.HalfTurn | java.js:85-92 | two turns send cell (i, j) to (n-1-i, n-1-j) |
| Rotation.FourTurns | java.js:85-92 | four turns give back the original matrix |
| Rotation.RotatedTags | java.js:85-92 | a turn introduces no value outside the tag range |
| Rotation.RotatedOccurrences | java.js:85-92 | a turn keeps the multiset of cell values: every value occurs in as many cells after it as before |
| Rotation.ReverseMultiset | java.js:91 | a reversed row holds the same values, as a multiset |
| Rotation.RotatedPrefixOccurrences | java.js:85-92 | the first k rows of the turned matrix hold the cells of the first k columns of the original |
| Rotation.ColumnOccurrencesAll | java.js:85-92 | counting a matrix's cells column by column gives the row-by-row count |
| Rotation.TurnBackUndoes | java.js:132 | the counter-clockwise turn undoes the clockwise one, and the other way round |
| Rotation.RotateBack | java.js:132 | the counter-clockwise quarter turn in place: reverse each row, then transpose |
| Tetris.SpawnX | java.js:116 | the spawn column floor(w/2) - floor(n/2): a piece no wider than the arena lies on it, with the margins left and right of it differing by at most one column |
| Tetris.SpawnFitsEmpty | java.js:112-121 | on an empty arena every type spawns at x = floor(12/2) - floor(n/2), y = 0 without colliding |
| Tetris.ShiftStep | java.js:129-130 | the offsets +1, -2, +3, ... add up to the net shifts 0, +1, -1, +2, -2, ... |
| Tetris.TriesStop | java.js:130-131 | the abort test on the next offset fires exactly after the last position that is tested |
| Tetris.TestedShifts | java.js:128-136 | a 2-wide piece is tried at shifts 0, +1; a 3- or 4-wide one at 0, +1, -1, +2 |
| Tetris.KickFrom | java.js:128-136 | the search from the `k`-th tested shift on; it carries no contract of its own and is characterised by `KickFromFirstFree`, `KickFromNone` and `KickReaches` |
| Tetris.Kick | java.js:127-136 | the whole search, over the `Tries(n)` shifts it may test; characterised by the same three lemmas from shift 0 |
| Tetris.KickFromFirstFree | java.js:128-136 | a successful search ends at the first tested shift where the piece fits; every earlier shift collides |
| Tetris.KickFromNone | java.js:128-136 | the search gives up iff every tested shift collides |
| Tetris.KickReaches | java.js:128-136 | a search that meets only collisions before shift k and none at k settles at shift k |
| Tetris.SweepStep | java.js:140-149 | one turn of the outer loop of `arenaSweep`: a row with an empty cell is passed and the index moves up; a full row is cut out and put back emptied on top and the same index is examined again; the sweep state is kept and the scan makes progress |
| Tetris.SweepRows | java.js:139-150 | the bottom-up loop of `arenaSweep` leaves exactly `Swept` of the rows it started from |
| Tetris.KickSearch | java.js:127-136 | the `while (collide)` loop with its offset update and abort test ends; it finds a position iff `Kick` does, ends at that position, and otherwise puts x back |
| Tetris.MergeRow | java.js:62-66 | the inner `forEach` of `merge` over one piece row: afterwards the non-zero cells of that row, and of every row above it, are written into the board, and nothing else is |
| Tetris.MergePiece | java.js:60-68 | the nested loops of `merge`, row by row, produce exactly `Merged` |
| Tetris.Game.constructor | java.js:5-22 | the session's state as the script sets it up: the empty 12-by-20 arena (line 5), the `player` record (lines 18-22), `dropCounter = 0` (line 152) and the first `playerReset()` (line 179), so the first piece is spawned at the top centre without collision and the game is not over |
| Tetris.Game.Collides | java.js:70-83 | `collide(arena, player)` on the session's own arena, piece and position, reading them and changing nothing; characterised by `CollideLands` |
| Tetris.Game.PlayerReset | java.js:112-121 | a new piece of the chosen type sits at y = 0, x = floor(width/2) - floor(n/2); the game-over flag is set iff the piece collides there; the arena and the counter are unchanged |
| Tetris.Game.PlayerMove | java.js:105-110 | x becomes x+dir when the piece does not collide there, and otherwise stays; nothing else changes, so a piece that did not collide still does not |
| Tetris.Game.Merge | java.js:60-68 | the arena becomes `Merged` of the old arena and the piece; the session stays valid |
| Tetris.Game.ArenaSweep | java.js:139-150 | `arenaSweep()` on the session: the arena becomes `Swept` of the old one and stays a 12-by-20 grid of tags |
| Tetris.Game.PlayerDrop | java.js:94-103 | if y+1 is free, only y changes (it goes up by one); otherwise the piece merges at y, a new piece spawns, game over is judged against the unswept arena, and the arena is then swept. `dropCounter` becomes 0 either way |
| Tetris.Game.LockPiece | java.js:97-100 | the locking branch: merge, then spawn with the game-over check, then sweep |
| Tetris.Game.WallKick | java.js:127-136 | the search on the session: on success x is where `Kick` settles; on giving up x is back where it was; nothing else changes |
| Tetris.Game.PlayerRotate | java.js:124-137 | y, the arena and the flags never change. If the search succeeds, the piece is turned once at the kicked x. If it gives up, x is restored and the piece ends turned twice, half a turn from the start |
| Tetris.Game.PlayerRotateUndoing | java.js:124-137 | the corrected rotation: a rotation the search gives up on leaves x and the piece exactly as they were |
| Tetris.Game.ClearArena | java.js:210 | the reset button empties every arena cell and keeps the 12-by-20 shape |
| Tetris.AbandonedTurnAtRightWall | java.js:124-137 | an upright I piece in the rightmost columns cannot turn; as written it ends upside down, with its bar in column 12, off the board |

## Left out

- Rendering: `drawMatrix`, `draw`, the canvas context and the colour table have no effect on the engine state.
- The animation loop (`update`, `lastTime`, `dropInterval`, `requestAnimationFrame`) is timing glue over floating-point timestamps. `dropCounter` is modelled only as being reset to 0 by `playerDrop`.
- DOM wiring is left out: the keyboard handler, the start, pause and reset buttons, and the game-over banner. Of the reset handler only the board clear (java.js:210) is modelled. Its later calls are the modelled `PlayerReset` and a counter reset.
- `gameOver()` (java.js:185-189) cancels the animation and shows a banner. In the model it only sets the `gameOver` flag. Nothing in the engine clears the flag.
- `Math.random` is replaced by the piece index `p`.
- `player.score` is never read or written by the engine.
- Tetris.Game.PlayerDrop requires every non-zero piece cell to be on the board at the current position, because `merge` would otherwise write outside the arena (in JavaScript a row above or below the arena is `undefined`, and writing into it throws; a column at or past the row's end is an array index, so the write lengthens that row beyond 12 cells; only a negative column adds a stray non-index property to the row). "The piece does not collide" cannot stand in for this: it is not an invariant of the session, since an abandoned rotation and a game-over spawn both break it.
- Tetris.Game.LockPiece is the locking branch of `playerDrop` written out as its own method. `Tetris.MergePiece` is `merge(arena, player)` written on the arena's value and the piece matrix.
- Tetris.Game.ClearArena assigns each row of the `arena` sequence in turn rather than filling shared row objects. The arena is a value here, so aliasing between row objects is not modelled.
- Tetris.Game.WallKick runs the search loop (`Tetris.KickSearch`) on a local x and assigns the field once at the end, rather than moving `player.pos.x` at every step. The positions tested, their order and the final x are the same.
- Tetris.Game.ArenaSweep runs its loop (`Tetris.SweepRows`, one turn at a time in `Tetris.SweepStep`) on a sequence value and then assigns the result to the `arena` field, rather than splicing and unshifting the array object in place. The order of row moves and the re-examined index are kept. Row objects being moved rather than copied is not modelled.

## Findings

| source | as written | input that shows it | evidently intended | confidence | as-written member | corrected member |
|---|---|---|---|---|---|---|
| java.js:131-134 | when the wall-kick search gives up, `rotate` is called a second time, clockwise, so the piece ends half a turn from where it started, and nothing re-checks collision | an upright I piece at x = 10 on any arena: every tested shift runs the lying bar off the right wall, and the second turn leaves the bar in column 12, off the board | an abandoned rotation leaves the piece exactly as it was | not executed | Tetris.Game.PlayerRotate, Tetris.AbandonedTurnAtRightWall | Tetris.Game.PlayerRotateUndoing |
