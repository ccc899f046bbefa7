# Reversi move rules, modelled and verified in Dafny

This project models the move-rule engine in `reversi.c`. The board is a square
grid of `char` cells with side `n <= 26`. A cell holds `'U'` when it is empty,
`'W'` for white and `'B'` for black. The engine does five things:

- It tests whether a coordinate is on the board.
- It scans one of the eight rays from a candidate cell for a sandwich: one or
  more opponent tiles closed off by one of the mover's own tiles.
- It flips the sandwiched run.
- It sets up the opening position.
- It lists every available move, and checks and plays a three-character move
  (colour, row letter, column letter).

Modules:

- `Board` (`board.dfy`) holds the board as an `array2<char>`. `Cells` views
  the array's contents as a value of type `Grid` (rows of cells). The module
  also has the bounds test, painting of cell sets, and `init_board`.
- `Rays` (`rays.dfy`) holds the ray geometry, the sandwich rule, and the two
  in-place ray walks of the source: the scan of `checkLegalInDirection` and
  the write loop of `flip`. Each walk is written as a `while` method on the
  array. It is proved equal to a cell-by-cell function (`ScanFrom`,
  `FlipFrom`), and that function is proved equal to a declarative statement
  (`LegalInDirection`, `FlipGrid`).
- `Moves` (`moves.dfy`) holds the direction loops, `get_available_moves`
  (returning its listing instead of printing it), move decoding and
  `check_valid_move`.

The direction loops of `check_valid_move` re-scan each direction on the board
as the earlier flips left it, exactly as the C does. `LoopGrid` models that
partly flipped board. The main argument is non-interference. Rays in
different directions from one origin share no cell, and the target cell is
written only after the loops. So every scan answers as it would on the
original board (`FlipStepInLoop`, `LoopGridIsFlippedBelow`). The loops
therefore flip exactly the union of the capturing runs computed on the
original board (`LoopGridDone`).

## Model

| member | source | states |
|---|---|---|
| Board.Positions | reversi.c:30-32 | A coordinate is one of the n x n board cells exactly when positionInBounds holds: 0 <= row < n and 0 <= col < n. |
| Board.InitBoard | reversi.c:70-81 | On an n x n array with 2 <= n <= 26, the board afterwards is exactly the opening grid, whatever it held before. |
| Board.InitialGridLayout | reversi.c:77-80 | The opening grid has 'W' at (n/2-1, n/2-1) and (n/2, n/2) and 'B' at (n/2, n/2-1) and (n/2-1, n/2). Its occupied cells are exactly those four centre cells, and every other cell is 'U'. |
| Board.SetTile | reversi.c:197 | Writing the player's tile changes that one cell and no other. |
| Rays.CheckLegalInDirection | reversi.c:34-68 | For every non-zero direction the loop terminates without changing the board. It returns true exactly when the ray ahead starts with one or more opponent tiles (neither 'U' nor the mover's) directly followed, still on the board, by a tile of the mover's colour. |
| Rays.ScanFromDecidesSandwich | reversi.c:44-65 | The cell-by-cell walk stops with false at 'U' or at the edge, crosses opponent tiles, and stops at an own tile with the found flag. It answers true exactly when the tiles ahead are an opponent run closed by an own tile, the run being allowed to be empty once the flag is set. |
| Rays.ScanDecidesLegality | reversi.c:37-67 | The walk started one step from the origin with the flag cleared decides the sandwich rule in that direction. |
| Rays.Flip | reversi.c:144-158 | The loop terminates for every non-zero direction and leaves the board equal to the original with the run painted the mover's colour. The run is the ray up to its first cell holding that colour. |
| Rays.FlipFromIsFlipGrid | reversi.c:150-157 | Overwriting cell by cell until an own tile or the edge paints exactly the run and nothing else. |
| Rays.FlipWritesExactlyRun | reversi.c:144-158 | Along a legal direction the run is the k >= 1 opponent tiles before the closing own tile. Flipping sets exactly those cells to the mover's colour. The closing tile and the origin lie outside the run and keep their contents. |
| Rays.RunIsCaptured | reversi.c:50-57 | Along a legal direction, every cell of the run is on the board, lies on the ray and holds an opponent tile. |
| Rays.RaysDisjoint | reversi.c:181-187 | The rays of two different compass directions from one origin share no cell. |
| Rays.FlipKeepsOtherDirections | reversi.c:189-192 | Flipping one direction changes neither the legality nor the run of any other direction from the same origin. |
| Moves.EightDirections | reversi.c:181-187 | The pairs the direction loops visit are exactly the eight pairs (dr, dc) in {-1, 0, 1}^2 other than (0, 0). |
| Moves.EmptyNeverCaptures | reversi.c:50-51 | A move with colour 'U' never captures in any direction, because a 'U' cell always ends the scan with false. |
| Moves.IsPlayable | reversi.c:113-135 | Trying the directions in loop order and stopping at the first capture returns true exactly when some direction captures. The board is only read. |
| Moves.RowAvailableMoves | reversi.c:106-140 | One row of the scan lists exactly that row's available cells, left to right. |
| Moves.GetAvailableMoves | reversi.c:101-142 | The returned listing equals `AvailableMoves` of the board, and the board is not modified. |
| Moves.MovesBeforeSorted | reversi.c:105-106 | The listing of the first i rows is in strict row-major order and stays above row i. |
| Moves.AvailableMovesExact | reversi.c:105-141 | The listing contains exactly the empty on-board cells where the colour captures in some direction. It is in strict row-major order, with no position listed twice. |
| Moves.DecodeEncode | reversi.c:164-168 | Decoding the three characters of an encoded move (colour, then 'a' + row, then 'a' + column) gives back the move. |
| Moves.EncodeDecode | reversi.c:164-168 | A move string whose letters lie in 'a'..'z' is the encoding of what it decodes to. |
| Moves.FlipIfLegal | reversi.c:189-192 | One loop turn returns whether the direction captures on the current board, and flips its run exactly when it does. |
| Moves.FlipAllDirections | reversi.c:178-194 | The loops report true exactly when some direction captures on the board as it was before them. They leave the board equal to `LoopGrid`, the board after all eight turns. |
| Moves.FlipStepInLoop | reversi.c:181-194 | At each turn, the scan on the board that earlier flips left behind answers as on the original board. A capturing turn adds exactly its original run to the flipped cells, and a non-capturing turn adds nothing. |
| Moves.LoopGridIsFlippedBelow | reversi.c:181-194 | After each step of the loops the board equals the original board with the runs of all earlier capturing directions painted. |
| Moves.CapturedIff | reversi.c:181-194 | A cell is flipped by the loops exactly when it lies in the run of some direction that captures on the original board. |
| Moves.LoopGridDone | reversi.c:181-194 | When the loops end, the board is the original board with every captured cell painted the mover's colour. |
| Moves.LoopGridWithoutCapture | reversi.c:174-200 | When no direction captures, the loops change nothing. |
| Moves.PlaceTile | reversi.c:196-198 | Placing the tile after the loops yields `AfterMove`: the target and every captured cell take the player's colour. |
| Moves.CheckValidMove | reversi.c:161-201 | The result is true exactly when the decoded target is on the board, holds 'U', and some direction captures on the original board. On true the board becomes `AfterMove`. On false the board is unchanged, which covers all three rejections: off the board, occupied, and no capture. |
| Moves.AfterMoveEffect | reversi.c:189-198 | After an accepted move the target and every captured cell hold the player's colour, and every other cell is unchanged. |
| Moves.CapturedCell | reversi.c:181-194 | Every captured cell is on the board and held an opponent tile on the ray of a direction that captured before the move. |
| Moves.ChangedCellsWereCaptured | reversi.c:181-198 | Every changed cell other than the target held an opponent tile, now holds the player's colour, and lies on the ray of a direction that was legal before the move. |
| Moves.CapturingRunsTurned | reversi.c:189-192 | In every direction that captures, every cell of its run holds the player's colour after the move. |
| Moves.ListedIffAccepted | reversi.c:105-142 | A cell is listed by get_available_moves for a colour exactly when check_valid_move accepts the encoded move of that colour at that cell. |
| Moves.UncheckedReadEscapes | reversi.c:170-171 | For the move "W`a" the row decodes to -1. The occupancy read at line 171 then falls outside the array, while the bounds test rejects the move on every board. |

## Left out

- `printBoard` (reversi.c:13-28) and the `printf` calls of `get_available_moves` (reversi.c:103, reversi.c:138) are console output. The listing is returned as a sequence of coordinates instead.
- `configure_board` (reversi.c:83-98) reads input with `scanf` and writes unchecked coordinates, so it is I/O rather than game logic. `main` (reversi.c:203-240) only sequences input and output.
- The C reads the target cell at reversi.c:171 before the bounds test. For an off-board move that reads outside the array. `Moves.CheckValidMove` reads the cell only after `PositionInBounds` succeeds. This is a deliberate safety strengthening, and the results are the same for every move (see Findings).
- The board is an `n x n` array and not the C's `char board[][26]`. The 26-column capacity survives only as the precondition `n <= 26`. Cells outside the `n x n` area are not modelled.
- The move string is a `seq<char>` of length at least 3. The C reads `move[0..2]` with no length check, which shorter strings fail.
- Letters are decoded as `c - 'a'` on code points. Any character is accepted and yields a possibly negative or large index, which the bounds test then rejects.

## Findings

| source | as written | input that shows it | evidently intended | confidence | as-written member | corrected member |
|---|---|---|---|---|---|---|
| reversi.c:170-171 | `board[row][col]` is read before `on_board` is tested, so an off-board move reads outside the array | move "W`a" (row -1) on any board | test the bounds first and read the cell only for on-board targets | not executed | Moves.UncheckedReadEscapes | Moves.CheckValidMove |
