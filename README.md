# Grid game engines of SimpleGamesArcade, in Dafny

This project models the step logic of three arcade games written as React components in
TypeScript, and proves properties of each:

- **Tile-merge puzzle** (`Game2048.tsx`, module `Game2048`). The board is a 4x4 grid of
  numbers, where 0 means an empty cell.
  - `move` turns every arrow into a left slide: it turns the grid clockwise 0 to 3 times,
    then packs and merges every row, then turns the grid back.
  - After a move that changed something, `addRandomTile` puts a 2 (90%) or a 4 into a
    random empty cell.
  - `isGameOver` holds when the grid is full and no two neighbours are equal.
  - The component (`Game`) adds the merge score and reports the score through `onGameOver`.
  - The model proves:
    - the rotation round trips;
    - the shape of each packed row;
    - that each tile merges at most once;
    - that the tile total is kept and the score never drops;
    - that `moved` holds exactly when the grid changed;
    - that a stuck grid never moves;
    - the exact effect of adding a tile.
- **Falling-block puzzle** (`TetroTilesGame.tsx`, module `TetroTiles`). The board is 10x20,
  and each cell is empty or holds a colour. A piece is a 0/1 shape matrix anchored at a
  board position.
  - `isValidMove` is the collision test. Rows above the top are allowed.
  - `rotatePiece` and `movePiece` change the piece only when the new placement passes that
    test.
  - `dropPiece` does one of three things:
    - it lowers the piece one row;
    - it ends the game when a piece on row 0 cannot fall;
    - or it locks the piece, removes the full rows, puts empty rows on top, and scores
      `[0,100,300,500,800][lines] * (level + 1)`.
  - The level effect raises the level to `floor(linesCleared / 10)`.
  - The component is the class `Game`. Its invariant holds:
    - the board has no full row;
    - a piece below row 0 always fits;
    - so one lock clears at most four lines, and the score table is never read out of range.
- **Snake** (`SnakeGame.tsx`, module `Snake`). The snake lives on a 20x20 grid, stored head
  first. On each tick the head moves one cell.
  - If the head leaves the grid or lands on any segment, tail included, the game ends and
    the snake is kept.
  - If the head lands on the food, the snake grows and scores a point.
  - Otherwise the tail follows.
  - The class `SnakeGame` keeps the body on the grid, free of repeated cells and connected.
    It also keeps `score = length - 1`.

Randomness is modelled as parameters: each `Math.random()` call becomes a real `roll` in
[0, 1), and the index it picks is `floor(roll * n)` (`Common.RandomIndex`). Methods with
loops are proved against specification functions. The components are classes whose
methods update their fields. Calls to `onGameOver` are recorded in a `reported` sequence.

Two places in the code do not do what the game evidently intends. Both are described under
"## Findings":
- ArrowUp and ArrowDown are swapped in the tile-merge puzzle.
- Two key presses in one tick can reverse the snake.

In each case the as-written behaviour is modelled and exhibited by a lemma. The component
classes use the corrected rule.

## Model

| member | source | states |
|---|---|---|
| Common.RandomIndex | frontend/src/components/game/Game2048.tsx:21 | `Math.floor(Math.random() * n)` is always a valid index below n |
| Common.KeyDirection | frontend/src/components/game/Game2048.tsx:111-118 | ArrowUp, ArrowDown, ArrowLeft and ArrowRight name up, down, left and right, each exactly that key, and every other key names no direction (the same switch drives the snake handler, SnakeGame.tsx:69-74) |
| Game2048.EmptyGrid | frontend/src/components/game/Game2048.tsx:9 | the new grid is 4x4 and every cell is 0 |
| Game2048.RotatedMovesCell | frontend/src/components/game/Game2048.tsx:38-46 | one turn sends the tile in row y, column x to row x, column 3 - y |
| Game2048.RotateGrid | frontend/src/components/game/Game2048.tsx:38-46 | the cell-by-cell copy into a fresh grid produces exactly the quarter turn |
| Game2048.HalfTurn | frontend/src/components/game/Game2048.tsx:38-46 | two turns send row y, column x to row 3 - y, column 3 - x |
| Game2048.FullTurn | frontend/src/components/game/Game2048.tsx:38-46 | four turns give back the original grid |
| Game2048.TurnsAdd | frontend/src/components/game/Game2048.tsx:53-55 | a turns followed by b turns is a + b turns |
| Game2048.TurnsCancel | frontend/src/components/game/Game2048.tsx:48-84 | k turns before the pass and (4 - k) % 4 after it cancel out for every k the rotation table can produce |
| Game2048.TurnsInjective | frontend/src/components/game/Game2048.tsx:53-55 | turning is one-to-one, so the turned grid changed exactly when the original did |
| Game2048.NonZero | frontend/src/components/game/Game2048.tsx:59 | the filter keeps only non-zero tiles and never lengthens the row |
| Game2048.Merged | frontend/src/components/game/Game2048.tsx:61-70 | the merge scan never lengthens the row and keeps tiles non-zero and positive |
| Game2048.SlidRow | frontend/src/components/game/Game2048.tsx:59-73 | a packed row always has the grid width |
| Game2048.RowPassShape | frontend/src/components/game/Game2048.tsx:59-73 | after the pass a row has width 4, starts with the merged tiles (all non-zero) and has only zeros after them |
| Game2048.ThreeEqualTilesMergeOnce | frontend/src/components/game/Game2048.tsx:61-70 | three equal tiles merge once, at the leading end: [2,2,2,0] gives [4,2,0,0] |
| Game2048.FourEqualTilesMergePairwise | frontend/src/components/game/Game2048.tsx:61-70 | four equal tiles merge pairwise and a doubled tile does not merge again: [2,2,2,2] gives [4,4,0,0] |
| Game2048.PaddedSum | frontend/src/components/game/Game2048.tsx:71-73 | the zero padding keeps the tile sum |
| Game2048.SumConcat | frontend/src/components/game/Game2048.tsx:71-73 | helper of `NonZeroKeepsSum`, `MergeKeepsSum` and `PaddedSum`: the tile sum of two joined pieces of a row is the sum of their sums |
| Game2048.SumZeros | frontend/src/components/game/Game2048.tsx:71-73 | helper of `PaddedSum`: a run of zeros, such as the padding, sums to 0 |
| Game2048.NonZeroKeepsSum | frontend/src/components/game/Game2048.tsx:59 | dropping the empty cells keeps the tile sum |
| Game2048.MergeKeepsSum | frontend/src/components/game/Game2048.tsx:61-70 | replacing two equal tiles by their double keeps the tile sum |
| Game2048.RowPassKeepsSum | frontend/src/components/game/Game2048.tsx:59-73 | the whole row pass keeps the tile sum |
| Game2048.GainSingleMerge | frontend/src/components/game/Game2048.tsx:61-66 | the score of a pass lies between 0 and the tile sum, and is 0 exactly when nothing merged |
| Game2048.SlidLeft | frontend/src/components/game/Game2048.tsx:57-80 | the pass over every row yields a 4x4 grid |
| Game2048.PassKeepsTotal | frontend/src/components/game/Game2048.tsx:57-80 | the pass over all four rows keeps the sum of all tiles |
| Game2048.Turns | frontend/src/components/game/Game2048.tsx:48-51 | the rotation table as written: left 0, up 1, right 2, down 3, always below 4 |
| Game2048.Slide | frontend/src/components/game/Game2048.tsx:53-84 | turning, passing every row and turning back yields a 4x4 grid |
| Game2048.SlideChanges | frontend/src/components/game/Game2048.tsx:57-84 | the returned grid differs from the input exactly when some row of the turned grid changed in the pass |
| Game2048.MergeStep | frontend/src/components/game/Game2048.tsx:61-70 | one step of the scan: two equal tiles at i give their double and the scan resumes at i + 2; otherwise the tile is kept and the scan resumes at i + 1 |
| Game2048.MergeScan | frontend/src/components/game/Game2048.tsx:60-70 | the scan loop with its `i++` skip pushes exactly the merged row and adds up exactly the merged values |
| Game2048.PadRow | frontend/src/components/game/Game2048.tsx:71-73 | the padding loop appends zeros up to the grid width and nothing else |
| Game2048.PassRow | frontend/src/components/game/Game2048.tsx:58-79 | the loop over one row (push, merge with i++, pad with zeros) returns the packed row and the sum of the merged values |
| Game2048.RowsDifferExact | frontend/src/components/game/Game2048.tsx:75-77 | the flag set row by row is set after n rows exactly when one of those rows differs |
| Game2048.GridsDiffer | frontend/src/components/game/Game2048.tsx:75-77 | the flag after all four rows is set exactly when the grids differ |
| Game2048.PassRows | frontend/src/components/game/Game2048.tsx:57-80 | the loop over the rows replaces every row by its packed row, adds up the whole score of the pass, and sets `moved` exactly when the grid changed |
| Game2048.Move | frontend/src/components/game/Game2048.tsx:33-87 | as written: the grid after the turned slide, its merge score, and `moved` exactly when the grid changed |
| Game2048.MoveTurned | frontend/src/components/game/Game2048.tsx:53-86 | for any turn count, the rotate, pass and rotate-back loops return the turned slide and its score, and `moved` holds exactly when the result differs from the input |
| Game2048.RotationKeepsTotal | frontend/src/components/game/Game2048.tsx:38-46 | a turn keeps the sum of all tiles |
| Game2048.TurnsKeepTotal | frontend/src/components/game/Game2048.tsx:53-55 | any number of turns keeps the sum of all tiles |
| Game2048.SlideKeepsTotal | frontend/src/components/game/Game2048.tsx:33-87 | a move in any direction keeps the sum of all tiles |
| Game2048.Sum4 | frontend/src/components/game/Game2048.tsx:38-46 | helper of `RotationKeepsTotal`: the tile sum of a 4-cell row or column is the sum of its four cells |
| Game2048.NonZeroPositive | frontend/src/components/game/Game2048.tsx:59 | on a row without negative values the filter leaves only positive tiles |
| Game2048.TurnsKeepNoNegative | frontend/src/components/game/Game2048.tsx:53-55 | turning never creates a negative tile |
| Game2048.RowsGainNonNegative | frontend/src/components/game/Game2048.tsx:65 | the score a pass adds is never negative |
| Game2048.SlidRowNonNegative | frontend/src/components/game/Game2048.tsx:59-73 | a row without negative values stays without negative values through the pass |
| Game2048.SlidLeftNoNegative | frontend/src/components/game/Game2048.tsx:57-80 | the pass over all rows creates no negative tile |
| Game2048.SlideNonNegative | frontend/src/components/game/Game2048.tsx:33-87 | on a grid without negative values a move adds a non-negative score and creates no negative tile |
| Game2048.IsGameOver | frontend/src/components/game/Game2048.tsx:90-104 | true exactly when no cell is 0 and no two horizontal or vertical neighbours are equal |
| Game2048.StuckRotated | frontend/src/components/game/Game2048.tsx:90-104 | a turned stuck grid is still stuck |
| Game2048.StuckTurns | frontend/src/components/game/Game2048.tsx:90-104 | a stuck grid stays stuck under any number of turns |
| Game2048.NonZeroOfFullRow | frontend/src/components/game/Game2048.tsx:59 | the filter leaves a row with no empty cell unchanged |
| Game2048.NoMergeWithoutPairs | frontend/src/components/game/Game2048.tsx:61-70 | a row with no two equal neighbours passes through the merge scan unchanged and scores nothing |
| Game2048.StuckPassFixed | frontend/src/components/game/Game2048.tsx:57-80 | on a stuck grid the pass changes no row and scores nothing |
| Game2048.NoGainRows | frontend/src/components/game/Game2048.tsx:65 | when no row scores, no number of rows scores |
| Game2048.StuckNoMove | frontend/src/components/game/Game2048.tsx:33-104 | on a stuck grid no direction moves a tile or scores |
| Game2048.EmptyInRowExact | frontend/src/components/game/Game2048.tsx:14-18 | the cells collected from a row are exactly its empty cells left of the scan position |
| Game2048.EmptyInRowsExact | frontend/src/components/game/Game2048.tsx:13-19 | the cells collected from the rows scanned so far are exactly their empty cells |
| Game2048.EmptyCellsExact | frontend/src/components/game/Game2048.tsx:11-20 | the list holds exactly the empty cells, and it is empty exactly when the grid has no 0 |
| Game2048.GetRandomEmptyCell | frontend/src/components/game/Game2048.tsx:11-22 | null exactly when no cell is empty; otherwise an empty cell of the grid, namely the one at floor(roll * count) in row-major order |
| Game2048.TileValue | frontend/src/components/game/Game2048.tsx:28 | the new tile is 2 when the roll is below 0.9 and 4 otherwise |
| Game2048.WithTile | frontend/src/components/game/Game2048.tsx:24-31 | adding a tile yields a 4x4 grid |
| Game2048.SpawnChangesOneCell | frontend/src/components/game/Game2048.tsx:24-31 | a grid without an empty cell comes back unchanged; otherwise exactly one cell changes, and it goes from 0 to 2 or 4 |
| Game2048.SpawnKeepsNoNegative | frontend/src/components/game/Game2048.tsx:28 | adding a tile creates no negative value |
| Game2048.AddRandomTile | frontend/src/components/game/Game2048.tsx:24-31 | the copy-and-write yields the grid of `WithTile` for the two rolls |
| Game2048.StartGrid | frontend/src/components/game/Game2048.tsx:107 | the empty grid with two tiles added is 4x4 and has no negative value |
| Game2048.InitialGrid | frontend/src/components/game/Game2048.tsx:107 | building the empty grid and calling `addRandomTile` twice yields that starting grid |
| Game2048.Game.constructor | frontend/src/components/game/Game2048.tsx:106-108 | the state starts from that grid with score 0, and nothing is reported |
| Game2048.Game.HandleKeyDown | frontend/src/components/game/Game2048.tsx:110-136 | a non-arrow key changes nothing. For an arrow key (corrected turn counts): a move that changed the grid adds a tile and its merge score; a move that changed nothing keeps grid and score. In both cases `onGameOver` receives the score whenever the grid is stuck afterwards, again on every later arrow key once stuck. The score never drops and no negative tile appears |
| Game2048.Game.AddTileAndScore | frontend/src/components/game/Game2048.tsx:122-133 | after a move that changed the grid, the grid is the moved grid with one tile added, the score grows by the merge score, and the new score is reported exactly when the new grid is stuck |
| Game2048.Game.ReportIfStuck | frontend/src/components/game/Game2048.tsx:134-136 | after a move that changed nothing, the score is reported exactly when the grid is stuck; nothing else changes |
| Game2048.ThreeTurns | frontend/src/components/game/Game2048.tsx:38-46 | three turns send row y, column x to row 3 - x, column y |
| Game2048.OneTurnSlidesDown | frontend/src/components/game/Game2048.tsx:38-84 | one clockwise turn, the pass and three more turns slide every column toward the bottom row |
| Game2048.ThreeTurnsSlideUp | frontend/src/components/game/Game2048.tsx:38-84 | three clockwise turns, the pass and one more turn slide every column toward the top row |
| Game2048.TwoTurnsSlideRight | frontend/src/components/game/Game2048.tsx:38-84 | two turns, the pass and two more turns slide every row toward the right edge |
| Game2048.NoTurnSlidesLeft | frontend/src/components/game/Game2048.tsx:53-84 | with no turn the move is the pass itself, sliding every row toward the left edge |
| Game2048.ArrowsAsWritten | frontend/src/components/game/Game2048.tsx:48-84 | as written, 'up' slides every column toward the bottom row and 'down' toward the top row, while 'left' and 'right' slide toward the side they name |
| Game2048.UpArrowCounterexample | frontend/src/components/game/Game2048.tsx:48-55 | as written, a lone 2 in the top-left cell ends in the bottom-left cell after ArrowUp |
| Game2048.IntendedTurns | frontend/src/components/game/Game2048.tsx:48-51 | the corrected rotation table: left 0, down 1, right 2, up 3 |
| Game2048.IntendedArrows | frontend/src/components/game/Game2048.tsx:48-84 | with the corrected table every arrow slides the tiles toward the side it names: up to the top row, down to the bottom row, left and right to those edges |
| Game2048.IntendedMove | frontend/src/components/game/Game2048.tsx:33-87 | corrected `move`: every arrow (up, down, left and right) slides toward the side it names, with the merge score, and `moved` exactly when the grid changed |
| TetroTiles.KindShape | frontend/src/components/game/TetroTilesGame.tsx:8-16 | every tetromino shape is rectangular and fits in a 4x4 box |
| TetroTiles.KindColor | frontend/src/components/game/TetroTilesGame.tsx:8-16 | every tetromino colour is a non-empty class name, so a locked cell is truthy |
| TetroTiles.RandomPiece | frontend/src/components/game/TetroTilesGame.tsx:34-42 | the spawned piece is one of the seven tetrominoes with its own colour, on row 0, with its columns inside the board |
| TetroTiles.EmptyRow | frontend/src/components/game/TetroTilesGame.tsx:20 | an empty row has width 10 and all cells null |
| TetroTiles.EmptyBoard | frontend/src/components/game/TetroTilesGame.tsx:20 | the new board is 10x20 with every row empty |
| TetroTiles.IsValidMove | frontend/src/components/game/TetroTilesGame.tsx:44-57 | true exactly when every filled square lands at 0 <= x < 10 and y < 20, and either above the top row or on an empty cell |
| TetroTiles.FitsOnBoard | frontend/src/components/game/TetroTilesGame.tsx:44-94 | a fitting piece anchored on or below row 0 lies entirely on the board, so locking it writes only board cells |
| TetroTiles.SpawnFitsEmpty | frontend/src/components/game/TetroTilesGame.tsx:34-57 | a spawned piece fits on the empty board |
| TetroTiles.RotatedShape | frontend/src/components/game/TetroTilesGame.tsx:62 | rotation swaps the shape's dimensions and keeps it rectangular and within 4x4 |
| TetroTiles.RotatedShapeMoves | frontend/src/components/game/TetroTilesGame.tsx:62 | square (k, c) goes to square (c, rows - 1 - k) |
| TetroTiles.ShapeHalfTurn | frontend/src/components/game/TetroTilesGame.tsx:62 | two rotations flip the shape upside down and mirror it |
| TetroTiles.ShapeFullTurn | frontend/src/components/game/TetroTilesGame.tsx:62 | four rotations give back the original shape |
| TetroTiles.Locked | frontend/src/components/game/TetroTilesGame.tsx:90-97 | the locked board is again 10x20 |
| TetroTiles.LockPiece | frontend/src/components/game/TetroTilesGame.tsx:90-97 | the piece colour is written into exactly the filled shape squares offset by the anchor, and every other cell is unchanged |
| TetroTiles.Kept | frontend/src/components/game/TetroTilesGame.tsx:101 | the filter keeps only rows that are not full, all taken from the board, and never lengthens it |
| TetroTiles.KeptCount | frontend/src/components/game/TetroTilesGame.tsx:101-102 | surviving rows plus full rows make up the board, so `linesRemoved` counts the full rows |
| TetroTiles.KeptExact | frontend/src/components/game/TetroTilesGame.tsx:101 | a row survives exactly when it is a row of the board that is not full |
| TetroTiles.Blank | frontend/src/components/game/TetroTilesGame.tsx:103-105 | the prepended block has the requested number of rows |
| TetroTiles.ClearedShape | frontend/src/components/game/TetroTilesGame.tsx:100-105 | the cleared board is 10x20 with no full row, starts with one empty row per full row removed, and continues with the surviving rows in their order |
| TetroTiles.FillToHeight | frontend/src/components/game/TetroTilesGame.tsx:103-105 | the `unshift` loop puts exactly enough empty rows on top to reach 20 rows |
| TetroTiles.ClearLines | frontend/src/components/game/TetroTilesGame.tsx:100-105 | the result is 10x20 with no full row; `linesRemoved` is the number of full rows; empty rows come first and the surviving rows follow in their order |
| TetroTiles.FullCountWindow | frontend/src/components/game/TetroTilesGame.tsx:101-102 | if every full row lies in a window of rows, there are no more full rows than the window is tall |
| TetroTiles.LockedFullRows | frontend/src/components/game/TetroTilesGame.tsx:90-111 | locking onto a board without full rows fills at most as many rows as the shape has, so `linePoints[linesRemoved]` is always in range |
| TetroTiles.LockAndClear | frontend/src/components/game/TetroTilesGame.tsx:89-105 | on a board without full rows, locking a fitting piece and clearing gives the cleared locked board and at most 4 removed lines, and leaves no full row |
| TetroTiles.LineScore | frontend/src/components/game/TetroTilesGame.tsx:110-111 | the award is 0 exactly when no line was removed, and otherwise at least 100 per line times (level + 1) |
| TetroTiles.Game.constructor | frontend/src/components/game/TetroTilesGame.tsx:24-30 | empty board, two random pieces, everything else zero or false |
| TetroTiles.Game.RotatePiece | frontend/src/components/game/TetroTilesGame.tsx:59-69 | the piece takes the rotated shape exactly when that shape fits at its position; board and score are untouched |
| TetroTiles.Game.MovePiece | frontend/src/components/game/TetroTilesGame.tsx:71-76 | the piece moves one column by dir exactly when it fits there; only the piece can change |
| TetroTiles.Game.DropPiece | frontend/src/components/game/TetroTilesGame.tsx:78-120 | if the piece fits one row lower it moves down and nothing else changes. Otherwise a piece on row 0 ends the game, reporting the score, with the board unchanged. Otherwise the piece is locked, the board is cleared, at most 4 lines are counted and scored at the current level, and the next piece comes in with a new random next piece |
| TetroTiles.Game.UpdateLevel | frontend/src/components/game/TetroTilesGame.tsx:133-139 | the level becomes floor(linesCleared / 10) and never decreases |
| Snake.RandomPosition | frontend/src/components/game/SnakeGame.tsx:10-13 | both coordinates lie in 0..19; any cell may be drawn, even one under the snake |
| Snake.Stepped | frontend/src/components/game/SnakeGame.tsx:27-35 | the new head is next to the old one, one cell up, down, left or right as the direction says |
| Snake.NextHead | frontend/src/components/game/SnakeGame.tsx:28-35 | the switch on the direction moves the head exactly one step in that direction |
| Snake.HitsBody | frontend/src/components/game/SnakeGame.tsx:43-49 | the scan over the segments finds a hit exactly when the head is on some segment, tail included |
| Snake.Opposite | frontend/src/components/game/SnakeGame.tsx:70-73 | no direction is its own opposite |
| Snake.OppositeStepsCancel | frontend/src/components/game/SnakeGame.tsx:27-35 | a step followed by a step the opposite way comes back, and the opposite of the opposite is the direction itself |
| Snake.Turned | frontend/src/components/game/SnakeGame.tsx:68-74 | as written: an arrow key sets the direction unless it is the opposite of the current direction; the result is never that opposite |
| Snake.QuickTurnsReverse | frontend/src/components/game/SnakeGame.tsx:68-73 | as written: ArrowLeft alone cannot reverse a snake moving right, but ArrowUp then ArrowLeft in one tick turns it to the left |
| Snake.ReverseHitsNeck | frontend/src/components/game/SnakeGame.tsx:43-49 | a step opposite to the last one lands on the second segment, which the collision scan treats as game over |
| Snake.SteppedDistinct | frontend/src/components/game/SnakeGame.tsx:27-35 | different directions lead to different cells |
| Snake.SafeTurned | frontend/src/components/game/SnakeGame.tsx:68-74 | corrected rule: an arrow key sets the direction unless it is the opposite of the last step taken |
| Snake.SafeTurnsNeverReverse | frontend/src/components/game/SnakeGame.tsx:68-74 | under the corrected rule no series of key presses between two ticks points the snake back along its last step |
| Snake.NeverIntoNeck | frontend/src/components/game/SnakeGame.tsx:27-49 | a head that does not step back along its last step never lands on the second segment |
| Snake.GrowKeepsBody | frontend/src/components/game/SnakeGame.tsx:37-53 | a new head on the grid, next to the old head and on no segment, keeps the body on the grid, free of repeated cells and connected |
| Snake.PrefixKeepsBody | frontend/src/components/game/SnakeGame.tsx:59-60 | dropping tail segments keeps the body well formed |
| Snake.SnakeGame.constructor | frontend/src/components/game/SnakeGame.tsx:16-21 | one segment at (10, 10), heading right, score 0, food on a random cell |
| Snake.SnakeGame.MoveSnake | frontend/src/components/game/SnakeGame.tsx:23-64 | nothing changes after game over. Otherwise the head moves one cell. Off the grid or onto any segment, tail included, the game ends with snake, food and score unchanged. Onto the food, the head is prepended, the length and score grow by 1 and the food moves to a random cell. Otherwise the head is prepended and the last segment dropped. The body stays well formed, the score stays length - 1, and the head never lands on the second segment (under the corrected direction rule) |
| Snake.SnakeGame.ChangeDirection | frontend/src/components/game/SnakeGame.tsx:66-78 | the direction follows the corrected keydown rule |

## Left out

- Rendering, sound effects (`playSfx`), `preventDefault` and binding the keydown listeners are not modelled. This includes the 2048 tile colours, the falling-block display grid that overlays the falling piece, and the snake drawing.
- Timing is not modelled: the snake speed (`Math.max(50, s * 0.95)`), the falling-block drop interval (`1000 / (newLevel + 1) + 200`) and the `requestAnimationFrame` loop are floating-point timer values, not game state. A tick is a call of `DropPiece` or `MoveSnake`.
- The falling-block keydown handler is a plain dispatch to `MovePiece`, `DropPiece` and `RotatePiece` that ignores keys after game over. It is not modelled separately. `DropPiece` itself does not check `isGameOver`, just as `dropPiece` does not.
- The snake `onGameOver` effect, which reports the score once `isGameOver` is set, is not modelled. `MoveSnake` leaves the score unchanged when the game ends, so the score that effect passes is the one `MoveSnake` ends with.
- React state batching and stale closures are not modelled: each handler runs to completion on the current state. The 2048 component's `useState(addRandomTile(addRandomTile(...)))` initial value is modelled once, as `InitialGrid`.
- JavaScript numbers are doubles. Tile values, scores and line counts are modelled as unbounded integers; the games stay far below 2^53.
- Randomness: every `Math.random()` call is a caller-supplied roll in [0, 1). The snake food may land on the snake; this is modelled as written.
- Game2048.Game.HandleKeyDown: uses the corrected turn counts (`IntendedTurns`), not the code's; the code's mapping is modelled by `Move` and `Turns`.
- Snake.SnakeGame.ChangeDirection: compares the key with the last step taken (a field `lastStep` the code does not have), not with the current direction; the code's rule is modelled by `Turned`.
- Snake.SnakeGame.MoveSnake: does not model the speed change on eating. Its invariant `Valid()` assumes the corrected direction rule of `ChangeDirection` (the direction is never the opposite of the last step), so it excludes a state the code as written can reach (`QuickTurnsReverse`); in that state the code's next step lands on the second segment and ends the game (`ReverseHitsNeck`).

## Findings

| source | as written | input that shows it | evidently intended | confidence | as-written member | corrected member |
|---|---|---|---|---|---|---|
| frontend/src/components/game/Game2048.tsx:48-51 | `rotateGrid` turns clockwise, so 'up' (one turn) slides every column toward the bottom row and 'down' (three turns) toward the top row | a grid with a single 2 in the top-left cell; after ArrowUp the 2 is in the bottom-left cell | 'up' takes three turns and 'down' one, so each arrow slides the tiles toward the side it names | high, not executed | Game2048.UpArrowCounterexample | Game2048.IntendedMove |
| frontend/src/components/game/SnakeGame.tsx:68-73 | the reversal test compares the key with `directionRef.current`, which an earlier key press in the same tick may already have changed | a snake of two or more segments moving right; ArrowUp then ArrowLeft before the next tick set the direction to left, and the next step lands on the second segment and ends the game | a key is refused when it is the opposite of the last step taken, so no same-tick reversal can run the head into the second segment | medium, not executed | Snake.QuickTurnsReverse | Snake.SafeTurnsNeverReverse |
