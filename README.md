# Terminal Tetris: the game-state engine

This project models the engine of a small terminal Tetris game written in C#.
It covers the occupancy board, the active piece and its rotation tables, the
collision tests, the guarded move, rotate and hard-drop commands, locking a
piece into the board, the row-clearing scan, the timer's turn step and the
overlay half of rendering.

Modules and files:

- `coordinate.dfy`, module `Coordinates`: the `Coordinate` value type and
  `GetAbstract` (anchor plus offset).
- `shape_style.dfy`, module `ShapeStyles`: a rotation state as a sequence of
  offsets, with the predicates the tables satisfy.
- `shape_i.dfy` … `shape_z.dfy`, modules `ShapeI` … `ShapeZ`: the seven
  rotation tables, copied value for value.
- `shape.dfy`, module `Shapes`: the kind tag `Kind` that replaces the seven
  subclasses, the table lookup `Styles(k)`, the style cycle, and the class
  `Shape` (anchor `position`, `styleIndex`).
- `board.dfy`, module `Board`: the board as a value (`g[x][y]`, row 0 at the
  top). It holds the specification functions of the in-place operations:
  `Stamp` (lock and overlay), `RemoveRow` (one row clear), `ScanFrom`/`Scan`
  (the pass as the code runs it) and `Cleared` (an independent definition of
  line clearing). The lemmas relate them.
- `tetris_game.dfy`, module `Game`: the class `TetrisGame`. Its `board` is an
  `array2<bool>` that its methods update in place, and `currentShape` is the
  nullable active piece. The methods that change or read the board
  (`StorageShapeToMap`, `ClearRow`, `RowIsFull`, `Scan`, `NextTurn`, `Render`)
  are proved against the `Board` functions through the ghost view `Cells()`.
  The methods that only move or turn the piece state their result through
  `CanMove`, `CanChangeShape` and `Fits`; their `modifies` clauses keep the
  board unchanged.

Each public operation is modelled as one atomic method. The source locks the
game in `NextTurn`, `Move`, `ChangeShapeStyle` and `Fall`, but `Render` copies
the board and overlays the piece outside the lock and locks only the console
write. The source calls the board field `map`, a Dafny keyword, so it is
named `board` here. `Random.Next(7)` in the spawn becomes the parameter `draw`
with `draw < 7`, so the switch's throwing default arm cannot be reached.
`KindOfDraw` models the switch.

The row scan is modelled as the code runs it. After clearing row `y` the loop
moves on to `y + 1` and does not re-examine index `y`. It still removes every
full row in one pass: the row that drops into index `y` was already found not
full. `Board.ScanIsCleared` proves that the pass equals "delete every full row,
add as many empty rows at the top".

Two behaviours of the code are kept as they are. A piece is spawned without
checking the cells under it. A fresh I, J or L has a block one row above the
board (`Game.FreshTallPieceSticksOut`), so "every active block is on the board"
holds after a successful move or rotation, not in every state.

## Model

| member | source | states |
|---|---|---|
| `Coordinates.AbstractOfZero` | Tetris/Coordinate.cs:16-19 | the zero offset from an anchor is the anchor itself |
| `Coordinates.AbstractOfOffsetBase` | Tetris/Coordinate.cs:16-19 | offsetting an absolute coordinate by (dx, dy) equals placing the offset at an anchor moved by (dx, dy) |
| `Coordinates.AbstractInjective` | Tetris/Coordinate.cs:16-19 | two offsets from the same anchor give the same cell only if they are equal |
| `ShapeI.Styles` | Tetris/ShapeI.cs:11-45 | four styles, each four distinct offsets in [-1, 2]; style 0 is the vertical bar x = 0 over rows -1..2, style 1 the horizontal bar y = 0 over columns -1..2 |
| `ShapeJ.Styles` | Tetris/ShapeJ.cs:11-45 | four styles of four distinct offsets in [-1, 1], each containing the anchor; style 0 contains (0, -1) |
| `ShapeL.Styles` | Tetris/ShapeL.cs:11-45 | four styles of four distinct offsets in [-1, 1], each containing the anchor; style 0 contains (0, -1) |
| `ShapeO.Styles` | Tetris/ShapeO.cs:11-21 | one style: the four distinct offsets (0,0), (0,1), (1,1), (1,0), all in [0, 1] |
| `ShapeS.Styles` | Tetris/ShapeS.cs:11-45 | four styles of four distinct offsets in [-1, 1], each containing the anchor; style 0 only on rows 0 and 1 |
| `ShapeT.Styles` | Tetris/ShapeT.cs:11-45 | four styles of four distinct offsets in [-1, 1], each containing the anchor; style 0 only on rows 0 and 1 |
| `ShapeZ.Styles` | Tetris/ShapeZ.cs:11-45 | four styles of four distinct offsets in [-1, 1], each containing the anchor; style 0 only on rows 0 and 1 |
| `Shapes.Styles` | Tetris/Shape.cs:21 | the table of a kind has one style for O and four otherwise; every style is a tetromino with offsets in [-1, 2] |
| `Shapes.NextStyle` | Tetris/Shape.cs:60 | the next index stays below the style count; it is index + 1 inside the table and wraps to 0 from the last style |
| `Shapes.RotatedIsModular` | Tetris/Shape.cs:58-61 | n rotations from a valid index give (index + n) mod the style count |
| `Shapes.FullTurnRestoresStyle` | Tetris/Shape.cs:58-61 | as many rotations as there are styles restore the index; an O keeps index 0 after one rotation |
| `Shapes.AbsoluteTetromino` | Tetris/TetrisGame.cs:98-101 | the four blocks of a style placed at any anchor fall on four distinct cells, so locking a piece writes four different cells |
| `Shapes.SpawnStyleRows` | Tetris/ShapeI.cs:16-19 | style 0 of I, J and L has a block at (0, -1); style 0 of O, S, T and Z lies on rows 0 and 1 only (style 0 is lines 16-19 of each of ShapeI.cs, ShapeJ.cs, ShapeL.cs, ShapeO.cs, ShapeS.cs, ShapeT.cs and ShapeZ.cs) |
| `Shapes.VerticalINextStyleReachesLeft` | Tetris/ShapeI.cs:21-28 | from style 0 an I turns to style 1, which has a block at (-1, 0) |
| `Shapes.Shape.constructor` | Tetris/Shape.cs:26-35 | a new shape has exactly the given kind and position and style index 0 |
| `Shapes.Shape.GetBlocks` | Tetris/Shape.cs:41-44 | the current style's offsets form a tetromino in [-1, 2]; reading them changes nothing |
| `Shapes.Shape.GetNextStyleBlocks` | Tetris/Shape.cs:50-53 | the offsets of the style one rotation on, a tetromino in [-1, 2] |
| `Shapes.Shape.SquareNextStyleIsCurrent` | Tetris/Shape.cs:50-53 | for an O the next style's blocks are the current ones |
| `Shapes.Shape.ChangeStyle` | Tetris/Shape.cs:58-61 | the index advances cyclically, the new blocks are what GetNextStyleBlocks returned before, and the position is unchanged |
| `Board.StampIsUnion` | Tetris/TetrisGame.cs:98-110 | after stamping, a cell is occupied iff it was before or it is one of the stamped coordinates; off-board coordinates leave no trace |
| `Board.StampMonotoneIdempotent` | Tetris/TetrisGame.cs:98-110 | stamping never clears a cell, and stamping the same blocks twice equals stamping them once |
| `Board.RemoveRow` | Tetris/TetrisGame.cs:160-167 | clearing row y empties row 0, moves rows 0..y-1 down one and leaves rows below y unchanged |
| `Board.ScanFromLeavesNoFullRow` | Tetris/TetrisGame.cs:148-169 | the loop invariant: if rows before y are not full, no row is full at the end of the pass (with at least one column) |
| `Board.ScanLeavesNoFullRow` | Tetris/TetrisGame.cs:146-170 | after a pass over a board with at least one column no row is full |
| `Board.ScanFromNoFullRowIsIdentity` | Tetris/TetrisGame.cs:148-169 | a pass over rows none of which is full changes nothing |
| `Board.ScanIdempotent` | Tetris/TetrisGame.cs:146-170 | a second pass finds nothing to clear |
| `Board.ScanFromSkipsRowsNotFull` | Tetris/TetrisGame.cs:148-158 | rows that are not full are passed over without change |
| `Board.AdjacentFullRowsClearTogether` | Tetris/TetrisGame.cs:148-169 | two adjacent full rows and no other are both removed in one pass: the rows above drop by two, two empty rows appear on top |
| `Board.KeptLength` | Tetris/TetrisGame.cs:148-169 | the kept rows and the full rows among the first y rows number y together |
| `Board.ScanColumnStep` | Tetris/TetrisGame.cs:157-168 | one column across one row of the pass: a full row is dropped and a blank added on top, a row not full is kept |
| `Board.ScanFromMatchesCleared` | Tetris/TetrisGame.cs:148-169 | the pass's intermediate state (blanks, kept rows, untouched rows) leads to the reference result |
| `Board.ScanIsCleared` | Tetris/TetrisGame.cs:146-170 | the single pass equals deleting every full row at once and adding as many empty rows at the top |
| `Game.StampInPlace` | Tetris/TetrisGame.cs:98-110 | setting the in-bounds blocks one by one in the array yields the stamped grid |
| `Game.KindOfDrawIsBijective` | Tetris/TetrisGame.cs:122-138 | every one of the seven kinds is produced by exactly one draw in [0, 7) |
| `Game.TetrisGame.constructor` | Tetris/TetrisGame.cs:15-21 | a new game has the given dimensions, an empty board and no piece |
| `Game.TetrisGame.CanMoveIsFitAtOffset` | Tetris/TetrisGame.cs:34-58 | CanMove(dx, dy) holds iff there is a piece and each of its blocks, at the anchor moved by (dx, dy), is on the board and on a free cell |
| `Game.TetrisGame.StorageShapeToMap` | Tetris/TetrisGame.cs:91-114 | the new board is the old board stamped with the piece's absolute blocks (in-bounds ones only), and there is no piece afterwards |
| `Game.TetrisGame.GenerateShape` | Tetris/TetrisGame.cs:120-141 | a fresh piece of the drawn kind at (Width / 2, 0) in style 0, whatever the board holds under it |
| `Game.TetrisGame.ClearRow` | Tetris/TetrisGame.cs:160-167 | the shift-down loops turn the board into RemoveRow of the old board |
| `Game.TetrisGame.RowIsFull` | Tetris/TetrisGame.cs:151-155 | the row flag is true exactly when every cell of that row is occupied |
| `Game.TetrisGame.Scan` | Tetris/TetrisGame.cs:146-170 | the board becomes the one-pass scan of the old board, and with at least one column no row is full |
| `Game.TetrisGame.Move` | Tetris/TetrisGame.cs:177-193 | the anchor moves by exactly (dx, dy) if CanMove(dx, dy) and stays otherwise; style, board and piece identity never change; after a move the piece lies on free cells |
| `Game.TetrisGame.MoveLeft` | Tetris/TetrisGame.cs:198-201 | the anchor moves one column left iff the piece fits there; style and board never change |
| `Game.TetrisGame.MoveRight` | Tetris/TetrisGame.cs:206-209 | the anchor moves one column right iff the piece fits there; style and board never change |
| `Game.TetrisGame.MoveDown` | Tetris/TetrisGame.cs:214-217 | the anchor moves one row down iff the piece fits there; style and board never change |
| `Game.TetrisGame.ChangeShapeStyle` | Tetris/TetrisGame.cs:222-232 | the style advances iff the next style fits at the same anchor; the anchor and board never change; after a turn the piece lies on free cells |
| `Game.TetrisGame.CanMoveDownIsAboveFloor` | Tetris/TetrisGame.cs:241-244 | a piece that can move down has its anchor above the bottom row (y < Height - 1), since every style has a block on or below the anchor's row; so the drop loop ends |
| `Game.TetrisGame.Fall` | Tetris/TetrisGame.cs:237-246 | ends with CanMove(0, 1) false, same column and style, never higher, every row passed through fitting; the piece is not locked and the board is unchanged |
| `Game.TetrisGame.NextTurn` | Tetris/TetrisGame.cs:251-280 | without a piece: spawn, board unchanged, no scan; with one: move down one row if it fits, else lock and drop the piece; then the board is scanned |
| `Game.TetrisGame.Render` | Tetris/TetrisGame.cs:286-300 | a fresh frame equal to the board stamped with the active piece's blocks; the game is not changed |
| `Game.FreshTallPieceSticksOut` | Tetris/TetrisGame.cs:125 | a style-0 I, J or L anchored on row 0 does not fit where it stands: one block is above the board |
| `Game.VerticalIAtLeftWallCannotTurn` | Tetris/TetrisGame.cs:64-86 | a vertical I anchored in column 0 cannot change style, so ChangeShapeStyle leaves style and anchor as they were |

## Left out

- Tetris/Program.cs is not part of this model: the 700 ms timer task, the key-reading loop and the key-to-command switch are I/O and concurrency glue.
- The `lock (this)` regions: each public operation is modelled as one atomic method, so interleavings of the timer and the input thread are not modelled.
- Game.TetrisGame.Render: the model's render is atomic, but the source copies the board and overlays the piece without holding the lock, so a render that runs during `NextTurn` can copy a board halfway through a row shift, or find the piece non-null and then read it after locking has set it to null; the model does not capture these interleavings.
- Game.TetrisGame.constructor: the sizes are `nat`; the source takes `int` sizes, and allocating the board with a negative size throws, an error path the model does not include.
- `Random.Next(7)`: the draw is a parameter; the uniform distribution of kinds is statistical and not stated.
- The drawing half of `Render` (box characters, `"##"`, cursor placement, console output): `Render` returns the overlay frame instead.
- `Shape.Name` strings, which nothing in the engine reads.
- 32-bit integer overflow of coordinates: Dafny integers are unbounded; positions stay within a few cells of the board in every operation modelled.
