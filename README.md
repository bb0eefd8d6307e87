# Tetris engine, modelled in Dafny

This project models the game engine of a small Java Tetris program: class
`Tetris` without its Swing user interface, and class `Tetromino`.

- **The board** has 22 rows and 10 columns. The top two rows are where pieces
  spawn, outside the visible area. A cell holds 0 when it is empty and a piece
  colour index otherwise.
- **The pieces** come from seven shape templates: I, Z, S, O, T, L and J. A
  shape is not necessarily square. Every loop over a shape reads only its
  leading `size`×`size` block, where `size` is the number of rows.
- **The engine** moves the falling piece left, right and down, and rotates it.
  It locks the piece into the board, clears full rows and scores 100 points
  per cleared row. It spawns the preview piece in the centre of the top row.
  When a spawn collides, it ends the game and restarts at once.

The project has four modules, one per file:

- `Pieces` (`pieces.dfy`) holds the templates, the colour table and the
  rotations as functions. It also holds class `Pieces.Tetromino`, the mutable
  piece whose loops `Rotate`/`RotateBack` fill a fresh matrix.
- `Board` (`board.dfy`) holds the grid as a value and the operations on it:
  the collision test `Fits`, the writing of a piece `Place`, the one-row
  removal `ShiftDown`, the line clearing `Cleared` and the empty-row pass
  `Compact`. It also holds the lemmas about them.
- `Rules` (`rules.dfy`) is the engine as a state machine over values, with
  one function per engine operation and the invariants the transitions keep.
- `Game` (`game.dfy`) holds class `Game.Tetris`. Its fields are the board
  buffer as a two-dimensional array, the two piece objects, the flags and the
  score. Each method works step by step on those fields. The engine methods
  (`StartGame`, `GameOver`, `NewPiece`, `MoveDown`, `MoveLeft`, `MoveRight`,
  `RotatePiece`, `PlacePiece`, `Tick`, `HandleKey`) are proved to change the
  object's state exactly as the matching `Rules` function does. The helper
  methods (`ResetBoard`, `TakePieces`, `CanMove`, `MoveToTop`, `WritePiece`,
  `RowIsFull`, `RowIsEmpty`, `ClearLines`, `ScanFullRows`, `RemoveRows`,
  `RemoveRow`, `CheckRows`) are proved against the `Board` functions, or
  against `Template` and `Spawned`.

The random generator is modelled as a parameter `random: nat -> nat` giving
the template index of the k-th draw. The engine counts the draws it has made.

The line clearing follows the code rather than a textbook clear. It first
collects the indices of all full rows, from the bottom up. It then removes
them one after another, without adjusting the later indices after a removal
has shifted the rows above it down. When two or more rows are full, every
removal after the first therefore takes out a row that was just moved down,
and a full row can remain on the board (`Board.StaleIndices`). A textbook
multi-line clear would remove every full row; this code does not.

## Model

| member | source | states |
|---|---|---|
| Pieces.Template | Tetris.java:336-341 | template `index` is its shape, sized by its row count, at (0, 0), with colour `index + 1` |
| Pieces.Rotated | Tetris.java:343-351 | the clockwise rotation of the leading n×n block: an n×n matrix whose cell (i, j) is the shape cell (n - 1 - j, i) |
| Pieces.RotatedBack | Tetris.java:353-361 | the counter-clockwise rotation of the leading n×n block: an n×n matrix whose cell (i, j) is the shape cell (j, n - 1 - i) |
| Pieces.Tetromino.constructor | Tetris.java:330-334 | a new piece has the given shape, size = number of rows, the given colour and position (0, 0) |
| Pieces.Tetromino.RandomTetromino | Tetris.java:336-341 | a fresh piece that is the template of the drawn index; the colour lookup at `index + 1` must stay inside the seven-entry colour table |
| Pieces.Tetromino.Rotate | Tetris.java:343-351 | the new shape is the clockwise rotation of the leading size×size block |
| Pieces.Tetromino.RotateBack | Tetris.java:353-361 | the new shape is the counter-clockwise rotation of the leading size×size block |
| Pieces.Tetromino.SetX | Tetris.java:375-377 | only x changes, to the given value |
| Pieces.Tetromino.SetY | Tetris.java:383-385 | only y changes, to the given value |
| Pieces.RotatedMoves | Tetris.java:343-351 | clockwise rotation moves the cell at (row, col) to (col, size - 1 - row) |
| Pieces.PlayableTemplates | Tetris.java:310-341 | a template can be played (colour in the table, leading block readable) exactly when its index is below 5, so L and J cannot be played |
| Pieces.RotateRoundTrip | Tetris.java:343-361 | rotating back after a rotation gives the leading block of the original shape |
| Pieces.RotateBackRoundTrip | Tetris.java:343-361 | rotating after a rotation back gives the leading block of the original shape |
| Pieces.LeadingOfSquare | Tetris.java:343-361 | on a square shape the leading block is the whole shape, so both round trips are exact |
| Pieces.LeadingSameCells | Tetris.java:128-130 | cutting a shape to its leading block changes none of the cells the engine treats as occupied |
| Board.Zeros | Tetris.java:175-177 | a cleared row has board width and is all empty |
| Board.EmptyGrid | Tetris.java:66 | a new board has 22 rows of 10 cells, all 0 |
| Board.Fits | Tetris.java:127-140 | every occupied cell of the leading size×size block, moved by (dx, dy), lies in columns [0, 10), in a row below 22, on a cell holding 0; there is no test against the top edge |
| Board.Place | Tetris.java:142-151 | a 22×10 board whose cells under the occupied cells of the piece hold the piece colour, every other cell as before |
| Board.FitsShift | Tetris.java:127-140 | testing a piece with offset (dx, dy) is the same as testing the piece moved by (dx, dy) at offset (0, 0) |
| Board.FitsInGrid | Tetris.java:127-140 | when the test passes, every occupied cell of the moved piece lies on the board |
| Board.EmptyFits | Tetris.java:127-140 | every piece that lies on the board fits on the empty board |
| Board.PlaceWrites | Tetris.java:142-151 | locking writes the piece colour at every occupied cell of the piece and changes no other cell |
| Board.PlaceInRange | Tetris.java:142-151 | locking a piece with a colour between 0 and 7 keeps every cell a valid colour index |
| Board.PlacedPieceCollides | Tetris.java:127-151 | once a coloured piece is locked, it no longer fits where it stands |
| Board.ShiftDownDropsRow | Tetris.java:172-177 | removing a row gives an empty row on top, the rows above it one row lower, and the rows below it unchanged |
| Board.ShiftDownSplit | Tetris.java:172-177 | removing a row changes nothing below it, and above it gives an empty row followed by the old rows above |
| Board.ShiftDownMultiset | Tetris.java:172-177 | removing a row takes out that row and adds one empty row |
| Board.ShiftDownInRange | Tetris.java:172-177 | removing a row keeps every cell a valid colour index |
| Board.ShiftDown | Tetris.java:172-177 | a 22×10 board: row 0 empty, row i the old row i - 1 for 0 < i <= row, the rows below `row` unchanged |
| Board.RemoveAll | Tetris.java:171-178 | a 22×10 board: the given rows removed one after another, each index applied to the board as the previous removals left it |
| Board.RemoveAllInRange | Tetris.java:171-178 | removing rows one after another keeps every cell a valid colour index |
| Board.FullRowsBelow | Tetris.java:157-169 | the full rows among rows 0 .. n-1, listed bottom up; every listed index is below n |
| Board.FullRows | Tetris.java:157-169 | every recorded index is a board row |
| Board.ScanStep | Tetris.java:157-169 | one scan step appends the row's index exactly when the row is full |
| Board.FullRowsExact | Tetris.java:157-169 | an index is recorded exactly when its row is full, and the indices are in strictly decreasing order (bottom up) |
| Board.FullRowsMembers | Tetris.java:157-169 | an index is recorded below n exactly when it is below n and its row is full |
| Board.FullRowsDescending | Tetris.java:157-169 | the recorded indices are in strictly decreasing order, as the scan runs from the bottom row up |
| Board.FullRowsSkip | Tetris.java:157-169 | rows that are not full add nothing to the recorded indices |
| Board.Cleared | Tetris.java:155-180 | a 22×10 board: the recorded full rows removed in the recorded order, bottom up, with the stale indices |
| Board.NoFullRowUnchanged | Tetris.java:155-180 | with no full row, clearing records nothing and leaves the board unchanged |
| Board.SingleFullRow | Tetris.java:155-180 | with exactly one full row, clearing removes exactly that row and shifts the rows above it down by one |
| Board.StaleIndices | Tetris.java:155-180 | with rows 20 and 21 full and no other full row, both indices are recorded, but the second removal takes out the old row 19, and the bottom row is still full afterwards |
| Board.RemoveBottomTwice | Tetris.java:171-178 | removing row 21 then row 20 leaves two empty rows on top, rows 0-18, then the old row 20 |
| Board.CompactFrom | Tetris.java:182-201 | a 22×10 board: from row `row` down to the bottom, each row found empty is removed on the board as the previous removals left it |
| Board.Compact | Tetris.java:182-201 | a 22×10 board: the empty-row pass over all rows from the top |
| Board.NonEmptyRows | Tetris.java:182-201 | the non-empty rows of a row sequence are no more than the rows themselves, each non-empty and taken from it |
| Board.CompactStep | Tetris.java:182-201 | one step of the top-down empty-row pass keeps its invariant: the rows above the scan are the empty rows pushed to the top, then the non-empty rows in their order |
| Board.CompactStepEmpty | Tetris.java:191-200 | removing an empty row at the scan position keeps the invariant of the pass |
| Board.CompactStepKept | Tetris.java:191-193 | skipping a non-empty row keeps the invariant of the pass |
| Board.ZeroRowsCons | Tetris.java:197-199 | k + 1 empty rows are an empty row on top of k empty rows |
| Board.CompactFromShape | Tetris.java:182-201 | finishing the pass from any point where its invariant holds yields the empty rows on top of the non-empty rows |
| Board.CompactShape | Tetris.java:182-201 | the empty-row pass moves every empty row to the top and keeps the non-empty rows in their original order |
| Board.NonEmptyRowsAppend | Tetris.java:182-201 | taking the non-empty rows distributes over concatenation |
| Board.NonEmptyRowsOfZeros | Tetris.java:182-201 | empty rows contribute no non-empty row |
| Board.NonEmptyRowsIdempotent | Tetris.java:182-201 | a sequence of non-empty rows is its own non-empty part |
| Board.CompactLeavesNoGap | Tetris.java:182-201 | after the pass, no empty row lies below a non-empty row |
| Board.CompactKeepsRows | Tetris.java:182-201 | the pass keeps the same non-empty rows in the same order |
| Board.CompactInRange | Tetris.java:182-201 | the pass keeps every cell a valid colour index |
| Board.CompactEmpty | Tetris.java:182-201 | the pass leaves an empty board unchanged |
| Rules.Spawned | Tetris.java:85-86 | a spawned piece keeps its shape, size and colour, and is placed at column 5 - size / 2 in the top row |
| Rules.MoveLeft | Tetris.java:105-110 | when the piece fits one column to the left, only its x decreases by one; otherwise nothing changes |
| Rules.MoveRight | Tetris.java:112-117 | when the piece fits one column to the right, only its x increases by one; otherwise nothing changes |
| Rules.RotateCurrent | Tetris.java:119-125 | the shape becomes its clockwise rotation; when that does not fit where the piece stands, it is rotated back |
| Rules.Lock | Tetris.java:142-180 | the board becomes the cleared board after placing the piece, the score rises by 100 per full row, and the piece, preview, draws and flags are kept |
| Rules.MoveDown | Tetris.java:95-103 | when the piece fits one row down, only its y increases by one; otherwise lock, then spawn from the locked state |
| Rules.Tick | Tetris.java:51-57 | a step down unless paused or over; otherwise nothing changes |
| Rules.HandleKey | Tetris.java:264-294 | nothing once over; otherwise left, right, down, rotate, lock without spawning, or flip the pause flag, by key; any other key changes nothing |
| Rules.NewPiece | Tetris.java:74-93 | a spawn always ends in a state the engine accepts, with the score kept or the whole game reset |
| Rules.StartGame | Tetris.java:65-72 | a game start yields an empty board, score 0, both flags cleared, and a state the engine accepts |
| Rules.WaitingTemplate | Tetris.java:336-341 | every playable template is a piece waiting at (0, 0) |
| Rules.WaitingFalls | Tetris.java:78-82 | a waiting piece lies on the board where it waits, which is where the spawn test runs |
| Rules.SpawnFalls | Tetris.java:84-86 | a waiting piece centred in the top row lies on the board |
| Rules.LockInRange | Tetris.java:142-153 | locking and clearing keep a well-formed board of valid colour indices |
| Rules.LockWithoutClear | Tetris.java:142-180 | when locking fills no row, the board is the piece written into it and the score is unchanged |
| Rules.MoveLeftKeepsInv | Tetris.java:105-110 | a left move keeps the falling piece on the board |
| Rules.MoveRightKeepsInv | Tetris.java:112-117 | a right move keeps the falling piece on the board |
| Rules.LeftThenRight | Tetris.java:105-117 | a successful step left, from a position where the piece fits, is undone by a step right |
| Rules.RotateOutcome | Tetris.java:119-125 | a rotation changes only the shape, never the position, size, colour or board; when the rotated piece fits, the shape is the rotation, and when it does not, the shape is the leading block of the original shape |
| Rules.RotateUndoneExactly | Tetris.java:119-125 | a failed rotation of a square shape restores the state exactly |
| Rules.MoveDownKeepsInv | Tetris.java:95-103 | a step down, or a lock followed by a spawn, keeps a state the engine accepts |
| Rules.HandleKeyKeepsInv | Tetris.java:264-294 | every key keeps a state the engine accepts |
| Rules.TickKeepsInv | Tetris.java:51-57 | every timer tick keeps a state the engine accepts |
| Rules.ScoreGrowsOrResets | Tetris.java:264-294 | a key press never lowers the score, unless a game over resets the whole game |
| Rules.SpawnSucceeds | Tetris.java:74-93 | when the spawn test passes: the piece is centred without a second test, one template is drawn, the empty-row pass runs, and the score and flags are kept |
| Rules.SpawnCollides | Tetris.java:74-82 | when the spawn test fails, the spawn is exactly a game start: an empty board and score 0, the drawn preview becomes current, and one more template is drawn |
| Rules.DropLocks | Tetris.java:281-283 | while the game runs, the drop key is exactly a lock, with no spawn |
| Rules.DropLeavesPieceOnItsCells | Tetris.java:281-283 | the drop key locks the piece but spawns none: the current piece, the preview and the draw count are kept, and with no row cleared the piece no longer fits where it stands, on top of its own locked cells |
| Rules.PauseStopsOnlyTicks | Tetris.java:264-294 | while paused, ticks do nothing, but the left, right, down, rotate and drop keys act exactly as they do unpaused |
| Rules.OPieceSpawnsAtColumnFour | Tetris.java:85-86 | the O piece spawns at column 4 of the top row |
| Game.Tetris.StateInv | Tetris.java:18-24 | a running engine object is in a state the rules accept, including a score that is never negative |
| Game.Tetris.Upcoming | Tetris.java:75 | the piece the next spawn makes current is waiting at (0, 0) |
| Game.Tetris.constructor | Tetris.java:26-63 | the engine starts as a game start from the first draw: empty board, score 0, with the piece of draw 0 and then draw 1 |
| Game.Tetris.StartGame | Tetris.java:65-72 | the object moves exactly as the rules' game start |
| Game.Tetris.ResetBoard | Tetris.java:65-69 | a fresh empty board, score 0, both flags cleared |
| Game.Tetris.GameOver | Tetris.java:203-208 | the game-over flag is set and then the game restarts, as the rules' game start |
| Game.Tetris.CanMove | Tetris.java:127-140 | the loop's answer is exactly the collision test of the board with the moved piece |
| Game.Tetris.NewPiece | Tetris.java:74-93 | the object moves exactly as the rules' spawn |
| Game.Tetris.MoveToTop | Tetris.java:84-89 | the piece is centred in the top row and the empty-row pass has run |
| Game.Tetris.TakePieces | Tetris.java:75-76 | the preview piece (or the first draw) becomes current and the next draw makes a fresh preview piece |
| Game.Tetris.MoveDown | Tetris.java:95-103 | the object moves exactly as the rules' step down |
| Game.Tetris.MoveLeft | Tetris.java:105-110 | the object moves exactly as the rules' left move |
| Game.Tetris.MoveRight | Tetris.java:112-117 | the object moves exactly as the rules' right move |
| Game.Tetris.RotatePiece | Tetris.java:119-125 | the object moves exactly as the rules' rotation |
| Game.Tetris.PlacePiece | Tetris.java:142-153 | the object moves exactly as the rules' lock |
| Game.Tetris.WritePiece | Tetris.java:143-151 | the buffer afterwards holds the piece written into the old board |
| Game.Tetris.RowIsFull | Tetris.java:158-164 | the answer is whether every cell of the row is filled |
| Game.Tetris.RowIsEmpty | Tetris.java:184-190 | the answer is whether every cell of the row is empty |
| Game.Tetris.ClearLines | Tetris.java:155-180 | the board becomes the cleared board, and the score rises by 100 per full row |
| Game.Tetris.ScanFullRows | Tetris.java:156-169 | the recorded indices are exactly the full rows from the bottom up, scoring 100 each |
| Game.Tetris.RemoveRows | Tetris.java:171-178 | the recorded rows are removed in order, each by one downward shift |
| Game.Tetris.RemoveRow | Tetris.java:172-177 | one row is removed by copying each row above it down and emptying the top row |
| Game.Tetris.CheckRows | Tetris.java:182-201 | the board becomes the result of the empty-row pass |
| Game.Tetris.Tick | Tetris.java:51-57 | the object moves exactly as the rules' timer tick |
| Game.Tetris.HandleKey | Tetris.java:264-294 | the object moves exactly as the rules' key handler |

## Left out

- The Swing window, `drawBoard`, the repaint calls and the game-over dialog are not modelled. They only display the state.
- The key event is not modelled as a key code. `Rules.Command` gives the six keys the handler reacts to, and `Other` for every other key.
- The timer is not modelled as a timer. Its callback is `Game.Tetris.Tick`, and starting or stopping it has no effect on the modelled state.
- `java.util.Random` is replaced by the parameter `random: nat -> nat`, the template index of each draw.
- `main` is not modelled.
- The getters of `Tetromino` are not modelled as methods; the model reads the fields directly.
- Pieces.Tetromino.RandomTetromino: requires the drawn index plus one to be inside the colour table. For the J template (index 6) the Java code reads past the seven-entry table and throws.
- Pieces.Template: requires the index plus one to be inside the colour table, so it has no J template, for the same reason as `RandomTetromino`.
- Game.Tetris.constructor: requires every draw to be playable (index below 5), which excludes the L and J templates entirely. For J the colour lookup throws as soon as the piece is drawn. For L the collision loop reads past the end of the shape's two-column first row unless it has already returned false at shape cell (0, 0) or (0, 1). At the spawn test, where the piece stands at (0, 0), that early return happens when board cell (0, 0) or (0, 1) is filled: the L piece then leads to a game over and a clean restart, with no exception. Otherwise the spawn test throws. The requirement on the draws excludes the non-throwing restart path as well, and the model does not follow the game into either exception.
- The score is unbounded in the model; the 32-bit wrap-around of Java's `int` is not modelled.
- The `isGameOver` flag is set by `gameOver` and cleared again at once by `startGame`, so it is false between events. The model keeps that behaviour; the lock-out of keys after a game over is therefore never reached.
