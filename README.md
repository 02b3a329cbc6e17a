# Tetris rules engine in Dafny

This project models the rules engine of a small Tetris game: its grid, its piece catalog and its
`Game` object. It then proves what the game promises about them.

- `blocks.dfy` (module `Blocks`): the seven piece kinds as values. Each kind has a rotation
  table, an id 1..7 and a spawn offset. A piece is its kind, two offsets and a rotation state.
  The module provides `move`, `get_cell_positions`, `rotate`, `undo_rotation` and
  `reset_hold_block`.
- `board.dfy` (module `Board`): the 20 x 10 grid of cell values.
  - The value functions `CountFull`, `Kept`, `Cleared` and `Stamp` say what clearing and writing
    produce.
  - Class `Grid` owns one `array2<int>` and updates it in place. `clear_full_rows` is proved to
    produce `Cleared` of the old contents. A ghost field mirrors the array as a sequence of rows.
- `rules.dfy` (module `Rules`): a `State` value with every field of the `Game` object. Each
  `Game` method has one function giving the state it leaves.
- `game.dfy` (module `TetrisGame`): class `Game`, whose fields are updated step by step as the
  source does. Each method is proved to end in the state the matching `Rules` function gives.
- `properties.dfy` (module `RuleProperties`): the promises of those functions, stated as lemmas.

Every operation keeps one invariant (`Rules.Invariant`). The grid is 20 x 10 with ids 0..7, and no row below row 0 is full: a new or reset grid is empty, and every lock clears the full rows. The pieces are well formed, the bag has no repeats, and the combo count and score are non-negative. Because of this invariant a lock clears at most four rows (`LockClearsAtMostFour`).

The random pick of `get_random_block` is a parameter `choice`: the index of the drawn kind in the
(refilled) bag. A method that may draw takes one. The six draws of `__init__` take a sequence of
six picks.

Quirks of the code are modelled as written:
- Row 0 is never examined by the row clear.
- A successful wall kick keeps a rotation that was never checked (`KickCanLeaveInvalid` exhibits
  one).
- A hold swap moves the incoming piece by (0, 3) from wherever it was.
- A first hold pops the queue without refilling it. `reset` does not restore the lost piece, so
  every hold-then-reset cycle leaves the queue one piece shorter (`ResetFacts`).
- `reset` leaves game over, the combo count, `previous_lines_cleared` and the hold flag alone.
- `place_block` on an invalid piece only rotates it.
- The hard-drop points come from the driver's separate `update_score(0, n)` call.

## Model

| member | source | states |
|---|---|---|
| Blocks.Cells | utilities.py:129-201 | each kind's rotation table has one entry per rotation state (len(self.cells)) |
| Blocks.CatalogShape | utilities.py:129-201 | each kind's id is in 1..7 and no two kinds share an id; O has one rotation state and the others four; every state lists four distinct cells inside the 4 x 4 box |
| Blocks.Spawn | utilities.py:129-201 | a new piece is well formed, of its kind, at rotation 0, with offsets equal to the kind's spawn move: (-1, 3) for I, (0, 4) for O, (0, 3) for the others |
| Rules.SpawnInside | utilities.py:129-201 | the four cells of every kind's spawn piece lie inside the 20 x 10 grid |
| Blocks.CellPositions | utilities.py:91-96 | a piece has exactly four absolute cells, each within the 4 x 4 box at its offsets |
| Blocks.Move | utilities.py:87-89 | the offsets shift by exactly (rows, columns); kind and rotation state are kept, so the piece is well formed exactly when it was before |
| Blocks.MoveShiftsCells | utilities.py:87-96 | move(a, b) shifts every absolute cell by (a, b), keeps the piece well formed, and move(-a, -b) restores it exactly |
| Blocks.Rotate | utilities.py:98-101 | the rotation state becomes (state + 1) mod the number of states and stays in range; kind and offsets are unchanged |
| Blocks.UndoRotation | utilities.py:103-106 | the rotation state becomes (state - 1) mod the number of states and stays in range; kind and offsets are unchanged |
| Blocks.RotateUndoInverse | utilities.py:98-106 | rotate and undo_rotation undo each other exactly, in both orders |
| Blocks.RotateNState | utilities.py:98-101 | n rotations advance the state by n modulo the number of states and change nothing else |
| Blocks.RotateClosure | utilities.py:98-101 | rotating as many times as a kind has states returns the piece and its cells to the start; for O one rotate changes nothing |
| Blocks.ResetHoldBlock | utilities.py:108-110 | both offsets become 0; kind and rotation are kept |
| Board.Grid.constructor | utilities.py:30-34 | a fresh 20 x 10 array with every cell 0 |
| Board.Grid.IsInside | utilities.py:42-43 | true exactly when 0 <= row < 20 and 0 <= column < 10, the array's dimensions |
| Board.Grid.IsEmptyCell | utilities.py:45-46 | true exactly when the cell holds 0 |
| Board.Grid.RowIsFull | utilities.py:51 | true exactly when no cell of the row is 0 |
| Board.Grid.SetCell | game.py:76-77 | the one cell takes the value and every other cell is unchanged |
| Board.Grid.ClearRow | utilities.py:52-53 | the row becomes all zero and every other row is unchanged |
| Board.Grid.ShiftRow | utilities.py:56-58 | the row's contents move down by the distance and its old place becomes empty; other rows are unchanged |
| Board.Grid.ClearFullRows | utilities.py:48-59 | the result is the number of full rows among rows 1..19; the new contents are row 0 unchanged, then that many empty rows, then the non-full rows of 1..19 in order |
| Board.Grid.ResetGrid | utilities.py:61-64 | every cell becomes 0 and the dimensions stay 20 x 10 |
| Board.KeptCount | utilities.py:49-58 | full rows and kept rows split the list: their counts add to its length, and every kept row is a non-full row of the list |
| Board.NoFullKeepsAll | utilities.py:55-58 | with no full row, the count is 0 and every row is kept |
| Board.ClearedShape | utilities.py:48-59 | clearing keeps the shape and the 0..7 range of values, leaves row 0 as it was, empties rows 1..k for k rows cleared, and leaves no full row among 1..19 |
| Board.ClearedNoFull | utilities.py:51-58 | if no row among 1.. is full, clearing counts 0 and changes nothing |
| Board.NothingToClear | utilities.py:48-59 | a grid whose column 0 is empty in rows 1..19 clears nothing and is unchanged |
| Board.FullRowsInWindow | utilities.py:49-51 | if every full row sits at an index inside a window, the count of full rows is at most the window's width |
| Board.ClearedIdempotent | utilities.py:48-59 | a second clear finds no full row and changes nothing |
| Board.PassStart | utilities.py:49-50 | before the first row is processed the grid is the original one |
| Board.PassStep | utilities.py:50-58 | one loop step of the clear: a full row is emptied; a non-full row moves down by the rows cleared so far and its place is emptied; with none cleared it stays |
| Board.StampShape | game.py:75-77 | writing a piece id keeps the grid's shape and the 0..7 range |
| Board.StampAt | game.py:75-77 | after the write a cell holds the id if it is one of the piece's cells, and its old value otherwise |
| Board.StampNothing | game.py:75-77 | writing no cell changes nothing |
| Board.StampSnoc | game.py:76-77 | writing one more cell is one single-cell assignment on the grid written so far |
| Rules.LockShape | game.py:74-83 | locking keeps a well-shaped grid of 0..7 values with no full row below row 0, never lowers the score, keeps the invariant, and changes neither the queue, the bag, the current or held piece, game over nor the hold flag |
| Rules.DrawManyLength | game.py:9-10 | a sequence of draws yields one kind per pick |
| RuleProperties.AllKindsDistinct | game.py:8 | the full bag lists each of the seven kinds exactly once |
| Rules.Draw | game.py:28-33 | the drawn kind is taken from the bag, refilled with all seven kinds only when empty |
| RuleProperties.DrawFacts | game.py:28-33 | the drawn kind comes from the bag, refilled only when empty; it is no longer in the bag; nothing else leaves; a bag without repeats stays without repeats |
| RuleProperties.DrawManyStep | game.py:9-10 | a sequence of draws is one draw followed by the rest |
| RuleProperties.DrawsWithoutRefill | game.py:28-33 | drawing at most as many kinds as a non-empty bag holds never refills it; the kinds drawn and those left partition the bag, with no kind drawn twice |
| RuleProperties.BagCycle | game.py:28-33 | a full cycle of draws yields each kind of the bag exactly once and empties it; from an empty bag that is all seven kinds, so no id repeats within a cycle |
| RuleProperties.InitialFacts | game.py:6-17 | a new game has an empty grid, no hold and score 0; its queue holds five distinct kinds, none equal to the current piece's kind; one kind is left in the bag |
| Rules.Fits | game.py:21-26 | is_valid_action for a piece; a valid piece's offsets lie within -3..19 for rows and -3..9 for columns |
| RuleProperties.FitsInside | game.py:21-26 | every cell of a valid piece is on the grid |
| Rules.DropDistance | game.py:43-49 | when the piece descends at all, the position it reaches after the counted descents is valid and its row offset is still on the grid |
| RuleProperties.DropDistanceSpec | game.py:41-50 | hard_drop's count n is exact: descents 1..n are valid and descent n + 1 is not; for a valid piece n < 20, so the loop ends |
| RuleProperties.EmptyDrop | game.py:41-50 | on an empty grid a valid piece descends until its lowest cell reaches row 19 |
| RuleProperties.OLanding | game.py:41-50 | an O at its spawn pose on an empty grid descends 18 rows, and locking it there clears nothing |
| RuleProperties.HardDropOnEmptyGrid | main.py:92-93 | hard-dropping a spawned O on an empty grid descends 18 rows and scores exactly 36 |
| RuleProperties.MoveSideways | game.py:63-71 | move_left/move_right move one column if the result is valid and otherwise restore the piece exactly; nothing but the piece changes; the invariant is kept |
| RuleProperties.SoftDropFacts | game.py:35-39 | soft_drop moves one row down if that is valid and otherwise locks the piece at its unchanged position |
| RuleProperties.SoftDropPreserves | game.py:35-39 | soft_drop keeps the invariant |
| RuleProperties.SpawnBlockedIsInvalid | game.py:89-92 | the game-over test holds exactly when the spawned piece is not valid, because spawn cells are inside |
| Rules.PlaceBlock | game.py:73-94 | on both branches the queue length and the hold slot are kept, the score never decreases and game over is never cleared |
| RuleProperties.LockClearsAtMostFour | game.py:74-83 | in a reachable state a lock finds at most four full rows, so clear_full_rows returns 0..4 and previous_lines_cleared is at most 4 after place_block |
| RuleProperties.PlaceBlockWrites | game.py:74-83 | a valid lock writes the id into exactly the piece's four cells and then clears rows; previous_lines_cleared becomes the count; a lock that clears nothing keeps score and combo count |
| RuleProperties.PlaceBlockQueue | game.py:85-87 | a valid lock takes the queue's front as the current piece and appends one drawn kind, so the queue keeps its length; the hold flag is cleared; the hold slot is kept |
| RuleProperties.PlaceBlockGameOver | game.py:89-92 | after a valid lock, game over is set exactly when the new current piece is not valid, and is never cleared |
| RuleProperties.PlaceInvalidOnlyRotates | game.py:93-94 | an invalid piece is only rotated: the new state is the old one with the current piece rotated once, so grid, queue, score, hold, bag and flags are unchanged |
| RuleProperties.PlaceBlockPreserves | game.py:73-94 | place_block keeps the invariant: well-shaped grid of ids with no full row below row 0, well-formed pieces, a bag without repeats, non-negative combo count and score |
| RuleProperties.HardDropIntentFacts | main.py:92-93 | the hard-drop key locks the piece at the last valid row and adds 2 points per row descended; it leaves previous_lines_cleared and the combo count at 0 even after a clear; the invariant is kept |
| RuleProperties.HoldFacts | game.py:52-61 | a hold is a no-op once used in a drop; into an empty slot it parks the piece and takes the queue's front with no refill; otherwise it swaps and moves the incoming piece by (0, 3); a second hold changes nothing |
| RuleProperties.ResetHeldFacts | game.py:175-181 | the new state is the old one with the held piece's offsets set to 0; with no held piece nothing changes; the invariant is kept |
| RuleProperties.ResetFacts | game.py:96-101 | reset empties grid and hold and zeroes the score; it keeps the queue length and takes the queue's front as the current piece; it leaves game over, combo count, previous lines and hold flag; a first hold followed by a reset shortens the queue by one |
| Rules.TryKicking | game.py:110-132 | the piece keeps its kind and row; either it is returned unchanged, or the result is valid and one rotation state past the input |
| RuleProperties.RotateOutcome | game.py:103-132 | a valid in-place rotation advances the state with offsets kept; without a wall branch, or when the kick retry is invalid, the piece is restored exactly; a valid kick retry leaves the piece one state on at the shifted column |
| RuleProperties.KickCanLeaveInvalid | game.py:110-118 | a valid L against the left wall is left by rotate in an invalid position |
| Rules.UpdateScore | game.py:134-156 | only score, previous_lines_cleared and combo count change; with a non-negative combo count the score gains at least 2 per row dropped plus the line points (100 per line, 800 for four) |
| RuleProperties.ScoreNeverDecreases | game.py:134-156 | with non-negative arguments the score never decreases and the combo count stays non-negative |
| RuleProperties.ComboRules | game.py:147-156 | a clear right after a clear increments the combo count; a clear after a gap keeps it; a zero-line call resets it and previous_lines_cleared to 0; otherwise previous_lines_cleared becomes the lines cleared |
| RuleProperties.ScoreExamples | game.py:134-156 | a single scores 100; two singles in a row score 250 with combo 1; a back-to-back four-line clear scores 1600 plus a 50-point combo |
| TetrisGame.Game.constructor | game.py:6-17 | the new object's state is Initial(choices): empty grid, six draws from a full bag, no hold, score 0 |
| TetrisGame.Game.DrawKinds | game.py:10 | the loop of draws returns the kinds drawn, in order, and leaves the bag that DrawMany gives |
| TetrisGame.Game.IsValidAction | game.py:21-26 | the early-exit loop returns true exactly when every cell of the piece is inside and empty |
| TetrisGame.Game.GetRandomBlock | game.py:28-33 | returns the kind at the pick in the bag (refilled if empty) and removes it from the bag |
| TetrisGame.Game.UpdateScore | game.py:134-156 | the new state is Rules.UpdateScore of the old one |
| TetrisGame.Game.MoveLeft | game.py:63-66 | the new state is Rules.MoveLeft of the old one |
| TetrisGame.Game.MoveRight | game.py:68-71 | the new state is Rules.MoveRight of the old one |
| TetrisGame.Game.StampCurrent | game.py:75-77 | the grid becomes Stamp of the old grid with the piece's cells and id |
| TetrisGame.Game.CheckSpawnBlocked | game.py:89-92 | game over becomes true if any cell of the new piece is occupied, and is otherwise unchanged |
| TetrisGame.Game.Lock | game.py:74-83 | the new state is Rules.Lock of the old one |
| TetrisGame.Game.NextPiece | game.py:85-92 | the new state is Rules.NextPiece of the old one |
| TetrisGame.Game.PlaceBlock | game.py:73-94 | the new state is Rules.PlaceBlock of the old one, and the invariant is kept |
| TetrisGame.Game.SoftDrop | game.py:35-39 | the new state is Rules.SoftDrop of the old one |
| TetrisGame.Game.Descend | game.py:43-49 | the loop stops at the last valid row; the count returned is the drop distance |
| TetrisGame.Game.HardDrop | game.py:41-50 | the new state and the count returned are Rules.HardDrop of the old state |
| TetrisGame.Game.HardDropKey | main.py:92-93 | the new state is HardDropIntent of the old one |
| TetrisGame.Game.HoldBlock | game.py:52-61 | the new state is Rules.HoldBlock of the old one |
| TetrisGame.Game.ResetHeldBlock | game.py:175-181 | the new state is ResetHeld of the old one |
| TetrisGame.Game.Reset | game.py:96-101 | the new state is Rules.Reset of the old one |
| TetrisGame.Game.TryKicking | game.py:110-132 | the current piece becomes Rules.TryKicking of the rotated piece; nothing else changes |
| TetrisGame.Game.Rotate | game.py:103-108 | the new state is RotateIntent of the old one |

## Left out

- Drawing, colours, fonts, sounds, `print_cells` and `cell_size` are not modelled: they are rendering and audio only. This includes every `draw` method, `Colors` and the `.play()` calls.
- The driver loop of main.py is not modelled, except its hard-drop key (`HardDropKey`). This covers events, timers, the pause toggle and the restart flag.
- The `pause` field is not modelled: only the driver reads or writes it.
- The distribution of `random.choice` is not modelled: the pick is an explicit index parameter. Only the bag discipline is proved.
- Pieces are values, not objects, so aliasing between hold, current piece and queue is not modelled. The queue and the bag hold kinds, because a piece in either has never been moved and is always its kind's spawn piece. `blocks.remove(block)` removes by identity; it is modelled as removing the element at the pick's index.
- The grid is fixed at 20 x 10, as the source always builds it.
- `Board.Grid.IsEmptyCell` requires its position to be inside the grid. Python would wrap a negative index or raise on a large one. Every caller checks `is_inside` first, except the game-over loop, whose spawn cells are inside (`Rules.SpawnInside`).
- `TetrisGame.Game.HoldBlock`, `TetrisGame.Game.PlaceBlock`, `TetrisGame.Game.SoftDrop`, `TetrisGame.Game.HardDrop` and `TetrisGame.Game.HardDropKey` require a non-empty queue whenever they would pop it. The source would raise `IndexError` from `popleft` there; that error is not modelled.
- The first of the six draws of `__init__` is taken together with the other five by one loop (`TetrisGame.Game.DrawKinds`); the source calls `get_random_block` once and then five more times. The draws and their order are the same.
- `reset` does not fully restart the game: the code leaves game over, the combo count, `previous_lines_cleared` and the hold flag as they were. The driver clears game over itself before calling `reset` (main.py:80-81).
- Game.draw's `reset_hold_block` on the held piece is a separate step (`TetrisGame.Game.ResetHeldBlock`), because it happens while rendering rather than inside `hold_block`.
