# Tic-tac-toe engine on an N×N board

This project models the engine of a generalised tic-tac-toe game played on an
N×N grid (N ≥ 3). A human plays against the computer. The engine has three
stateful classes, and the model keeps each of them as a Dafny class:

- `Boards.Board` (Board.java) holds the grid as a two-dimensional character
  array, where `' '` marks an empty cell, and a counter of empty cells that it
  maintains by hand. Its invariant `Valid()` says that the counter equals the
  number of empty cells in the grid snapshot `Cells()`.
- `Turns.TurnManager` (TurnManager.java) holds the human's symbol, the
  computer's symbol and the turn flag. `'X'` always moves first.
- `Engine.BoardManager` (BoardManager.java) owns one board and one turn
  manager and remembers the last move. It checks and plays the human's moves
  and plays the computer's moves. It decides whether the game is won, drawn or
  still going by walking outward from the last move along four axes.

Two modules hold the value-level specification:

- `Grids` gives the board's contents a snapshot type and proves the counting
  facts that the counter relies on.
- `Lines` defines `Run`, the length of a contiguous run of one symbol in one
  direction. It proves that, along each of the four scanned axes, the two runs
  from a cell plus the cell itself count N exactly when the whole row, column
  or diagonal through that cell holds the symbol. It also proves that
  scanning only through the last move misses no win: `AnchoredScanSuffices`.

On a blank board `CheckState` returns -1, and the model proves this. The last
position defaults to (0, 0), and a blank row of `' '` counts as complete for
the symbol `' '`, which is not the human's. The game only asks for the state
after a move, so this is recorded as behaviour, not as a finding.

## Model

| member | source | states |
|---|---|---|
| Grids.Set | Board.java:64-68 | the snapshot after writing one cell: that cell holds the symbol, every other cell and both dimensions are unchanged |
| Grids.RowEmptyCountUpdate | Board.java:64-68 | writing a symbol into an empty cell of a row lowers that row's empty count by exactly one |
| Grids.EmptyCountUpdate | Board.java:64-68 | writing a symbol into an empty cell lowers the grid's empty count by exactly one, so the counter's decrement is right |
| Grids.RowEmptyCountPositive | Board.java:52-55 | a row's empty count is positive iff the row has an empty cell |
| Grids.EmptyCountPositive | Board.java:52-55 | the empty count is positive iff some cell is empty, in both directions, so "counter is zero" means "no empty cell" |
| Grids.RowEmptyCountBound | Board.java:20 | a row of n cells has at most n empty cells, and exactly n when all are empty |
| Grids.EmptyCountBound | Board.java:20 | k rows of n cells have at most k*n empty cells, and exactly k*n when all are empty |
| Grids.BlankCount | Board.java:17-23 | the blank grid of side n is square and has n*n empty cells, so the initial counter is right |
| Grids.OnlyEmptyCell | BoardManager.java:56-62 | with exactly one empty cell, any two empty cells are the same cell, so the random draw has a single outcome |
| Lines.RunBound | BoardManager.java:130-135 | a walk never leaves the board: its count is at most n and at most the room left to the edge in each direction it moves along |
| Lines.RunCell | BoardManager.java:130-135 | every cell a run covers is on the board and holds the symbol |
| Lines.RunStop | BoardManager.java:130 | a run is maximal: the first cell past it is off the board or holds another character |
| Lines.RowScan | BoardManager.java:92 | horizontal scan: 1 + right run + left run equals n iff the whole row holds the symbol |
| Lines.ColumnScan | BoardManager.java:93 | vertical scan: 1 + down run + up run equals n iff the whole column holds the symbol |
| Lines.MainDiagonalCovered | BoardManager.java:94 | a main-diagonal count of n puts the last move on the main diagonal and fills that diagonal |
| Lines.MainDiagonalReached | BoardManager.java:94 | on a filled main diagonal, the two runs from a cell on it reach both corners, so the count is n |
| Lines.MainDiagonalScan | BoardManager.java:94 | main-diagonal scan: the count is n iff the cell is on the main diagonal and the whole diagonal holds the symbol |
| Lines.AntiDiagonalCovered | BoardManager.java:95 | an anti-diagonal count of n puts the last move on the anti-diagonal and fills that diagonal |
| Lines.AntiDiagonalReached | BoardManager.java:95 | on a filled anti-diagonal, the two runs from a cell on it reach both corners, so the count is n |
| Lines.AntiDiagonalScan | BoardManager.java:95 | anti-diagonal scan: the count is n iff the cell is on the anti-diagonal and the whole anti-diagonal holds the symbol |
| Lines.AxisScan | BoardManager.java:118-150 | for each of the four scanned axes, the count of isCompleteLine reaches n iff the whole line through the last move holds the symbol |
| Lines.WonIsLine | BoardManager.java:92-95 | a line found through the last move is a real row, column or diagonal of the grid |
| Lines.AnchoredScanSuffices | BoardManager.java:92-95 | scanning only through the last move loses no win: a line that appears when a symbol is written holds that symbol and passes through the written cell |
| Lines.TopRowWin | BoardManager.java:92-97 | after X(0,0), O(1,1), X(0,1), O(2,2), X(0,2) on a 3×3 board, a line through (0,2) holds X and cells remain empty, so the state is a human win for a human playing X |
| Lines.DrawnGridNoLine | BoardManager.java:92-95 | the grid X O X / X O O / O X X has no row, column or diagonal of one symbol |
| Lines.DrawnGridFull | Board.java:52-55 | every cell of that grid holds a symbol |
| Lines.DrawnGrid | BoardManager.java:88-104 | on that grid no line through any cell is complete and no cell is empty, so the state is a draw whichever move came last |
| Boards.Board.Cells | Board.java:8 | the snapshot is an n×n grid that agrees with the array cell by cell |
| Boards.Board.CounterBounds | Board.java:10 | on a valid board the counter lies between 0 and size*size, so it never goes negative |
| Boards.Board.constructor | Board.java:17-23 | a new board has the given size, every cell empty, a counter of size*size and a true invariant |
| Boards.Board.InitializeGrid | Board.java:28-33 | the nested loops leave every cell empty |
| Boards.Board.IsCellEmpty | Board.java:42-45 | true iff the cell holds ' ', without changing anything |
| Boards.Board.IsFull | Board.java:52-55 | on a valid board, true iff no cell is empty |
| Boards.Board.PlaceMove | Board.java:64-68 | the cell takes the symbol, every other cell stays, the counter drops by one, and the invariant survives when the cell was empty and the symbol is not ' ' |
| Boards.Board.GetCell | Board.java:77-80 | the stored character of the cell, without changing anything |
| Boards.Board.GetSize | Board.java:87-89 | the side of the board, which is both dimensions of the array |
| Boards.Board.OutOfRange | Board.java:98-101 | true iff the coordinates do not address a cell of the array |
| Boards.Board.Reset | Board.java:106-110 | every cell is empty and the counter is size*size, the same state as a new board of that size |
| Turns.ComplementOf | TurnManager.java:20 | the computer's symbol is always X or O, and it is O exactly when the human plays X |
| Turns.ComplementPair | TurnManager.java:20 | for the two symbols, the complement is the other symbol, undoes itself, and the two roles form the pair {X, O} |
| Turns.TurnManager.constructor | TurnManager.java:17-22 | the human gets the chosen role, the computer its complement, and the human moves first iff the role is X |
| Turns.TurnManager.GetCurrentRole | TurnManager.java:29-32 | the human's role on the human's turn and the computer's otherwise; with valid roles it is a symbol that belongs to the human exactly on the human's turn |
| Turns.TurnManager.SwitchTurn | TurnManager.java:37-40 | the turn flag flips, nothing else changes, and with valid roles the symbol due to move changes |
| Turns.TurnManager.IsPlayerTurn | TurnManager.java:47-50 | with valid roles, true iff the symbol due to move is the human's |
| Turns.TurnManager.SetRole | TurnManager.java:57-62 | the roles and the turn are recomputed from the new role alone, whatever the previous state was |
| Turns.TurnManager.RoleIsPlayer | TurnManager.java:70-73 | true iff the symbol is the human's; with valid roles, iff it is not the computer's |
| Turns.SwitchTwiceRestores | TurnManager.java:37-40 | two switches restore the original state: no field of the turn manager changes, so the turn flag, both roles and the symbol due to move are as before |
| Turns.ChoosingOLetsComputerOpen | TurnManager.java:57-62 | after choosing O the human does not move first, and the computer, playing X, is due to move |
| Engine.GuardAsWritten | BoardManager.java:37-38 | the guard in the order it is written fails with an out-of-bounds access exactly on out-of-range coordinates, and accepts exactly in-range empty cells on the human's turn |
| Engine.OutOfRangeMoveThrows | BoardManager.java:37 | on a blank 3×3 board, the move (3, 0) reaches the array access and fails instead of being refused |
| Engine.BoardManager.constructor | BoardManager.java:12-25 | a new game: blank board of the given size, roles and turn set from the human's role, no move played, and the last position at its default (0, 0) |
| Engine.BoardManager.PlayerTurn | BoardManager.java:34-43 | accepts iff the coordinates are in range, the cell is empty and it is the human's turn; on refusal nothing changes; on success the human's symbol is placed, the counter drops by one, the move is recorded and the turn passes |
| Engine.BoardManager.ComputerTurn | BoardManager.java:50-67 | on the human's turn returns nothing and changes nothing; otherwise it returns an in-range cell that was empty, now holding the computer's symbol, with the counter down by one, the move recorded and the turn back with the human |
| Engine.BoardManager.NextMove | BoardManager.java:75-81 | places the symbol due to move, records the position, flips the turn and keeps the roles and the board invariant |
| Engine.BoardManager.CheckState | BoardManager.java:88-104 | 1 iff a line through the last move holds the human's symbol, -1 iff it holds another symbol (the computer's once a move was played), 0 iff there is no such line and no empty cell, and 2 otherwise; it changes nothing |
| Engine.BoardManager.AnyCompleteLine | BoardManager.java:92-95 | the four short-circuited scans find a line iff one of the four lines through the last move holds its symbol |
| Engine.BoardManager.IsCompleteLine | BoardManager.java:118-150 | true iff 1 + the forward run + the backward run of the symbol from the last move equals the board's size |
| Engine.BoardManager.CountRun | BoardManager.java:126-146 | each while loop returns the length of the run of the symbol from its start cell in its direction |
| Engine.BoardManager.GetCurrentRole | BoardManager.java:157-160 | the turn manager's symbol due to move, which is the human's exactly on the human's turn |
| Engine.BoardManager.SetRole | BoardManager.java:167-170 | only the turn state changes, recomputed from the new role; the board and the last move stay |
| Engine.BoardManager.ResetGrid | BoardManager.java:175-178 | only the board changes: every cell empty and a full counter; the turn state and the last position stay |
| Engine.LastEmptyCellIsChosen | BoardManager.java:56-66 | with one empty cell left on the computer's turn, the computer's move is that cell |
| Engine.MoveAndAnswer | BoardManager.java:34-66 | an accepted human move followed by the computer's answer uses two different cells, two fewer empty cells remain, and the turn is back with the human |

## Left out

- The random number generator and the rejection-sampling loop of computerTurn (BoardManager.java:11, 24, 56-62) are replaced by a nondeterministic choice of an empty in-range cell. The model does not state the uniform distribution, and it cannot state that the loop terminates.
- Engine.BoardManager.PlayerTurn checks the range first and returns false for an out-of-range move, where the source throws an out-of-bounds exception from the emptiness check (BoardManager.java:37). The source's order is modelled separately by Engine.GuardAsWritten; see "## Findings".
- Engine.BoardManager.ComputerTurn requires a non-full board on the computer's turn. On a full board the loop never ends, so there is no return value to model.
- Engine.BoardManager.IsCompleteLine: the two while loops are the same walk in opposite directions. The model runs each walk as a call to the one loop method CountRun. The counts, the order and the result are those of the source.
- Engine.BoardManager.AnyCompleteLine is the four-way `||` of checkState (BoardManager.java:92-95), made a method of its own so that each proof stays small. The calls are short-circuited in the same order.
- Engine.BoardManager.CheckState has no "a move was made" precondition, because the source accepts the call at any time. A ghost flag `moved` records whether a move was played, and the -1 result is tied to the computer's symbol only when that flag is set.
- Engine.BoardManager.constructor and Engine.BoardManager.SetRole require the role to be X or O, because the game only offers those two. Turns.TurnManager accepts any character, as the source does: a role other than X gives the computer X.
- Engine.BoardManager.constructor requires a size of at least 3, the bound the launcher enforces on its argument (src/TicTacToe.java:22). The launcher's argument parsing is not modelled.
- The graphical interface (src/TicTacToeGUI.java) and the game controller's thread and 200 ms delay (src/TicTacToeGame.java) are presentation and scheduling. They are not part of this model.
- Java `int` overflow is not modelled. For a size of at most 46340, `size * size` fits in an `int`, the counter stays between 0 and size*size, and coordinates stay within one step of the board, so nothing overflows. The launcher puts no upper bound on the size (src/TicTacToe.java:20-26). For a size of 46341 or more, `size * size` at Board.java:20 wraps and the counter starts negative. Such boards are not modelled: the model's integers are unbounded.
- The grid is a Dafny two-dimensional array. Java's array of row arrays never shares or replaces a row here, so no aliasing between rows is modelled.
- Board.reset empties the cells before it restores the counter. The model assigns the counter first. The two fields are independent, so the final state is the same.

## Findings

| source | as written | input that shows it | evidently intended | confidence | as-written member | corrected member |
|---|---|---|---|---|---|---|
| BoardManager.java:37 | the guard calls isCellEmpty(row, col) before outOfRange(row, col), so an out-of-range move indexes the array before the range check can refuse it | playerTurn(3, 0) on a 3×3 board throws an out-of-bounds exception instead of returning false | check the range first and return false for any move off the board | high, not executed | Engine.GuardAsWritten, Engine.OutOfRangeMoveThrows | Engine.BoardManager.PlayerTurn |
