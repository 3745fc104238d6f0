# Tic-tac-toe game engine

A Dafny model of the game engine of a browser tic-tac-toe game
(`src/App.js`): the 3x3 board and the search for a winning line, the
guarded single-cell update a click makes, the status line (won, in
progress, drawn), the description of each move as a row and column, and
the `Game` state — the history of board snapshots, the move currently
shown and the order the move list is displayed in.

Modules, one per part of the engine:

- `Wrappers` (wrappers.dfy): `Option`, for the original's "value or null".
- `TicTacToe` (board.dfy): players, cells, the `Board` of nine cells, the
  eight `Lines` in search order, `CalculateWinner`, the click update
  `HandleClick`, and the status (`Classify`, computed imperatively by
  `ComputeStatus`).
- `MovePositions` (moves.dfy): `CalculateMovePosition` and the index to
  (row, column) conversion `RowCol`, with its inverse `CellIndex`.
- `GameState` (game.dfy): the class `Game` with the fields `history`,
  `currentMove` and `isHistoryReverse` and the methods `HandlePlay`,
  `Click`, `JumpTo` and `Reverse`; the predicate `ConsistentHistory` (the
  history starts empty and each snapshot follows from the one before by a
  legal move of the player whose turn it was) and the lemmas about it.

Modelling choices:

- A cell is `Empty` (null in the original) or `Marked(X)` / `Marked(O)`;
  the original's truthiness test `squares[a]` is `squares[a] != Empty`.
- A board is a value (`seq<Cell>` of length 9). The original copies the
  array with `slice()` and writes one cell before handing it to the
  history; the model builds the updated copy with a sequence update, so
  every snapshot in the history stays a separate value, as in the original.
- `calculateMovePosition` returns `undefined` for move 0 and `null` when no
  cell differs; the two are kept apart as `GameStart` and `NoDifference`.
  The string "row,col" becomes the pair `At(row, col)`.
- The status string becomes the datatype `Status`: `Winner(mark)`,
  `NextPlayer(mark)` or `Draw`.
- `HandlePlay` accepts any board, as the original does; it promises to keep
  `ConsistentHistory` only when the board it is given is a legal move.
  `Click` (the original's `handleClick` followed by `onPlay`) always keeps it.
- The move describer could be read as assuming that exactly one cell
  differs between two snapshots; the code instead returns null when none
  differs. The model follows the code and keeps that case
  (`NoDifference`), and proves that it never arises in a consistent
  history (`ConsistentPositions`).

## Model

| member | source | states |
|---|---|---|
| TicTacToe.FirstComplete | src/App.js:181-187 | the search from position k returns the first complete line at or after k, or the end of the list when none is complete |
| TicTacToe.CalculateWinner | src/App.js:170-188 | a returned line is one of the eight and its three cells are non-empty and equal; the result is null exactly when no line is complete |
| TicTacToe.WinnerIsFirstComplete | src/App.js:181-186 | a complete line is the one returned exactly when no earlier line (rows, then columns, then diagonals) is complete |
| TicTacToe.HandleClick | src/App.js:15-26 | a click is refused exactly when the board has a winner or the cell is taken; otherwise the new board equals the old one except that the empty cell i now holds X if X is next, else O, which is a legal move |
| TicTacToe.Classify | src/App.js:28-45 | the status is Winner exactly when there is a winning line, with the mark found on all three of its cells; Draw exactly when there is no winner and no empty cell; otherwise the next player, X when X is next |
| TicTacToe.ComputeStatus | src/App.js:28-45 | the flag-raising scan over the cells yields the same status as Classify |
| TicTacToe.FinishedBoardRefusesClicks | src/App.js:16-18 | on a won or drawn board every click is refused |
| MovePositions.RowCol | src/App.js:162-164 | the 1-based row and column of a cell are both in 1..3 and map back to the same cell |
| MovePositions.CalculateMovePosition | src/App.js:152-168 | nothing for moves before 1; otherwise the row and column (both in 1..3) of the first cell where the two snapshots differ; NoDifference exactly when the two snapshots are equal |
| MovePositions.FirstDifference | src/App.js:160-166 | the search from cell k returns the first cell at or after k where the two snapshots differ, or 9 when none does |
| MovePositions.PositionOfMove | src/App.js:157-165 | when a move fills exactly cell i, the position described is the row and column of i |
| GameState.MarksMatchTurn | src/App.js:84 | in a consistent history snapshot k has (k + 1) / 2 X marks, k / 2 O marks and 9 - k empty cells, and X moves next exactly when both have the same number of marks |
| GameState.HistoryAtMostTen | src/App.js:82-92 | a consistent history never holds more than ten snapshots |
| GameState.ConsistentPositions | src/App.js:98-103 | every move after the start of a consistent history has a position, whose cell was empty before and holds the mark of the player who moved |
| GameState.Game.XIsNext | src/App.js:84 | in a consistent history, X moves next (the move shown is even) exactly when X and O have the same number of marks on the board shown |
| GameState.Game.CurrentSquares | src/App.js:85 | in a consistent history, the board shown is the position after currentMove moves: it has 9 - currentMove empty cells |
| GameState.Game.constructor | src/App.js:82-86 | a new game holds one empty board, shows move 0, lists moves in ascending order, and its history is consistent |
| GameState.Game.HandlePlay | src/App.js:88-92 | the history keeps the snapshots up to and including the move shown, drops every later one, ends with the new board, and the move shown becomes the last one; the turn passes to the other player; the index invariant holds, and consistency is kept when the board is a legal move |
| GameState.Game.Click | src/App.js:15-25 | a refused click leaves history and move shown unchanged; otherwise the earlier history up to the move shown is kept, one snapshot is added with the clicked cell set to the mover's mark, and it is shown; consistency of the history is preserved |
| GameState.Game.JumpTo | src/App.js:94-96 | only the move shown changes, to the requested one, which must be an index of the history |
| GameState.Game.Reverse | src/App.js:125-127 | the display-order flag is flipped and nothing else changes |
| GameState.ReverseTwice | src/App.js:125-127 | flipping the display order twice restores it |

## Left out

- Rendering: the `Square` component, the choice of CSS class for winning
  cells, React `key` strings, the markup of board rows and columns, the
  `<ol reversed>` list and the button labels. They only present the state.
- The React `useState` plumbing: the three state variables are fields of
  the class `Game`, and each setter call is a field assignment.
- The display strings ("Winner: ", "Next player: ", "It's a DRAW!!",
  "Go to move ( … )", "You are at the move"): the status is a datatype and
  the move position a (row, column) pair.
- The in-place `moves.reverse()` of the rendered move list: it reorders
  UI elements, not game state; only the flag it reads is modelled.
- GameState.Game.JumpTo: requires the move to be an index of the history;
  the original does not check it, and its only caller passes indices taken
  from the history it renders.
- MovePositions.CalculateMovePosition: requires the move to be an index of
  the history; the original would throw reading a cell of `undefined` for a
  larger index, but its only callers pass indices taken from `history.map`.
- TicTacToe.HandleClick: cell indices are 0..8 (`Index`); the original's
  clicks come only from the nine rendered cells, so other indices are not
  modelled.
