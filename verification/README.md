# Tic-tac-toe game engine

A Dafny model of the game logic of the React tutorial's tic-tac-toe widget
(`src/index.tsx`): the winner scan `calculateWinner`, the initial state of the
`Game` component, the move transition `handleClick` and the time-travel
transition `jumpTo`. Component state becomes an immutable `GameState` record
(`history`, `stepNumber`, `xIsNext`) and each `setState` call becomes a pure
function from the old state to the new one.

Modules:

- `Wrappers` (`wrappers.dfy`): `Option`, for the `col`/`row` of the initial
  entry, which the original leaves `null`.
- `Boards` (`boards.dfy`): `Cell = Empty | X | O` (`Empty` is the original's
  `null`, the only falsy square), nine-square `Board`s, the eight winning
  `Lines` in scan order, `CalculateWinner` (which returns `Empty` where the
  original returns `null`), move coordinates, and mark counting.
- `Game` (`game.dfy`): history entries, the state, `Initial`, `HandleClick`,
  `JumpTo`, the invariant `Valid` and the laws of the two transitions.
- `Replay` (`replay.dfy`): sequences of clicks (`Run`), and the short game
  0, 4, 1, 5, 2 played out, followed by a jump back to step 2 and a click on
  square 7.

`Valid` is the invariant every reachable state keeps:

- the history is never empty and starts with the empty board, with no
  coordinates;
- the cursor is inside the history;
- `xIsNext` holds exactly when the cursor is even;
- entry `k` holds ceil(k/2) X's and floor(k/2) O's, so `k` marks in all;
- every later entry differs from the one before it in exactly the square
  its recorded `(row, col)` names, which was empty and is now marked.

`jumpTo` does not check its step. Only the move list calls it, and the
move list offers only indices of the history. So `JumpTo` takes any step,
and `JumpToPreservesValid` assumes the step is in range. `handleClick` cuts
the history with `slice(0, stepNumber + 1)`, and `slice` clamps to the
array's length. `Kept` models that clamp, so `HandleClick` is defined for
every cursor, including one past the end.

## Model

| member | source | states |
|---|---|---|
| `Boards.CalculateWinner` | src/index.tsx:187-205 | the result is `Empty` (`null`) exactly when no line is complete; otherwise it is the mark of the first complete line in the order rows, columns, diagonals |
| `Boards.ScanFrom` | src/index.tsx:198-204 | scanning the lines from position `k` returns `Empty` iff none of lines `k..7` is complete, else the mark of the first complete one |
| `Boards.LinesAreRowsColumnsDiagonals` | src/index.tsx:188-197 | the eight lines are the three rows top to bottom, the three columns left to right, then the main and the anti-diagonal |
| `Boards.WinnerOwnsALine` | src/index.tsx:198-202 | a non-null winner is the shared mark of some first complete line |
| `Boards.SoleMarkWins` | src/index.tsx:187-205 | when some line is complete and every complete line belongs to the same player, the scan returns that player |
| `Boards.EmptyBoardHasNoWinner` | src/index.tsx:187-205 | the empty board has no winner |
| `Boards.Mark` | src/index.tsx:84 | the written mark is never empty, and it is X exactly when `xIsNext` |
| `Boards.IndexOfCoordinates` | src/index.tsx:79-80 | `col = i % 3` and `row = floor(i / 3)` both lie in 0..2 and `row * 3 + col == i` |
| `Boards.CoordinatesOfIndex` | src/index.tsx:79-80 | conversely, any (row, col) pair in 0..2 is recovered from the square `row * 3 + col` |
| `Boards.CountIsMultiplicity` | src/index.tsx:77-84 | the number of squares holding a cell, counted one square at a time, is that cell's multiplicity in the multiset of the board's squares |
| `Boards.CountsAddUp` | src/index.tsx:77-84 | every square holds exactly one of empty, X and O, so the three counts add up to the board's length |
| `Boards.CountAfterWrite` | src/index.tsx:84 | writing a mark into one square moves one unit of count from the square's old content to the mark and leaves other counts alone |
| `Game.Initial` | src/index.tsx:62-66 | the initial state is valid, shows the empty board and gives the turn to X |
| `Game.Kept` | src/index.tsx:76 | the click keeps between 1 and all entries: `stepNumber + 1` of them when the cursor is inside the history, and all of them when it lies beyond the end, as `slice` clamps |
| `Game.HandleClick` | src/index.tsx:75-90 | a click on a board that already has a winner or on an occupied square leaves history, cursor and turn unchanged; an accepted click leaves one entry after the kept ones, puts the cursor on it and flips the turn |
| `Game.AcceptedMoveKeepsPrefix` | src/index.tsx:76-86 | an accepted click keeps every entry up to the cursor unchanged |
| `Game.AcceptedMoveBoard` | src/index.tsx:77-84 | the new board has the mover's mark in the clicked square and equals the clicked board everywhere else |
| `Game.AcceptedMoveRecordsSquare` | src/index.tsx:79-86 | the new entry records coordinates in 0..2 that name the clicked square, which was empty before and is marked now |
| `Game.AcceptedMoveAppends` | src/index.tsx:76-86 | from a valid state the new history is `history[0..stepNumber]` followed by exactly one new entry |
| `Game.AcceptedMoveAdvances` | src/index.tsx:85-89 | from a valid state an accepted click moves the cursor to `stepNumber + 1` and the turn to that step's parity |
| `Game.AcceptedMoveCounts` | src/index.tsx:81-86 | from a valid state the new board holds the mark counts of the next step |
| `Game.HandleClickPreservesValid` | src/index.tsx:75-90 | every click, accepted or rejected, keeps the state valid |
| `Game.JumpTo` | src/index.tsx:68-73 | time travel leaves the history untouched, puts the cursor on `step` and gives X the turn exactly on even steps |
| `Game.JumpToPreservesValid` | src/index.tsx:68-73 | a jump to any step the move list offers keeps the state valid |
| `Game.JumpToCurrentIsIdentity` | src/index.tsx:68-73 | in a valid state, jumping to the step under the cursor changes nothing |
| `Game.JumpToOverrides` | src/index.tsx:68-73 | of two jumps in a row only the last one matters |
| `Game.MoveAfterJumpTruncates` | src/index.tsx:68-89 | after a jump back to step `k`, an accepted click keeps entries 0..k, discards all later ones and appends the step-k board with the mark of step k's parity in the clicked square |
| `Game.NoMoveAfterWin` | src/index.tsx:81-83 | once the clicked board has a winner every click is ignored |
| `Game.EntryHasStepMarks` | src/index.tsx:62-89 | in a valid state entry `k` holds exactly `k` marks and `9 - k` empty squares |
| `Game.HistoryAtMostTen` | src/index.tsx:62-89 | a valid history holds at most ten entries, because a game has at most nine moves |
| `Replay.RunPreservesValid` | src/index.tsx:62-90 | every state reached by clicks from a valid state is valid |
| `Replay.RunFromTail` | src/index.tsx:76-89 | played with the cursor on the newest entry, each accepted click adds exactly one entry and the cursor stays on the newest entry |
| `Replay.AcceptedMovesFromStart` | src/index.tsx:62-89 | after N accepted clicks from the initial state the history holds N + 1 entries and the cursor is on entry N |
| `Replay.RunAfterWinIsNoOp` | src/index.tsx:81-83 | once the clicked board has a winner no sequence of clicks changes the state or is accepted |
| `Replay.ClickOnTail` | src/index.tsx:75-90 | with the cursor on the newest entry, an accepted click appends the marked board with its coordinates |
| `Replay.TopRowIsComplete` | src/index.tsx:187-205 | the board X, X, X / empty, O, O / empty row is won by X through the top row |
| `Replay.TopRowGameIsWonByX` | src/index.tsx:75-90 | clicking 0, 4, 1, 5, 2 from the start gives X the top row, six entries and the cursor on entry 5 |
| `Replay.RewriteAfterJump` | src/index.tsx:68-89 | jumping back to step 2 of that game gives X the turn, and clicking square 7 replaces entries 3..5 by one entry holding the moves on 0, 4 and 7 |

## Left out

- The `Square` and `Board` components, the JSX of `Game.render`, the status text ("Next player", "Winner") and the move-list labels (src/index.tsx:10-49, 92-130). They are rendering only. The move list matters only because it limits `jumpTo` to indices of the history, and `JumpToPreservesValid` assumes that limit.
- The temperature `Calculator`, `TemperatureInput`, `toCelsius` and `toFahrenheit` (src/index.tsx:135-172, 207-213). They are floating-point conversions of coerced input text and are not part of the game.
- The `ReactDOM.createRoot` mount (src/index.tsx:176-183). It is process bootstrap.
- `setState` batching and asynchrony. Each transition is one atomic step from the old state to the new one.
- Clicks outside squares 0..8. The board renders only those nine squares, so `HandleClick` takes an `Index`.
- An empty history. `HandleClick` requires at least one entry, because the original reads `.squares` of the last kept entry. No reachable state has an empty history.
- Negative or non-integer steps for `jumpTo`. The move list passes only array indices, so `JumpTo` takes a `nat`.
