# Tic-tac-toe `App` component: a Dafny model of its state transition

The `App` component of this tic-tac-toe game keeps three pieces of state:
a 9-cell board of strings (`""`, `"X"` or `"O"`), a move counter, and a
history of board snapshots indexed by move number. A click on the cell at
index `idx` (`onBoxClick`) writes the current player's mark into a copy of
the board — `"X"` when the counter is even, `"O"` when it is odd — advances
the counter by one, and stores the new board in the history at the new
counter value (`updateHistory`). The grid addresses cell (`row`, `col`) as
`row * 3 + col`.

`app.dfy` holds one module, `TicTacToe`:

- The pure parts are functions: `InitialBoardState` (`Array(9).fill("")`),
  `IsPlayerOne`/`CurrentMark` (the parity of the counter), `MarkCell` (the
  `boardState.map(...)` that builds the new board), `Stored` (writing into a
  copy of the history) and `CellIndex` (the grid addressing).
- The component is the class `App` with the fields `counter`, `boardState`
  and `boardStateHistory`. React's setters are taken as immediate,
  sequential assignments. `OnBoxClick` and `UpdateHistory` are methods that
  reassign these fields. The board fields hold sequences because the code
  never updates a board in place: each click builds a new array and stores
  it whole.
- `Step` is the same click as a function on the state triple
  (`GameState`), and `Run` folds `Step` over a sequence of clicks from a
  fresh component. `OnBoxClick` is proved to perform exactly `Step`, so the
  lemmas about `Step` and `Run` are lemmas about the component.
- `Consistent` is the component's invariant: the history has
  `counter + 1` snapshots, the last one is the board, the first one is the
  initial empty board, and every snapshot has nine cells. The constructor
  establishes it and every click preserves it (`App.Valid`). Under it, the
  write at index `counter + 1` is always an append.

The code does what is modelled here and no more. A click on an occupied
cell overwrites its mark and still advances the counter. Clicks keep
advancing the counter after the board is full. There is no win detection,
no undo and no reset. `RepeatedClickOverwrites` shows the overwrite.

## Model

| member | source | states |
|---|---|---|
| `TicTacToe.InitialBoardState` | src/App.tsx:15 | the initial board has exactly 9 cells, all 9 empty, and no `"X"` or `"O"` |
| `TicTacToe.Initial` | src/App.tsx:15-21 | the fresh state triple `GameState` (counter, board, history) has counter 0 and a history holding exactly one entry, the initial board; it satisfies the invariant `Consistent` and its board has 9 empty cells |
| `TicTacToe.App.constructor` | src/App.tsx:17-21 | the component starts with counter 0, the initial board and the one-entry history `[initial board]`, and satisfies `Valid` |
| `TicTacToe.IsPlayerOne` | src/App.tsx:23 | player one is to move exactly when the counter is twice some whole number, that is, even |
| `TicTacToe.CurrentMark` | src/App.tsx:23-27 | the mark written is never empty; it is `"X"` exactly when the counter is even and `"O"` exactly when it is odd |
| `TicTacToe.MarksAlternate` | src/App.tsx:23 | the first mark is `"X"`; consecutive moves have different marks; marks repeat every two moves |
| `TicTacToe.MarkCell` | src/App.tsx:26-30 | the mapped board has the same length and equals the old board with cell `idx` replaced by the mark; an `idx` outside the board leaves it unchanged |
| `TicTacToe.Stored` | src/App.tsx:38-42 | the copy holds the board at `index`, every other entry is unchanged, and it grows by one only when `index` is the end of the history |
| `TicTacToe.App.UpdateHistory` | src/App.tsx:38-43 | the new history is `Stored` of the old one: the board sits at `index` and every other entry keeps its value |
| `TicTacToe.App.OnBoxClick` | src/App.tsx:25-36 | a click keeps `Valid`, performs exactly `Step`, increments the counter by 1, sets the board to `MarkCell` of the old board with the current mark, and appends the new board to the history |
| `TicTacToe.StepConsistent` | src/App.tsx:31-42 | from a consistent state a click leads to a consistent state, and its history write at `counter + 1` is an append of the new board |
| `TicTacToe.Step` | src/App.tsx:25-42 | `onBoxClick` on the state triple `GameState` (src/App.tsx:17-21): the counter goes up by exactly 1 with no occupied-cell guard; the board keeps its length; cell `idx` gets the current mark even if it was occupied; every other cell keeps its value; the history holds the new board at the new counter, every other snapshot is kept, and it grows by one only when the new counter is its end |
| `TicTacToe.Run` | src/App.tsx:17-43 | after any sequence of clicks, including repeated or out-of-range ones, the state is consistent and the counter equals the number of clicks |
| `TicTacToe.RunBoard` | src/App.tsx:26-33 | the board after a run is the initial board with each click's mark applied in turn |
| `TicTacToe.RunAppends` | src/App.tsx:35-42 | each click of a run appends its board to the history of the earlier clicks |
| `TicTacToe.HistoryIsPastBoards` | src/App.tsx:31-42 | history entry `k` is exactly the board left by the first `k` clicks |
| `TicTacToe.DistinctClicksMarks` | src/App.tsx:23-30 | after clicks on distinct cells, the `j`-th clicked cell holds `"X"` for even `j` and `"O"` for odd `j`, and every unclicked cell is empty |
| `TicTacToe.DistinctClicksCounts` | src/App.tsx:23-30 | after `k` clicks on distinct cells, `9 - k` cells are empty, `(k + 1) / 2` hold `"X"` and `k / 2` hold `"O"` |
| `TicTacToe.DistinctClicks` | src/App.tsx:23-34 | for a fresh component after `k` clicks on distinct cells, exactly `k` cells are marked, each with its turn's mark, and the number of `"X"` minus the number of `"O"` is 0 or 1 |
| `TicTacToe.RepeatedClickOverwrites` | src/App.tsx:25-36 | clicking cell 4 twice leaves `"O"` over the first `"X"`, with counter 2 and three history entries |
| `TicTacToe.CellIndex` | src/App.tsx:52-55 | `row * 3 + col` for a row and column in 0..2 is a board index in 0..8, and the row and column can be read back from it (injective) |
| `TicTacToe.CellPosition` | src/App.tsx:52-55 | every board index 0..8 is `CellIndex` of some row and column in 0..2 (surjective) |
| `TicTacToe.CellIndexInjective` | src/App.tsx:55 | two grid positions that address the same cell are the same position |
| `TicTacToe.TwoClicks` | src/App.tsx:55-61 | a fresh component clicked at grid (0,0) then (1,1) shows `"X"` in cell 0 and `"O"` in cell 4, with counter 2 |

## Left out

- The `Box` component, the JSX rendering loop and the CSS import (src/App.tsx:2-13, 49-69): presentation only. Only the cell addressing `rowIndex * 3 + colIndex` is modelled.
- The commented-out `useEffect` logging (src/App.tsx:45-47): dead code doing console output.
- React's scheduling: `useState` setters are batched and asynchronous, and the handlers read the state captured by their closure. The model applies the three updates of one click as immediate assignments, in order, and clicks one after another.
- `TicTacToe.Stored`, `TicTacToe.App.UpdateHistory`: require `index <= |history|`. JavaScript would also accept an index past the end and leave holes in a sparse array. The code never does this: the invariant makes the index equal to the history's length.
- `TicTacToe.App.OnBoxClick`: requires the class invariant `Valid`. The constructor establishes it and every click keeps it, so every reachable component meets it.
- The counter is a JavaScript number, a 64-bit float. It is modelled as an unbounded `nat`, so precision loss after 2^53 clicks is not modelled.
- Win detection, undo, reset, a status line and the rejection of occupied or out-of-range cells do not exist in this code, so they are not modelled.
