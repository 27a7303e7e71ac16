/** A model of the game-state transition of the tic-tac-toe `App` component:
    a 9-cell board of strings, a move counter and a history of board
    snapshots indexed by move number, all updated by a click on a cell. */
module TicTacToe {

  /** A board is the component's `string[]`; each cell holds "", "X" or "O". */
  type Board = seq<string>

  const Empty: string := ""
  const MarkX: string := "X"
  const MarkO: string := "O"

  /** The number of cells on the 3x3 grid. */
  const Size: nat := 9

  // ---------------------------------------------------------------------
  // Counting cells

  /** The number of cells of `b` holding `m`. */
  function Count(b: Board, m: string): (n: nat)
    ensures n <= |b|
  {
    if b == [] then 0 else (if b[0] == m then 1 else 0) + Count(b[1..], m)
  }

  /** A board all of whose cells hold `v` has `|b|` cells holding `v` and none holding anything else. */
  lemma {:induction false} CountUniform(b: Board, v: string, x: string)
    requires forall i | 0 <= i < |b| :: b[i] == v
    ensures Count(b, x) == if v == x then |b| else 0
  {
    if b != [] {
      CountUniform(b[1..], v, x);
    }
  }

  /** Writing `m` into cell `i` moves one cell from the count of the old value to the count of `m`. */
  lemma {:induction false} CountUpdate(b: Board, i: nat, m: string, x: string)
    requires i < |b|
    ensures Count(b[i := m], x)
         == Count(b, x) - (if b[i] == x then 1 else 0) + (if m == x then 1 else 0)
  {
    if i == 0 {
      assert b[i := m][1..] == b[1..];
    } else {
      assert b[i := m][1..] == b[1..][i - 1 := m];
      CountUpdate(b[1..], i - 1, m, x);
    }
  }

  // ---------------------------------------------------------------------
  // The initial board, the current player and the marked board

  /** `Array(9).fill("")`: nine empty cells. */
  function InitialBoardState(): (b: Board)
    ensures |b| == Size
    ensures Count(b, Empty) == Size && Count(b, MarkX) == 0 && Count(b, MarkO) == 0
  {
    var b := seq(Size, _ => Empty);
    CountUniform(b, Empty, Empty);
    CountUniform(b, Empty, MarkX);
    CountUniform(b, Empty, MarkO);
    b
  }

  /** Player one moves when the counter is even. */
  function IsPlayerOne(counter: nat): (b: bool)
    ensures b <==> counter == 2 * (counter / 2)
  {
    counter % 2 == 0
  }

  /** The mark written by the click made when the move counter is `counter`. */
  function CurrentMark(counter: nat): (m: string)
    ensures m != Empty
    ensures m == MarkX <==> counter % 2 == 0
    ensures m == MarkO <==> counter % 2 == 1
  {
    if IsPlayerOne(counter) then MarkX else MarkO
  }

  /** Marks alternate from one move to the next, starting with "X". */
  lemma MarksAlternate(counter: nat)
    ensures CurrentMark(0) == MarkX
    ensures CurrentMark(counter) != CurrentMark(counter + 1)
    ensures CurrentMark(counter + 2) == CurrentMark(counter)
  {
  }

  /** `boardState.map(...)`: a copy of `board` in which the cell whose index
      equals `idx` holds `mark`. An `idx` outside the board matches no cell. */
  function MarkCell(board: Board, idx: int, mark: string): (r: Board)
    ensures |r| == |board|
    ensures r == if 0 <= idx < |board| then board[idx := mark] else board
  {
    seq(|board|, index requires 0 <= index < |board| =>
      if idx == index then mark else board[index])
  }

  // ---------------------------------------------------------------------
  // Cell addressing on the grid

  /** `rowIndex * 3 + colIndex`; the row and column can be read back from the index. */
  function CellIndex(row: int, col: int): (i: int)
    requires 0 <= row < 3 && 0 <= col < 3
    ensures 0 <= i < Size
    ensures i / 3 == row && i % 3 == col
  {
    row * 3 + col
  }

  /** The grid position of cell `i`: every board index is addressed by some row and column. */
  function CellPosition(i: int): (rc: (int, int))
    requires 0 <= i < Size
    ensures 0 <= rc.0 < 3 && 0 <= rc.1 < 3
    ensures CellIndex(rc.0, rc.1) == i
  {
    (i / 3, i % 3)
  }

  /** Distinct grid positions address distinct cells. */
  lemma CellIndexInjective(r1: int, c1: int, r2: int, c2: int)
    requires 0 <= r1 < 3 && 0 <= c1 < 3 && 0 <= r2 < 3 && 0 <= c2 < 3
    ensures CellIndex(r1, c1) == CellIndex(r2, c2) ==> r1 == r2 && c1 == c2
  {
  }

  // ---------------------------------------------------------------------
  // The state triple and its transition

  /** The component's state: the move counter, the board and the history. */
  datatype GameState = GameState(counter: nat, boardState: Board, boardStateHistory: seq<Board>)

  /** What holds of the state between clicks: the history has one snapshot per
      move counted so far, its last one is the board, its first one is the
      initial board, and every snapshot has nine cells. */
  ghost predicate Consistent(s: GameState) {
    && |s.boardState| == Size
    && |s.boardStateHistory| == s.counter + 1
    && s.boardStateHistory[s.counter] == s.boardState
    && s.boardStateHistory[0] == InitialBoardState()
    && forall k | 0 <= k < |s.boardStateHistory| :: |s.boardStateHistory[k]| == Size
  }

  /** The state of a freshly mounted component. */
  function Initial(): (s: GameState)
    ensures Consistent(s)
    ensures s.counter == 0 && s.boardStateHistory == [s.boardState]
    ensures Count(s.boardState, Empty) == Size
  {
    GameState(0, InitialBoardState(), [InitialBoardState()])
  }

  /** `newHistory[index] = currentBoardState` on a copy of `history`: an
      index inside the history overwrites, the index just past its end appends. */
  function Stored(history: seq<Board>, index: nat, current: Board): (r: seq<Board>)
    requires index <= |history|
    ensures |r| == if index < |history| then |history| else |history| + 1
    ensures r[index] == current
    ensures forall k | 0 <= k < |history| && k != index :: r[k] == history[k]
  {
    if index < |history| then history[index := current] else history + [current]
  }

  /** The state after `onBoxClick(idx)`, with the three updates taken in order:
      the counter goes up by one whether or not cell `idx` was already marked,
      cell `idx` gets the current mark, every other cell keeps its value, and
      the new board is stored at the new counter with every other snapshot kept. */
  function Step(s: GameState, idx: int): (r: GameState)
    requires s.counter < |s.boardStateHistory|
    ensures r.counter == s.counter + 1
    ensures |r.boardState| == |s.boardState|
    ensures 0 <= idx < |s.boardState| ==> r.boardState[idx] == CurrentMark(s.counter)
    ensures forall j | 0 <= j < |s.boardState| && j != idx :: r.boardState[j] == s.boardState[j]
    ensures |r.boardStateHistory| == if r.counter < |s.boardStateHistory| then |s.boardStateHistory|
                                     else |s.boardStateHistory| + 1
    ensures r.boardStateHistory[r.counter] == r.boardState
    ensures forall k | 0 <= k < |s.boardStateHistory| && k != r.counter ::
              r.boardStateHistory[k] == s.boardStateHistory[k]
  {
    var newBoardState := MarkCell(s.boardState, idx, CurrentMark(s.counter));
    var newCounter := s.counter + 1;
    GameState(newCounter, newBoardState, Stored(s.boardStateHistory, newCounter, newBoardState))
  }

  /** A click keeps the state consistent, and its write into the history is an append. */
  lemma StepConsistent(s: GameState, idx: int)
    requires Consistent(s)
    ensures Consistent(Step(s, idx))
    ensures Step(s, idx).boardStateHistory == s.boardStateHistory + [Step(s, idx).boardState]
  {
  }

  // ---------------------------------------------------------------------
  // Sequences of clicks

  /** The state after the clicks `clicks`, in order, starting from a fresh component. */
  function Run(clicks: seq<int>): (s: GameState)
    ensures Consistent(s)
    ensures s.counter == |clicks|
  {
    if clicks == [] then Initial()
    else
      var before := Run(clicks[..|clicks| - 1]);
      StepConsistent(before, clicks[|clicks| - 1]);
      Step(before, clicks[|clicks| - 1])
  }

  /** The board left by the clicks `clicks`: one mark per click, in turn. */
  function BoardAfter(clicks: seq<int>): (b: Board)
    ensures |b| == Size
  {
    if clicks == [] then InitialBoardState()
    else
      var n := |clicks| - 1;
      MarkCell(BoardAfter(clicks[..n]), clicks[n], CurrentMark(n))
  }

  /** The board of a run is the board left by its clicks. */
  lemma {:induction false} RunBoard(clicks: seq<int>)
    ensures Run(clicks).boardState == BoardAfter(clicks)
  {
    if clicks != [] {
      RunBoard(clicks[..|clicks| - 1]);
    }
  }

  /** Each click of a run appends its board to the history of the earlier clicks. */
  lemma RunAppends(clicks: seq<int>)
    requires clicks != []
    ensures var prefix := clicks[..|clicks| - 1];
      Run(clicks).boardStateHistory == Run(prefix).boardStateHistory + [Run(clicks).boardState]
  {
  }

  /** Snapshot `k` of the history is the board after the first `k` clicks. */
  lemma {:induction false} HistoryIsPastBoards(clicks: seq<int>, k: nat)
    requires k <= |clicks|
    ensures Run(clicks).boardStateHistory[k] == BoardAfter(clicks[..k])
  {
    if k == |clicks| {
      assert clicks[..k] == clicks;
      RunBoard(clicks);
    } else {
      var prefix := clicks[..|clicks| - 1];
      RunAppends(clicks);
      HistoryIsPastBoards(prefix, k);
      assert prefix[..k] == clicks[..k];
    }
  }

  /** A value absent from `s` is absent from its prefixes. */
  lemma PrefixMembership(s: seq<int>, n: nat, x: int)
    requires n <= |s|
    requires x !in s
    ensures x !in s[..n]
  {
  }

  /** The clicks `clicks` hit distinct cells of the board. */
  predicate DistinctCells(clicks: seq<int>) {
    && (forall j | 0 <= j < |clicks| :: 0 <= clicks[j] < Size)
    && (forall a, b | 0 <= a < b < |clicks| :: clicks[a] != clicks[b])
  }

  /** Dropping the last of distinct clicks leaves distinct clicks, none of which hit the last one's cell. */
  lemma DistinctPrefix(clicks: seq<int>)
    requires clicks != [] && DistinctCells(clicks)
    ensures DistinctCells(clicks[..|clicks| - 1])
    ensures clicks[|clicks| - 1] !in clicks[..|clicks| - 1]
  {
  }

  /** Board `b` carries the marks of the clicks `clicks`: the `j`-th click's
      cell holds "X" for even `j` and "O" for odd `j`, and the cells no click
      hit are empty. */
  ghost predicate MarkedBy(clicks: seq<int>, b: Board) {
    && |b| == Size
    && (forall j | 0 <= j < |clicks| :: 0 <= clicks[j] < Size && b[clicks[j]] == CurrentMark(j))
    && (forall i | 0 <= i < Size && i !in clicks :: b[i] == Empty)
  }

  /** One more click on a fresh cell extends `MarkedBy` by that click. */
  lemma MarkedByStep(clicks: seq<int>, before: Board, after: Board)
    requires clicks != [] && DistinctCells(clicks)
    requires MarkedBy(clicks[..|clicks| - 1], before)
    requires after == before[clicks[|clicks| - 1] := CurrentMark(|clicks| - 1)]
    ensures MarkedBy(clicks, after)
  {
  }

  /** Clicks on distinct cells of the board leave each clicked cell with the
      mark of its turn and every other cell empty. */
  lemma {:induction false} DistinctClicksMarks(clicks: seq<int>)
    requires DistinctCells(clicks)
    ensures MarkedBy(clicks, BoardAfter(clicks))
  {
    if clicks != [] {
      var n := |clicks| - 1;
      var prefix := clicks[..n];
      DistinctPrefix(clicks);
      DistinctClicksMarks(prefix);
      MarkedByStep(clicks, BoardAfter(prefix), BoardAfter(clicks));
    }
  }

  /** Marking an empty cell with the mark of turn `n` takes the counts of a
      board after `n` moves to those of a board after `n + 1` moves. */
  lemma CountsStep(n: nat, before: Board, c: nat, after: Board)
    requires c < |before| && before[c] == Empty
    requires after == before[c := CurrentMark(n)]
    requires Count(before, Empty) == Size - n
    requires Count(before, MarkX) == (n + 1) / 2 && Count(before, MarkO) == n / 2
    ensures Count(after, Empty) == Size - (n + 1)
    ensures Count(after, MarkX) == (n + 2) / 2 && Count(after, MarkO) == (n + 1) / 2
  {
    var m := CurrentMark(n);
    CountUpdate(before, c, m, Empty);
    CountUpdate(before, c, m, MarkX);
    CountUpdate(before, c, m, MarkO);
    var h := n / 2;
    if n % 2 == 0 {
      assert n == 2 * h && (n + 1) / 2 == h && (n + 2) / 2 == h + 1;
    } else {
      assert n == 2 * h + 1 && (n + 1) / 2 == h + 1 && (n + 2) / 2 == h + 1;
    }
  }

  /** After clicks on distinct cells of the board exactly `|clicks|` cells are
      marked: half of them, rounded up, "X" and the rest "O". */
  lemma {:induction false} DistinctClicksCounts(clicks: seq<int>)
    requires DistinctCells(clicks)
    ensures Count(BoardAfter(clicks), Empty) == Size - |clicks|
    ensures Count(BoardAfter(clicks), MarkX) == (|clicks| + 1) / 2
    ensures Count(BoardAfter(clicks), MarkO) == |clicks| / 2
  {
    if clicks != [] {
      var n := |clicks| - 1;
      var prefix := clicks[..n];
      DistinctPrefix(clicks);
      DistinctClicksCounts(prefix);
      DistinctClicksMarks(prefix);
      CountsStep(n, BoardAfter(prefix), clicks[n], BoardAfter(clicks));
    }
  }

  /** `k` clicks on distinct cells of a fresh component: each clicked cell holds
      the mark of its turn, the other cells are empty, exactly `k` cells are
      marked, and there are as many "X" as "O" or one more. */
  lemma DistinctClicks(clicks: seq<int>)
    requires DistinctCells(clicks)
    ensures MarkedBy(clicks, Run(clicks).boardState)
    ensures Count(Run(clicks).boardState, Empty) == Size - |clicks|
    ensures 0 <= Count(Run(clicks).boardState, MarkX) - Count(Run(clicks).boardState, MarkO) <= 1
  {
    RunBoard(clicks);
    DistinctClicksMarks(clicks);
    DistinctClicksCounts(clicks);
  }

  /** Clicking the same cell twice overwrites the "X" with an "O" and still advances
      the counter and the history. */
  lemma RepeatedClickOverwrites()
    ensures Run([4]).boardState[4] == MarkX
    ensures Run([4, 4]).boardState[4] == MarkO
    ensures Run([4, 4]).counter == 2 && |Run([4, 4]).boardStateHistory| == 3
  {
  }

  // ---------------------------------------------------------------------
  // The component

  /** The `App` component's state hooks as fields, with React's setters taken
      as immediate assignments. */
  class App {
    var counter: nat
    var boardState: Board
    var boardStateHistory: seq<Board>

    /** The fields as a state triple. */
    ghost function State(): GameState
      reads this
    {
      GameState(counter, boardState, boardStateHistory)
    }

    ghost predicate Valid()
      reads this
    {
      Consistent(State())
    }

    /** The `useState` initial values. */
    constructor ()
      ensures Valid()
      ensures State() == Initial()
      ensures counter == 0 && boardState == InitialBoardState()
      ensures boardStateHistory == [InitialBoardState()]
    {
      counter := 0;
      boardState := InitialBoardState();
      boardStateHistory := [InitialBoardState()];
    }

    /** `onBoxClick(idx)`: mark cell `idx` for the current player, advance the
        counter and record the new board in the history. */
    method OnBoxClick(idx: int)
      requires Valid()
      modifies this
      ensures Valid()
      ensures State() == Step(old(State()), idx)
      ensures counter == old(counter) + 1
      ensures boardState == MarkCell(old(boardState), idx, CurrentMark(old(counter)))
      ensures boardStateHistory == old(boardStateHistory) + [boardState]
    {
      var newBoardState := MarkCell(boardState, idx, CurrentMark(counter));
      var newCounter := counter + 1;
      boardState := newBoardState;
      counter := newCounter;
      UpdateHistory(newBoardState, newCounter);
    }

    /** `updateHistory(currentBoardState, index)`: store the board at `index`
        of a copy of the history. */
    method UpdateHistory(currentBoardState: Board, index: nat)
      requires index <= |boardStateHistory|
      modifies this`boardStateHistory
      ensures boardStateHistory == Stored(old(boardStateHistory), index, currentBoardState)
      ensures boardStateHistory[index] == currentBoardState
      ensures forall k | 0 <= k < |old(boardStateHistory)| && k != index ::
                boardStateHistory[k] == old(boardStateHistory)[k]
    {
      var newHistory := boardStateHistory;
      if index < |newHistory| {
        newHistory := newHistory[index := currentBoardState];
      } else {
        newHistory := newHistory + [currentBoardState];
      }
      boardStateHistory := newHistory;
    }
  }

  /** A caller's view: two clicks from a fresh component. */
  method TwoClicks() returns (first: string, second: string, moves: nat)
    ensures first == MarkX && second == MarkO && moves == 2
  {
    var app := new App();
    app.OnBoxClick(CellIndex(0, 0));
    app.OnBoxClick(CellIndex(1, 1));
    first, second, moves := app.boardState[0], app.boardState[4], app.counter;
  }
}
