# Tic-tac-toe game logic in Dafny

This project models the logic of a browser tic-tac-toe game component (`src/Game.tsx`):

- the winner scan over the eight lines of a 3x3 board;
- the game state: the history of board snapshots, the cursor `stepNumber`, the turn flag `xIsNext` and the sort flag `ascendingSort`;
- the three handlers: a cell click, a jump to a history entry, and the sort toggle;
- what the component derives for display: the board at the cursor, the status line, and the labelled history list in ascending or descending order.

Modules:

- `Options`: the `Option` datatype. It stands for the source's "value or `null`".
- `Squares`: marks, cells (empty, X or O), the nine-cell `Board`, the `LINES` table and `Winner`. The source declares a cell as `"X" | "O"`, but the starting board is filled with `null`; `Cell.Empty` is that `null`.
- `Decimal`: how a number is written into a label (a template literal `${n}`), and the reading of a natural number or an integer back from text.
- `History`: `Snapshot` and `GameState` as values. The invariant `Inv`, the transitions `Click`, `Jump` and `ToggleSort`, and the lemmas about them.
- `Presentation`: the move labels and their reading back into index, row and column, the history list (`Entries`, `Presented`), in-place reversal, and the status line.
- `GameComponent`: class `Game` with the component's four state fields. Its handlers update the fields in place and are proved to perform the transitions of `History`. Its read-only `Render` returns what the component shows.

The class invariant is `History.Inv`:

- the history starts with the empty-board snapshot and its sentinel coordinates (-1, -1);
- each later snapshot follows the one before it by one move: the earlier board has no winner, the recorded 1-based row and column name a cell that was empty, and only that cell changes, to X after an even index and O after an odd one;
- `0 <= stepNumber < |history|`;
- `xIsNext == (stepNumber % 2 == 0)`.

A click writes the mark chosen by the stored flag `xIsNext`, as the code does. One could instead derive the mark from the parity of the cursor; the two agree under `Inv`, because every handler preserves it (`ClickPreservesInv`, `JumpPreservesInv`, `TurnFollowsCursorParity`).

## Model

| member | source | states |
|---|---|---|
| Squares.WinnerFrom | src/Game.tsx:24-30 | The scan of the lines from number k on, returning the mark of the first completed one; its meaning is stated by `WinnerFromSpec` |
| Squares.Winner | src/Game.tsx:13-31 | `calculateWinner`: the scan over all eight lines; its meaning is stated by `WinnerSpec` and `WinnerIsFirstCompletedLine` |
| Squares.WinnerFromSpec | src/Game.tsx:24-30 | The scan from line k on returns None exactly when no line from k on is completed, and otherwise the mark of the first completed line at or after k |
| Squares.WinnerSpec | src/Game.tsx:13-31 | The winner is None exactly when none of the eight lines has three equal non-empty cells; otherwise it is the mark of the first such line in the order rows, columns, diagonals |
| Squares.WinnerIsFirstCompletedLine | src/Game.tsx:24-28 | If line j is completed and no line before it is, the winner is the mark on line j |
| Squares.SoleCompletingMarkWins | src/Game.tsx:24-28 | A board on which every completed line holds the same mark m, with at least one such line, has winner m |
| Squares.EmptyBoardHasNoWinner | src/Game.tsx:36 | The starting all-empty board has no winner |
| Squares.NoCompletedLineNoWinner | src/Game.tsx:24-30 | A board on which none of the eight lines is completed has no winner |
| Squares.FilledCount | src/Game.tsx:52 | The number of filled cells never exceeds the number of cells |
| Squares.MarkingFillsOneCell | src/Game.tsx:52 | Writing a mark into an empty cell raises the filled count by exactly one |
| Squares.EmptyBoardIsUnfilled | src/Game.tsx:36 | The starting board has no filled cell |
| Decimal.DigitChar | src/Game.tsx:80 | The character for a digit d is a decimal digit whose value is d |
| Decimal.NatToText | src/Game.tsx:80 | A natural number is written as at least one decimal digit, with no leading zero |
| Decimal.IntToText | src/Game.tsx:80 | An integer is written non-empty, starting with a digit exactly when it is not negative |
| Decimal.NatToTextRoundTrip | src/Game.tsx:80 | Reading back the decimal text of n gives n |
| Decimal.LeadingDigits | src/Game.tsx:80 | The result is the longest prefix of the input made only of digits |
| Decimal.LeadingDigitsOfRun | src/Game.tsx:80 | A run of digits followed by a non-digit or by nothing is exactly the leading-digit prefix |
| Decimal.ReadNatRoundTrip | src/Game.tsx:80 | Reading back the decimal text of n, followed by text that does not start with a digit, gives n and exactly that text |
| Decimal.ReadIntOfMinus | src/Game.tsx:80 | A minus sign in front of a readable number makes the integer read its negation, with the same text after it |
| Decimal.ReadIntRoundTrip | src/Game.tsx:80 | Reading back the text of any integer, negative ones such as the -1 sentinel included, gives the integer and the text after it |
| History.Initial | src/Game.tsx:34-43 | The game starts with one snapshot, the empty board with the sentinel row and column -1, at cursor 0, with X to play and the list in ascending order |
| History.MarkAfter | src/Game.tsx:52 | The move made from an even cursor writes X, from an odd cursor O |
| History.MarkOf | src/Game.tsx:52 | The written mark is X exactly when the turn flag says X is next |
| History.PlayedCell | src/Game.tsx:57-58 | The cell named by a 1-based row and column gives back that row as `i / 3 + 1` and that column as `i % 3 + 1` |
| History.IsMove | src/Game.tsx:45-58 | One snapshot follows another by a move of mark m: the earlier board has no winner, the recorded row and column lie in 1..3 and name a cell that was empty, and only that cell changes, to m |
| History.WellFormed | src/Game.tsx:34-64 | A history as the handlers build it: the initial snapshot first, then one move per entry, X and O alternating from X |
| History.Inv | src/Game.tsx:34-69 | The game invariant: a well-formed history, the cursor inside it, and the turn flag equal to "the cursor is even" |
| History.Current | src/Game.tsx:75 | The current snapshot is an entry of the history |
| History.Rejects | src/Game.tsx:49 | A click is rejected when the board at the cursor has a winner or the clicked cell is taken; `ClickChangesStateIffAccepted` states its effect |
| History.Click | src/Game.tsx:45-64 | After a click the cursor is inside the new history and the sort order is unchanged |
| History.Jump | src/Game.tsx:66-69 | After a jump the cursor is inside the history |
| History.ToggleSort | src/Game.tsx:71-73 | The sort flag is negated |
| History.InitialSatisfiesInv | src/Game.tsx:34-43 | The initial state satisfies the game invariant |
| History.ClickPreservesInv | src/Game.tsx:45-64 | A click, accepted or rejected, keeps the invariant, including the parity of the turn flag |
| History.JumpPreservesInv | src/Game.tsx:66-69 | A jump keeps the invariant, because it recomputes the turn flag from the parity of the step |
| History.ToggleSortPreservesInv | src/Game.tsx:71-73 | The sort toggle keeps the invariant |
| History.ClickChangesStateIffAccepted | src/Game.tsx:49-51 | A click leaves the whole state unchanged exactly when the current board has a winner or the cell is taken |
| History.WonBoardRejectsEveryClick | src/Game.tsx:49-51 | Once the board shown has a winner, every click is a no-op |
| History.AcceptedClickAppends | src/Game.tsx:46-63 | An accepted click keeps history up to the cursor, drops the rest, and appends one snapshot. The new length is the old cursor + 2, the cursor moves to the new last entry, and the turn flag flips |
| History.AcceptedClickSnapshot | src/Game.tsx:48-58 | In the appended snapshot, cell i was empty before and now holds X if it was X's turn, else O. Every other cell is as on the current board. Row and column lie in 1..3 and name cell i |
| History.BranchingDiscardsFuture | src/Game.tsx:46-69 | A jump back to step S followed by an accepted click leaves S + 2 entries. The first S + 1 are the old ones, and the cursor and turn flag agree |
| History.JumpSetsCursorAndTurn | src/Game.tsx:66-69 | A jump sets the cursor to the step and the turn flag to "step is even", and leaves the history and the sort order alone |
| History.JumpToStartShowsEmptyBoard | src/Game.tsx:66-69 | Jumping to step 0 shows the empty board with X to play, and keeps the history length |
| History.ToggleSortTwiceRestores | src/Game.tsx:71-73 | The toggle changes neither history, cursor nor turn flag; toggling twice restores the state |
| History.ConsecutiveBoardsDifferInOneCell | src/Game.tsx:48-58 | Consecutive boards differ in exactly one cell: the one the later snapshot records, which was empty before |
| History.FilledCountIsIndex | src/Game.tsx:45-64 | Board k of the history has exactly k filled cells |
| History.HistoryHoldsAtMostTenSnapshots | src/Game.tsx:45-64 | The history never holds more than ten snapshots |
| History.OnlyLastSnapshotCanBeWon | src/Game.tsx:49-51 | No snapshot before the last has a winner |
| History.TurnFollowsCursorParity | src/Game.tsx:52-63 | Under the invariant, the stored flag writes X from an even cursor and O from an odd one |
| History.ClickAll | src/Game.tsx:45-64 | A sequence of clicks leaves the cursor inside the history, and a game in its invariant stays in it after any sequence of clicks |
| History.ClickAtEnd | src/Game.tsx:45-64 | An accepted click with the cursor at the end appends the marked board to the whole history and flips the turn |
| History.FirstColumnWinScenario | src/Game.tsx:45-64 | X plays 0, O 4, X 3, O 5, X 6: the shown board has X down the first column, six snapshots, cursor 5 |
| History.FirstColumnWinStopsPlay | src/Game.tsx:49-51 | On that board X is the winner and a click on cell 7 is rejected |
| Presentation.MoveLabel | src/Game.tsx:79-81 | The label is "Go to game start" exactly for index 0; later labels start with "Go to move #" |
| Presentation.ParseLabelRoundTrip | src/Game.tsx:79-81 | Every label reads back as what made it: the start entry for index 0, and otherwise the index with the row and column its snapshot records |
| Presentation.LabelsAreDistinct | src/Game.tsx:78-81 | Entries with different indices have different labels |
| Presentation.LabelDeterminesCoords | src/Game.tsx:80 | Two move labels with the same index that are equal record the same row and the same column |
| Presentation.Entries | src/Game.tsx:78-92 | One entry per snapshot, in stored order. Entry k jumps to step k and carries the label of index k and snapshot k |
| Presentation.ExactlyOneActiveEntry | src/Game.tsx:85 | Exactly one entry is active: the one whose index is the cursor |
| Presentation.Reverse | src/Game.tsx:95 | Reversal keeps the length |
| Presentation.ReverseReverse | src/Game.tsx:94-96 | Reversing twice gives the list back |
| Presentation.ReverseIsPermutation | src/Game.tsx:95 | Reversal keeps the same elements with the same counts |
| Presentation.ReverseInPlace | src/Game.tsx:95 | The array ends up holding its old contents reversed |
| Presentation.ReversedActivePosition | src/Game.tsx:85-96 | Reversing a list whose only active entry is at p leaves one active entry, at the mirrored position, and it is the same entry |
| Presentation.Presented | src/Game.tsx:78-96 | The shown list has one entry per snapshot |
| Presentation.ToggleSortReversesPresentation | src/Game.tsx:94-96 | After a toggle the shown list is the previous one reversed. Two toggles give the original list. The shown entries are the stored ones, reordered |
| Presentation.ShownActiveEntry | src/Game.tsx:78-96 | In the shown list exactly one entry is active: the cursor's. It is at position stepNumber when ascending, counted from the end when descending |
| Presentation.MarkText | src/Game.tsx:100-102 | A mark is written as one character |
| Presentation.Status | src/Game.tsx:98-103 | The status line starts with "Winner: " exactly when there is a winner |
| Presentation.StatusIsUnambiguous | src/Game.tsx:98-103 | Equal status lines come from the same winner and, when there is none, from the same turn |
| Presentation.StatusFollowsCursorParity | src/Game.tsx:98-103 | With no winner and the invariant holding, the status names X on an even cursor and O on an odd one |
| Presentation.JumpToStartStatus | src/Game.tsx:66-69 | After a jump to step 0 the status is "Next player: X" |
| GameComponent.Game.constructor | src/Game.tsx:34-43 | A new game is in the initial state and satisfies the invariant |
| GameComponent.Game.HandleClick | src/Game.tsx:45-64 | The fields change exactly as `Click` says; the board is copied into a fresh array before the mark is written |
| GameComponent.Game.JumpTo | src/Game.tsx:66-69 | The fields change exactly as `Jump` says |
| GameComponent.Game.ToggleSortHandler | src/Game.tsx:71-73 | The fields change exactly as `ToggleSort` says |
| GameComponent.Game.Render | src/Game.tsx:75-103 | Returns the board at the cursor, its status line, and the history list in the shown order. The list is built in stored order and reversed in place when descending |

## Left out

- JSX markup, CSS class names and the `Board` component: these are presentation only. `./components/Board` is not part of this model. A cell click enters as `HandleClick(i)`, a history entry's button as `JumpTo(entry.step)`, and the sort button as `ToggleSortHandler()`. The active entry is the `active` flag; the bold style is not modelled.
- The `<li key>` list mechanics: the list is a sequence of `MoveEntry` values.
- React `useState` semantics: setters are asynchronous and batched, and there is a functional updater for `xIsNext`. Each handler is modelled as one atomic update of the state it was called in.
- Draw detection: the source has none, and a full board with no winner still shows "Next player". The model adds no draw state.
- Arguments out of range: `HandleClick` takes a cell index 0..8, and `JumpTo` requires `step < |history|`. The source neither clamps nor checks either argument.
- GameComponent.Game.HandleClick: requires the class invariant `Valid()`, which the source never checks. The constructor establishes it and every handler preserves it, so every state the component can reach satisfies it. The transition function `History.Click` needs only the cursor to lie inside the history. `JumpTo` and `ToggleSortHandler` require `Valid()` in the same way.
- JavaScript numbers: row, column, step and cursor are unbounded integers. Row and column are -1 in the first snapshot (`WellFormed`) and lie in 1..3 in every later one (`ConsecutiveBoardsDifferInOneCell`, `AcceptedClickSnapshot`); step and cursor lie in 0..9 (`HistoryHoldsAtMostTenSnapshots`).
