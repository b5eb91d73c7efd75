# Tic-tac-toe game logic

A Dafny model of the game logic in the single React component file
`tic-tace-toe/tic-tac-toe.tsx`, with the rendering removed. The model has three parts.

- **Win detector** (`winner.dfy`, module `Winner`). `calculateWinner` tries the eight
  fixed index triples in order: three rows, three columns, two diagonals. It returns
  the first triple whose squares hold the same mark, or null.
- **Board logic** (`moves.dfy`, module `Moves`). This covers the `Board` component's
  `handleClick`. A click is ignored when the board already has a winner or the square
  is taken. Otherwise it yields a copy of the board with the mover's mark on the
  square. The module also derives the status line: "Winner", "Next player" or "Draw".
- **Game state** (`game.dfy`, module `Game`). This is the `Game` component's `history`
  of boards and its `currentMove` index. `xIsNext` is "`currentMove` is even".
  `handlePlay` cuts the history back to the displayed board, appends the new board and
  displays it. `jumpTo` only changes `currentMove`. A click, as the whole game sees it, is
  `handleClick` on the displayed board with `handlePlay` as its `onPlay`.

`squares.dfy` (module `Squares`) holds the shared vocabulary: the cell type, a board of
exactly nine cells, and the mark of the player to move. `scenarios.dfy` (module
`Scenarios`) plays whole games click by click from the initial state.

The model is built from immutable values. React's `useState` pair becomes a
`GameState(history, currentMove)` record. Each event handler becomes a pure function
from the old record to the new one. The source fills empty squares with `null`.
The win detector and the click handler test squares by truthiness
(tic-tac-toe.tsx:30, :50), while the status expression tests `w === null`
(tic-tac-toe.tsx:65); both read an unplayed square the same way, and every such value
is `Empty` here. The status string becomes a `Status` datatype: `Won(m)`,
`NextPlayer(m)` or `Draw`. The status expression (tic-tac-toe.tsx:60-68) is pure, and
so is its model `Moves.DeriveStatus`: the same board and turn always give the same
status.

The central invariant, `Game.Inv`, describes every state the page can reach:
- entry 0 of the history is the empty board;
- each later entry follows the one before by one move of the alternating mark;
- no move was played on a board that was already won.

Clicks and jumps keep it. From it follow the mark counts of each entry: entry `k` holds
ceil(k/2) X marks and floor(k/2) O marks. Also, the winner the status names is the
player whose mark fills the winning line.

## Model

| member | source | states |
|---|---|---|
| Winner.CalculateWinner | tic-tace-toe/tic-tac-toe.tsx:16-36 | The result is null exactly when none of the eight lines has three equal non-empty squares. Otherwise it is one of the eight listed triples, its squares are equal and non-empty, and every triple listed before it is incomplete. |
| Winner.FirstCompleteFrom | tic-tace-toe/tic-tac-toe.tsx:28-33 | Scanning from position `k`, the result is the first position whose line is complete, with every line between `k` and it incomplete. When there is none, no line from `k` on is complete. |
| Winner.CalculateWinnerLoop | tic-tace-toe/tic-tac-toe.tsx:28-35 | The `for` loop of the detector returns null exactly when no line is complete. Otherwise it returns the first complete line in the listed order, so it agrees with `CalculateWinner` on every board. |
| Winner.CalculateWinnerIsFirst | tic-tace-toe/tic-tac-toe.tsx:17-32 | For every position `k`, the detector returns line `k` if and only if that line is complete and every line listed before it is not. |
| Winner.OnlyCompleteLineIsReported | tic-tace-toe/tic-tac-toe.tsx:28-32 | When exactly one line is complete, the detector returns that line. |
| Winner.EmptyBoardHasNoWinner | tic-tace-toe/tic-tac-toe.tsx:28-35 | The all-empty board has no winner. |
| Squares.Mark | tic-tace-toe/tic-tac-toe.tsx:55 | The mark the player to move places is never empty, and it is X exactly when `xIsNext`. |
| Squares.HasEmpty | tic-tace-toe/tic-tac-toe.tsx:65 | Some square is unplayed exactly when fewer than nine squares carry an X or an O. |
| Moves.Legal | tic-tace-toe/tic-tac-toe.tsx:50 | A click on square `i` is a move exactly when the detector returns null and square `i` is empty. |
| Moves.HandleClick | tic-tace-toe/tic-tac-toe.tsx:49-58 | A click is ignored (no `onPlay`) exactly when the board already has a complete line or the clicked square is taken. Otherwise the new board has the mover's mark (X when `xIsNext`, else O) on the clicked square, which was empty, and equals the old board on every other square. |
| Moves.DeriveStatus | tic-tace-toe/tic-tac-toe.tsx:60-68 | The status is Winner exactly when a line is complete, and it names the mark that is NOT next (O when `xIsNext`, else X). It is Draw exactly when no line is complete and no square is empty. Otherwise it is Next player, naming X when `xIsNext`, else O. |
| Moves.NextPlayerIffSomeClickPlays | tic-tace-toe/tic-tac-toe.tsx:50-68 | The status reads "Next player" if and only if some click on the board would be played, and every played click places the mark the status names. |
| Moves.PlayAddsOneMark | tic-tace-toe/tic-tac-toe.tsx:54-55 | A played click adds exactly one mark of the mover and leaves the other player's count unchanged. |
| Game.XIsNext | tic-tace-toe/tic-tac-toe.tsx:91 | The mark of the player to move is the mark of move number `currentMove + 1`: X on odd-numbered moves, O on even-numbered ones. |
| Game.CurrentSquares | tic-tace-toe/tic-tac-toe.tsx:92 | The displayed board is an entry of the history. |
| Game.HandlePlay | tic-tace-toe/tic-tac-toe.tsx:94-98 | The new history has `currentMove + 2` entries. Entries `0..currentMove` are unchanged, the last entry is the new board, and `currentMove` becomes that last entry's index, `currentMove + 1`. |
| Game.JumpTo | tic-tace-toe/tic-tac-toe.tsx:100-102 | The history is unchanged and `currentMove` is the requested entry. The displayed board is that entry, and X is next exactly when its number is even. |
| Game.Click | tic-tace-toe/tic-tac-toe.tsx:49-57 | An illegal click (the board is won or the square is taken) leaves history and `currentMove` unchanged. A legal click keeps entries `0..currentMove` and leaves `currentMove + 2` entries. It advances `currentMove` by one, flips `xIsNext`, and displays the old board with the mover's mark added on the clicked square only. |
| Game.InitialInv | tic-tace-toe/tic-tac-toe.tsx:89-90 | The initial state (one empty board, `currentMove` 0) satisfies the history invariant. |
| Game.ClickPreservesInv | tic-tace-toe/tic-tac-toe.tsx:50-57 | Every click, ignored or played, preserves the history invariant: the empty first board, one alternating move per entry, and no move after a win. |
| Game.JumpToPreservesInv | tic-tace-toe/tic-tac-toe.tsx:100-102 | A jump to an existing entry preserves the history invariant. |
| Game.HistoryCounts | tic-tace-toe/tic-tac-toe.tsx:89-97 | In a well-formed history, entry `k` holds ceil(k/2) X marks and floor(k/2) O marks. |
| Game.DisplayedBoardHasCurrentMoveMarks | tic-tace-toe/tic-tac-toe.tsx:89-97 | In a reachable state the displayed board carries exactly `currentMove` marks. |
| Game.XIsNextMatchesBoard | tic-tace-toe/tic-tac-toe.tsx:91 | In a reachable state, `xIsNext` holds exactly when the displayed board has as many X marks as O marks. Otherwise X has exactly one more. |
| Game.HistoryAtMostTen | tic-tace-toe/tic-tac-toe.tsx:50-55 | A well-formed history never holds more than ten boards. |
| Game.DrawOnlyAfterNineMoves | tic-tace-toe/tic-tac-toe.tsx:64-67 | A reachable board whose status is Draw is the board after move 9. |
| Game.WinnerIsLastMover | tic-tace-toe/tic-tac-toe.tsx:60-63 | When a reachable board has a complete line, `currentMove` is past move 0. Every complete line is filled with the mark of the player who made the last move, and the status names that player as the winner. |
| Game.JumpToStartRestoresEmpty | tic-tace-toe/tic-tac-toe.tsx:89-101 | In a reachable state, jumping to move 0 displays the all-empty board with X to move. |
| Game.JumpThenPlayTruncates | tic-tace-toe/tic-tac-toe.tsx:95-97 | After a jump to entry `m`, a legal click leaves exactly `m + 2` boards, whose first `m + 1` are the old ones. |
| Scenarios.Clicks | tic-tace-toe/tic-tac-toe.tsx:94-97 | A sequence of clicks keeps `currentMove` valid and keeps the history invariant. Each click adds at most one entry beyond the history it starts from. |
| Scenarios.ClicksFromInitialKeepCounts | tic-tace-toe/tic-tac-toe.tsx:89-97 | Every state reached from the initial state by clicks has ceil(k/2) X marks and floor(k/2) O marks in entry `k`. |
| Scenarios.TopRowWin | tic-tace-toe/tic-tac-toe.tsx:60-63 | Clicks 0, 4, 1, 5, 2 give X the top row. The detector returns (0, 1, 2), the status is "Winner: X", and every further click is ignored. |
| Scenarios.FullBoardDraw | tic-tace-toe/tic-tac-toe.tsx:64-67 | Clicks 0, 1, 2, 4, 3, 5, 7, 6, 8 fill the board with no complete line, give ten boards, and the status is "Draw". |
| Scenarios.JumpBackAndPlay | tic-tace-toe/tic-tac-toe.tsx:95-101 | After four moves (five boards), jumping to move 2 and playing a move leaves four boards. |

## Left out

- Rendering: the JSX, the `Square` component, the winning-square highlight class, the CSS import and the list markup. These are presentation, not game logic.
- React's `useState` mechanics and re-render timing. The state is an explicit `GameState` record, and each handler is a pure function from the old state to the new one.
- The spelling of the status strings ("Winner: X", "Next player: O", "Draw"). They are modelled as the `Status` datatype, which carries the same information.
- The move-list labels ("Go to game start", "Go to move #n", "You are at move #n"). They are purely presentational.
- Out-of-range arguments. `jumpTo`'s parameter is typed `any`, and `handleClick` takes any number. The page only passes entries of the history (the list built from `history.map`) and squares 0 to 8 (the nine `Square` elements). The model therefore requires a valid history entry for `JumpTo` and types the square as an `Index` from 0 to 8.
- JavaScript's distinction between `null`, `undefined` and `""`. All of them are `Empty`.
- Game.CurrentSquares: its contract says only that the displayed board is an entry of the history. Which entry it is (`currentMove`) is the definition itself. Its mark count is stated separately by Game.DisplayedBoardHasCurrentMoveMarks, because putting that count in the function's own contract makes every concrete game too costly for the verifier.
