# Tic-tac-toe with move history, in Dafny

A model of the React tic-tac-toe game in `src/App.js`: a 3x3 board of cells
that are empty, "X" or "O"; win detection over the eight winning lines
(`calculateWinner`); the gate and update a click on a cell performs
(`Board.handleClick`); and the `Game` controller, which keeps the history of
board snapshots, the index of the move being viewed and the order of the move
list (`handlePlay`, `jumpTo`, `reverseOrder`), together with the move list it
renders.

Layout:

- `wrappers.dfy` — `Option`, standing for JavaScript's `null` results.
- `rules.dfy` (module `Rules`) — cells, boards (`Squares`, nine cells), the
  eight lines in scan order, the verdict, a recursive specification of the
  scan (`WinnerFrom`, `Winner`), the loop that implements it
  (`CalculateWinner`) and the lemmas that relate it to "some line is fully
  marked with one mark".
- `board.dfy` (module `Board`) — move locations, history entries (`Step`) and
  `HandleClick`, which copies the board into a fresh array (the `slice()`),
  assigns one cell and returns the new snapshot with its location.
- `game.dfy` (module `TicTacToe`) — the class `Game` with the fields
  `history`, `currentMove` and `isReversed`; the move list and its display
  order; and the invariant `Played` (every history entry follows from the one
  before by an accepted click) with what follows from it.
- `scenarios.dfy` (module `Scenarios`) — clients that play three example games
  against the contracts of `Game`: a corner and a centre move followed by a
  jump back to the start, a top-row win for X after which a click is ignored,
  and toggling the list order twice.

Boards are immutable sequences: a history entry is a value, so no later move
can alter an earlier snapshot, which in the source holds because
`handleClick` works on a copy. The React state hooks become the fields of
`Game`, and the `onPlay`/`onClick` callbacks become direct method calls
(`Game.Click` is the board click wired to `handlePlay`). The player to move is
never stored: `XIsNext` is derived from the parity of `currentMove`.

## Model

| member | source | states |
|---|---|---|
| `Rules.CalculateWinner` | src/App.js:126-144 | the loop over the lines, returning at the first marked one, yields exactly the verdict of the scan specification `Winner` |
| `Rules.WinnerFromSpec` | src/App.js:137-143 | about the scan `WinnerFrom`: the scan from line `k` finds nothing exactly when no later line is marked; otherwise it reports the first marked line and the mark in it |
| `Rules.Winner` | src/App.js:126-144 | the pure `calculateWinner`: a verdict's line is one of the eight lines, its winner is a mark (not empty), and all three cells of the line hold that mark; there is no verdict exactly when no line is marked |
| `Rules.WinnerNone` | src/App.js:137-143 | `null` is returned exactly when no line is fully marked with a single mark |
| `Rules.WinnerFirst` | src/App.js:127-141 | when several lines are marked, the one reported is the first in list order: rows, then columns, then diagonals |
| `Rules.CountPlace` | src/App.js:65-70 | writing a mark into an empty cell adds one of that mark and leaves the count of the other mark unchanged |
| `Board.LocationOf` | src/App.js:72-73 | the reported location of cell `i` has row and column in 0..2 and `row * 3 + col == i` |
| `Board.IndexOf` | src/App.js:94 | the render-time index `row * 3 + col` is a cell index whose location is the original (row, col): the two maps are inverse |
| `Board.MarkFor` | src/App.js:66-70 | the mark placed is "X" exactly when X is next, and never empty |
| `Board.HandleClick` | src/App.js:61-76 | a click is ignored exactly when the cell is occupied or the board has a winner; otherwise the new board has the player's mark at `i`, equals the old board everywhere else, and the move location is that of `i`; the input board is only read |
| `TicTacToe.LegalMoveCounts` | src/App.js:62-70 | an accepted click adds one X on an even move number, one O on an odd one, and nothing else |
| `TicTacToe.Start` | src/App.js:4 | the seed history entry has no move location and all nine cells empty |
| `TicTacToe.PlayedBranch` | src/App.js:10-14 | keeping the first `n` entries of a legal history and appending a legal move from entry `n - 1` gives a legal history (branching discards the old future) |
| `TicTacToe.ClickIsLegal` | src/App.js:62-75 | the snapshot built for a click that passes the gate is a legal move from the viewed board |
| `TicTacToe.ClickKeepsPlayed` | src/App.js:61-76 | the history left by an accepted click (`handleClick` then `handlePlay`) on a legal history is again legal |
| `TicTacToe.GameTurn` | src/App.js:6 | the turn `XIsNext`, derived from the parity of `currentMove`, holds on a legal history exactly when the viewed board has as many X's as O's (with `Game.HandlePlay`'s flip of `XIsNext` on each play) |
| `TicTacToe.ViewedBoard` | src/App.js:7 | the viewed board `CurrentSquares` (`history[currentMove].squares`) of a legal history holds `(currentMove + 1) / 2` X's and `currentMove / 2` O's, and has a winner only if it is the latest entry |
| `TicTacToe.PlayedCounts` | src/App.js:6 | on a legal history, board `k` holds `(k + 1) / 2` X's and `k / 2` O's, so the counts are equal exactly when `k` is even, which is when `xIsNext` holds |
| `TicTacToe.PlayedOnlyLastWon` | src/App.js:62-64 | on a legal history no board before the last has a winner: a won board never gets a successor |
| `TicTacToe.MoveList` | src/App.js:24-45 | one item per history entry; the item at `currentMove` is status text and every other one a jump button to its own index; entry 0 is described as the game start and entry `k > 0` by `k` and its location |
| `TicTacToe.DescriptionOf` | src/App.js:25-31 | entry 0 is described as the game start and every later entry by its own move number and the location it records |
| `TicTacToe.Reversed` | src/App.js:54 | `[...moves].reverse()`: the reversed list has the same length and entry `k` is entry `len - 1 - k` of the original |
| `TicTacToe.ReversedTwice` | src/App.js:54 | reversing the list twice gives back the original list |
| `TicTacToe.Displayed` | src/App.js:54 | the rendered list is the move list itself, or exactly its reverse when `isReversed` |
| `TicTacToe.Game.constructor` | src/App.js:4-8 | the history starts as the single empty-board entry with no location, viewing move 0, in chronological order; this history is legal |
| `TicTacToe.Game.HandlePlay` | src/App.js:10-14 | the history becomes the entries up to `currentMove` followed by the new one (length `currentMove + 2`, earlier entries unchanged), the new entry is viewed, the player to move flips, the order flag is kept, and the invariant is preserved |
| `TicTacToe.Game.JumpTo` | src/App.js:16-18 | only `currentMove` changes, to the requested valid index; history and order are kept |
| `TicTacToe.Game.ReverseOrder` | src/App.js:20-22 | only `isReversed` changes, to its negation, so two calls restore the state |
| `TicTacToe.Game.Click` | src/App.js:61-76 | a click on an occupied cell or a won board leaves the game unchanged; any other click truncates the future, appends the viewed board with the player's mark at `i` and its location, and views it |
| `TicTacToe.Game.Moves` | src/App.js:24-54 | the rendered list has one item per entry, the viewed entry (at its displayed position) is the only status text, and every button targets a valid index other than the viewed one, so every jump offered meets `JumpTo`'s requirement |

## Left out

- Rendering (JSX, the `Square` component, CSS class names, the winning-line
  highlight) and React's state hooks and event wiring: presentation and
  framework plumbing. State is held in class fields and callbacks are method
  calls.
- The exact text of labels and status lines (template literals): the move list
  records only which kind of item each entry gets and the move number and
  location it shows.
- Draw detection: the source has none, so the model has no draw state either;
  on a full board without a winner the game simply accepts no further click.
- `TicTacToe.Game.JumpTo` requires a valid index. The source does not check it;
  its only caller is the move list, which offers valid indices only (see
  `TicTacToe.Game.Moves`).
- `TicTacToe.Game.HandlePlay` requires the new entry to carry a move location.
  Its only caller, `handleClick`, always supplies one, and the move list would
  fail on an entry after the first without one.
- `TicTacToe.Game.HandlePlay` does not keep the `Played` invariant by itself,
  since it accepts any snapshot; `TicTacToe.ClickKeepsPlayed` states that the
  history `Game.Click` produces stays legal.
- JavaScript truthiness of a cell (`squares[a] &&`) is modelled as "the cell is
  not empty"; cells only ever hold `null`, "X" or "O".
