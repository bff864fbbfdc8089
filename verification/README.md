# Sudoku: a verified model of the puzzle engine and the gameplay rules

This project models, in Dafny, the logic of a browser Sudoku game:

- **Puzzle engine** (`src/lib/sudoku-solver.js`). It covers the row/column/box check `isValid` and the deterministic backtracking solver `solve`. It covers the randomized fill `generateFullBoard`/`fill` and the board copy `copyBoard`. It also covers the completion counter `countSolutions`/`backtrack` and the carving loop `generatePuzzle`.
  - Boards are `array2<int>` updated in place, as in the source.
  - Each method also takes a ghost grid `g`, the value the board holds on entry. It is specified against the value-level search of `SudokuGrid`.
  - `Completed(g)` is the set of grids that the source's row-major backtracking reaches from `g`.
  - `CompletedAreSolutions` proves the key fact: for a consistent grid of digits, that set is exactly the set of its solutions.
- **Gameplay state** (`src/hooks/use-sudoku-state.js`). The board is 81 cell records `{value, isInitial, isIncorrect, notes}` in row-major order.
  - The cell rules are pure functions in `SudokuCells` and `SudokuValidation`: `toCellState`, clear, digit entry, the pencil-note toggle, the mistake recalculation and the completion test.
  - The hook's state is the class `SudokuGame.GameState`. Its handlers are methods that install the board those functions compute. They keep the invariant `GameInvariant`.
- **Validation hook** (`src/hooks/use-validation.js`). It is covered by the same recalculation, plus its own completion effect, which also stops the timer.
- **Selection hook** (`src/hooks/use-selection-and-highlighting.js`). It covers the peer indexes `getRelatedIndexes`, the set `usedValues` and the selection click.
- **Clock text** (`formatTime` in `src/components/game-header.jsx`). It is a pure function, with a round trip to and from its text.

Modules: `SudokuGrid` (grid.dfy), `SudokuSolver` (solver.dfy), `SudokuCells` (cells.dfy), `SudokuValidation` (validation.dfy), `SudokuSelection` (selection.dfy), `TimeFormat` (time.dfy) and `SudokuGame` (game.dfy).

Randomness is a parameter:
- The shuffled digit order of `fill` is an oracle `order: Grid -> seq<int>`. It returns a permutation of 1..9 for each board it is asked about.
- The random cells of the carving loop are a sequence `picks`. `SudokuSolver.Carved` replays the loop on a pick stream, one pick at a time. The carving methods are proved to compute it, and the lemmas about it state what the loop keeps.

## Model

| member | source | states |
|---|---|---|
| SudokuGrid.Put | src/lib/sudoku-solver.js:21-23 | writing a cell changes that cell and no other |
| SudokuGrid.ZerosPut | src/lib/sudoku-solver.js:103-111 | writing over a cell changes the count of empty cells by one exactly when it turns a digit into 0 or a 0 into a digit |
| SudokuGrid.ZerosNone | src/lib/sudoku-solver.js:16-30 | a grid with no 0 cell has no empty cells to count |
| SudokuGrid.FirstZero | src/lib/sudoku-solver.js:16-18 | the row-major scan finds no empty cell exactly on a full grid; otherwise it finds an empty cell with only filled cells before it |
| SudokuGrid.FirstZeroFrom | src/lib/sudoku-solver.js:16-18 | the scan from (r, c) returns the first empty cell at or after (r, c), or none |
| SudokuGrid.FirstZeroIs | src/lib/sudoku-solver.js:16-18 | an empty cell preceded only by filled cells is the one the scan stops at |
| SudokuGrid.Ordered | src/lib/sudoku-solver.js:19 | the deterministic searches try the digits 1..9 in increasing order |
| SudokuGrid.OrderedIsShuffle | src/lib/sudoku-solver.js:19 | the increasing order holds each digit once, like a shuffle |
| SudokuGrid.TriedStep | src/lib/sudoku-solver.js:41-47 | trying one more candidate adds exactly its branch |
| SudokuGrid.TriedHas | src/lib/sudoku-solver.js:41-47 | a completion reached through a tried candidate is among what the tried candidates reach |
| SudokuGrid.TriedFrom | src/lib/sudoku-solver.js:41-47 | every completion the tried candidates reach comes from one of them |
| SudokuGrid.CompletedShape | src/lib/sudoku-solver.js:15-31 | every completion the search reaches is a full grid that keeps all givens |
| SudokuGrid.BranchShape | src/lib/sudoku-solver.js:20-22 | a completion through digit num holds num at the cell, num passed the check there, and the rest is a completion of the grid with num placed |
| SudokuGrid.TriedCard | src/lib/sudoku-solver.js:70-79 | branches of distinct digits are disjoint, so their sizes add up |
| SudokuGrid.TriedShuffle | src/lib/sudoku-solver.js:37-47 | trying the digits in any shuffled order reaches the same completions as trying 1..9 in order |
| SudokuGrid.CompletedAt | src/lib/sudoku-solver.js:36-53 | at the first empty cell, the completions of a grid are what the candidates of any shuffled order reach |
| SudokuGrid.CountIsCard | src/lib/sudoku-solver.js:66-86 | the counter's sum is the number of completions reached |
| SudokuGrid.CountUpToIsCard | src/lib/sudoku-solver.js:70-79 | the count over digits 1..num is the number of completions through those digits |
| SudokuGrid.PutAllowedConsistent | src/lib/sudoku-solver.js:20-21 | placing a digit that passes the check keeps a consistent grid consistent |
| SudokuGrid.CompletedSolved | src/lib/sudoku-solver.js:36-53 | from a consistent grid of digits, every completion reached is a solved grid |
| SudokuGrid.SolutionCompleted | src/lib/sudoku-solver.js:15-31 | every solved grid keeping the givens is reached by the search |
| SudokuGrid.CompletedAreSolutions | src/lib/sudoku-solver.js:63-90 | for a consistent grid of digits, the completions reached are exactly its solutions |
| SudokuGrid.UniqueCompletion | src/lib/sudoku-solver.js:108-111 | a puzzle with exactly one completion, agreeing with a solved grid, has that grid as its only completion |
| SudokuGrid.TriedNone | src/lib/sudoku-solver.js:70-80 | when no digit passes the check at the cell, no candidate reaches anything |
| SudokuGrid.CompletedEdgeCases | src/lib/sudoku-solver.js:69-85 | a full grid's only completion is itself; a grid whose first empty cell admits no digit has none |
| SudokuSolver.Snapshot | src/lib/sudoku-solver.js:59-61 | the grid read off a board holds the board's value in every cell |
| SudokuSolver.BoxScanCovers | src/lib/sudoku-solver.js:8-10 | the nine box positions isValid scans cover every cell of the box |
| SudokuSolver.IsValid | src/lib/sudoku-solver.js:5-13 | returns true exactly when num occurs nowhere in the row, column or box of (row, col); reads the board only |
| SudokuSolver.FirstEmpty | src/lib/sudoku-solver.js:16-18 | the nested scan stops at the row-major first empty cell, or reports a full board |
| SudokuSolver.Solve | src/lib/sudoku-solver.js:15-31 | on true the board holds one of the completions of its entry grid; on false the board is as it was and no completion exists |
| SudokuSolver.SolveDigit | src/lib/sudoku-solver.js:19-25 | one digit of solve: on success a completion through that digit; otherwise the write is undone and the digit's branch is empty |
| SudokuSolver.Draw | src/lib/sudoku-solver.js:37 | the drawn order is a permutation of 1..9 |
| SudokuSolver.Fill | src/lib/sudoku-solver.js:36-53 | on true the board holds one of the completions of its entry grid; on false the board is as it was and no completion exists |
| SudokuSolver.FillDigit | src/lib/sudoku-solver.js:41-47 | one candidate of fill: on success a completion through it; otherwise the write is undone and its branch is empty |
| SudokuSolver.GenerateFullBoard | src/lib/sudoku-solver.js:33-57 | a fresh 9x9 board that holds a solved grid, or stays empty only when the empty grid has no completion |
| SudokuSolver.CopyBoard | src/lib/sudoku-solver.js:59-61 | a fresh board with the same dimensions and contents |
| SudokuSolver.Backtrack | src/lib/sudoku-solver.js:66-86 | never returns true; the board is restored; the counter grows by the number of completions of the grid |
| SudokuSolver.CountDigit | src/lib/sudoku-solver.js:70-79 | one digit of backtrack: never stops the search, restores the board, adds the completions through that digit when it passes the check |
| SudokuSolver.CountSolutions | src/lib/sudoku-solver.js:63-90 | returns the number of completions of the board, whatever the limit, and leaves the board unchanged |
| SudokuSolver.MaxRemoved | src/lib/sudoku-solver.js:97-98 | 35 for "easy", 45 for "medium", 55 for anything else |
| SudokuSolver.ClearCell | src/lib/sudoku-solver.js:103-113 | the cell is cleared exactly when it is filled and emptying it leaves exactly one completion; then the puzzle is the grid with that cell emptied, otherwise it is unchanged |
| SudokuSolver.CarvedStops | src/lib/sudoku-solver.js:99-114 | the carving never exceeds the target or uses more picks than given, and ends at the target unless every pick is used |
| SudokuSolver.CarvedStep | src/lib/sudoku-solver.js:103-113 | one pick advances the carving by one step, removing the cell exactly when ClearCell would |
| SudokuSolver.CarveKeepsStep | src/lib/sudoku-solver.js:103-113 | a kept removal adds one empty cell, keeps the other cells of the start grid and leaves exactly one completion |
| SudokuSolver.CarvedKeeps | src/lib/sudoku-solver.js:99-114 | after any stream of picks the removals are the new empty cells, the rest of the start grid is kept, a changed grid has exactly one completion, and an empty start is never changed |
| SudokuSolver.CarveStep | src/lib/sudoku-solver.js:100-113 | one round of the loop on the k-th pick: the board holds the grid of the next carving step |
| SudokuSolver.Carve | src/lib/sudoku-solver.js:96-114 | the loop's result is the carving of the start grid: it stops at the target unless the picks run out; the removals are the new empty cells, the rest of the start grid is kept, and after any removal there is exactly one completion |
| SudokuSolver.GeneratePuzzle | src/lib/sudoku-solver.js:92-117 | two distinct fresh boards; the puzzle is the carving of the solution, which stops at the target unless the picks run out; when the fill succeeded the puzzle has as many empty cells as removals, keeps every other solution digit, and the solution is its only completion |
| SudokuCells.Flatten | src/hooks/use-sudoku-state.js:5 | flattening rows of nine puts cell (i / 9, i % 9) at position i |
| SudokuCells.ToCellState | src/hooks/use-sudoku-state.js:4-11 | 81 records in row-major order: the puzzle value, a given exactly when nonzero, not flagged, no notes |
| SudokuCells.Values | src/hooks/use-sudoku-state.js:109-111 | the value grid of a board holds cell 9r+c's value at (r, c) |
| SudokuCells.ValuesOfCellState | src/hooks/use-sudoku-state.js:4-11 | the board built from a puzzle shows exactly that puzzle |
| SudokuCells.Insert | src/hooks/use-sudoku-state.js:78 | inserting into a sorted note list gives a sorted list one longer with the same elements plus the new one |
| SudokuCells.SortNotes | src/hooks/use-sudoku-state.js:78 | the sorted note list is sorted and holds the same elements |
| SudokuCells.Remove | src/hooks/use-sudoku-state.js:77 | filtering a note out keeps exactly the other notes, and keeps a strictly sorted list strictly sorted |
| SudokuCells.SortAppend | src/hooks/use-sudoku-state.js:78 | appending a note and sorting is inserting it into the sorted list |
| SudokuCells.InsertStrict | src/hooks/use-sudoku-state.js:78 | inserting a note not yet present keeps a note list strictly sorted |
| SudokuCells.StrictUnique | src/hooks/use-sudoku-state.js:74-79 | two strictly sorted note lists with the same members are equal |
| SudokuCells.ToggleNote | src/hooks/use-sudoku-state.js:74-79 | num is in the new note list exactly when it was not in the old one; every other note's membership is unchanged |
| SudokuCells.ToggleNoteShape | src/hooks/use-sudoku-state.js:74-79 | the toggle keeps a note list strictly sorted and flips the membership of num only |
| SudokuCells.ToggleNoteTwice | src/hooks/use-sudoku-state.js:74-79 | toggling the same note twice restores a strictly sorted note list |
| SudokuCells.ClearCells | src/hooks/use-sudoku-state.js:50-65 | only the selected non-given cell changes, and only when the game is not complete: it becomes empty, unflagged, without notes |
| SudokuCells.NumberCells | src/hooks/use-sudoku-state.js:67-91 | only the selected non-given cell changes, and only when the game is not complete: in note mode its notes toggle num, otherwise it takes num, loses its notes and is flagged when mistakes are shown and num is not the solution digit |
| SudokuCells.EditsKeepNotesSorted | src/hooks/use-sudoku-state.js:50-91 | clearing and the number pad keep every note list strictly sorted |
| SudokuCells.NoteTwice | src/hooks/use-sudoku-state.js:74-79 | pressing the same digit twice in note mode gives the board back |
| SudokuCells.EditsIdempotent | src/hooks/use-sudoku-state.js:50-88 | clearing twice is clearing once, and entering the same digit twice is entering it once |
| SudokuValidation.RecalcCell | src/hooks/use-validation.js:8-18 | value, given flag and notes are kept; the cell is flagged exactly when it is a filled non-given, mistakes are shown and its value is not the solution digit |
| SudokuValidation.Recalc | src/hooks/use-validation.js:4-20 | same length, order, values, givens and notes; a cell is flagged exactly when it is a filled non-given, mistakes are shown and its value is not the solution digit |
| SudokuValidation.MistakeEffect | src/hooks/use-sudoku-state.js:94-104 | nothing happens without a game; otherwise the board is recalculated |
| SudokuValidation.CompletionEffect | src/hooks/use-sudoku-state.js:107-116 | never sets completion back to false; sets it exactly when every value is the solution digit and no cell is flagged |
| SudokuValidation.ValidationCompletion | src/hooks/use-validation.js:22-32 | completion is set and the timer stopped exactly when a game exists, the board is not empty, every value is right and nothing is flagged; never reset |
| SudokuValidation.RecalcIdempotent | src/hooks/use-validation.js:7-19 | recalculating twice equals recalculating once |
| SudokuValidation.RecalcHidden | src/hooks/use-validation.js:12 | with mistakes hidden no cell is flagged |
| SudokuValidation.EntryAgreesWithRecalc | src/hooks/use-sudoku-state.js:80-88 | the flag set on digit entry is the one the recalculation would give |
| SudokuValidation.CorrectBoardCompletes | src/hooks/use-sudoku-state.js:94-116 | once every value is right, the recalculation clears every flag and the completion test succeeds |
| SudokuValidation.CompletionEffectsAgree | src/hooks/use-validation.js:22-32 | the two completion effects agree on a non-empty board; only the game-state hook's completes an empty one |
| SudokuSelection.RelatedIndexes | src/hooks/use-selection-and-highlighting.js:3-17 | exactly the indexes sharing the row, the column or the box of index, 21 of them |
| SudokuSelection.AddBox | src/hooks/use-selection-and-highlighting.js:9-15 | the box loops add the nine box cells, four of them new, to a set holding the row and the column |
| SudokuSelection.RelatedByCell | src/hooks/use-selection-and-highlighting.js:3-17 | a set of indexes holding the peers cell by cell is the peer set |
| SudokuSelection.RelatedSymmetric | src/hooks/use-selection-and-highlighting.js:3-17 | a cell is its own peer, and being peers is symmetric |
| SudokuSelection.UsedIsNotAllowed | src/hooks/use-selection-and-highlighting.js:22-31 | a nonzero digit is used among the peers of the selected cell exactly when the solver's check rejects it there |
| SudokuSelection.Selection.constructor | src/hooks/use-selection-and-highlighting.js:20 | the selection starts empty |
| SudokuSelection.Selection.HandleCellClick | src/hooks/use-selection-and-highlighting.js:33-37 | a given is never selected; any other clicked cell becomes the selection |
| SudokuSelection.Selection.UsedValues | src/hooks/use-selection-and-highlighting.js:22-31 | empty without highlighting or selection; otherwise exactly the nonzero values among the selected cell's peers; never contains 0 |
| TimeFormat.NatToString | src/components/game-header.jsx:31-33 | at least one decimal digit, with no leading zero |
| TimeFormat.PadStart | src/components/game-header.jsx:33 | the result is at least len long, ends with the input and is fill before it |
| TimeFormat.ValueOfNatToString | src/components/game-header.jsx:31-34 | the decimal text of n denotes n |
| TimeFormat.ValuePadStart | src/components/game-header.jsx:33-34 | padding with zeros keeps the value |
| TimeFormat.NatToStringLength | src/components/game-header.jsx:31-33 | the text of n has at most two digits exactly when n < 100 |
| TimeFormat.NatToStringOfValue | src/components/game-header.jsx:31-34 | a digit string without a leading zero is the text of its value |
| TimeFormat.DigitsPadStart | src/components/game-header.jsx:31-35 | padding a digit string with '0' gives a digit string |
| TimeFormat.FormatTime | src/components/game-header.jsx:30-36 | a clock text: at least two minute digits, a colon, exactly two second digits |
| TimeFormat.FormatTimeParts | src/components/game-header.jsx:30-36 | minutes text worth seconds / 60 with at least two digits, a colon, seconds text worth seconds % 60 with exactly two digits; five characters exactly below 6000 |
| TimeFormat.ParseFormat | src/components/game-header.jsx:30-36 | 60 * minutes + seconds read back from the text recovers the input |
| TimeFormat.FormatTimeCanonical | src/components/game-header.jsx:30-36 | every output is a canonical clock text |
| TimeFormat.FormatParse | src/components/game-header.jsx:30-36 | every canonical clock text is the output for the number it denotes |
| TimeFormat.FormatTimeInjective | src/components/game-header.jsx:30-36 | distinct second counts give distinct texts |
| TimeFormat.FormatTimeExamples | src/components/game-header.jsx:30-36 | 0 gives "00:00", 60 gives "01:00", 6000 gives "100:00" |
| SudokuGame.GameState.constructor | src/hooks/use-sudoku-state.js:14-22 | no game, empty boards, nothing selected, every switch off |
| SudokuGame.GameState.StartNewGame | src/hooks/use-sudoku-state.js:24-37 | a generated game whose puzzle is the carving of its solution for the level; the original and current board are its toCellState; selection, completion and switches reset; the invariant holds |
| SudokuGame.NewPuzzle | src/hooks/use-sudoku-state.js:25 | the puzzle is the carving of the solution for the level, which stops at the target unless the picks run out; its givens are solution digits, at most the level's target are empty, and a generated solution is its only completion |
| SudokuGame.FreshBoard | src/hooks/use-sudoku-state.js:26-32 | a fresh board with nothing selected satisfies the game invariant |
| SudokuGame.GameState.RestartGame | src/hooks/use-sudoku-state.js:39-43 | the board is the original board again, nothing selected, not complete |
| SudokuGame.GameState.CellClick | src/hooks/use-sudoku-state.js:45-48 | a given is never selected; any other clicked cell becomes the selection; nothing else changes |
| SudokuGame.GameState.Clear | src/hooks/use-sudoku-state.js:50-65 | the board becomes the cleared board, unchanged with no selection or once complete; the invariant holds |
| SudokuGame.GameState.NumberClick | src/hooks/use-sudoku-state.js:67-91 | the board becomes the number-pad board against the solution, unchanged with no selection or once complete; the invariant holds |
| SudokuGame.GameState.RecalcMistakes | src/hooks/use-sudoku-state.js:94-104 | the board becomes its recalculation; givens are never flagged; the invariant holds |
| SudokuGame.GameState.CheckCompletion | src/hooks/use-sudoku-state.js:107-116 | completion becomes the completion effect's value and never goes back to false |

## Left out

- Randomness. `Math.random` in the shuffle (src/lib/sudoku-solver.js:37) and in the cell choice (lines 100-101) is not modelled. The shuffle is an oracle parameter `order` that returns some permutation of 1..9; the cells are a parameter sequence `picks`. Uniformity is not modelled.
- SudokuSolver.Carve: `picks` also bounds the loop. The source loops until the target is met and may never stop, for example on an empty board. The model also stops when `picks` runs out, so it promises exactly `maxRemoved` removals only when the picks last; otherwise every pick has been used.
- SudokuSolver.GenerateFullBoard: the model does not prove that `fill` succeeds on the empty board; the source ignores its result. The puzzle guarantees are therefore stated under "the solution is solved".
- SudokuSolver.CopyBoard: the source copies an array of row arrays. The model uses one `array2`, so sharing of row arrays between boards is not modelled. The fresh result stands for the fresh rows.
- SudokuSolver.Backtrack: the closure-captured `count` is a parameter passed in and returned.
- SudokuCells.SortNotes: the source's `.sort()` compares as strings. The model sorts numerically. The two orders agree on the digits 1..9, which are the only notes the number pad gives, so `SudokuGame.GameState.NumberClick` requires a digit 1..9.
- SudokuCells.ToCellState: the unused `solution` argument of `toCellState` is dropped.
- React scheduling. When `useState` setters, batching and `useEffect` run is not modelled. Each handler and effect is one state transition; effects run only when their method is called.
- The raw setters returned by the hook (`setCells`, `setPuzzleState`, `setNoteMode`, and so on; src/hooks/use-sudoku-state.js:133-144) are not modelled as operations. The flags are plain fields; writing `cells` or `puzzleState` directly could break `GameInvariant`.
- SudokuSelection.RelatedIndexes requires an index in 0..80, which is what the source always passes.
- The rendering components, `Confetti.jsx`, the timer hook, the local-storage hook and `vite.config.js` are not part of this model.
- The duplicate clear and number handlers in `sudoku-board.jsx` (lines 93-127) repeat the hook's rules and are not modelled a second time.
- The `formatTime` copy in `src/components/timer-display.jsx` (lines 20-26) is identical to the one modelled.
- The timer itself (`stopTimer`, elapsed seconds) is not modelled. `ValidationCompletion` returns whether the timer is stopped; `formatTime` takes a natural number of seconds.
