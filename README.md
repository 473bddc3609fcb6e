# GK-sudoku in Dafny

A verified model of the logic of GK-sudoku, a Sudoku web game. The model has four parts:

- **The Sudoku engine** (`puzzle-generator.js`, class `SudokuGenerator`):
  - the legality check `isValid`;
  - the randomized backtracking filler `fillBoard`;
  - the capped solution counter `countSolutions`;
  - the clue remover `removeClues`;
  - the deterministic solver `solve`;
  - the difficulty rating `gradePuzzle`, with `initCandidates` and `eliminateValue`;
  - the `generate` facade.
- **The player's game state** (`app.js`, class `SudokuGame`): moves, pencil marks, erase, hints, the bounded undo history, conflict detection, the win check, keyboard handling and the walk through the puzzle library.
- **The icon generator** (`generate-icons.js`): the pixel painter `createPNGData`, and the uncompressed PNG encoder `encodePNG`. The encoder writes chunks with their CRC-32, a zlib stream of DEFLATE stored blocks with its Adler-32, and the IHDR, IDAT and IEND chunks.
- **The bulk puzzle script** (`generate-puzzles.js`): `generatePuzzles` draws 100 puzzles per level, and `formatPuzzles` writes them as the JavaScript text of `puzzles.js`.

## Modules

| file | module | models |
|---|---|---|
| `wrappers.dfy` | `Wrappers` | the `Option` datatype shared by the decoders and the game state |
| `grid.dfy` | `SudokuGrid` | board values shared by every part: grids, units, peers, fillings, completions, clue counts |
| `generator.dfy` | `SudokuGenerator` | `isValid`, `shuffle`, `fillBoard`, `countSolutions` (class `SolutionCounter`), `removeClues`, `solve`, `generate` |
| `grader.dfy` | `SudokuGrader` | `eliminateValue`, `initCandidates`, `gradePuzzle` |
| `game.dfy` | `SudokuGame` | class `SudokuGame` as class `Game` |
| `icons.dfy` | `PngIcon` | `encodePNG`, `crc32`, `chunk`, and a decoder for what they write |
| `pixels.dfy` | `IconPixels` | `createPNGData` and `generateIcon` |
| `puzzles.dfy` | `PuzzleFile` | `generatePuzzles`, `formatPuzzles`, and a decoder for `puzzles.js` |

### How the engine is modelled

- Boards that the source changes in place are `array2<int>`. `Rows(a)` reads one back as a grid value.
- `Math.random` becomes nondeterministic choice:
  - `shuffle` returns some permutation of its input;
  - `generate` draws its clue target as `Math.floor(x * (max - min + 1)) + min` for some x = fraction / denominator in [0, 1) (`TargetClues`).
- `clueTargets[difficulty]` is a lookup on an object literal, so it also finds the members every object inherits from Object.prototype (`constructor`, `toString`, `__proto__` and the others listed in `InheritedNames`). Such a member is truthy, so the fallback to the intermediate band is not taken. It has no `min` or `max`, so the target is NaN. `currentClues <= NaN` never holds, so the model uses -1, which no clue count reaches either: `removeClues` then tries every position.
- The searches `fillBoard`, `countSolutions` and `solve` all enumerate the same thing, called a *filling* of the board (`Filling`):
  - every given cell is kept;
  - every empty cell gets a digit that none of its 20 peers holds.
- `FillingIsCompletion` proves that, on a conflict-free board of digits, the fillings are exactly the solved grids that keep its clues (`Completion`).
- The inner `solve` closure of `countSolutions` mutates a board copy and a counter. It becomes the class `SolutionCounter`, with fields for the board copy, the cap and the count.
- `gradePuzzle` is proved against the invariant `Grading`. It says three things:
  - the working board keeps the clues;
  - every empty cell's candidates exclude the values on its peers;
  - every solution of the puzzle agrees with the board and with the candidates.
- `for (const num of candidates[row][col])` visits a JavaScript `Set` in insertion order. An empty cell's set starts as `new Set([1, ..., 9])` and only loses elements, so the order is ascending. `FirstHiddenSingle` therefore tries the candidates in ascending order.
- Each pass is specified by a ghost function of the board and the candidates: `NakedSweep` and `HiddenSweep` apply the step of one cell (`NakedAt`, `HiddenAt`) to the cells in row-major order, each cell seeing what the earlier ones left; `NakedSweep(b, cs, r, c)` is the state after every cell before (r, c), and the full sweep ends at (9, 0). The while loop's `progress` flag is modelled as the count the previous round placed being positive. `Rounds` repeats a naked sweep and a hidden sweep until a round places nothing; `gradePuzzle`'s counts and final state are those of `Rounds`, so the split between naked and hidden singles is the source's.
- The passes also state when they place nothing: exactly when no empty cell has a single candidate (or a hidden single) at the start of the pass. In that case nothing changes. `gradePuzzle`'s loop stops after such a round, so its final board and candidates have no single of either kind.

### How the game is modelled

- Each method of `SudokuGame` is a method of class `Game`. It updates the fields in place.
- Its contract ties the new `State()` to a function of the old state: `Saved`, `Placed`, `Toggled`, `Entered`, `Erased`, `Hinted`, `Undone`, `Keyed`, `Loaded`, `Next` or `Won`.
- Lemmas about these functions state what holds across several moves.
- `PUZZLES` is the constructor's `library` parameter.

### How the icon encoder is modelled

Each byte format written by the encoder has a decoder beside it:

- `ParseChunk` reads back a chunk;
- `Inflate` reads DEFLATE stored blocks;
- `ParseZlib` reads a zlib stream, checking its header and its Adler-32;
- `ParsePng` reads the whole file.

Round-trip lemmas connect each writer to its decoder.

## Model

| member | source | states |
|---|---|---|
| SudokuGrid.FillingIsCompletion | puzzle-generator.js:26-47 | on a conflict-free board of digits, a board is enumerated by the searches exactly when it is a solved grid keeping every clue |
| SudokuGrid.FullFilling | puzzle-generator.js:95 | a board with no empty cell has itself as its one and only filling, so every search stops at once |
| SudokuGrid.SolvedFillsReduction | puzzle-generator.js:103-129 | a solved grid is a filling of every puzzle obtained from it by removing clues |
| SudokuGrid.FullIffNoEmpties | puzzle-generator.js:75-95 | a board is full exactly when the row-major scan for an empty cell finds none |
| SudokuGrid.EmptiesAfterSet | puzzle-generator.js:57 | writing a digit into an empty cell removes exactly that cell from the empty cells, so a search has one fewer cell to fill |
| SudokuGrid.CluesAfterClear | puzzle-generator.js:118 | clearing a clue removes exactly that cell from the clues, one fewer in the count |
| SudokuGrid.FullHas81Clues | puzzle-generator.js:107 | a full board has 81 clues, which is where the clue counter of removeClues starts |
| SudokuGenerator.IsValid | puzzle-generator.js:26-47 | the value is legal exactly when no cell of the row, the column or the 3×3 box holds it; the cell itself is included in the scan |
| SudokuGenerator.IsValidAt | puzzle-generator.js:26-47 | the three early-exit scans over the board array answer exactly IsValid, and change nothing |
| SudokuGenerator.Shuffle | puzzle-generator.js:16-23 | the Fisher–Yates shuffle returns a permutation of its input (same multiset) for any choice of the random index |
| SudokuGenerator.ShuffleDigits | puzzle-generator.js:54 | the shuffled digit list orders 1..9: each digit once, nothing else |
| SudokuGenerator.ShufflePositions | puzzle-generator.js:105 | the shuffled position list is a permutation of the cell indices 0..80: 81 entries, each an index, every index present (same multiset as 0..80) |
| SudokuGenerator.CopyBoard | puzzle-generator.js:72 | the copy is a fresh array holding the same grid |
| SudokuGenerator.FindEmpty | puzzle-generator.js:51-53 | the first empty cell in row-major order is found, with every earlier cell filled; none is found exactly on a full board |
| SudokuGenerator.FillBoard | puzzle-generator.js:50-67 | on success the board is a filling of the input; on failure the board is exactly as before and the input has no filling at all |
| SudokuGenerator.FillCell | puzzle-generator.js:53-62 | trying the shuffled digits at the first empty cell succeeds with a filling, or restores the board and proves no filling exists |
| SudokuGenerator.TryDigit | puzzle-generator.js:56-60 | one digit: success gives a filling; failure restores the cell and proves no filling puts that digit there |
| SudokuGenerator.PlaceKeepsFillings | puzzle-generator.js:56-58 | placing a legal digit keeps exactly the fillings that have that digit there |
| SudokuGenerator.IllegalExcluded | puzzle-generator.js:56 | a digit isValid rejects appears in no filling at that cell, so skipping it loses nothing |
| SudokuGenerator.AllDigitsExcluded | puzzle-generator.js:62 | when every digit has been ruled out at an empty cell the board has no filling, so returning false is right |
| SudokuGenerator.ListedUnique | puzzle-generator.js:121 | a repeat-free list of all fillings has length one exactly when the filling is unique |
| SudokuGenerator.SolutionCounter.constructor | puzzle-generator.js:71-72 | the counter starts at 0 on a private copy of the board |
| SudokuGenerator.SolutionCounter.Solve | puzzle-generator.js:74-96 | the copy is always restored; a full board answers true and counts nothing; otherwise false means every filling was counted once below the cap, and true means the cap was reached, each caller adding one more on the way out |
| SudokuGenerator.SolutionCounter.SolveCell | puzzle-generator.js:77-92 | the ascending digit loop at the first empty cell counts every filling once, or stops once the cap is reached |
| SudokuGenerator.SolutionCounter.TryCount | puzzle-generator.js:79-89 | one digit: the fillings met all have that digit at the cell; without a stop they are all such fillings, counted once; the undo restores the copy |
| SudokuGenerator.CountSolutions | puzzle-generator.js:70-100 | a full board yields 0; otherwise 0 exactly when there is no filling, the exact number below the cap, at least the cap at or above it (it can pass the cap), and 1 exactly when the filling is unique |
| SudokuGenerator.CountMeaning | puzzle-generator.js:98-99 | what the top-level solve's outcome means for the returned count |
| SudokuGenerator.SingleHoleUnique | puzzle-generator.js:118-125 | emptying one cell of a solved grid leaves a puzzle whose only filling is that grid, so the first removal always succeeds |
| SudokuGenerator.RemoveClues | puzzle-generator.js:103-129 | the input is untouched and the result only removes clues; if anything was removed the result has a unique filling; at most 81 − target clues go; a full input keeps at least the target; a solved input is the one filling of the result and, for a target below 81, the result is not full |
| SudokuGenerator.TryRemoveClue | puzzle-generator.js:112-125 | a clue is removed exactly when it is non-zero and its removal leaves a unique filling; a rejected removal restores the puzzle |
| SudokuGenerator.SolveBacktrack | puzzle-generator.js:313-329 | on success the board is the first filling in row-major lexicographic order; on failure it is restored and no filling exists |
| SudokuGenerator.SolveAt | puzzle-generator.js:316-325 | ascending digits at the first empty cell find the least filling, or prove there is none |
| SudokuGenerator.PlaceAndSolve | puzzle-generator.js:318-322 | one digit: success gives a filling that no other filling with that digit there precedes; failure restores the board |
| SudokuGenerator.Solve | puzzle-generator.js:310-332 | null exactly when the puzzle has no filling; otherwise a copy holding its first filling in row-major order |
| SudokuGenerator.FirstFillingUnique | puzzle-generator.js:310-332 | there is at most one first filling, so solve's answer is determined by the puzzle |
| SudokuGenerator.UniqueIsFirst | puzzle-generator.js:310-332 | on a puzzle with a unique filling, solve returns that filling |
| SudokuGenerator.LargerDigitLater | puzzle-generator.js:317 | the filling with the larger digit at the first empty cell never comes first, which is why the ascending loop finds the least filling |
| SudokuGenerator.LexTotal | puzzle-generator.js:314-315 | row-major order on distinct grids is total |
| SudokuGenerator.WitnessSolved | puzzle-generator.js:293-294 | a concrete grid is solved |
| SudokuGenerator.EmptyBoardFillings | puzzle-generator.js:293-294 | the fillings of the empty board are exactly the solved grids, and one exists, so fillBoard succeeds on it |
| SudokuGenerator.ReductionOfSolved | puzzle-generator.js:297 | a puzzle obtained by removing clues from a solved grid is a conflict-free board of digits |
| SudokuGenerator.ClueTarget | puzzle-generator.js:283-289 | the lookup yields the inherited member, with no band, exactly for the names inherited from Object.prototype; every band it yields lies within 24..42 and has min ≤ max |
| SudokuGenerator.UnknownDifficultyFallsBack | puzzle-generator.js:289 | a name that is neither one of the three levels nor inherited from Object.prototype gets the intermediate band |
| SudokuGenerator.TargetClues | puzzle-generator.js:290 | for a band the drawn target lies within min..max; for an inherited member it is below every clue count, as NaN is |
| SudokuGenerator.CountClues | puzzle-generator.js:299 | the count is the number of non-zero cells |
| SudokuGenerator.Generate | puzzle-generator.js:282-307 | the solution is solved; the puzzle only removes clues from it, is not full, and has the solution as its one and only filling and completion; clueCount is its number of clues, below 81, and at least the band's minimum when the difficulty has a band |
| SudokuGrader.EliminateValue | puzzle-generator.js:262-279 | the value leaves the candidates of exactly the 20 peers; the cell itself and all other cells are unchanged |
| SudokuGrader.InitCandidates | puzzle-generator.js:246-260 | each cell's candidates are what the given-by-given reset and elimination in row-major order leave |
| SudokuGrader.InitialCandidateEmpty | puzzle-generator.js:246-260 | on an empty cell the initial candidates are exactly the digits isValid accepts there |
| SudokuGrader.InitialCandidateGiven | puzzle-generator.js:253-255 | on a conflict-free board a given's only candidate is its own value |
| SudokuGrader.InitialGrading | puzzle-generator.js:133-134 | the initial candidates satisfy the grading invariant for the untouched puzzle |
| SudokuGrader.NakedStep | puzzle-generator.js:148-151 | placing an empty cell's only candidate keeps the grading invariant |
| SudokuGrader.HiddenForced | puzzle-generator.js:163-221 | every solution puts a hidden single at its cell |
| SudokuGrader.HiddenStep | puzzle-generator.js:172-221 | placing a hidden single, resetting its cell and eliminating it keeps the grading invariant |
| SudokuGrader.PlaceForced | puzzle-generator.js:173-175 | a value every solution has at an empty cell can be placed there with the invariant kept |
| SudokuGrader.NakedPass | puzzle-generator.js:145-156 | the new board, candidates and count are the full `NakedSweep`, each cell seeing the state the earlier cells left; it places nothing exactly when no empty cell has a single candidate at the start, and then the board and the candidates are unchanged |
| SudokuGrader.NakedRow | puzzle-generator.js:146-155 | after the nine cells of one row the state is the sweep of every cell up to the end of that row |
| SudokuGrader.NakedSweepKeeps | puzzle-generator.js:145-156 | the naked-singles sweep keeps the grading invariant |
| SudokuGrader.NakedSweepCounts | puzzle-generator.js:145-156 | every candidate the sweep leaves on an empty cell is a digit, and its count is exactly the number of cells it filled |
| SudokuGrader.NakedSweepIdle | puzzle-generator.js:145-156 | the sweep up to (r, c) places nothing exactly when no cell before (r, c) is an empty cell with one candidate, and then it changes nothing |
| SudokuGrader.NakedSingleAt | puzzle-generator.js:147-154 | it places exactly when the cell is empty with one candidate; the new board, candidates and count are the step `NakedAt`: the cell takes its only candidate and the value leaves its peers, any other cell is left alone |
| SudokuGrader.UniqueInRowAt | puzzle-generator.js:165-171 | true exactly when no other empty cell of the row has the value as a candidate |
| SudokuGrader.UniqueInColAt | puzzle-generator.js:183-189 | true exactly when no other empty cell of the column has the value as a candidate |
| SudokuGrader.UniqueInBoxAt | puzzle-generator.js:201-212 | true exactly when no other empty cell of the box has the value as a candidate |
| SudokuGrader.FirstHiddenSingle | puzzle-generator.js:163-222 | a hidden single is found exactly when the cell has one, and the value found is the least one |
| SudokuGrader.LeastHidden | puzzle-generator.js:163 | a cell with a hidden single has a least one, the one the ascending candidate scan reaches first |
| SudokuGrader.HiddenSingleAt | puzzle-generator.js:162-223 | a value is placed exactly when the cell is empty and has a hidden single, and it is the least one; the new board, candidates and count are the step `HiddenAt`: the board gets the value, the cell's candidates become it alone and it leaves the peers, otherwise nothing changes |
| SudokuGrader.PlaceHidden | puzzle-generator.js:173-178 | the board gets the value, the cell's candidates become that value alone, and it leaves the peers |
| SudokuGrader.HiddenPass | puzzle-generator.js:159-225 | the new board, candidates and count are the full `HiddenSweep`; it places nothing exactly when no empty cell has a hidden single at the start, and then the board and the candidates are unchanged |
| SudokuGrader.HiddenRow | puzzle-generator.js:160-224 | after the nine cells of one row the state is the sweep of every cell up to the end of that row |
| SudokuGrader.HiddenSweepKeeps | puzzle-generator.js:159-225 | the hidden-singles sweep keeps the grading invariant |
| SudokuGrader.HiddenSweepCounts | puzzle-generator.js:159-225 | every candidate the sweep leaves on an empty cell is a digit, and its count is exactly the number of cells it filled |
| SudokuGrader.HiddenSweepIdle | puzzle-generator.js:159-225 | the sweep up to (r, c) places nothing exactly when no cell before (r, c) is an empty cell with a hidden single, and then it changes nothing |
| SudokuGrader.RoundsUnfold | puzzle-generator.js:141-226 | `Rounds` is one naked sweep and one hidden sweep, then either the stop (nothing placed) or the rounds from the new state; both sweeps leave only digits as candidates of empty cells |
| SudokuGrader.RoundCount | puzzle-generator.js:143-225 | the singles counted in one round are the cells it filled |
| SudokuGrader.RoundsFacts | puzzle-generator.js:141-226 | the rounds keep the invariant; their counts are the cells filled; a naked single at the start is always counted; nothing is counted exactly when the start has no single of either kind; the final state has no single of either kind |
| SudokuGrader.Round | puzzle-generator.js:142-225 | one iteration of the while loop advances the state by the first round of `Rounds`, fills as many cells as it counts and keeps the invariant |
| SudokuGrader.RunRounds | puzzle-generator.js:141-226 | the while loop ends in the board, candidates and counts `Rounds` gives for its start, with score = naked + 2·hidden |
| SudokuGrader.ForcedFull | puzzle-generator.js:141-226 | a full working board of gradePuzzle that every solution reduces to is the one solution |
| SudokuGrader.GradePuzzle | puzzle-generator.js:132-244 | score = naked + 2·hidden; the grade follows the tests in order; no hidden single means intermediate; expert needs at least 19 hidden singles; the final board keeps the clues and agrees with every solution; a full final board is the unique solution; a full puzzle grades intermediate with 0, 0, 0; a naked single among the initial candidates is always counted; nothing is counted exactly when the initial candidates have no single of either kind; the final board and candidates have no naked or hidden single left; the counts and the final board and candidates are exactly those of `Rounds` from the puzzle and its initial candidates |
| SudokuGrader.ExpertBound | puzzle-generator.js:232-241 | with at most 81 singles placed, an expert grade needs at least 19 hidden singles |
| SudokuGrader.OneHoleCandidates | puzzle-generator.js:246-260 | on a solved grid with one cell cleared, that cell's only initial candidate is the cleared digit |
| SudokuGrader.OneHoleSingle | puzzle-generator.js:145-154 | on a solved grid with one cell cleared, the initial candidates have a naked single |
| SudokuGrader.OneHoleGrade | puzzle-generator.js:131-244 | a solved grid with one cell cleared grades intermediate with score 1, from one naked single and no hidden single |
| SudokuGame.SavedHistory | app.js:278-295 | entries past the index go, the snapshot is last, the older ones keep their order, and the length is index + 2 capped at 100 (the oldest dropped) |
| SudokuGame.Recorded | app.js:596-605 | the index is recorded for the difficulty, other difficulties are untouched, and the list stays repeat-free |
| SudokuGame.RecordedIdempotent | app.js:601-602 | recording a solved puzzle twice is the same as recording it once |
| SudokuGame.Flip | app.js:205-209 | the number's membership is flipped, and nothing else changes |
| SudokuGame.FirstZero | app.js:260-262 | the first empty cell at or after a position in row-major order, or 81 when none |
| SudokuGame.ArrowTarget | app.js:470-485 | an arrow moves the selection one cell in its direction and never off the board; at the edge it stays |
| SudokuGame.Game.constructor | app.js:4-30 | a new game has no progress, pencil mode off, and the first intermediate puzzle loaded (the fallback of app.js:680-681) |
| SudokuGame.Game.LoadPuzzle | app.js:123-149 | the entry's puzzle and solution are shown with no marks, no selection, an empty history, no mistakes, not complete |
| SudokuGame.Game.ShowPuzzle | app.js:130-136 | the grids of the entry are copied in with empty marks; nothing else changes |
| SudokuGame.Game.ResetPlay | app.js:124-125 | the difficulty and index are set, the selection, history, mistakes and completion reset; nothing else changes |
| SudokuGame.Game.SelectCell | app.js:151-154 | only the selection changes |
| SudokuGame.Game.SaveState | app.js:278-295 | the history becomes SavedHistory of a snapshot of the board and marks; the index points at the new last entry |
| SudokuGame.Game.RemovePencilMarksForNumber | app.js:215-232 | the number leaves the marks of its row, column and box, the cell included; nothing else changes |
| SudokuGame.Game.MarkPuzzleComplete | app.js:596-605 | only the progress changes: the current index is recorded once for the current difficulty |
| SudokuGame.Game.CheckWin | app.js:422-436 | true exactly when the board equals the solution, and then the game is complete and recorded |
| SudokuGame.Game.PlaceNumber | app.js:172-197 | snapshot saved, cell set, its marks cleared, the number removed from its units' marks, one mistake when it differs from the solution, then the win check |
| SudokuGame.Game.FillCell | app.js:177-183 | the cell gets the value, its own marks and the value's marks in its units go; nothing else changes |
| SudokuGame.Game.TogglePencilMark | app.js:199-213 | on a filled cell nothing changes; otherwise a snapshot is saved and the number's mark is flipped |
| SudokuGame.Game.EnterNumber | app.js:156-170 | nothing changes without a selection, once complete, or on a given; otherwise a mark toggle or a placement, by pencil mode |
| SudokuGame.Game.Erase | app.js:234-249 | nothing changes when locked or when the cell is empty with no marks; otherwise a snapshot is saved and the cell and its marks are cleared |
| SudokuGame.Game.TogglePencilMode | app.js:251-254 | only pencil mode flips |
| SudokuGame.Game.GetHint | app.js:256-276 | nothing changes when complete or when there is no empty cell; otherwise the first empty cell gets its solution value, is selected, and the win check runs |
| SudokuGame.Game.HintAt | app.js:263-271 | the hint at the empty cell the scan found |
| SudokuGame.Game.Undo | app.js:297-309 | nothing changes with no snapshot or once complete; otherwise the board and marks of the snapshot at the index come back and the index steps back; mistakes stay |
| SudokuGame.Game.HasConflict | app.js:396-414 | true exactly when some other cell of the row, the column or the box holds the value |
| SudokuGame.Game.HandleKeydown | app.js:463-505 | nothing without a selection; arrows move it; 1–9 enter; Backspace, Delete and 0 erase; Ctrl/Meta+z undoes; p toggles pencil mode; other keys do nothing |
| SudokuGame.Game.MoveSelection | app.js:470-485 | only the selection changes, to ArrowTarget |
| SudokuGame.Game.NextPuzzle | app.js:573-593 | the next entry is loaded: the next index, else index 0 of the next difficulty, and expert wraps to its own index 0 |
| SudokuGame.FirstZeroAt | app.js:260-262 | the scan stops at the empty cell whose predecessors are all filled |
| SudokuGame.UndoRestoresPlacement | app.js:172-197 | undo after a placement restores the board and the marks, while the mistake it cost stays (app.js:186-187, 297-309) |
| SudokuGame.ToggleTwice | app.js:199-213 | toggling the same mark twice restores the marks and the board |
| SudokuGame.UndoRestoresToggle | app.js:199-213 | undo after a toggle on an empty cell restores the marks and the board |
| SudokuGame.PlacementClearsMarks | app.js:179-183 | a placement empties its cell's marks, removes the number from every mark in its units, and leaves every other mark alone |
| SudokuGame.FirstZeroFindsEmpty | app.js:260-262 | the hint scan finds a cell whenever the board has an empty one |
| SudokuGame.HintProgress | app.js:256-276 | on a board that matches the solution, a hint fills one more cell with the solution value and costs no mistake |
| SudokuGame.HintCompletes | app.js:264-270 | the hint completes and records the game exactly when it fills the last empty cell |
| SudokuGame.HintsFinish | app.js:256-276 | as many hints as there are empty cells solve the puzzle: board = solution, complete, recorded, no new mistake |
| SudokuGame.ConflictIffInvalid | app.js:396-414 | hasConflict answers exactly !isValid on the board with the cell itself cleared, for a non-zero value |
| SudokuGame.SolvedHasNoConflict | app.js:396-414 | no cell of a solved board is shown in conflict |
| SudokuGame.CompleteIgnoresInput | app.js:463-505 | once complete, no key changes the board, the marks, the mistakes or the completion |
| SudokuGame.MistakesCount | app.js:186-187 | a key adds at most one mistake and never removes one; it adds one exactly when it places a digit that differs from the solution |
| SudokuGame.KeyKeepsGivens | app.js:162-163 | no key overwrites or erases a given, on the board or in any snapshot |
| SudokuGame.HintKeepsGivens | app.js:262-264 | a hint only fills an empty cell, so the givens stay |
| SudokuGame.LoadedKeepsGivens | app.js:130-140 | a loaded puzzle starts with its givens in place and an empty history |
| SudokuGame.NextWalksLibrary | app.js:573-593 | the next position is in the library and comes right after the current one in the order intermediate, hard, expert, except that the last expert puzzle wraps to the first expert puzzle |
| PngIcon.BigEndian32RoundTrip | generate-icons.js:108-117 | four bytes written most significant first read back as the value modulo 2^32 |
| PngIcon.LittleEndian16RoundTrip | generate-icons.js:154 | two bytes written least significant first read back as the value |
| PngIcon.Crc32 | generate-icons.js:90-99 | the loop computes the reflected CRC-32 (polynomial 0xEDB88320, register started at all ones, complemented at the end) of section 3.4 of RFC 2083 |
| PngIcon.UpdateByte | generate-icons.js:93-96 | one byte xored in, then eight bit steps |
| PngIcon.IendCrc | generate-icons.js:171 | the CRC of the IEND type is 0xAE426082, the CRC that closes every PNG file, since IEND carries no data |
| PngIcon.Chunk | generate-icons.js:101-119 | length field, type, data and CRC: 8 + type + data bytes, 12 + data for a four-letter type |
| PngIcon.ParseChunk | generate-icons.js:101-119 | a chunk that reads back is exactly the bytes chunk writes for its type and data |
| PngIcon.ChunkRoundTrip | generate-icons.js:101-119 | a chunk with less than 4 GiB of data reads back as its type and data, whatever follows |
| PngIcon.ChunkSlices | generate-icons.js:107-118 | the big-endian length, the type, the data and the big-endian CRC of type and data sit in that order |
| PngIcon.ScanlinesRoundTrip | generate-icons.js:133-140 | stripping the filter bytes from the scanlines gives back the pixel rows in order |
| PngIcon.ScanlinesLength | generate-icons.js:133-140 | the scanlines have height × (1 + 4 × width) bytes |
| PngIcon.RawData | generate-icons.js:133-140 | the loop writes, for each row, a filter byte 0 followed by the row's RGBA bytes |
| PngIcon.PushRow | generate-icons.js:136-139 | the inner loop appends the four bytes of each pixel of the row in order |
| PngIcon.ComplementBytes | generate-icons.js:155 | the two bytes of ~len are the little-endian bytes of 0xFFFF − len |
| PngIcon.ComplementIsNlen | generate-icons.js:154-155 | LEN + NLEN = 0xFFFF, as section 3.2.4 of RFC 1951 requires |
| PngIcon.StoredBlock | generate-icons.js:153-156 | a stored block is 5 header bytes followed by at most 65535 payload bytes |
| PngIcon.StoredBlockReads | generate-icons.js:153-156 | the header reads back BFINAL and LEN, and the payload follows it |
| PngIcon.BlocksRoundTrip | generate-icons.js:147-157 | the blocks written for non-empty data decode back to that data, and only the last block carries BFINAL, so the decoder stops exactly at their end |
| PngIcon.BlocksStep | generate-icons.js:148-150 | each round writes the block at its offset, final exactly when it reaches the end |
| PngIcon.HeaderChecks | generate-icons.js:144 | the header 0x78 0x01 passes the checks of section 2.2 of RFC 1950: deflate, a 32K window, (CMF·256 + FLG) mod 31 = 0, no dictionary |
| PngIcon.PrefixSumsWeighted | generate-icons.js:160-164 | B summed over prefixes equals the closed form n + n·D1 + … + Dn of RFC 1950 |
| PngIcon.Adler | generate-icons.js:160-165 | the loop computes the Adler-32 of the data: A from 1, B from 0, both modulo 65521, B in the high half |
| PngIcon.ZlibStream | generate-icons.js:143-166 | the stream is 2 header bytes, the blocks and 4 checksum bytes |
| PngIcon.ZlibRoundTrip | generate-icons.js:143-166 | every non-empty byte sequence survives the zlib stream: header checked, blocks inflated, Adler-32 matched, nothing after it |
| PngIcon.ZlibData | generate-icons.js:143-166 | the loop writes exactly the zlib stream of the data |
| PngIcon.PushBlock | generate-icons.js:149-156 | one round appends the block at its offset |
| PngIcon.EmptyStreamHasNoBlock | generate-icons.js:148 | zero rows give no block at all, so no decoder accepts the stream |
| PngIcon.IendChunkBytes | generate-icons.js:171 | chunk('IEND', []) is the standard 12-byte IEND chunk |
| PngIcon.IhdrData | generate-icons.js:122-130 | the IHDR payload has 13 bytes |
| PngIcon.IhdrRoundTrip | generate-icons.js:122-130 | the IHDR payload reads back as width and height, with bit depth 8, colour type 6 and methods 0 (section 4.1.1 of RFC 2083) |
| PngIcon.PngLayout | generate-icons.js:173 | the file is the 8-byte signature, the 25-byte IHDR chunk, the IDAT chunk and the 12-byte IEND chunk |
| PngIcon.EmitChunk | generate-icons.js:101-119 | chunk with the CRC from the crc32 loop writes exactly Chunk |
| PngIcon.EncodePng | generate-icons.js:87-174 | the bytes written are the file Png describes |
| PngIcon.BodyRoundTrip | generate-icons.js:168-173 | the IDAT and IEND chunks decode to the image |
| PngIcon.HeaderRoundTrip | generate-icons.js:88-130 | the signature and IHDR read back, and decoding goes on with the rest |
| PngIcon.PngRoundTrip | generate-icons.js:87-174 | the file decodes back to the width, the height and the image's bytes, given at least one row and sizes that fit the 32-bit fields |
| IconPixels.IconColours | generate-icons.js:14-16 | every pixel is opaque and has one of the three colours |
| IconPixels.MarginIsBackground | generate-icons.js:19-27 | every pixel left of or above the padding keeps the background colour |
| IconPixels.FarMarginIsBackground | generate-icons.js:53-81 | past the last vertical line and below the last horizontal line the icon is background |
| IconPixels.IconSymmetric | generate-icons.js:32-81 | the picture is symmetric about its main diagonal |
| IconPixels.CellsDisjoint | generate-icons.js:32-50 | no pixel lies in two cells, so the order of painting the cells does not matter |
| IconPixels.PixelsDistinct | generate-icons.js:42 | different pixels have different buffer indices |
| IconPixels.SetPixel | generate-icons.js:42-46 | the four bytes of one pixel are set; every other pixel is unchanged |
| IconPixels.PaintPixel | generate-icons.js:42-46 | pixel (x, y) gets the colour; every other pixel is unchanged |
| IconPixels.FillRect | generate-icons.js:40-48 | exactly the pixels of the rectangle inside the icon get the colour |
| IconPixels.FillBackground | generate-icons.js:18-24 | every pixel gets the background colour |
| IconPixels.PaintCells | generate-icons.js:31-50 | exactly the pixels of the nine cells, each inset 2 pixels, become the cell colour |
| IconPixels.PaintVerticals | generate-icons.js:55-67 | exactly the pixels of the four vertical lines become white |
| IconPixels.PaintHorizontals | generate-icons.js:69-81 | exactly the pixels of the four horizontal lines become white |
| IconPixels.CreatePngData | generate-icons.js:10-84 | a size×size×4 buffer in which every pixel has the colour of its region: lines over cells over background |
| IconPixels.GenerateIcon | generate-icons.js:176-181 | the painted pixels and the file encoding them; for a non-empty icon within the 32-bit limits, the file decodes to exactly those pixels |
| PuzzleFile.GeneratePuzzles | generate-puzzles.js:14-39 | 100 records for each of intermediate, hard and expert in that order; each record is what generate promises for its level |
| PuzzleFile.LevelsWellNamed | generate-puzzles.js:8-12 | the three keys in their order satisfy the naming rule under which the text reads back |
| PuzzleFile.IntToString | generate-puzzles.js:54 | the decimal form carries a minus sign exactly for negative numbers |
| PuzzleFile.NatRoundTrip | generate-puzzles.js:54 | the decimal digits of a natural number read back as the number |
| PuzzleFile.IntRoundTrip | generate-puzzles.js:54 | an integer written in decimal reads back, whatever non-digit text follows |
| PuzzleFile.GridRoundTrip | generate-puzzles.js:52-53 | the compact JSON of a grid reads back as the grid, whatever follows |
| PuzzleFile.RowRoundTrip | generate-puzzles.js:52-53 | the compact JSON of an integer array reads back as the array |
| PuzzleFile.RecordRoundTrip | generate-puzzles.js:51-55 | a record's text reads back as the record |
| PuzzleFile.RecordsRoundTrip | generate-puzzles.js:49-57 | the records of a level, split by ",\n" with "\n" after the last, read back in order |
| PuzzleFile.LevelRoundTrip | generate-puzzles.js:47-59 | a level's key, records and closing bracket read back as the level |
| PuzzleFile.LevelsRoundTrip | generate-puzzles.js:46-61 | the levels, each followed by ",\n" unless its key is expert, read back in order |
| PuzzleFile.FormatRecord | generate-puzzles.js:50-56 | one round of the record loop appends the record's lines and its separator |
| PuzzleFile.FormatLevel | generate-puzzles.js:47-60 | one round of the level loop appends the key line, the records, "  ]" and the separator |
| PuzzleFile.FormatPuzzles | generate-puzzles.js:41-65 | the text is the preamble, the levels and "};\n", as Render describes |
| PuzzleFile.RenderRoundTrip | generate-puzzles.js:41-65 | the text written for a well-named library reads back as exactly that library |
| PuzzleFile.GenerateFile | generate-puzzles.js:67-72 | the generated library has 100 good records per level, and the text written to puzzles.js reads back as exactly that library |

## Left out

- DOM and presentation in `app.js` are not modelled: building the grid, event binding, display updates, highlighting, the number pad, cell animations, menus, modals, the header, the theme and the install prompt.
- The timer (`startTimer`, `pauseTimer`, `updateTimerDisplay`) is left out.
- `timer` is not part of the game state. `loadPuzzle`'s reset of it is left out with it.
- Persistence through `localStorage` is left out: `loadProgress`, `saveProgress`, `saveGame` and `loadLastGame`.
  - The constructor starts with empty progress.
  - It loads the first intermediate puzzle, which is what `loadLastGame` falls back to when nothing is saved.
  - Restoring a saved game is not modelled.
- `PUZZLES` is defined in a file outside this model. It is the `library` parameter of `Game`, required to hold a non-empty list of 9×9 entries for each difficulty.
- `Math.random` is nondeterministic choice, not a generator. Nothing is claimed about the distribution of shuffles or clue targets.
- `createEmptyBoard` is the function `SudokuGrid.EmptyGrid`.
- `module.exports` is left out.
- `IconPixels.CreatePngData`: padding is a parameter. The source computes it as `Math.floor(size * 0.15)`, a floating-point product. The method requires `padding * 2 <= size`, which that value always meets.
- Files, directories, console output and `Buffer.from` are left out. The PNG and `puzzles.js` are byte or character sequences that the methods return.
  - The list of icon sizes in `generate-icons.js` is not modelled.
  - Nor is the loop over them.
- The unused variables of `gradePuzzle`, `nakedPairs`, `pointing`, `emptyCells` and `solvedCells`, are left out; they never affect the result.
- `IconPixels.PaintHorizontals` paints each horizontal line row by row. The source goes column by column. The set of pixels painted is the same.
- `PngIcon.Crc32` computes the CRC bit by bit, as the source does. The usual table-driven definition is not modelled beside it. `IendCrc` checks it against the CRC every IEND chunk carries instead.
- `PngIcon.Adler`: the source writes `(b << 16) | a`, a signed 32-bit value. The model writes `b * 65536 + a`. Both give the same four bytes, because `>>>` and `& 0xFF` read back the low 32 bits.
- `PngIcon.PngRoundTrip` requires at least one row, a width and a height below 2^32, and a zlib stream below 4 GiB.
  - With zero rows the source writes an IDAT that no decoder accepts (`EmptyStreamHasNoBlock`).
  - Larger values wrap in the 32-bit fields.
- `PngIcon.ParsePng` reads only the shape the encoder writes: the signature, IHDR, one IDAT with filter type 0 and IEND. It is not a general PNG decoder.
- `PuzzleFile.RenderRoundTrip` requires `WellNamed`: no colon in a key, and `expert` as the last key only.
  - The separator after a level depends on the key's name, not on its position. Any other order writes text that does not read back.
  - `LevelsWellNamed` shows that the script's own keys meet the condition.
- `SudokuGenerator.SolutionCounter.Solve` states the count only as "at least the cap" once the cap is reached. Each recursion level that is unwinding adds one more, so the source's count can exceed `limit`.
- `SudokuGenerator.RemoveClues` counts clues from 81 whatever the input, as the source does. The clue bounds are therefore stated for a full input only.
- `SudokuGame.Game.Undo` restores the snapshot saved before the last change and steps back. There is no redo: the next `saveState` drops the entries past the index.
- The running time of the backtracking searches is not modelled. Termination is proved by the number of empty cells.
