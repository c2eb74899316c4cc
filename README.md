# Sudoku board engine, modelled in Dafny

The terminal Sudoku game keeps a solved 9x9 board in a game object together
with a random number generator. It fills the board by randomized
backtracking: cells are taken in row-major order, each tries the values 1..9
in a shuffled order, and a value is written only when the safety check
allows it. A failed completion clears the cell again. A puzzle is a copy of
the board with 45 non-empty cells blanked at randomly probed positions. The
player's insert move checks its input, refuses a filled cell or a value the
safety check rejects, writes the value and then asks whether the puzzle
equals the board.

The model has three modules:

- `Rand` is the random number generator as a class over an arbitrary oracle
  `source`. The k-th draw is `source(k) % bound`. `Shuffle` is the swap
  loop of `Collections.shuffle` driven by those draws.
- `Board` holds the value model of a board and the rules:
  - `Grid`, a sequence of 9 rows of 9 integers with 0 for empty;
  - peers, conflicts and solutions;
  - the safety check as a predicate;
  - sub-assignments, prefixes and completions in row-major order;
  - counts of empty and changed cells;
  - the fact that each row, column and box of a solution is a permutation of 1..9;
  - a concrete pattern solution, which shows that the blank board can be completed.
- `Sudoku` holds the game class. Its `board` field is an `array2<int>`, and
  its methods update arrays in place as the Java methods do. `Snap` reads an
  array as a `Grid`, and every method is specified against that value.

Main results:

- `FillBoard` is sound and, from an empty suffix, complete. When it fails
  from an empty suffix, the board is unchanged and no solution extends the
  prefix. So `GenerateSolvedBoard` always ends with a solution on the board.
- `RemoveCells` only blanks cells and changes exactly `count` of them.
- A new puzzle agrees with the board and has exactly 45 empty cells.
- `Insert` keeps a conflict-free puzzle conflict-free, and its outcome is
  exactly characterised for every input.

The insert move does not compare the value with the solved board. It runs
only the safety check (src/br/com/dio/sudoku/Main.java:47-48), so a safe
value that differs from the board's is accepted and written. `Insert`
therefore promises to keep the rules, not to agree with the board.

## Model

| member | source | states |
|---|---|---|
| Rand.Random.NextInt | src/br/com/dio/sudoku/Main.java:145-146 | one draw, in 0..bound-1, fixed by the oracle at the current draw index, which advances by one |
| Rand.Random.Shuffle | src/br/com/dio/sudoku/Main.java:113 | the shuffled list is a permutation of the input and uses one draw per swap |
| Board.Digits | src/br/com/dio/sudoku/Main.java:111-112 | the candidate list holds 1..9 in increasing order |
| Board.ShuffledDigits | src/br/com/dio/sudoku/Main.java:111-115 | any permutation of the candidate list has nine entries, holds every value 1..9 and nothing else |
| Sudoku.Game.IsSafe | src/br/com/dio/sudoku/Main.java:125-139 | the three scans return true exactly when the value is absent from the row, the column and the 3x3 box of the cell |
| Board.SafeIffAbsentFromPeers | src/br/com/dio/sudoku/Main.java:125-139 | the safety check holds exactly when the value is neither in the cell itself nor in any of its peers |
| Board.SafeWriteKeepsNoConflicts | src/br/com/dio/sudoku/Main.java:116-117 | writing a value that passes the safety check into a conflict-free grid leaves it conflict-free |
| Sudoku.Game.FillBoard | src/br/com/dio/sudoku/Main.java:106-123 | cells before (row, col) never change. On success every later cell holds 1..9 and a conflict-free grid stays conflict-free. On failure every cell is as it was or empty. Failure from an empty suffix leaves the grid unchanged, and then no solution extends the prefix |
| Sudoku.Game.PlaceAndFill | src/br/com/dio/sudoku/Main.java:116-120 | one candidate: write it, fill the rest, clear it on failure. The same guarantees as the fill, and on failure from an empty suffix no solution has this value at this cell |
| Board.UnsafeBlocksCompletion | src/br/com/dio/sudoku/Main.java:116 | at a cell whose suffix is empty, a value the safety check refuses cannot appear at that cell in any solution extending the prefix |
| Board.FailedExtensionBlocks | src/br/com/dio/sudoku/Main.java:117-119 | when the prefix extended with this value has no completion, no solution extends the prefix with this value here |
| Board.NoCandidateLeft | src/br/com/dio/sudoku/Main.java:115-122 | when all nine candidates are ruled out the prefix has no completion, so returning false misses no solution |
| Board.FillStepSucceeds | src/br/com/dio/sudoku/Main.java:117-118 | a successful recursive fill after a safe write fills the cell and the suffix, keeps the prefix and keeps the rules |
| Board.FillStepFails | src/br/com/dio/sudoku/Main.java:117-119 | clearing the cell after a failed recursive fill leaves a grid that keeps the prefix and only blanks cells |
| Board.WriteThenClear | src/br/com/dio/sudoku/Main.java:117-119 | writing into an empty cell and clearing it again restores the grid |
| Sudoku.Game.GenerateSolvedBoard | src/br/com/dio/sudoku/Main.java:101-104 | a fresh board filled from (0, 0) always holds a solution afterwards |
| Board.PatternIsSolution | src/br/com/dio/sudoku/Main.java:101-104 | the grid (3*(r%3) + r/3 + c) % 9 + 1 is a solution, so one exists |
| Board.BlankIsCompletable | src/br/com/dio/sudoku/Main.java:102-103 | the all-empty board has a completion, so the fill from (0, 0) cannot fail |
| Board.SolutionUnitsArePermutations | src/br/com/dio/sudoku/Main.java:106-139 | every row, column and box of a solution holds each value 1..9 exactly once |
| Sudoku.Game.CopyBoard | src/br/com/dio/sudoku/Main.java:167-171 | a fresh array holding every cell of the source |
| Sudoku.Game.ProbeOnce | src/br/com/dio/sudoku/Main.java:145-150 | one probe draws a row and then a column, the cell named by two consecutive draws, and blanks it exactly when it was non-empty |
| Sudoku.ChooseTarget | src/br/com/dio/sudoku/Main.java:144-147 | if a non-empty cell is left and the probes reach every cell, some later probe reaches a non-empty cell, so the loop makes progress |
| Sudoku.Game.RemoveCells | src/br/com/dio/sudoku/Main.java:141-152 | every cell is kept or blanked, the number of empty cells grows by count, and exactly count cells change. The loop terminates |
| Board.EmptyCountBlank | src/br/com/dio/sudoku/Main.java:147-149 | blanking a non-empty cell adds exactly one empty cell |
| Board.BlankedCount | src/br/com/dio/sudoku/Main.java:141-152 | for a grid that only blanks cells of another, the number of changed cells equals the growth in empty cells |
| Board.FullHasNoEmpty | src/br/com/dio/sudoku/Main.java:20-22 | a solved board has no empty cell, so 45 cells can be removed from its copy |
| Sudoku.Game.DerivePuzzle | src/br/com/dio/sudoku/Main.java:20-22 | the puzzle is a fresh array whose non-empty cells agree with the board and which has exactly 45 empty cells |
| Sudoku.Game.NewGame | src/br/com/dio/sudoku/Main.java:69-73 | option 3: a new solved board, and a puzzle derived from it with 45 empty cells |
| Sudoku.Game.ResetPuzzle | src/br/com/dio/sudoku/Main.java:84-88 | as written: the caller's puzzle and the board are unchanged, so a solved puzzle still has no empty cell |
| Sudoku.Game.RestartPuzzle | src/br/com/dio/sudoku/Main.java:84-88 | as intended: a new puzzle from the existing solution, which is kept, with 45 empty cells |
| Sudoku.Game.IsSolved | src/br/com/dio/sudoku/Main.java:90-98 | true exactly when every cell of the puzzle is non-empty and equals the board's |
| Board.SolvedIffEqual | src/br/com/dio/sudoku/Main.java:90-98 | against a solution, the solved check holds exactly when the puzzle equals the board |
| Sudoku.Game.Insert | src/br/com/dio/sudoku/Main.java:34-50 | each outcome holds exactly under its condition: out-of-range input, a filled cell, or a value the safety check refuses. Only an accepted move changes the puzzle, in that one cell. It reports whether the puzzle is now solved and keeps a conflict-free puzzle conflict-free |
| Sudoku.Game.constructor | src/br/com/dio/sudoku/Main.java:8-9 | a new game holds an all-empty 9x9 board and the given generator |

## Left out

- Console input and output are not modelled: the menu loop, the prompts, the messages, `printBoard` and the play-again question. The operations they invoke are modelled as methods.
- Text parsing and `NumberFormatException` are left out. `Insert` takes the three numbers already parsed, as unbounded integers. The one 32-bit effect, `parseInt(...) - 1` wrapping for the smallest int, still yields an out-of-range row and so does not change the outcome.
- The distribution of `java.util.Random` is not modelled. The generator is an arbitrary oracle, so every property holds for every sequence of draws. `Collections.shuffle` is modelled by its swap loop, without its check for non-random-access lists.
- Sudoku.Game.RemoveCells: its termination rests on a fairness assumption, `ProbesEveryCell`: from any draw on, the probes reach every cell. The game object's `Valid()` carries this assumption. It is an assumption about the generator, not something `java.util.Random` is proved to satisfy.
- Sudoku.Game.RemoveCells: it requires `count` not to exceed the number of non-empty cells, because otherwise the Java loop never ends. Every call in the game passes 45 on a full board.
- `int[][]` is modelled as `array2<int>`, so shared or ragged rows are not captured. The game never creates either.
- Sudoku.Game.Insert: it does not promise that the puzzle stays a sub-assignment of the board. The code accepts any safe value, including one that differs from the solution.
- Nothing is claimed about uniqueness of the puzzle's solution or about difficulty; the game promises neither.
- `Store` (a single array write, restated on the grid value) and `ProbeOnce` (one iteration's two draws and conditional write) are helper methods that stand for inline statements of the Java code.

## Findings

| source | as written | input that shows it | evidently intended | confidence | as-written member | corrected member |
|---|---|---|---|---|---|---|
| src/br/com/dio/sudoku/Main.java:84-88 | `resetPuzzle` assigns the new puzzle to its parameter only, so the caller keeps the old puzzle | a solved puzzle after answering "s": the puzzle shown next is still the solved one, with no empty cell, so every insert is refused as a filled cell until option 3 starts a new game | the caller receives a new puzzle derived from the existing solution | high, not executed | Sudoku.Game.ResetPuzzle | Sudoku.Game.RestartPuzzle |
