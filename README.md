# Sudoku engine, board rules and tic-tac-toe endpoint

A Dafny model of the logic in the n1vers/Sudoku repository:

- the two copies of the PHP Sudoku engine, the public backend
  (`app/backend/public/app/src`) and the app backend (`app/backend/app/src`):
  the placement check `isSafe`, the randomised backtracking filler
  `generateFullSudoku`, the bounded solution counter `countSolutions`, the
  puzzle carvers `createPuzzle` and `createPuzzleFast`, and the difficulty
  policy `generateNewGame`;
- the board rules of the React component `SudokuGrid.tsx`: the empty grids,
  the locked cells and pre-filled errors of `loadGrid`, `isValidPlacement`,
  and the cell-select, enter-digit and clear-cell transitions;
- the tic-tac-toe endpoint `app/backend/public/index.php`: reset, the
  click and turn rule, the winner scan and the winner/draw/board output.

Modules, one per source file (plus the shared ones):

| module | file | models |
|---|---|---|
| `Rules` | rules.dfy | grids, `isSafe` (one definition for all four copies), the first empty cell, clue counting, solved grids |
| `Counting` | counting.dfy | the counting searches of both solvers as functions, and their closed form |
| `Completions` | completions.dfy | what a completion of a partial grid is; the search counts exactly the completions |
| `PublicSolver` | public_solver.dfy | `countSolutions` / `countSolutionsRecursive` of the public backend |
| `AppSolver` | app_solver.dfy | `countSolutions` of the app backend, with its `static` counter as an object field |
| `Filler` | filler.dfy | `createEmptyGrid` and `generateFullSudoku` (identical in both generators) |
| `Puzzles` | puzzles.dfy | the 0-to-null mapping, the `[puzzle, solution]` pair, cell orders, uniqueness, `strtolower` |
| `PublicGenerator` | public_generator.dfy | the public `createPuzzle`, `createPuzzleFast`, `generateNewGame` |
| `AppGenerator` | app_generator.dfy | the app `createPuzzle`, `generateNewGame`, and corrected variants |
| `Client` | client.dfy | `SudokuGrid.tsx` state and transitions |
| `TicTacToe` | tictactoe.dfy | `index.php` |

Modelling choices:

- PHP arrays are values. A by-reference grid `&$grid` is a method
  parameter together with an out-parameter for its new value.
- The public solver treats `=== 0` as empty (`ZeroOnly`). The app solver
  and both fillers treat `< 1` as empty (`BelowOne`). They write 0 back
  into every cell they branched on, so a negative cell comes back as 0. The
  predicate `Cleared` states exactly that, and on grids whose cells lie in
  0..9 the grid comes back unchanged.
- Each counting search is defined twice. `Search` / `AppSearch` follow the
  pruned recursion with its accumulator. `Count` is the plain count of
  completions. Lemmas relate the two, so every count is a statement about
  the completions of the grid.
- `shuffle` is not modelled as a random process. Digit orders are a stream
  `nat -> seq<int>` of permutations of 1..9 read at an index `draw`, one
  element per call of `shuffle`. Position orders are orders of the 81
  cells: a stream for the public carver's repeated passes, one order for
  the fast carver and for the app carver.
- The app solver's `static $solutions` lives once per script execution
  (one request). It is the field `solutions` of one `AppSolver.Solver`
  object, and every `AppGenerator.Generator` of that execution holds that
  same object. `new_game.php` makes one `generateNewGame` call per request;
  `AppGenerator.NewGameRequest` models that request as if the app copy
  served it.
- Tic-tac-toe cells `"0"`, `"X"`, `"O"` are the datatype `Mark`. The three
  request kinds (`reset`, `click`, neither) are the datatype `Request`.

Where the code does not do what its own comments say, the model follows the
code:

- The docstring of the app `countSolutions`
  (app/backend/app/src/SudokuSolver.php:39) says it returns the number of
  solutions found (0, 1 or 2). Its counter is shared by every call of one
  script execution, so a later call returns the running total (see
  Findings).
- Searches that test `< 1` restore only cells that held 0, and reset
  negative cells to 0.
- The docstring of the app `createPuzzle`
  (app/backend/app/src/SudokuGenerator.php:82-84) says it removes digits
  down to `$cluesToKeep` while keeping the solution unique. As written it
  keeps exactly one removal on the first carve of a script execution and
  none on later carves.

## Model

| member | source | states |
|---|---|---|
| Rules.IsSafe | app/backend/public/app/src/SudokuSolver.php:13-33 | true exactly when num occurs nowhere in the row, the column or the 3x3 box of (row, col), the cell itself included; the same check is at app/backend/app/src/SudokuSolver.php:13-33 and in both generators at line 23-43 |
| Rules.FindFirstEmpty | app/backend/app/src/SudokuSolver.php:49-61 | returns the first cell in row-major order that the emptiness test accepts, or none |
| Rules.FirstHoleSpec | app/backend/public/app/src/SudokuSolver.php:48-51 | there is no first empty cell exactly when the grid has no empty cell, and every cell before the first empty one is filled |
| Rules.PutBack | app/backend/app/src/SudokuGenerator.php:113-115 | writing a cell and then writing back its old value gives back the grid exactly, so a rejected removal leaves the puzzle as it was |
| Rules.ClearedInRange | app/backend/app/src/SudokuSolver.php:71-75 | a search that only resets empty cells to 0 gives back the entry grid when its cells are in 0..9 |
| Rules.SameDigitsSafe | app/backend/app/src/SudokuSolver.php:70 | grids with the same digits in the same cells agree on whether a digit is safe |
| Rules.SameDigitsFirstHole | app/backend/app/src/SudokuSolver.php:49-61 | grids with the same digits in the same cells have the same first `< 1` cell |
| Rules.ValidUnitsArePermutations | app/backend/public/app/src/SudokuGenerator.php:51-77 | in a solved Sudoku every row, column and box holds each of 1..9 exactly once |
| Counting.SearchIsCappedCount | app/backend/public/app/src/SudokuSolver.php:47-64 | the pruned search from a counter below limit ends at min(limit, counter + number of completions) |
| Counting.AppSearchIsCappedCount | app/backend/app/src/SudokuSolver.php:41-80 | the app search returns the counter untouched when it is already at limit, otherwise min(limit, counter + number of completions) |
| Counting.SearchBounded | app/backend/public/app/src/SudokuSolver.php:56 | with limit at least 1 the public count lies in 0..limit |
| Counting.SearchFullGrid | app/backend/public/app/src/SudokuSolver.php:48-63 | a grid with no 0 cell has count 1, whether or not its cells clash |
| Counting.SearchDeadEnd | app/backend/public/app/src/SudokuSolver.php:50-59 | if no digit is safe in the first empty cell the count is 0: only that cell is branched on |
| Counting.CountTestsAgree | app/backend/app/src/SudokuSolver.php:54 | on cells in 0..9 the two emptiness tests count the same completions |
| Counting.AppSearchSameDigits | app/backend/app/src/SudokuSolver.php:69-77 | the app search depends only on which cells hold which digits, so the cells it resets do not change later counts |
| Completions.CompletionsExactly | app/backend/public/app/src/SudokuSolver.php:47-64 | the grids the search reaches are exactly the clash-free fillings of the empty cells that keep every given cell |
| Completions.CountIsCompletions | app/backend/public/app/src/SudokuSolver.php:47-64 | the unpruned count is the number of completions |
| Completions.CountOneIffUnique | app/backend/public/app/src/SudokuGenerator.php:116-118 | for a grid with completion s, the count is 1 exactly when s is its only completion |
| Completions.CompletionMakesCountPositive | app/backend/public/app/src/SudokuSolver.php:47-64 | a grid with a completion has a count of at least 1 |
| Completions.SolutionIsCompletion | app/backend/public/app/src/SudokuGenerator.php:113-117 | a solved grid is a completion of every puzzle that agrees with it |
| PublicSolver.CountSolutions | app/backend/public/app/src/SudokuSolver.php:41-45 | the counter starts at 0 and the grid is taken by value, so the result is a function of grid and limit alone (two calls agree); with limit at least 1 it is min(limit, number of completions) |
| PublicSolver.CountSolutionsRecursive | app/backend/public/app/src/SudokuSolver.php:47-64 | the counter comes back as the pruned search of it, and the grid comes back unchanged because each branched cell is reset to 0 |
| PublicSolver.CountTwoDecidesUniqueness | app/backend/public/app/src/SudokuGenerator.php:117-118 | with limit 2 the count is 1 exactly when the grid's completion is unique |
| AppSolver.Solver.constructor | app/backend/app/src/SudokuSolver.php:42 | the static counter starts at 0 |
| AppSolver.Solver.CountSolutions | app/backend/app/src/SudokuSolver.php:41-80 | the counter moves from its old value to the app search of it and is returned; it is returned at once, grid untouched, when already at limit; the grid comes back with only empty cells reset to 0, unchanged on cells in 0..9 |
| AppSolver.Solver.CountSolutionsFresh | app/backend/app/src/SudokuSolver.php:41-80 | corrected counter: started at 0 for every top-level call, with limit at least 1 it returns min(limit, number of completions) whatever earlier calls did |
| AppSolver.CounterBounds | app/backend/app/src/SudokuSolver.php:44-66 | the counter never decreases, and after a call it is at most max(its old value, limit) |
| AppSolver.CounterPastOneNeverOne | app/backend/app/src/SudokuSolver.php:42-66 | once the counter is 1 or more, a call with limit 2 on a grid with a completion returns at least 2 |
| AppSolver.SecondCallDiffers | app/backend/app/src/SudokuSolver.php:42-66 | a grid with one completion, counted twice with limit 2 in one script execution starting from a fresh counter, answers 1 and then 2 |
| Filler.CreateEmptyGrid | app/backend/public/app/src/SudokuGenerator.php:45-47 | a 9x9 grid of zeros |
| Filler.GenerateFullSudoku | app/backend/public/app/src/SudokuGenerator.php:51-77 | success and the shuffles consumed are those of the fill function; on success the grid is the fill; on failure only empty cells are reset to 0, so a grid in 0..9 comes back unchanged |
| Filler.FillIsCompletion | app/backend/public/app/src/SudokuGenerator.php:55-75 | a successful fill keeps every filled cell and fills every empty cell with a digit that clashes with nothing |
| Filler.FillSameDigits | app/backend/public/app/src/SudokuGenerator.php:58-73 | the fill depends only on which cells hold which digits |
| Filler.FillOfConsistentIsSolved | app/backend/public/app/src/SudokuGenerator.php:51-77 | a successful fill of a clash-free grid is a solved Sudoku that keeps the given cells, and each row, column and box is a permutation of 1..9 |
| Filler.FillDrawsForward | app/backend/public/app/src/SudokuGenerator.php:66-67 | the fill consumes at least one shuffle whenever there is an empty cell |
| Filler.ConsistentCompletionIsValid | app/backend/public/app/src/SudokuGenerator.php:64 | a completion of a clash-free grid is a solved Sudoku agreeing with it |
| Puzzles.ToClues | app/backend/public/app/src/SudokuGenerator.php:131-133 | a cell becomes null exactly when it is 0, and every other cell keeps its value |
| Puzzles.FromToClues | app/backend/app/src/SudokuGenerator.php:123-127 | the null mapping loses nothing: reading nulls as 0 gives the grid back |
| Puzzles.ToFromClues | app/backend/public/app/src/SudokuGenerator.php:131-133 | every clue grid without a `0` clue is the mapping of its reading |
| Puzzles.ClearClue | app/backend/public/app/src/SudokuGenerator.php:113-119 | zeroing a clue lowers the clue count by exactly one; zeroing a 0 cell changes nothing |
| Puzzles.ClueCountBound | app/backend/public/app/src/SudokuGenerator.php:99 | every grid has 0 to 81 clues |
| Puzzles.OneHoleIsForced | app/backend/app/src/SudokuGenerator.php:107-119 | emptying one cell of a solved grid leaves that grid as the only solution, so the first removal of a carve always counts 1 from a fresh counter |
| Puzzles.SolvedIsUnique | app/backend/public/app/src/SudokuGenerator.php:88-89 | a solved grid is the only completion of itself, where carving starts |
| Puzzles.ToLower | app/backend/public/app/src/SudokuGenerator.php:152 | `strtolower`: same length, no upper-case letter left, each of A..Z moved up by 32 to a..z, every other character kept |
| PublicGenerator.CreatePuzzle | app/backend/public/app/src/SudokuGenerator.php:87-139 | the solution is the input grid; every clue equals the solution cell; clues only go, at most 81 - targetClues of them; on a solved grid the grid stays the puzzle's only solution and at least min(targetClues, 81) clues remain; at most 1000 shuffles are used |
| PublicGenerator.KeptRemovalIsUnique | app/backend/public/app/src/SudokuGenerator.php:116-119 | a removal kept because the count is 1 leaves the solved grid as the only solution |
| PublicGenerator.CreatePuzzleFast | app/backend/public/app/src/SudokuGenerator.php:177-208 | exactly max(0, 81 - targetClues) clues go, or all if fewer; on a solved grid max(0, min(targetClues, 81)) clues remain, each equal to the solution cell; no uniqueness is claimed |
| PublicGenerator.AllVisitedIsEmpty | app/backend/public/app/src/SudokuGenerator.php:190-198 | once every position of a cell order is 0, no clue is left |
| PublicGenerator.CluesToKeep | app/backend/public/app/src/SudokuGenerator.php:152-164 | 40 exactly for "easy" in any case, 32 for everything else |
| PublicGenerator.DifficultyIgnoresCase | app/backend/public/app/src/SudokuGenerator.php:152-167 | a label and its lower-case form choose the same clues and carver |
| PublicGenerator.GenerateNewGame | app/backend/public/app/src/SudokuGenerator.php:147-172 | the fill's result is ignored; on success the solution is solved; every level but "hard" gives a unique puzzle with at least the level's clues; "hard" gives exactly 32 clues |
| AppGenerator.Generator.constructor | app/backend/app/src/SudokuGenerator.php:17-19 | the generator's solver is the script execution's one counter |
| AppGenerator.Generator.CreatePuzzle | app/backend/app/src/SudokuGenerator.php:87-133 | the solution is the input grid and every clue equals it; on every grid clues only go, at most max(0, 81 - cluesToKeep) of them, and the counter ends between its old value and max(old, 2); on a solved grid the grid stays the only solution, at least 80 clues remain (exactly 80 when the counter starts at 0 and cluesToKeep is below 81, all 81 once the script execution has counted before), and the counter ends exactly at CounterAfterCarve: unchanged when cluesToKeep is 81 or more, 1 after a single trial from 0, otherwise max(old, 2) |
| AppGenerator.Generator.CreatePuzzleScoped | app/backend/app/src/SudokuGenerator.php:87-133 | corrected carver: on every grid clues only go, at most max(0, 81 - cluesToKeep) of them; on a solved grid the grid stays the only solution and at least min(cluesToKeep, 81) clues remain |
| AppGenerator.TrialFromSolved | app/backend/app/src/SudokuGenerator.php:110-119 | a count on a puzzle carved from a solved grid ends at 1 or more, never below the old counter, and at exactly 1 exactly when the counter was 0 and the solution is unique |
| AppGenerator.ScopedKeptIsUnique | app/backend/app/src/SudokuGenerator.php:113-119 | with a fresh counter, a kept removal leaves the solved grid as the only solution |
| AppGenerator.CluesToKeep | app/backend/app/src/SudokuGenerator.php:145-156 | 35 exactly for "easy", 20 exactly for "hard", 28 for everything else, in any case |
| AppGenerator.DifficultyIgnoresCase | app/backend/app/src/SudokuGenerator.php:145 | a label and its lower-case form choose the same clues |
| AppGenerator.GenerateNewGame | app/backend/app/src/SudokuGenerator.php:140-159 | on a successful fill the solution is solved and the only solution of the puzzle, which keeps exactly 80 clues whatever the level when the counter starts at 0, and all 81 once the script execution has counted before; the counter ends at max(old, 2) after a successful fill and never outside old..max(old, 2) |
| AppGenerator.TwoGamesInOneExecution | app/backend/app/src/SudokuGenerator.php:140-159 | two games generated in one script execution from a fresh counter: after a successful first fill the first keeps exactly 80 clues, and after a successful second fill the second is its full solution with all 81 clues |
| AppGenerator.NewGameRequest | app/backend/public/new_game.php:15-20 | were the endpoint served by the app copy: the level is the query's `difficulty` or "medium"; the request is a script execution of its own, so on a successful fill its one game is a unique puzzle of exactly 80 clues whatever the level |
| AppGenerator.GenerateNewGameScoped | app/backend/app/src/SudokuGenerator.php:140-159 | corrected game: on a successful fill the puzzle is unique and keeps at least the level's clues |
| Client.EmptyGrid | app/frontend/components/SudokuGrid.tsx:12-15 | a 9x9 grid with every cell the fill value |
| Client.EmptyBoolGrid | app/frontend/components/SudokuGrid.tsx:17-20 | a 9x9 grid with every cell the given flag |
| Client.IsValidPlacement | app/frontend/components/SudokuGrid.tsx:79-99 | true exactly when no cell other than (row, col) in its row, column or box holds num |
| Client.PlacementMatchesServer | app/frontend/components/SudokuGrid.tsx:79-99 | for a digit, the client's check is the server's `isSafe` on the grid with the cell itself emptied |
| Client.FixedMask | app/frontend/components/SudokuGrid.tsx:38-43 | a cell is locked exactly when the puzzle cell is not null |
| Client.PrefillErrors | app/frontend/components/SudokuGrid.tsx:49-55 | the error set holds exactly the cells whose puzzle value is not null and differs from the solution cell |
| Client.SudokuGrid.constructor | app/frontend/components/SudokuGrid.tsx:23-28 | the initial state: all null, nothing locked, no solution, no selection, no errors |
| Client.SudokuGrid.Load | app/frontend/components/SudokuGrid.tsx:30-69 | without a puzzle nothing changes; otherwise the grid is the puzzle, locked cells are its given cells, and the errors are the given cells that disagree with the solution, none without a solution; the board invariant is kept |
| Client.SudokuGrid.SelectCell | app/frontend/components/SudokuGrid.tsx:75-77 | only the selection changes |
| Client.SudokuGrid.NumberClick | app/frontend/components/SudokuGrid.tsx:101-123 | nothing happens without a selection or on a locked cell; otherwise only the selected cell changes, to num, and only its error flag changes, set exactly when the entry is wrong (against the solution if any, else by the placement check); locked cells keep the puzzle's values and, with a solution, the errors stay exactly the filled cells that disagree with it |
| Client.SudokuGrid.RemoveClick | app/frontend/components/SudokuGrid.tsx:125-138 | nothing happens without a selection or on a locked cell; otherwise only the selected cell becomes null and only its error key is dropped; the board invariant is kept |
| TicTacToe.EmptyBoard | app/backend/public/index.php:13 | nine empty cells |
| TicTacToe.CountOfUpdate | app/backend/public/index.php:24-29 | writing a mark over a cell moves one from the count of the old mark to the count of the new one |
| TicTacToe.ClickCell | app/backend/public/index.php:21-32 | the board after the click: an empty cell gets X when X and O are equally many, else O; a click on a filled cell changes nothing |
| TicTacToe.ClickAlternates | app/backend/public/index.php:21-32 | a click keeps X equal to O or one ahead, and changes no other cell |
| TicTacToe.PlayAlternates | app/backend/public/index.php:22-33 | every sequence of clicks keeps X equal to O or one ahead |
| TicTacToe.GamesAlternate | app/backend/public/index.php:12-33 | from the reset board every sequence of clicks keeps X minus O in {0, 1} |
| TicTacToe.LastWinnerSpec | app/backend/public/index.php:38-50 | there is a winner exactly when some line has three equal marks, and it is the mark of the last such line in list order |
| TicTacToe.FindWinner | app/backend/public/index.php:46-50 | the scan's result is the last winning line's mark, or none |
| TicTacToe.Outcome | app/backend/public/index.php:52-58 | a winner exactly when some line wins, and then the mark of the last winning line in list order; DRAW exactly when no line wins and no cell is empty; otherwise the board |
| TicTacToe.Handle | app/backend/public/index.php:12-58 | a reset stores and answers the empty board; a click stores the board after the click and answers its outcome; otherwise the stored board's outcome |

## Left out

- HTTP and I/O: the request parameters, `echo`, headers, the `game.txt`
  read and write with `explode`/`implode` in index.php, and the client's
  `fetch`/JSON handling, `loading` flag, console logging and all rendering.
  A request and a stored board are parameters; a response is a value.
- Randomness: `shuffle` is replaced by the order parameters described
  above. Its distribution is not modelled. PHP draws the digit and the
  position shuffles from one generator, and the model keeps them as two
  separate inputs.
- Filler.GenerateFullSudoku: that filling from the empty grid always
  succeeds is not proved, since that needs a solved Sudoku to exist. Every
  result is stated conditional on the fill's returned success.
- AppSolver.Solver.CountSolutions: the grid is restored exactly only on
  cells in 0..9; a negative cell on the search path comes back as 0, as
  the code does.
- The app `static` counter is one `Solver` object passed to every
  generator. The `new SudokuSolver()` inside the generator constructor
  therefore does not create a fresh counter.
- TicTacToe.Handle: the click index is required to be in 0..8, which the
  endpoint does not check. Stored cells other than "0", "X" and "O" are
  not modelled.
- Client.SudokuGrid.Load: the puzzle and the solution are required to be 9x9,
  and a missing JSON field or a falsy one is the empty option.
- "Two calls on the same grid return the same value" for the public solver,
  and "neither client transition mutates the previous grid", hold by value
  semantics: grids are sequences, so no copy and no aliasing are modelled.
- AppGenerator.Generator.CreatePuzzle: the loop's bound of at most 81
  iterations is its termination measure (the positions left); the count of
  non-zero cells is tracked only through the clue count.
- Default arguments: `countSolutions(..., $limit = 2)` and
  `generateNewGame($difficulty = 'medium')` take their arguments
  explicitly in the model. Every call in the core passes limit 2, and
  `new_game.php` supplies "medium" itself when the query has no level
  (`AppGenerator.NewGameRequest`).
- `new_game.php` loads `../src/SudokuGenerator.php`, that is
  `app/backend/src`, which is not part of this model; neither modelled
  copy sits at that path. `AppGenerator.NewGameRequest` puts the app
  engine behind the endpoint, the copy with the shared counter.
- Database, session and authentication files, and the test script for a
  class not in the repository, are not part of this model.

## Findings

| source | as written | input that shows it | evidently intended | confidence | as-written member | corrected member |
|---|---|---|---|---|---|---|
| app/backend/app/src/SudokuSolver.php:42 | `static $solutions = 0` is initialised once per script execution (one request) and never reset within it, so each call adds to the total of all earlier calls of that execution | a grid with exactly one solution, counted twice with limit 2: the first call returns 1, the second returns 2 | every top-level call counts from 0 and returns the grid's own capped count | not executed | AppSolver.SecondCallDiffers | AppSolver.Solver.CountSolutionsFresh |
| app/backend/app/src/SudokuGenerator.php:110-119 | a removal is kept only when the shared counter returns 1, which happens exactly once per script execution: on its first removal | the first `generateNewGame('easy')` of a script execution keeps exactly 80 clues instead of 35, and every later call in the same execution returns the full grid with 81 clues; were `new_game.php` served by the app copy, each request would be one execution and every served game would have 80 clues | carve down to cluesToKeep while the puzzle keeps a unique solution | not executed | AppGenerator.Generator.CreatePuzzle | AppGenerator.Generator.CreatePuzzleScoped |
