/**
 * `SudokuGenerator` of the app backend: fill an empty grid, then carve it
 * along one shuffle of the positions, keeping each removal whose count
 * with limit 2 is 1. Its solver's counter is the static of
 * `countSolutions`, which lives for one script execution (one request),
 * so every generator of that execution works on the same Solver object.
 */
module AppGenerator {
  import opened Opt
  import opened Rules
  import opened Counting
  import opened Completions
  import opened AppSolver
  import opened Filler
  import opened Puzzles

  class Generator {
    /** `$this->solver`: it carries the one static counter of the script execution. */
    const solver: Solver

    /** `new SudokuSolver()` in the constructor; the new instance shares the static, so the model takes the execution's Solver. */
    constructor(shared: Solver)
      ensures solver == shared
    {
      solver := shared;
    }

    /**
     * `createPuzzle($fullGrid, $cluesToKeep)` as written: positions are
     * popped from the end of one shuffle while more than cluesToKeep cells
     * are left; each popped cell is set to 0 and put back unless the count
     * is 1. Because the counter is never reset within a script execution,
     * a solved grid loses exactly one cell on the execution's first carve
     * (with a fresh counter the first removal always counts 1) and none at
     * all once the counter is past 0.
     */
    method CreatePuzzle(fullGrid: Grid, cluesToKeep: int, positions: seq<Pos>) returns (game: Game)
      requires IsGrid(fullGrid) && IsCellOrder(positions)
      modifies solver
      ensures game.solution == fullGrid && IsClueGrid(game.puzzle)
      ensures Agrees(FromClues(game.puzzle), fullGrid)
      ensures ClueCount(FromClues(game.puzzle)) <= ClueCount(fullGrid)
      ensures ClueCount(fullGrid) - ClueCount(FromClues(game.puzzle)) <= Max(0, Size * Size - cluesToKeep)
      ensures old(solver.solutions) <= solver.solutions <= Max(old(solver.solutions), 2)
      ensures ValidSolution(fullGrid) ==> solver.solutions == CounterAfterCarve(old(solver.solutions), cluesToKeep)
      ensures ValidSolution(fullGrid) ==> ClueCount(FromClues(game.puzzle)) >= Size * Size - 1
      ensures ValidSolution(fullGrid) ==> UniqueCompletion(BelowOne, FromClues(game.puzzle), fullGrid)
      ensures ValidSolution(fullGrid) && old(solver.solutions) >= 1 ==> FromClues(game.puzzle) == fullGrid
      ensures ValidSolution(fullGrid) && old(solver.solutions) == 0 && cluesToKeep < Size * Size ==> ClueCount(FromClues(game.puzzle)) == Size * Size - 1
    {
      var puzzle := fullGrid;
      var cellsLeft := Size * Size;
      var rest := positions;
      if ValidSolution(fullGrid) {
        SolvedIsUnique(BelowOne, fullGrid);
        FullClueCount(fullGrid);
      }
      while cellsLeft > cluesToKeep && |rest| > 0
        invariant forall m :: 0 <= m < |rest| ==> InBounds(rest[m].r, rest[m].c)
        invariant IsGrid(puzzle) && Agrees(puzzle, fullGrid)
        invariant |rest| <= |positions| && (cluesToKeep >= Size * Size ==> |rest| == |positions|)
        invariant old(solver.solutions) <= solver.solutions <= Max(old(solver.solutions), 2)
        invariant ClueCount(fullGrid) - ClueCount(puzzle) <= Size * Size - cellsLeft
        invariant ClueCount(puzzle) <= ClueCount(fullGrid)
        invariant cellsLeft <= Size * Size && (cellsLeft >= cluesToKeep || cellsLeft == Size * Size)
        invariant ValidSolution(fullGrid) ==>
          || (puzzle == fullGrid && cellsLeft == Size * Size
              && solver.solutions == (if |rest| == |positions| then old(solver.solutions) else Max(old(solver.solutions), 2))
              && (old(solver.solutions) == 0 ==> |rest| == |positions|))
          || (cellsLeft == Size * Size - 1 && old(solver.solutions) == 0
              && solver.solutions == (if |rest| == |positions| - 1 then 1 else 2)
              && |rest| < |positions| && (|rest| < |positions| - 1 ==> cluesToKeep < Size * Size - 1)
              && ClueCount(puzzle) == Size * Size - 1 && UniqueCompletion(BelowOne, puzzle, fullGrid))
        decreases |rest|
      {
        var cell := rest[|rest| - 1];
        rest := rest[..|rest| - 1];
        var r, c := cell.r, cell.c;
        var originalValue := puzzle[r][c];
        var before := puzzle;
        puzzle := Put(puzzle, r, c, 0);
        ClearClue(before, r, c);
        var counterBefore := solver.solutions;
        var solutionCount, tempGrid := solver.CountSolutions(puzzle, 2);
        CounterBounds(puzzle, 2, counterBefore);
        if ValidSolution(fullGrid) {
          TrialFromSolved(puzzle, fullGrid, counterBefore);
          if before == fullGrid {
            OneHoleIsForced(BelowOne, fullGrid, r, c);
          }
        }
        if solutionCount != 1 {
          PutBack(before, r, c, 0);
          puzzle := Put(puzzle, r, c, originalValue);
        } else {
          cellsLeft := cellsLeft - 1;
          if ValidSolution(fullGrid) {
            ClearClue(fullGrid, r, c);
          }
        }
      }
      game := Game(ToClues(puzzle), fullGrid);
      FromToClues(puzzle);
    }

    /**
     * `createPuzzle` with the counter started at 0 for every count, as the
     * carver evidently means: a solved grid stays the only solution of the
     * puzzle, and the puzzle keeps at least cluesToKeep clues (at most 81).
     */
    method CreatePuzzleScoped(fullGrid: Grid, cluesToKeep: int, positions: seq<Pos>) returns (game: Game)
      requires IsGrid(fullGrid) && IsCellOrder(positions)
      modifies solver
      ensures game.solution == fullGrid && IsClueGrid(game.puzzle)
      ensures Agrees(FromClues(game.puzzle), fullGrid)
      ensures ClueCount(FromClues(game.puzzle)) <= ClueCount(fullGrid)
      ensures ClueCount(fullGrid) - ClueCount(FromClues(game.puzzle)) <= Max(0, Size * Size - cluesToKeep)
      ensures ValidSolution(fullGrid) ==> UniqueCompletion(BelowOne, FromClues(game.puzzle), fullGrid)
      ensures ValidSolution(fullGrid) ==> ClueCount(FromClues(game.puzzle)) >= Min(cluesToKeep, Size * Size)
    {
      var puzzle := fullGrid;
      var cellsLeft := Size * Size;
      var rest := positions;
      if ValidSolution(fullGrid) {
        SolvedIsUnique(BelowOne, fullGrid);
      }
      while cellsLeft > cluesToKeep && |rest| > 0
        invariant forall m :: 0 <= m < |rest| ==> InBounds(rest[m].r, rest[m].c)
        invariant IsGrid(puzzle) && Agrees(puzzle, fullGrid)
        invariant ClueCount(fullGrid) - ClueCount(puzzle) <= Size * Size - cellsLeft
        invariant ClueCount(puzzle) <= ClueCount(fullGrid)
        invariant cellsLeft <= Size * Size && (cellsLeft >= cluesToKeep || cellsLeft == Size * Size)
        invariant ValidSolution(fullGrid) ==> UniqueCompletion(BelowOne, puzzle, fullGrid)
        decreases |rest|
      {
        var cell := rest[|rest| - 1];
        rest := rest[..|rest| - 1];
        var r, c := cell.r, cell.c;
        var originalValue := puzzle[r][c];
        var before := puzzle;
        puzzle := Put(puzzle, r, c, 0);
        ClearClue(before, r, c);
        var solutionCount, tempGrid := solver.CountSolutionsFresh(puzzle, 2);
        if solutionCount != 1 {
          PutBack(before, r, c, 0);
          puzzle := Put(puzzle, r, c, originalValue);
        } else {
          cellsLeft := cellsLeft - 1;
          if ValidSolution(fullGrid) {
            ScopedKeptIsUnique(puzzle, fullGrid);
          }
        }
      }
      game := Game(ToClues(puzzle), fullGrid);
      FromToClues(puzzle);
      if ValidSolution(fullGrid) {
        FullClueCount(fullGrid);
      }
    }
  }

  /**
   * The shared counter after the as-written carver on a solved grid: no
   * trial when cluesToKeep is 81 or more; otherwise the first trial from 0
   * counts 1, and every trial from 1 or more ends at 2 or stays put.
   */
  function CounterAfterCarve(start: nat, cluesToKeep: int): nat
  {
    if cluesToKeep >= Size * Size then start
    else if start == 0 && cluesToKeep == Size * Size - 1 then 1
    else Max(start, 2)
  }

  /**
   * One count on a puzzle carved from a solved grid: the puzzle has a
   * completion, so the counter ends at 1 or more, never below where it
   * started, and at exactly 1 exactly when it started at 0 and the solved
   * grid is the puzzle's only solution.
   */
  lemma TrialFromSolved(puzzle: Grid, fullGrid: Grid, acc: nat)
    requires IsGrid(puzzle) && IsGrid(fullGrid) && ValidSolution(fullGrid) && Agrees(puzzle, fullGrid)
    ensures AppSearch(puzzle, 2, acc) >= 1 && AppSearch(puzzle, 2, acc) >= acc
    ensures AppSearch(puzzle, 2, acc) == 1 <==> acc == 0 && UniqueCompletion(BelowOne, puzzle, fullGrid)
  {
    SolutionIsCompletion(BelowOne, puzzle, fullGrid);
    CompletionMakesCountPositive(BelowOne, puzzle, fullGrid);
    CountOneIffUnique(BelowOne, puzzle, fullGrid);
    AppSearchIsCappedCount(puzzle, 2, acc);
  }

  /** With a fresh counter, a count of 1 on a puzzle carved from a solved grid means that grid is its only solution. */
  lemma ScopedKeptIsUnique(puzzle: Grid, fullGrid: Grid)
    requires IsGrid(puzzle) && IsGrid(fullGrid) && ValidSolution(fullGrid) && Agrees(puzzle, fullGrid)
    requires AppSearch(puzzle, 2, 0) == 1
    ensures UniqueCompletion(BelowOne, puzzle, fullGrid)
  {
    TrialFromSolved(puzzle, fullGrid, 0);
  }

  /** The `switch (strtolower($difficulty))`: 35 clues for easy, 20 for hard, 28 for medium and anything else. */
  function CluesToKeep(difficulty: string): (n: int)
    ensures n == 35 <==> ToLower(difficulty) == "easy"
    ensures n == 20 <==> ToLower(difficulty) == "hard"
    ensures n == 28 <==> ToLower(difficulty) != "easy" && ToLower(difficulty) != "hard"
  {
    match ToLower(difficulty)
    case "easy" => 35
    case "hard" => 20
    case _ => 28
  }

  /** The level ignores case. */
  lemma DifficultyIgnoresCase(difficulty: string)
    ensures CluesToKeep(ToLower(difficulty)) == CluesToKeep(difficulty)
  {
    ToLowerIdempotent(difficulty);
  }

  /**
   * `generateNewGame($difficulty)`: the fill's result is ignored and the
   * level only sets cluesToKeep. On a successful fill the solution is a
   * solved Sudoku and the only solution of the puzzle, but the puzzle
   * keeps 80 clues whatever the level on the first call of a script
   * execution, and all 81 once the execution has counted before.
   */
  method GenerateNewGame(generator: Generator, difficulty: string, digits: nat -> seq<int>, positions: seq<Pos>) returns (game: Game)
    requires DigitOrders(digits) && IsCellOrder(positions)
    modifies generator.solver
    ensures var fill := Fill(CreateEmptyGrid(), digits, 0);
      && IsClueGrid(game.puzzle) && IsGrid(game.solution) && Agrees(FromClues(game.puzzle), game.solution)
      && game.solution == (if fill.ok then fill.grid else CreateEmptyGrid())
      && (fill.ok ==>
            && ValidSolution(game.solution)
            && UniqueCompletion(BelowOne, FromClues(game.puzzle), game.solution)
            && ClueCount(FromClues(game.puzzle)) >= Size * Size - 1)
      && (fill.ok && old(generator.solver.solutions) == 0 ==> ClueCount(FromClues(game.puzzle)) == Size * Size - 1)
      && (fill.ok && old(generator.solver.solutions) >= 1 ==> FromClues(game.puzzle) == game.solution)
    ensures old(generator.solver.solutions) <= generator.solver.solutions <= Max(old(generator.solver.solutions), 2)
    ensures Fill(CreateEmptyGrid(), digits, 0).ok ==> generator.solver.solutions == Max(old(generator.solver.solutions), 2)
  {
    var empty := CreateEmptyGrid();
    var ok, fullGrid, nextDigits := GenerateFullSudoku(empty, digits, 0);
    EmptyGridConsistent();
    if ok {
      FillOfConsistentIsSolved(empty, digits, 0);
    } else {
      assert InRange(empty);
    }
    var cluesToKeep := CluesToKeep(difficulty);
    game := generator.CreatePuzzle(fullGrid, cluesToKeep, positions);
  }

  /**
   * `generateNewGame($difficulty)` over the scoped carver: on a successful
   * fill the puzzle keeps the level's clues and the solved grid is its only
   * solution, whatever the script execution counted before.
   */
  method GenerateNewGameScoped(generator: Generator, difficulty: string, digits: nat -> seq<int>, positions: seq<Pos>) returns (game: Game)
    requires DigitOrders(digits) && IsCellOrder(positions)
    modifies generator.solver
    ensures var fill := Fill(CreateEmptyGrid(), digits, 0);
      && IsClueGrid(game.puzzle) && IsGrid(game.solution) && Agrees(FromClues(game.puzzle), game.solution)
      && game.solution == (if fill.ok then fill.grid else CreateEmptyGrid())
      && (fill.ok ==>
            && ValidSolution(game.solution)
            && UniqueCompletion(BelowOne, FromClues(game.puzzle), game.solution)
            && ClueCount(FromClues(game.puzzle)) >= CluesToKeep(difficulty))
  {
    var empty := CreateEmptyGrid();
    var ok, fullGrid, nextDigits := GenerateFullSudoku(empty, digits, 0);
    EmptyGridConsistent();
    if ok {
      FillOfConsistentIsSolved(empty, digits, 0);
    } else {
      assert InRange(empty);
    }
    var cluesToKeep := CluesToKeep(difficulty);
    game := generator.CreatePuzzleScoped(fullGrid, cluesToKeep, positions);
  }

  /**
   * Two `generateNewGame` calls in one script execution, from a fresh
   * counter: after a successful first fill the first game keeps 80 clues
   * and leaves the counter at 2, so the second game is its full solution.
   */
  method TwoGamesInOneExecution(first: string, second: string, digits1: nat -> seq<int>, positions1: seq<Pos>, digits2: nat -> seq<int>, positions2: seq<Pos>)
    returns (game1: Game, game2: Game)
    requires DigitOrders(digits1) && IsCellOrder(positions1) && DigitOrders(digits2) && IsCellOrder(positions2)
    ensures IsClueGrid(game1.puzzle) && IsClueGrid(game2.puzzle)
    ensures Fill(CreateEmptyGrid(), digits1, 0).ok ==> ClueCount(FromClues(game1.puzzle)) == Size * Size - 1
    ensures Fill(CreateEmptyGrid(), digits1, 0).ok && Fill(CreateEmptyGrid(), digits2, 0).ok ==>
      IsGrid(game2.solution) && FromClues(game2.puzzle) == game2.solution && ClueCount(FromClues(game2.puzzle)) == Size * Size
  {
    var solver := new Solver();
    var generator := new Generator(solver);
    game1 := GenerateNewGame(generator, first, digits1, positions1);
    game2 := GenerateNewGame(generator, second, digits2, positions2);
    if Fill(CreateEmptyGrid(), digits1, 0).ok && Fill(CreateEmptyGrid(), digits2, 0).ok {
      FullClueCount(game2.solution);
    }
  }

  /**
   * One `new_game.php` request, were it served by this app engine (the
   * endpoint loads `../src/SudokuGenerator.php`, which is neither modelled
   * copy): the level is the `difficulty` query parameter or "medium", and
   * the request is a script execution of its own, so its one
   * generateNewGame call starts from a fresh counter. On a successful
   * fill the answered puzzle would then have exactly 80 clues, whatever
   * the level, with the solved grid as its only solution.
   */
  method NewGameRequest(query: Option<string>, digits: nat -> seq<int>, positions: seq<Pos>) returns (difficulty: string, game: Game)
    requires DigitOrders(digits) && IsCellOrder(positions)
    ensures difficulty == (if query.Some? then query.value else "medium")
    ensures var fill := Fill(CreateEmptyGrid(), digits, 0);
      && IsClueGrid(game.puzzle) && IsGrid(game.solution) && Agrees(FromClues(game.puzzle), game.solution)
      && (fill.ok ==>
            && game.solution == fill.grid
            && ValidSolution(game.solution)
            && UniqueCompletion(BelowOne, FromClues(game.puzzle), game.solution)
            && ClueCount(FromClues(game.puzzle)) == Size * Size - 1)
  {
    difficulty := if query.Some? then query.value else "medium";
    var solver := new Solver();
    var generator := new Generator(solver);
    game := GenerateNewGame(generator, difficulty, digits, positions);
  }
}
