/**
 * `SudokuGenerator` of the public backend: fill an empty grid, then carve
 * it, either checking after every removal that the puzzle still has one
 * solution (`createPuzzle`) or removing cells blindly (`createPuzzleFast`,
 * used for "hard"). Its solver keeps no state, so the generator keeps
 * none either.
 */
module PublicGenerator {
  import opened Opt
  import opened Rules
  import opened Counting
  import opened Completions
  import opened PublicSolver
  import opened Filler
  import opened Puzzles

  /** `$maxAttempts` of `createPuzzle`. */
  const MaxAttempts: int := 1000

  /**
   * `createPuzzle($fullGrid, $targetClues)`: shuffles the positions, tries
   * each cell that is not 0, and keeps a removal only when the count with
   * limit 2 is 1; a new shuffle per pass, at most 1000 passes. The puzzle
   * agrees with the grid, loses at most 81 - targetClues clues, and when
   * the grid is a solved Sudoku the grid is the puzzle's only solution.
   */
  method CreatePuzzle(fullGrid: Grid, targetClues: int, cells: nat -> seq<Pos>, draw: nat) returns (game: Game, draw': nat)
    requires IsGrid(fullGrid) && CellOrders(cells)
    ensures game.solution == fullGrid && IsClueGrid(game.puzzle)
    ensures Agrees(FromClues(game.puzzle), fullGrid)
    ensures ClueCount(FromClues(game.puzzle)) <= ClueCount(fullGrid)
    ensures ClueCount(fullGrid) - ClueCount(FromClues(game.puzzle)) <= Max(0, Size * Size - targetClues)
    ensures ValidSolution(fullGrid) ==> UniqueCompletion(ZeroOnly, FromClues(game.puzzle), fullGrid)
    ensures ValidSolution(fullGrid) ==> ClueCount(FromClues(game.puzzle)) >= Min(targetClues, Size * Size)
    ensures draw <= draw' <= draw + MaxAttempts
  {
    var puzzle := fullGrid;
    var currentFilled := Size * Size;
    var attempts := 0;
    draw' := draw;
    if ValidSolution(fullGrid) {
      SolvedIsUnique(ZeroOnly, fullGrid);
    }
    while currentFilled > targetClues && attempts < MaxAttempts
      invariant 0 <= attempts <= MaxAttempts && draw' == draw + attempts
      invariant IsGrid(puzzle) && Agrees(puzzle, fullGrid)
      invariant currentFilled - ClueCount(puzzle) == Size * Size - ClueCount(fullGrid)
      invariant currentFilled <= Size * Size && (currentFilled >= targetClues || currentFilled == Size * Size)
      invariant ValidSolution(fullGrid) ==> UniqueCompletion(ZeroOnly, puzzle, fullGrid)
      decreases MaxAttempts - attempts
    {
      var positions := cells(draw');
      draw' := draw' + 1;
      var k := 0;
      while k < |positions|
        invariant 0 <= k <= |positions|
        invariant IsGrid(puzzle) && Agrees(puzzle, fullGrid)
        invariant currentFilled - ClueCount(puzzle) == Size * Size - ClueCount(fullGrid)
        invariant currentFilled <= Size * Size && currentFilled > targetClues
        invariant ValidSolution(fullGrid) ==> UniqueCompletion(ZeroOnly, puzzle, fullGrid)
      {
        var r, c := positions[k].r, positions[k].c;
        if puzzle[r][c] != 0 {
          var backup := puzzle[r][c];
          var before := puzzle;
          puzzle := Put(puzzle, r, c, 0);
          ClearClue(before, r, c);
          var solutionCount := CountSolutions(puzzle, 2);
          if solutionCount == 1 {
            currentFilled := currentFilled - 1;
            if ValidSolution(fullGrid) {
              KeptRemovalIsUnique(puzzle, fullGrid);
            }
          } else {
            PutBack(before, r, c, 0);
            puzzle := Put(puzzle, r, c, backup);
          }
          if currentFilled <= targetClues {
            break;
          }
        }
        k := k + 1;
      }
      attempts := attempts + 1;
    }
    game := Game(ToClues(puzzle), fullGrid);
    FromToClues(puzzle);
    if ValidSolution(fullGrid) {
      FullClueCount(fullGrid);
    }
  }

  /** A removal the carver keeps (count 1) from a solved grid leaves that grid as the one solution. */
  lemma KeptRemovalIsUnique(puzzle: Grid, fullGrid: Grid)
    requires IsGrid(puzzle) && IsGrid(fullGrid) && ValidSolution(fullGrid) && Agrees(puzzle, fullGrid)
    requires Search(puzzle, 2, 0) == 1
    ensures UniqueCompletion(ZeroOnly, puzzle, fullGrid)
  {
    SolutionIsCompletion(ZeroOnly, puzzle, fullGrid);
    CountTwoDecidesUniqueness(puzzle, fullGrid);
  }

  /**
   * `createPuzzleFast($fullGrid, $targetClues)`: one shuffle, then the
   * first 81 - targetClues cells that are not 0 in that order become 0,
   * with no uniqueness check. Exactly that many clues go, or all of them
   * if there are fewer; on a solved grid the puzzle keeps targetClues
   * clues, clamped to 0..81.
   */
  method CreatePuzzleFast(fullGrid: Grid, targetClues: int, cells: nat -> seq<Pos>, draw: nat) returns (game: Game, draw': nat)
    requires IsGrid(fullGrid) && CellOrders(cells)
    ensures game.solution == fullGrid && IsClueGrid(game.puzzle)
    ensures Agrees(FromClues(game.puzzle), fullGrid)
    ensures ClueCount(FromClues(game.puzzle)) == Max(0, ClueCount(fullGrid) - Max(0, Size * Size - targetClues))
    ensures ValidSolution(fullGrid) ==> ClueCount(FromClues(game.puzzle)) == Max(0, Min(targetClues, Size * Size))
    ensures draw' == draw + 1
  {
    var puzzle := fullGrid;
    var positions := cells(draw);
    draw' := draw + 1;
    var toRemove := Size * Size - targetClues;
    var removed := 0;
    var k := 0;
    while k < |positions|
      invariant 0 <= k <= |positions|
      invariant IsGrid(puzzle) && Agrees(puzzle, fullGrid)
      invariant removed + ClueCount(puzzle) == ClueCount(fullGrid)
      invariant 0 <= removed <= Max(0, toRemove)
      invariant forall m :: 0 <= m < k ==> puzzle[positions[m].r][positions[m].c] == 0
    {
      if removed >= toRemove {
        break;
      }
      var r, c := positions[k].r, positions[k].c;
      if puzzle[r][c] != 0 {
        ClearClue(puzzle, r, c);
        puzzle := Put(puzzle, r, c, 0);
        removed := removed + 1;
      }
      k := k + 1;
    }
    ClueCountBound(puzzle);
    if removed < Max(0, toRemove) {
      AllVisitedIsEmpty(puzzle, positions);
    }
    game := Game(ToClues(puzzle), fullGrid);
    FromToClues(puzzle);
    if ValidSolution(fullGrid) {
      FullClueCount(fullGrid);
    }
  }

  /** Once every position of a cell order has been cleared, no clue is left. */
  lemma AllVisitedIsEmpty(g: Grid, positions: seq<Pos>)
    requires IsGrid(g) && IsCellOrder(positions)
    requires forall m :: 0 <= m < |positions| ==> g[positions[m].r][positions[m].c] == 0
    ensures ClueCount(g) == 0
  {
    forall i, j | 0 <= i < Size && 0 <= j < Size
      ensures g[i][j] == 0
    {
      assert Pos(i, j) in positions;
      var m :| 0 <= m < |positions| && positions[m] == Pos(i, j);
    }
    EmptyClueCount(g);
  }

  /** The `switch (strtolower($difficulty))`: 40 clues for easy, 32 for hard, medium and anything else. */
  function CluesToKeep(difficulty: string): (n: int)
    ensures n == 40 <==> ToLower(difficulty) == "easy"
    ensures n == 32 <==> ToLower(difficulty) != "easy"
  {
    match ToLower(difficulty)
    case "easy" => 40
    case "hard" => 32
    case _ => 32
  }

  /** `strtolower($difficulty) === 'hard'`: the fast carver, without the uniqueness check. */
  predicate UsesFastCarver(difficulty: string)
  {
    ToLower(difficulty) == "hard"
  }

  /** The level ignores case: a difficulty and its lower-case form choose alike. */
  lemma DifficultyIgnoresCase(difficulty: string)
    ensures CluesToKeep(ToLower(difficulty)) == CluesToKeep(difficulty)
    ensures UsesFastCarver(ToLower(difficulty)) == UsesFastCarver(difficulty)
  {
    ToLowerIdempotent(difficulty);
  }

  /**
   * `generateNewGame($difficulty)`: the fill's boolean result is ignored,
   * so a failed fill would carve the empty grid. On a successful fill the
   * solution is a solved Sudoku; every level but "hard" has it as the only
   * solution of the puzzle with at least the level's clues; "hard" keeps
   * exactly 32 clues.
   */
  method GenerateNewGame(difficulty: string, digits: nat -> seq<int>, cells: nat -> seq<Pos>) returns (game: Game)
    requires DigitOrders(digits) && CellOrders(cells)
    ensures var fill := Fill(CreateEmptyGrid(), digits, 0);
      && IsClueGrid(game.puzzle) && IsGrid(game.solution) && Agrees(FromClues(game.puzzle), game.solution)
      && game.solution == (if fill.ok then fill.grid else CreateEmptyGrid())
      && (fill.ok ==> ValidSolution(game.solution))
      && (fill.ok && !UsesFastCarver(difficulty) ==>
            UniqueCompletion(ZeroOnly, FromClues(game.puzzle), game.solution)
            && ClueCount(FromClues(game.puzzle)) >= CluesToKeep(difficulty))
      && (fill.ok && UsesFastCarver(difficulty) ==> ClueCount(FromClues(game.puzzle)) == 32)
  {
    var empty := CreateEmptyGrid();
    var ok, fullGrid, nextDigits := GenerateFullSudoku(empty, digits, 0);
    EmptyGridConsistent();
    if ok {
      FillOfConsistentIsSolved(empty, digits, 0);
    } else {
      assert InRange(empty);
    }
    var cluesToKeep := CluesToKeep(difficulty);
    var nextCells;
    if UsesFastCarver(difficulty) {
      game, nextCells := CreatePuzzleFast(fullGrid, cluesToKeep, cells, 0);
    } else {
      game, nextCells := CreatePuzzle(fullGrid, cluesToKeep, cells, 0);
    }
  }
}
