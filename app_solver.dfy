/**
 * `SudokuSolver` of the app backend. Its counter is a `static` local of
 * `countSolutions`: it is initialised to 0 once per script execution (one
 * request), shared by every call and every instance during that
 * execution, and never reset within it. The model keeps it as the field
 * `solutions` of one Solver object standing for that storage. Empty cells
 * are the cells below 1.
 */
module AppSolver {
  import opened Opt
  import opened Rules
  import opened Counting
  import opened Completions

  class Solver {
    /** `static $solutions`. */
    var solutions: nat

    /** The static starts at 0 the first time `countSolutions` runs. */
    constructor()
      ensures solutions == 0
    {
      solutions := 0;
    }

    /**
     * `countSolutions(&$grid, $limit)`: the counter goes from its old
     * value to AppSearch of it, the result is the new counter, and the
     * grid comes back with at most some empty cells rewritten to 0 (on
     * cells in 0..9: unchanged).
     */
    method CountSolutions(grid: Grid, limit: int) returns (count: nat, grid': Grid)
      requires IsGrid(grid)
      modifies this
      ensures solutions == AppSearch(grid, limit, old(solutions))
      ensures count == solutions
      ensures IsGrid(grid') && Cleared(grid, grid')
      ensures InRange(grid) ==> grid' == grid
      ensures old(solutions) >= limit ==> grid' == grid && solutions == old(solutions)
      decreases Holes(BelowOne, grid)
    {
      if solutions >= limit {
        return solutions, grid;
      }
      var first := FindFirstEmpty(BelowOne, grid);
      match first
      case None =>
        solutions := solutions + 1;
        return solutions, grid;
      case Some(p) =>
        grid' := grid;
        ClearedRefl(grid);
        var num := 1;
        while num <= 9
          invariant 1 <= num <= 10
          invariant IsGrid(grid') && Cleared(grid, grid')
          invariant AppDigits(grid, p, num, limit, solutions) == AppSearch(grid, limit, old(solutions))
        {
          ClearedSameDigits(grid, grid');
          SameDigitsSafe(grid, grid', p.r, p.c, num);
          var safe := IsSafe(grid', p.r, p.c, num);
          if safe {
            SameDigitsHoles(grid, grid');
            FillShrinks(BelowOne, grid', p.r, p.c, num);
            var filled := Put(grid', p.r, p.c, num);
            SameDigitsPut(grid, grid', p.r, p.c, num);
            SameDigitsSym(Put(grid, p.r, p.c, num), filled);
            AppSearchSameDigits(filled, Put(grid, p.r, p.c, num), limit, solutions);
            var before := grid';
            var found;
            found, filled := CountSolutions(filled, limit);
            grid' := Put(filled, p.r, p.c, 0);
            ClearedStep(grid, before, filled, p.r, p.c, num);
          }
          num := num + 1;
        }
        if InRange(grid) {
          ClearedInRange(grid, grid');
        }
        count := solutions;
    }

    /**
     * The evident intent of the static: a counter that starts at 0 on
     * every top-level call. With a positive limit the result is then the
     * number of completions, capped at limit, whatever earlier calls did.
     */
    method CountSolutionsFresh(grid: Grid, limit: int) returns (count: nat, grid': Grid)
      requires IsGrid(grid)
      modifies this
      ensures count == AppSearch(grid, limit, 0) && solutions == count
      ensures limit >= 1 ==> count == Min(limit, Count(BelowOne, grid))
      ensures IsGrid(grid') && Cleared(grid, grid')
      ensures InRange(grid) ==> grid' == grid
    {
      solutions := 0;
      count, grid' := CountSolutions(grid, limit);
      AppSearchIsCappedCount(grid, limit, 0);
    }
  }

  /**
   * The counter never goes down, goes up only on a call that finds it
   * below limit, and ends at most at limit then.
   */
  lemma CounterBounds(grid: Grid, limit: int, acc: nat)
    requires IsGrid(grid)
    ensures acc <= AppSearch(grid, limit, acc)
    ensures AppSearch(grid, limit, acc) <= (if acc >= limit then acc else limit)
    ensures acc >= limit ==> AppSearch(grid, limit, acc) == acc
  {
    AppSearchIsCappedCount(grid, limit, acc);
  }

  /**
   * Once the static holds 1 or more, a call with limit 2 on a grid that has
   * a completion can no longer return 1: it returns 2 (or the old value,
   * if that was already 2 or more).
   */
  lemma CounterPastOneNeverOne(grid: Grid, acc: nat)
    requires IsGrid(grid) && acc >= 1 && Count(BelowOne, grid) >= 1
    ensures AppSearch(grid, 2, acc) >= 2
  {
    AppSearchIsCappedCount(grid, 2, acc);
  }

  /**
   * The same grid with one completion, asked twice in a row from a fresh
   * static, answers 1 and then 2: the counter alone decides the answer.
   */
  lemma SecondCallDiffers(grid: Grid, s: Grid)
    requires IsGrid(grid) && IsCompletion(BelowOne, grid, s)
    requires forall h :: IsCompletion(BelowOne, grid, h) ==> h == s
    ensures AppSearch(grid, 2, 0) == 1
    ensures AppSearch(grid, 2, AppSearch(grid, 2, 0)) == 2
  {
    CountOneIffUnique(BelowOne, grid, s);
    AppSearchIsCappedCount(grid, 2, 0);
    AppSearchIsCappedCount(grid, 2, 1);
  }
}
