/**
 * `SudokuSolver` of the public backend: a solution counter whose counter
 * lives in the top-level call and is passed down by reference. Empty
 * cells are the cells equal to 0.
 */
module PublicSolver {
  import opened Opt
  import opened Rules
  import opened Counting
  import opened Completions

  /**
   * `countSolutions($grid, $limit)`: the grid is taken by value and the
   * counter starts at 0, so the result depends on the grid and the limit
   * alone. With a positive limit it is the number of completions, capped
   * at limit.
   */
  method CountSolutions(grid: Grid, limit: int) returns (count: nat)
    requires IsGrid(grid)
    ensures count == Search(grid, limit, 0)
    ensures limit >= 1 ==> count == Min(limit, Count(ZeroOnly, grid)) && count <= limit
  {
    var g;
    g, count := CountSolutionsRecursive(grid, limit, 0);
    if limit >= 1 {
      SearchIsCappedCount(grid, limit, 0);
    }
  }

  /**
   * `countSolutionsRecursive(&$grid, $limit, &$solutions)`: the grid and
   * the counter come back as out-parameters. Every cell the search fills
   * is set back to 0, so the grid comes back unchanged.
   */
  method CountSolutionsRecursive(grid: Grid, limit: int, solutions: nat) returns (grid': Grid, solutions': nat)
    requires IsGrid(grid)
    ensures grid' == grid
    ensures solutions' == Search(grid, limit, solutions)
    decreases Holes(ZeroOnly, grid)
  {
    var first := FindFirstEmpty(ZeroOnly, grid);
    match first
    case None =>
      return grid, solutions + 1;
    case Some(p) =>
      grid', solutions' := grid, solutions;
      var num := 1;
      while num <= 9
        invariant 1 <= num <= 10
        invariant grid' == grid
        invariant SearchDigits(grid, p, num, limit, solutions') == Search(grid, limit, solutions)
      {
        var safe := IsSafe(grid', p.r, p.c, num);
        if safe {
          FillShrinks(ZeroOnly, grid, p.r, p.c, num);
          var filled := Put(grid', p.r, p.c, num);
          filled, solutions' := CountSolutionsRecursive(filled, limit, solutions');
          grid' := Put(filled, p.r, p.c, 0);
          PutBack(grid, p.r, p.c, num);
          if solutions' >= limit {
            return;
          }
        }
        num := num + 1;
      }
  }

  /**
   * With limit 2, as the generators call it, the count is 1 exactly when
   * the grid has one completion and no other.
   */
  lemma CountTwoDecidesUniqueness(grid: Grid, s: Grid)
    requires IsGrid(grid) && IsCompletion(ZeroOnly, grid, s)
    ensures Search(grid, 2, 0) == 1 <==> forall h :: IsCompletion(ZeroOnly, grid, h) ==> h == s
  {
    SearchIsCappedCount(grid, 2, 0);
    CountOneIffUnique(ZeroOnly, grid, s);
  }
}
