/**
 * `createEmptyGrid` and `generateFullSudoku`, identical in both generators:
 * a randomised backtracking fill of every cell below 1. The shuffles are
 * the one source of randomness; the model takes them as a stream `orders`
 * of digit orders and a position `draw` in it, and returns the new
 * position, so one call of `shuffle` is one element of the stream.
 */
module Filler {
  import opened Opt
  import opened Rules
  import opened Completions

  /** `createEmptyGrid`: a 9x9 grid of zeros. */
  function CreateEmptyGrid(): (g: Grid)
    ensures IsGrid(g) && forall i, j :: 0 <= i < Size && 0 <= j < Size ==> g[i][j] == 0
  {
    seq(Size, _ => seq(Size, _ => 0))
  }

  /** The empty grid has no clash and every cell in 0..9, so it can be filled to a solved grid. */
  lemma EmptyGridConsistent()
    ensures Consistent(CreateEmptyGrid())
  {
  }

  /** Every result of `shuffle(range(1, 9))`. */
  ghost predicate DigitOrders(orders: nat -> seq<int>)
  {
    forall k :: IsDigitPermutation(orders(k))
  }

  /** The elements of an order of 1..9 are digits. */
  lemma OrderDigits(s: seq<int>)
    requires IsDigitPermutation(s)
    ensures forall k :: 0 <= k < |s| ==> 1 <= s[k] <= 9
  {
    forall k | 0 <= k < |s|
      ensures 1 <= s[k] <= 9
    {
      assert s[k] in s;
    }
  }

  /** Whether the fill succeeded, the grid it produced on success, and the next unused shuffle. */
  datatype FillResult = FillResult(ok: bool, grid: Grid, draw: nat)

  /**
   * The fill as a function of the grid on entry and the shuffles: at a
   * grid with no cell below 1, success; otherwise the first such cell
   * takes the digits of the next shuffle in order, each safe one followed
   * by a fill of the rest, up to the first success.
   */
  ghost function Fill(g: Grid, orders: nat -> seq<int>, draw: nat): (r: FillResult)
    requires IsGrid(g) && DigitOrders(orders)
    ensures IsGrid(r.grid)
    decreases Holes(BelowOne, g), 1, 0
  {
    match FirstHole(BelowOne, g)
    case None => FillResult(true, g, draw)
    case Some(p) =>
      OrderDigits(orders(draw));
      FillDigits(g, p, orders(draw), 0, orders, draw + 1)
  }

  ghost function FillDigits(g: Grid, p: Pos, order: seq<int>, k: int, orders: nat -> seq<int>, draw: nat): (r: FillResult)
    requires IsGrid(g) && InBounds(p.r, p.c) && g[p.r][p.c] < 1 && 0 <= k <= |order|
    requires forall m :: 0 <= m < |order| ==> 1 <= order[m] <= 9
    requires DigitOrders(orders)
    ensures IsGrid(r.grid)
    decreases Holes(BelowOne, g), 0, |order| - k
  {
    if k == |order| then FillResult(false, g, draw)
    else if Safe(g, p.r, p.c, order[k]) then
      FillShrinks(BelowOne, g, p.r, p.c, order[k]);
      var r := Fill(Put(g, p.r, p.c, order[k]), orders, draw);
      if r.ok then r else FillDigits(g, p, order, k + 1, orders, r.draw)
    else FillDigits(g, p, order, k + 1, orders, draw)
  }

  /**
   * `generateFullSudoku(&$grid)`: returns whether the fill succeeded; on
   * success the grid is the fill, on failure it is the entry grid with
   * some cells below 1 set to 0 (on cells in 0..9: the entry grid).
   */
  method GenerateFullSudoku(grid: Grid, orders: nat -> seq<int>, draw: nat) returns (ok: bool, grid': Grid, draw': nat)
    requires IsGrid(grid) && DigitOrders(orders)
    ensures ok == Fill(grid, orders, draw).ok && draw' == Fill(grid, orders, draw).draw
    ensures IsGrid(grid')
    ensures ok ==> grid' == Fill(grid, orders, draw).grid
    ensures !ok ==> Cleared(grid, grid') && (InRange(grid) ==> grid' == grid)
    decreases Holes(BelowOne, grid)
  {
    var first := FindFirstEmpty(BelowOne, grid);
    match first
    case None =>
      return true, grid, draw;
    case Some(p) =>
      var numbers := orders(draw);
      OrderDigits(numbers);
      draw' := draw + 1;
      grid' := grid;
      ClearedRefl(grid);
      var k := 0;
      while k < |numbers|
        invariant 0 <= k <= |numbers|
        invariant IsGrid(grid') && Cleared(grid, grid')
        invariant FillDigits(grid, p, numbers, k, orders, draw') == Fill(grid, orders, draw)
      {
        var num := numbers[k];
        ClearedSameDigits(grid, grid');
        SameDigitsSafe(grid, grid', p.r, p.c, num);
        var safe := IsSafe(grid', p.r, p.c, num);
        if safe {
          SameDigitsHoles(grid, grid');
          FillShrinks(BelowOne, grid', p.r, p.c, num);
          FillShrinks(BelowOne, grid, p.r, p.c, num);
          var filled := Put(grid', p.r, p.c, num);
          SameDigitsPut(grid, grid', p.r, p.c, num);
          SameDigitsSym(Put(grid, p.r, p.c, num), filled);
          FillSameDigits(filled, Put(grid, p.r, p.c, num), orders, draw');
          var before := grid';
          var done;
          done, filled, draw' := GenerateFullSudoku(filled, orders, draw');
          if done {
            return true, filled, draw';
          }
          grid' := Put(filled, p.r, p.c, 0);
          ClearedStep(grid, before, filled, p.r, p.c, num);
        }
        k := k + 1;
      }
      if InRange(grid) {
        ClearedInRange(grid, grid');
      }
      ok := false;
  }

  /** The fill looks only at which cells hold which digit, never at what a cell below 1 holds. */
  lemma {:induction false} FillSameDigits(g: Grid, h: Grid, orders: nat -> seq<int>, draw: nat)
    requires IsGrid(g) && IsGrid(h) && SameDigits(g, h) && DigitOrders(orders)
    ensures Fill(g, orders, draw).ok == Fill(h, orders, draw).ok
    ensures Fill(g, orders, draw).draw == Fill(h, orders, draw).draw
    ensures Fill(g, orders, draw).ok ==> Fill(g, orders, draw).grid == Fill(h, orders, draw).grid
    decreases Holes(BelowOne, g), 1, 0
  {
    SameDigitsFirstHole(g, h);
    FirstHoleSpec(BelowOne, g);
    match FirstHole(BelowOne, g)
    case None =>
      GridExt(g, h);
    case Some(p) =>
      OrderDigits(orders(draw));
      FillDigitsSameDigits(g, h, p, orders(draw), 0, orders, draw + 1);
  }

  lemma {:induction false} FillDigitsSameDigits(g: Grid, h: Grid, p: Pos, order: seq<int>, k: int, orders: nat -> seq<int>, draw: nat)
    requires IsGrid(g) && IsGrid(h) && SameDigits(g, h) && InBounds(p.r, p.c) && g[p.r][p.c] < 1 && 0 <= k <= |order|
    requires forall m :: 0 <= m < |order| ==> 1 <= order[m] <= 9
    requires DigitOrders(orders)
    ensures FillDigits(g, p, order, k, orders, draw).ok == FillDigits(h, p, order, k, orders, draw).ok
    ensures FillDigits(g, p, order, k, orders, draw).draw == FillDigits(h, p, order, k, orders, draw).draw
    ensures FillDigits(g, p, order, k, orders, draw).ok ==> FillDigits(g, p, order, k, orders, draw).grid == FillDigits(h, p, order, k, orders, draw).grid
    decreases Holes(BelowOne, g), 0, |order| - k
  {
    if k < |order| {
      var n := order[k];
      SameDigitsSafe(g, h, p.r, p.c, n);
      if Safe(g, p.r, p.c, n) {
        FillShrinks(BelowOne, g, p.r, p.c, n);
        SameDigitsPut(g, h, p.r, p.c, n);
        FillSameDigits(Put(g, p.r, p.c, n), Put(h, p.r, p.c, n), orders, draw);
        FillDigitsSameDigits(g, h, p, order, k + 1, orders, Fill(Put(g, p.r, p.c, n), orders, draw).draw);
      } else {
        FillDigitsSameDigits(g, h, p, order, k + 1, orders, draw);
      }
    }
  }

  /** A successful fill completes the entry grid: cells >= 1 kept, every other cell a digit placed without a clash. */
  lemma {:induction false} FillIsCompletion(g: Grid, orders: nat -> seq<int>, draw: nat)
    requires IsGrid(g) && DigitOrders(orders) && Fill(g, orders, draw).ok
    ensures IsCompletion(BelowOne, g, Fill(g, orders, draw).grid)
    decreases Holes(BelowOne, g), 1, 0
  {
    FirstHoleSpec(BelowOne, g);
    match FirstHole(BelowOne, g)
    case None =>
    case Some(p) =>
      OrderDigits(orders(draw));
      FillDigitsIsCompletion(g, p, orders(draw), 0, orders, draw + 1);
  }

  lemma {:induction false} FillDigitsIsCompletion(g: Grid, p: Pos, order: seq<int>, k: int, orders: nat -> seq<int>, draw: nat)
    requires IsGrid(g) && InBounds(p.r, p.c) && g[p.r][p.c] < 1 && 0 <= k <= |order|
    requires forall m :: 0 <= m < |order| ==> 1 <= order[m] <= 9
    requires DigitOrders(orders) && FillDigits(g, p, order, k, orders, draw).ok
    ensures IsCompletion(BelowOne, g, FillDigits(g, p, order, k, orders, draw).grid)
    decreases Holes(BelowOne, g), 0, |order| - k
  {
    var n := order[k];
    if Safe(g, p.r, p.c, n) {
      FillShrinks(BelowOne, g, p.r, p.c, n);
      var r := Fill(Put(g, p.r, p.c, n), orders, draw);
      if r.ok {
        FillIsCompletion(Put(g, p.r, p.c, n), orders, draw);
        FillKeepsCompletion(BelowOne, g, p, n, r.grid);
      } else {
        FillDigitsIsCompletion(g, p, order, k + 1, orders, r.draw);
      }
    } else {
      FillDigitsIsCompletion(g, p, order, k + 1, orders, draw);
    }
  }

  /** A completion of a consistent grid is a solved Sudoku. */
  lemma ConsistentCompletionIsValid(g: Grid, h: Grid)
    requires IsGrid(g) && Consistent(g) && IsCompletion(BelowOne, g, h)
    ensures ValidSolution(h) && Agrees(g, h)
  {
    forall r, c, i, j |
      0 <= r < Size && 0 <= c < Size && 0 <= i < Size && 0 <= j < Size && (r != i || c != j) && SameUnit(r, c, i, j) && h[r][c] >= 1
      ensures h[i][j] != h[r][c]
    {
      if g[r][c] < 1 {
      } else if g[i][j] < 1 {
        assert SameUnit(i, j, r, c);
      } else {
        assert g[i][j] != g[r][c];
      }
    }
    forall i, j | 0 <= i < Size && 0 <= j < Size
      ensures 1 <= h[i][j] <= 9
    {
      if g[i][j] >= 1 {
        assert h[i][j] == g[i][j];
      }
    }
  }

  /**
   * A successful fill of a consistent grid (in particular of the empty
   * grid) keeps its digits and is a solved Sudoku: each of 1..9 once in
   * every row, column and box.
   */
  lemma FillOfConsistentIsSolved(g: Grid, orders: nat -> seq<int>, draw: nat)
    requires IsGrid(g) && Consistent(g) && DigitOrders(orders) && Fill(g, orders, draw).ok
    ensures ValidSolution(Fill(g, orders, draw).grid) && Agrees(g, Fill(g, orders, draw).grid)
    ensures forall r :: 0 <= r < Size ==> IsDigitPermutation(RowOf(Fill(g, orders, draw).grid, r))
    ensures forall c :: 0 <= c < Size ==> IsDigitPermutation(ColOf(Fill(g, orders, draw).grid, c))
    ensures forall b :: 0 <= b < Size ==> IsDigitPermutation(BoxOf(Fill(g, orders, draw).grid, b))
  {
    var h := Fill(g, orders, draw).grid;
    FillIsCompletion(g, orders, draw);
    ConsistentCompletionIsValid(g, h);
    ValidUnitsArePermutations(h);
  }

  /**
   * The fill uses one shuffle per cell it branches on: the draw position
   * only moves forward.
   */
  lemma {:induction false} FillDrawsForward(g: Grid, orders: nat -> seq<int>, draw: nat)
    requires IsGrid(g) && DigitOrders(orders)
    ensures Fill(g, orders, draw).draw >= draw
    ensures FirstHole(BelowOne, g).Some? ==> Fill(g, orders, draw).draw > draw
    decreases Holes(BelowOne, g), 1, 0
  {
    match FirstHole(BelowOne, g)
    case None =>
    case Some(p) =>
      OrderDigits(orders(draw));
      FillDigitsDrawsForward(g, p, orders(draw), 0, orders, draw + 1);
  }

  lemma {:induction false} FillDigitsDrawsForward(g: Grid, p: Pos, order: seq<int>, k: int, orders: nat -> seq<int>, draw: nat)
    requires IsGrid(g) && InBounds(p.r, p.c) && g[p.r][p.c] < 1 && 0 <= k <= |order|
    requires forall m :: 0 <= m < |order| ==> 1 <= order[m] <= 9
    requires DigitOrders(orders)
    ensures FillDigits(g, p, order, k, orders, draw).draw >= draw
    decreases Holes(BelowOne, g), 0, |order| - k
  {
    if k < |order| {
      var n := order[k];
      if Safe(g, p.r, p.c, n) {
        FillShrinks(BelowOne, g, p.r, p.c, n);
        FillDrawsForward(Put(g, p.r, p.c, n), orders, draw);
        FillDigitsDrawsForward(g, p, order, k + 1, orders, Fill(Put(g, p.r, p.c, n), orders, draw).draw);
      } else {
        FillDigitsDrawsForward(g, p, order, k + 1, orders, draw);
      }
    }
  }
}
