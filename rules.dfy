/** The null marker shared by every module. */
module Opt {
  datatype Option<+T> = None | Some(value: T)
}

/**
 * The Sudoku board used by the solvers, the fillers and the carvers: a 9x9
 * grid of integers, the placement check `isSafe`, the emptiness tests, the
 * row-major scan for the first empty cell and the validity of a full grid.
 */
module Rules {
  import opened Opt

  /** GRID_SIZE in every PHP class. */
  const Size: int := 9

  type Grid = seq<seq<int>>

  /** A cell position; the PHP carvers keep them as `['r' => r, 'c' => c]`. */
  datatype Pos = Pos(r: int, c: int)

  predicate InBounds(r: int, c: int) { 0 <= r < Size && 0 <= c < Size }

  ghost predicate IsGrid(g: Grid) { |g| == Size && forall i :: 0 <= i < Size ==> |g[i]| == Size }

  /** Every cell holds 0 (empty) or a digit 1..9. */
  ghost predicate InRange(g: Grid)
    requires IsGrid(g)
  {
    forall i, j :: 0 <= i < Size && 0 <= j < Size ==> 0 <= g[i][j] <= 9
  }

  /** `$grid[$r][$c] = $v` on a PHP array. */
  function Put(g: Grid, r: int, c: int, v: int): (h: Grid)
    requires IsGrid(g) && InBounds(r, c)
    ensures IsGrid(h)
  {
    g[r := g[r][c := v]]
  }

  /** Writing a cell's old value back restores the grid. */
  lemma PutBack(g: Grid, r: int, c: int, v: int)
    requires IsGrid(g) && InBounds(r, c)
    ensures Put(Put(g, r, c, v), r, c, g[r][c]) == g
  {
    assert g[r][c := v][c := g[r][c]] == g[r];
  }

  /** Two grids that agree on every cell are equal. */
  lemma GridExt(g: Grid, h: Grid)
    requires IsGrid(g) && IsGrid(h)
    requires forall i, j :: 0 <= i < Size && 0 <= j < Size ==> g[i][j] == h[i][j]
    ensures g == h
  {
    forall i | 0 <= i < Size
      ensures g[i] == h[i]
    {
      assert forall j :: 0 <= j < Size ==> g[i][j] == h[i][j];
    }
  }

  /** `floor($row / 3) * 3`: the first row (or column) of a box. */
  function BoxStart(x: int): int
    requires x >= 0
  {
    x / 3 * 3
  }

  /** Cells (r, c) and (i, j) share a row, a column or a 3x3 box (a cell shares all three with itself). */
  predicate SameUnit(r: int, c: int, i: int, j: int)
  {
    i == r || j == c || (i / 3 == r / 3 && j / 3 == c / 3)
  }

  /** The box of x, as a range of rows (or columns) starting at BoxStart(x). */
  lemma BoxRange(x: int, y: int)
    requires 0 <= x < Size && 0 <= y < Size
    ensures y / 3 == x / 3 <==> BoxStart(x) <= y < BoxStart(x) + 3
  {
  }

  /**
   * The placement rule of all four `isSafe` copies: n occurs nowhere in
   * row r, column c or the box of (r, c). The cell (r, c) itself is
   * scanned as well.
   */
  ghost predicate Safe(g: Grid, r: int, c: int, n: int)
    requires IsGrid(g) && InBounds(r, c)
  {
    forall i, j {:trigger SameUnit(r, c, i, j)} :: 0 <= i < Size && 0 <= j < Size && SameUnit(r, c, i, j) ==> g[i][j] != n
  }

  /**
   * `isSafe`: the row/column scan, then the 3x3 box scan, each returning
   * false at the first cell that holds num.
   */
  method IsSafe(grid: Grid, row: int, col: int, num: int) returns (safe: bool)
    requires IsGrid(grid) && InBounds(row, col)
    ensures safe == Safe(grid, row, col, num)
  {
    for i := 0 to Size
      invariant forall k :: 0 <= k < i ==> grid[row][k] != num && grid[k][col] != num
    {
      if grid[row][i] == num || grid[i][col] == num {
        assert SameUnit(row, col, row, i) && SameUnit(row, col, i, col);
        return false;
      }
    }
    var startRow, startCol := BoxStart(row), BoxStart(col);
    BoxRange(row, row);
    BoxRange(col, col);
    for i := 0 to 3
      invariant forall a, b :: startRow <= a < startRow + i && startCol <= b < startCol + 3 ==> grid[a][b] != num
    {
      var r := startRow + i;
      for j := 0 to 3
        invariant forall a, b :: startRow <= a < startRow + i && startCol <= b < startCol + 3 ==> grid[a][b] != num
        invariant forall b :: startCol <= b < startCol + j ==> grid[r][b] != num
      {
        if grid[startRow + i][startCol + j] == num {
          BoxRange(row, startRow + i);
          BoxRange(col, startCol + j);
          assert SameUnit(row, col, startRow + i, startCol + j);
          return false;
        }
      }
    }
    forall i, j | 0 <= i < Size && 0 <= j < Size && SameUnit(row, col, i, j)
      ensures grid[i][j] != num
    {
      if i != row && j != col {
        BoxRange(row, i);
        BoxRange(col, j);
      }
    }
    return true;
  }

  // ---- empty cells ----

  /**
   * How a scan recognises an empty cell: the public solver tests
   * `=== 0`, the app solver and both fillers test `< 1`.
   */
  datatype EmptyTest = ZeroOnly | BelowOne

  predicate IsHole(t: EmptyTest, v: int)
  {
    match t
    case ZeroOnly => v == 0
    case BelowOne => v < 1
  }

  ghost predicate HoleFree(t: EmptyTest, g: Grid)
    requires IsGrid(g)
  {
    forall i, j :: 0 <= i < Size && 0 <= j < Size ==> !IsHole(t, g[i][j])
  }

  /** The number of empty cells in a row. */
  ghost function RowHoles(t: EmptyTest, s: seq<int>): nat
  {
    if s == [] then 0 else (if IsHole(t, s[0]) then 1 else 0) + RowHoles(t, s[1..])
  }

  /** The number of empty cells; it drops with every placement, which is why the searches end. */
  ghost function Holes(t: EmptyTest, g: seq<seq<int>>): nat
  {
    if g == [] then 0 else RowHoles(t, g[0]) + Holes(t, g[1..])
  }

  lemma {:induction false} RowFill(t: EmptyTest, s: seq<int>, c: int, v: int)
    requires 0 <= c < |s| && IsHole(t, s[c]) && !IsHole(t, v)
    ensures RowHoles(t, s[c := v]) + 1 == RowHoles(t, s)
  {
    if c > 0 {
      RowFill(t, s[1..], c - 1, v);
      assert s[c := v][1..] == s[1..][c - 1 := v];
    }
  }

  lemma {:induction false} GridFill(t: EmptyTest, g: seq<seq<int>>, r: int, c: int, v: int)
    requires 0 <= r < |g| && 0 <= c < |g[r]| && IsHole(t, g[r][c]) && !IsHole(t, v)
    ensures Holes(t, g[r := g[r][c := v]]) + 1 == Holes(t, g)
  {
    if r == 0 {
      RowFill(t, g[0], c, v);
      assert g[r := g[r][c := v]][1..] == g[1..];
    } else {
      GridFill(t, g[1..], r - 1, c, v);
      assert g[r := g[r][c := v]][1..] == g[1..][r - 1 := g[r][c := v]];
    }
  }

  /** Filling an empty cell lowers the number of empty cells by one. */
  lemma FillShrinks(t: EmptyTest, g: Grid, r: int, c: int, v: int)
    requires IsGrid(g) && InBounds(r, c) && IsHole(t, g[r][c]) && !IsHole(t, v)
    ensures Holes(t, Put(g, r, c, v)) < Holes(t, g)
  {
    GridFill(t, g, r, c, v);
  }

  /** (a, b) comes before (i, j) in row-major order. */
  predicate Before(a: int, b: int, i: int, j: int)
  {
    a < i || (a == i && b < j)
  }

  /** The first empty cell at or after (i, j) in row-major order. */
  ghost function FirstHoleFrom(t: EmptyTest, g: Grid, i: int, j: int): (p: Option<Pos>)
    requires IsGrid(g) && 0 <= i <= Size && 0 <= j <= Size
    decreases |g| - i, Size - j
    ensures p.Some? ==> InBounds(p.value.r, p.value.c) && IsHole(t, g[p.value.r][p.value.c])
  {
    if i == Size then None
    else if j == Size then FirstHoleFrom(t, g, i + 1, 0)
    else if IsHole(t, g[i][j]) then Some(Pos(i, j))
    else FirstHoleFrom(t, g, i, j + 1)
  }

  lemma {:induction false} FirstHoleFromSpec(t: EmptyTest, g: Grid, i: int, j: int)
    requires IsGrid(g) && 0 <= i <= Size && 0 <= j <= Size
    decreases Size - i, Size - j
    ensures var p := FirstHoleFrom(t, g, i, j);
      && (p.None? <==> forall a, b :: 0 <= a < Size && 0 <= b < Size && !Before(a, b, i, j) ==> !IsHole(t, g[a][b]))
      && (p.Some? ==> !Before(p.value.r, p.value.c, i, j))
      && (p.Some? ==> forall a, b :: 0 <= a < Size && 0 <= b < Size && !Before(a, b, i, j) && Before(a, b, p.value.r, p.value.c) ==> !IsHole(t, g[a][b]))
  {
    if i < Size {
      if j == Size {
        FirstHoleFromSpec(t, g, i + 1, 0);
      } else if !IsHole(t, g[i][j]) {
        FirstHoleFromSpec(t, g, i, j + 1);
      }
    }
  }

  /** The first empty cell in row-major order (the nested `for` scan), None if there is none. */
  ghost function FirstHole(t: EmptyTest, g: Grid): (p: Option<Pos>)
    requires IsGrid(g)
    ensures p.Some? ==> InBounds(p.value.r, p.value.c) && IsHole(t, g[p.value.r][p.value.c])
  {
    FirstHoleFrom(t, g, 0, 0)
  }

  /**
   * FirstHole is None iff the grid has no empty cell, and otherwise an
   * empty cell with no empty cell before it in row-major order.
   */
  lemma FirstHoleSpec(t: EmptyTest, g: Grid)
    requires IsGrid(g)
    ensures FirstHole(t, g).None? <==> HoleFree(t, g)
    ensures FirstHole(t, g).Some? ==> forall a, b :: 0 <= a < Size && 0 <= b < Size && Before(a, b, FirstHole(t, g).value.r, FirstHole(t, g).value.c) ==> !IsHole(t, g[a][b])
  {
    FirstHoleFromSpec(t, g, 0, 0);
  }

  /**
   * The scan written out as the source's nested loops with `break 2`;
   * shared by the app solver and both fillers (all test `< 1`), and by the
   * public solver (which tests `=== 0`).
   */
  method FindFirstEmpty(t: EmptyTest, grid: Grid) returns (p: Option<Pos>)
    requires IsGrid(grid)
    ensures p == FirstHole(t, grid)
  {
    var i := 0;
    while i < Size
      invariant 0 <= i <= Size
      invariant FirstHoleFrom(t, grid, i, 0) == FirstHole(t, grid)
    {
      var j := 0;
      while j < Size
        invariant 0 <= j <= Size
        invariant FirstHoleFrom(t, grid, i, j) == FirstHole(t, grid)
      {
        if IsHole(t, grid[i][j]) {
          return Some(Pos(i, j));
        }
        j := j + 1;
      }
      i := i + 1;
    }
    return None;
  }

  // ---- what a `< 1` search leaves behind ----

  /**
   * h is g with some of its empty (< 1) cells reset to 0: the searches
   * testing `< 1` write 0 back into every cell they branched on.
   */
  ghost predicate Cleared(g: Grid, h: Grid)
    requires IsGrid(g) && IsGrid(h)
  {
    forall i, j :: 0 <= i < Size && 0 <= j < Size ==> h[i][j] == g[i][j] || (g[i][j] < 1 && h[i][j] == 0)
  }

  /** g and h hold the same digits (>= 1) in the same cells, so they are empty (< 1) in the same cells. */
  ghost predicate SameDigits(g: Grid, h: Grid)
    requires IsGrid(g) && IsGrid(h)
  {
    forall i, j :: 0 <= i < Size && 0 <= j < Size ==> (g[i][j] < 1 <==> h[i][j] < 1) && (g[i][j] >= 1 ==> h[i][j] == g[i][j])
  }

  lemma ClearedRefl(g: Grid)
    requires IsGrid(g)
    ensures Cleared(g, g)
  {
  }

  lemma ClearedSameDigits(g: Grid, h: Grid)
    requires IsGrid(g) && IsGrid(h) && Cleared(g, h)
    ensures SameDigits(g, h)
  {
  }

  /** On cells in 0..9 clearing changes nothing: the grid is back in its entry state. */
  lemma ClearedInRange(g: Grid, h: Grid)
    requires IsGrid(g) && IsGrid(h) && InRange(g) && Cleared(g, h)
    ensures h == g
  {
    GridExt(g, h);
  }

  /** Writing 0 into an empty cell of a cleared grid keeps it cleared. */
  lemma ClearedReset(g: Grid, h: Grid, r: int, c: int)
    requires IsGrid(g) && IsGrid(h) && InBounds(r, c) && g[r][c] < 1 && Cleared(g, h)
    ensures Cleared(g, Put(h, r, c, 0))
  {
  }

  lemma SameDigitsSym(g: Grid, h: Grid)
    requires IsGrid(g) && IsGrid(h) && SameDigits(g, h)
    ensures SameDigits(h, g)
  {
  }

  /** A digit is safe in g exactly when it is safe in a grid with the same digits. */
  lemma SameDigitsSafe(g: Grid, h: Grid, r: int, c: int, n: int)
    requires IsGrid(g) && IsGrid(h) && SameDigits(g, h) && InBounds(r, c) && n >= 1
    ensures Safe(g, r, c, n) == Safe(h, r, c, n)
  {
    forall i, j | 0 <= i < Size && 0 <= j < Size && SameUnit(r, c, i, j)
      ensures g[i][j] != n <==> h[i][j] != n
    {
    }
  }

  lemma SameDigitsPut(g: Grid, h: Grid, r: int, c: int, v: int)
    requires IsGrid(g) && IsGrid(h) && SameDigits(g, h) && InBounds(r, c)
    ensures SameDigits(Put(g, r, c, v), Put(h, r, c, v))
  {
  }

  /** Grids with the same digits have the same first `< 1` cell. */
  lemma {:induction false} SameDigitsFirstHoleFrom(g: Grid, h: Grid, i: int, j: int)
    requires IsGrid(g) && IsGrid(h) && SameDigits(g, h) && 0 <= i <= Size && 0 <= j <= Size
    ensures FirstHoleFrom(BelowOne, g, i, j) == FirstHoleFrom(BelowOne, h, i, j)
    decreases Size - i, Size - j
  {
    if i < Size {
      if j == Size {
        SameDigitsFirstHoleFrom(g, h, i + 1, 0);
      } else {
        SameDigitsFirstHoleFrom(g, h, i, j + 1);
      }
    }
  }

  lemma SameDigitsFirstHole(g: Grid, h: Grid)
    requires IsGrid(g) && IsGrid(h) && SameDigits(g, h)
    ensures FirstHole(BelowOne, g) == FirstHole(BelowOne, h)
  {
    SameDigitsFirstHoleFrom(g, h, 0, 0);
  }

  /** One trial of a `< 1` search: place num at an empty cell p, search (clearing), write 0 back. */
  lemma ClearedStep(g: Grid, before: Grid, after: Grid, r: int, c: int, num: int)
    requires IsGrid(g) && IsGrid(before) && IsGrid(after) && InBounds(r, c) && g[r][c] < 1
    requires Cleared(g, before) && Cleared(Put(before, r, c, num), after)
    ensures Cleared(g, Put(after, r, c, 0))
  {
  }

  lemma {:induction false} RowHolesSame(s: seq<int>, u: seq<int>)
    requires |s| == |u| && forall j :: 0 <= j < |s| ==> (s[j] < 1 <==> u[j] < 1)
    ensures RowHoles(BelowOne, s) == RowHoles(BelowOne, u)
  {
    if s != [] {
      RowHolesSame(s[1..], u[1..]);
    }
  }

  lemma {:induction false} HolesSame(g: seq<seq<int>>, h: seq<seq<int>>)
    requires |g| == |h| && forall i :: 0 <= i < |g| ==> |g[i]| == |h[i]| && forall j :: 0 <= j < |g[i]| ==> (g[i][j] < 1 <==> h[i][j] < 1)
    ensures Holes(BelowOne, g) == Holes(BelowOne, h)
  {
    if g != [] {
      RowHolesSame(g[0], h[0]);
      HolesSame(g[1..], h[1..]);
    }
  }

  /** Grids with the same digits have the same number of `< 1` cells. */
  lemma SameDigitsHoles(g: Grid, h: Grid)
    requires IsGrid(g) && IsGrid(h) && SameDigits(g, h)
    ensures Holes(BelowOne, g) == Holes(BelowOne, h)
  {
    HolesSame(g, h);
  }

  // ---- filled cells ----

  /** The number of clues: the cells that are not 0. */
  ghost function ClueCount(g: Grid): int
    requires IsGrid(g)
  {
    Size * Size - Holes(ZeroOnly, g)
  }

  /** Every cell of p is empty or equals the same cell of s. */
  ghost predicate Agrees(p: Grid, s: Grid)
    requires IsGrid(p) && IsGrid(s)
  {
    forall i, j :: 0 <= i < Size && 0 <= j < Size ==> p[i][j] == 0 || p[i][j] == s[i][j]
  }

  /** No two distinct cells of one row, column or box hold the same digit (cells < 1 are not digits). */
  ghost predicate NoClash(g: Grid)
    requires IsGrid(g)
  {
    forall r, c, i, j ::
      0 <= r < Size && 0 <= c < Size && 0 <= i < Size && 0 <= j < Size && (r != i || c != j) && SameUnit(r, c, i, j) && g[r][c] >= 1
      ==> g[i][j] != g[r][c]
  }

  /** A partial grid whose digits are 1..9 and clash nowhere. */
  ghost predicate Consistent(g: Grid)
    requires IsGrid(g)
  {
    InRange(g) && NoClash(g)
  }

  /** A solved Sudoku: every cell holds 1..9 and no digit repeats in a row, column or box. */
  ghost predicate ValidSolution(g: Grid)
    requires IsGrid(g)
  {
    (forall i, j :: 0 <= i < Size && 0 <= j < Size ==> 1 <= g[i][j] <= 9) && NoClash(g)
  }

  // ---- each of 1..9 exactly once ----

  /** Row r as a sequence. */
  function RowOf(g: Grid, r: int): seq<int>
    requires IsGrid(g) && 0 <= r < Size
  {
    g[r]
  }

  /** Column c as a sequence. */
  function ColOf(g: Grid, c: int): seq<int>
    requires IsGrid(g) && 0 <= c < Size
  {
    seq(Size, k requires 0 <= k < Size => g[k][c])
  }

  /** Box b (0..8, row-major) as a sequence in row-major order. */
  function BoxOf(g: Grid, b: int): seq<int>
    requires IsGrid(g) && 0 <= b < Size
  {
    seq(Size, k requires 0 <= k < Size => g[b / 3 * 3 + k / 3][b % 3 * 3 + k % 3])
  }

  /** The sequence holds each of 1..9 exactly once. */
  ghost predicate IsDigitPermutation(s: seq<int>)
  {
    |s| == Size && (forall n :: 1 <= n <= 9 <==> n in s) && (forall k, l :: 0 <= k < l < |s| ==> s[k] != s[l])
  }

  lemma DistinctCard(s: seq<int>)
    requires forall k, l :: 0 <= k < l < |s| ==> s[k] != s[l]
    ensures |set x | x in s| == |s|
  {
    if |s| > 0 {
      var t := s[..|s| - 1];
      DistinctCard(t);
      assert (set x | x in s) == (set x | x in t) + {s[|s| - 1]};
    }
  }

  /** Nine distinct values from 1..9 cover all of 1..9 (pigeonhole). */
  lemma NineDistinctDigits(s: seq<int>)
    requires |s| == Size && forall k :: 0 <= k < Size ==> 1 <= s[k] <= 9
    requires forall k, l :: 0 <= k < l < Size ==> s[k] != s[l]
    ensures IsDigitPermutation(s)
  {
    var digits := {1, 2, 3, 4, 5, 6, 7, 8, 9};
    var vals := set x | x in s;
    DistinctCard(s);
    assert vals <= digits;
    assert |digits| == 9;
    assert digits == vals + (digits - vals);
    assert vals * (digits - vals) == {};
    assert |digits - vals| == 0;
    forall n | 1 <= n <= 9
      ensures n in s
    {
      assert n == 1 || n == 2 || n == 3 || n == 4 || n == 5 || n == 6 || n == 7 || n == 8 || n == 9;
      assert n in digits;
      assert n !in digits - vals;
    }
  }

  /** Row r of a solved grid holds each digit once. */
  lemma RowIsPermutation(g: Grid, r: int)
    requires IsGrid(g) && ValidSolution(g) && 0 <= r < Size
    ensures IsDigitPermutation(RowOf(g, r))
  {
    var s := RowOf(g, r);
    forall k, l | 0 <= k < l < Size
      ensures s[k] != s[l]
    {
      assert SameUnit(r, k, r, l);
    }
    NineDistinctDigits(s);
  }

  /** Column c of a solved grid holds each digit once. */
  lemma ColIsPermutation(g: Grid, c: int)
    requires IsGrid(g) && ValidSolution(g) && 0 <= c < Size
    ensures IsDigitPermutation(ColOf(g, c))
  {
    var s := ColOf(g, c);
    forall k, l | 0 <= k < l < Size
      ensures s[k] != s[l]
    {
      assert SameUnit(k, c, l, c);
    }
    NineDistinctDigits(s);
  }

  /** Two distinct positions k, l of box b are two distinct cells of one box. */
  lemma BoxCellsDistinct(b: int, k: int, l: int)
    requires 0 <= b < Size && 0 <= k < l < Size
    ensures var r1, c1, r2, c2 := b / 3 * 3 + k / 3, b % 3 * 3 + k % 3, b / 3 * 3 + l / 3, b % 3 * 3 + l % 3;
      InBounds(r1, c1) && InBounds(r2, c2) && (r1 != r2 || c1 != c2) && SameUnit(r1, c1, r2, c2)
  {
    var q, m := b / 3, b % 3;
    assert 0 <= q < 3 && 0 <= m < 3;
    assert k == k / 3 * 3 + k % 3 && l == l / 3 * 3 + l % 3;
    assert (q * 3 + k / 3) / 3 == q && (q * 3 + l / 3) / 3 == q;
    assert (m * 3 + k % 3) / 3 == m && (m * 3 + l % 3) / 3 == m;
  }

  /** Box b of a solved grid holds each digit once. */
  lemma BoxIsPermutation(g: Grid, b: int)
    requires IsGrid(g) && ValidSolution(g) && 0 <= b < Size
    ensures IsDigitPermutation(BoxOf(g, b))
  {
    var s := BoxOf(g, b);
    forall k, l | 0 <= k < l < Size
      ensures s[k] != s[l]
    {
      BoxCellsDistinct(b, k, l);
    }
    NineDistinctDigits(s);
  }

  /**
   * A solved grid has each of 1..9 exactly once in every row, every
   * column and every box.
   */
  lemma ValidUnitsArePermutations(g: Grid)
    requires IsGrid(g) && ValidSolution(g)
    ensures forall r :: 0 <= r < Size ==> IsDigitPermutation(RowOf(g, r))
    ensures forall c :: 0 <= c < Size ==> IsDigitPermutation(ColOf(g, c))
    ensures forall b :: 0 <= b < Size ==> IsDigitPermutation(BoxOf(g, b))
  {
    forall r | 0 <= r < Size
      ensures IsDigitPermutation(RowOf(g, r))
    {
      RowIsPermutation(g, r);
    }
    forall c | 0 <= c < Size
      ensures IsDigitPermutation(ColOf(g, c))
    {
      ColIsPermutation(g, c);
    }
    forall b | 0 <= b < Size
      ensures IsDigitPermutation(BoxOf(g, b))
    {
      BoxIsPermutation(g, b);
    }
  }

}
