/**
 * What the solution counters count. A completion of a grid keeps every
 * filled cell, puts a digit 1..9 in every empty cell, and never lets a
 * digit it placed meet the same digit elsewhere in its row, column or box.
 * The unpruned search Count is exactly the number of completions, so
 * "countSolutions(grid, 2) == 1" means "the puzzle has one completion".
 */
module Completions {
  import opened Opt
  import opened Rules
  import opened Counting

  /** h fills the empty cells of g (emptiness as t decides it) without a clash at any filled-in cell. */
  ghost predicate IsCompletion(t: EmptyTest, g: Grid, h: Grid)
    requires IsGrid(g)
  {
    && IsGrid(h)
    && (forall i, j :: 0 <= i < Size && 0 <= j < Size && !IsHole(t, g[i][j]) ==> h[i][j] == g[i][j])
    && (forall i, j :: 0 <= i < Size && 0 <= j < Size && IsHole(t, g[i][j]) ==> 1 <= h[i][j] <= 9)
    && (forall i, j, a, b ::
          0 <= i < Size && 0 <= j < Size && 0 <= a < Size && 0 <= b < Size && IsHole(t, g[i][j])
          && (a != i || b != j) && SameUnit(i, j, a, b)
          ==> h[a][b] != h[i][j])
  }

  /** The grids the search reaches, built the way Count walks the digits. */
  ghost function Completions(t: EmptyTest, g: Grid): set<Grid>
    requires IsGrid(g)
    decreases Holes(t, g), 1, 0
  {
    match FirstHole(t, g)
    case None => {g}
    case Some(p) => CompletionsDigits(t, g, p, 1)
  }

  ghost function CompletionsDigits(t: EmptyTest, g: Grid, p: Pos, n: int): set<Grid>
    requires IsGrid(g) && InBounds(p.r, p.c) && IsHole(t, g[p.r][p.c]) && 1 <= n <= 10
    decreases Holes(t, g), 0, 10 - n
  {
    if n == 10 then {}
    else
      var here := if Safe(g, p.r, p.c, n) then FillShrinks(t, g, p.r, p.c, n); Completions(t, Put(g, p.r, p.c, n)) else {};
      here + CompletionsDigits(t, g, p, n + 1)
  }

  /** Every grid the search reaches is a completion. */
  lemma {:induction false} ReachedIsCompletion(t: EmptyTest, g: Grid, h: Grid)
    requires IsGrid(g) && h in Completions(t, g)
    ensures IsCompletion(t, g, h)
    decreases Holes(t, g), 1, 0
  {
    FirstHoleSpec(t, g);
    match FirstHole(t, g)
    case None =>
    case Some(p) => DigitReachedIsCompletion(t, g, p, 1, h);
  }

  lemma {:induction false} DigitReachedIsCompletion(t: EmptyTest, g: Grid, p: Pos, n: int, h: Grid)
    requires IsGrid(g) && InBounds(p.r, p.c) && IsHole(t, g[p.r][p.c]) && 1 <= n <= 10
    requires h in CompletionsDigits(t, g, p, n)
    ensures IsCompletion(t, g, h) && n <= h[p.r][p.c]
    decreases Holes(t, g), 0, 10 - n
  {
    if Safe(g, p.r, p.c, n) && h in Completions(t, Put(g, p.r, p.c, n)) {
      FillShrinks(t, g, p.r, p.c, n);
      ReachedIsCompletion(t, Put(g, p.r, p.c, n), h);
      FillKeepsCompletion(t, g, p, n, h);
    } else {
      DigitReachedIsCompletion(t, g, p, n + 1, h);
    }
  }

  /** A completion of g with digit n placed at its empty cell p is a completion of g. */
  lemma FillKeepsCompletion(t: EmptyTest, g: Grid, p: Pos, n: int, h: Grid)
    requires IsGrid(g) && InBounds(p.r, p.c) && IsHole(t, g[p.r][p.c]) && 1 <= n <= 9
    requires Safe(g, p.r, p.c, n) && IsCompletion(t, Put(g, p.r, p.c, n), h)
    ensures IsCompletion(t, g, h) && h[p.r][p.c] == n
  {
    var f := Put(g, p.r, p.c, n);
    assert h[p.r][p.c] == n by {
      assert !IsHole(t, f[p.r][p.c]);
    }
    forall i, j, a, b |
      0 <= i < Size && 0 <= j < Size && 0 <= a < Size && 0 <= b < Size && IsHole(t, g[i][j])
      && (a != i || b != j) && SameUnit(i, j, a, b)
      ensures h[a][b] != h[i][j]
    {
      if i == p.r && j == p.c {
        if IsHole(t, f[a][b]) {
          assert SameUnit(a, b, i, j);
        } else {
          assert g[a][b] != n;
        }
      } else {
        assert IsHole(t, f[i][j]);
      }
    }
    forall i, j | 0 <= i < Size && 0 <= j < Size && IsHole(t, g[i][j])
      ensures 1 <= h[i][j] <= 9
    {
      if i != p.r || j != p.c {
        assert IsHole(t, f[i][j]);
      }
    }
  }

  /** Every completion is reached by the search. */
  lemma {:induction false} CompletionIsReached(t: EmptyTest, g: Grid, h: Grid)
    requires IsGrid(g) && IsCompletion(t, g, h)
    ensures h in Completions(t, g)
    decreases Holes(t, g), 1, 0
  {
    FirstHoleSpec(t, g);
    match FirstHole(t, g)
    case None =>
      GridExt(g, h);
    case Some(p) =>
      var n := h[p.r][p.c];
      CompletionIsSafe(t, g, p, h);
      FillShrinks(t, g, p.r, p.c, n);
      CompletionOfFill(t, g, p, h);
      CompletionIsReached(t, Put(g, p.r, p.c, n), h);
      FilledIsReached(t, g, p, 1, h);
  }

  /** The digit a completion puts in an empty cell p is safe there. */
  lemma CompletionIsSafe(t: EmptyTest, g: Grid, p: Pos, h: Grid)
    requires IsGrid(g) && InBounds(p.r, p.c) && IsHole(t, g[p.r][p.c]) && IsCompletion(t, g, h)
    ensures 1 <= h[p.r][p.c] <= 9 && Safe(g, p.r, p.c, h[p.r][p.c])
  {
    var n := h[p.r][p.c];
    forall i, j | 0 <= i < Size && 0 <= j < Size && SameUnit(p.r, p.c, i, j)
      ensures g[i][j] != n
    {
      if !IsHole(t, g[i][j]) {
        assert h[i][j] != h[p.r][p.c];
      }
    }
  }

  /** A completion of g is a completion of g with its own digit placed at p. */
  lemma CompletionOfFill(t: EmptyTest, g: Grid, p: Pos, h: Grid)
    requires IsGrid(g) && InBounds(p.r, p.c) && IsHole(t, g[p.r][p.c]) && IsCompletion(t, g, h)
    ensures 1 <= h[p.r][p.c] <= 9 && IsCompletion(t, Put(g, p.r, p.c, h[p.r][p.c]), h)
  {
    var f := Put(g, p.r, p.c, h[p.r][p.c]);
    forall i, j | 0 <= i < Size && 0 <= j < Size && IsHole(t, f[i][j])
      ensures IsHole(t, g[i][j])
    {
    }
  }

  /** A completion reached with digit n at p lies in the digit loop started at any m <= n. */
  lemma {:induction false} FilledIsReached(t: EmptyTest, g: Grid, p: Pos, m: int, h: Grid)
    requires IsGrid(g) && IsGrid(h) && InBounds(p.r, p.c) && IsHole(t, g[p.r][p.c]) && 1 <= m <= h[p.r][p.c] <= 9
    requires Safe(g, p.r, p.c, h[p.r][p.c]) && h in Completions(t, Put(g, p.r, p.c, h[p.r][p.c]))
    ensures h in CompletionsDigits(t, g, p, m)
    decreases h[p.r][p.c] - m
  {
    if m < h[p.r][p.c] {
      FilledIsReached(t, g, p, m + 1, h);
    }
  }

  /** The grids the search reaches are exactly the completions. */
  lemma CompletionsExactly(t: EmptyTest, g: Grid, h: Grid)
    requires IsGrid(g)
    ensures h in Completions(t, g) <==> IsCompletion(t, g, h)
  {
    if h in Completions(t, g) {
      ReachedIsCompletion(t, g, h);
    }
    if IsCompletion(t, g, h) {
      CompletionIsReached(t, g, h);
    }
  }

  /** The unpruned search counts the completions, one for each. */
  lemma {:induction false} CountIsCompletions(t: EmptyTest, g: Grid)
    requires IsGrid(g)
    ensures Count(t, g) == |Completions(t, g)|
    decreases Holes(t, g), 1, 0
  {
    match FirstHole(t, g)
    case None =>
    case Some(p) => CountDigitsIsCompletions(t, g, p, 1);
  }

  lemma {:induction false} CountDigitsIsCompletions(t: EmptyTest, g: Grid, p: Pos, n: int)
    requires IsGrid(g) && InBounds(p.r, p.c) && IsHole(t, g[p.r][p.c]) && 1 <= n <= 10
    ensures CountDigits(t, g, p, n) == |CompletionsDigits(t, g, p, n)|
    decreases Holes(t, g), 0, 10 - n
  {
    if n < 10 {
      CountDigitsIsCompletions(t, g, p, n + 1);
      if Safe(g, p.r, p.c, n) {
        FillShrinks(t, g, p.r, p.c, n);
        var f := Put(g, p.r, p.c, n);
        CountIsCompletions(t, f);
        FillDisjoint(t, g, p, n);
      }
    }
  }

  /** The completions with n at p and those with a larger digit at p are disjoint. */
  lemma FillDisjoint(t: EmptyTest, g: Grid, p: Pos, n: int)
    requires IsGrid(g) && InBounds(p.r, p.c) && IsHole(t, g[p.r][p.c]) && 1 <= n <= 9 && Safe(g, p.r, p.c, n)
    ensures Completions(t, Put(g, p.r, p.c, n)) !! CompletionsDigits(t, g, p, n + 1)
  {
    var f := Put(g, p.r, p.c, n);
    forall h | h in Completions(t, f)
      ensures h !in CompletionsDigits(t, g, p, n + 1)
    {
      ReachedIsCompletion(t, f, h);
      assert !IsHole(t, f[p.r][p.c]);
      if h in CompletionsDigits(t, g, p, n + 1) {
        DigitReachedIsCompletion(t, g, p, n + 1, h);
      }
    }
  }

  /** A completion exists exactly when the count is positive. */
  lemma CompletionMakesCountPositive(t: EmptyTest, g: Grid, s: Grid)
    requires IsGrid(g) && IsCompletion(t, g, s)
    ensures Count(t, g) >= 1
  {
    CompletionIsReached(t, g, s);
    CountIsCompletions(t, g);
    var all := Completions(t, g);
    assert all == {s} + (all - {s});
  }

  /**
   * Given one completion s, the count is 1 exactly when s is the only
   * completion: the test `countSolutions(...) === 1` is a uniqueness test.
   */
  lemma CountOneIffUnique(t: EmptyTest, g: Grid, s: Grid)
    requires IsGrid(g) && IsCompletion(t, g, s)
    ensures Count(t, g) == 1 <==> forall h :: IsCompletion(t, g, h) ==> h == s
  {
    CompletionIsReached(t, g, s);
    CountIsCompletions(t, g);
    var all := Completions(t, g);
    assert all == {s} + (all - {s});
    if Count(t, g) == 1 {
      forall h | IsCompletion(t, g, h)
        ensures h == s
      {
        CompletionIsReached(t, g, h);
      }
    } else {
      var others := all - {s};
      assert others != {};
      var h :| h in others;
      ReachedIsCompletion(t, g, h);
    }
  }

  /** A solved grid that agrees with a puzzle completes it, under either emptiness test. */
  lemma SolutionIsCompletion(t: EmptyTest, g: Grid, s: Grid)
    requires IsGrid(g) && IsGrid(s) && ValidSolution(s) && Agrees(g, s)
    ensures IsCompletion(t, g, s)
  {
    forall i, j | 0 <= i < Size && 0 <= j < Size && !IsHole(t, g[i][j])
      ensures s[i][j] == g[i][j]
    {
    }
  }
}
