/**
 * What the two solution counters compute, as functions of the grid they
 * are given: the public counter's pruned search, the app counter's search
 * over its persistent total, and the unpruned number of completions both
 * of them approximate.
 */
module Counting {
  import opened Opt
  import opened Rules

  function Min(a: int, b: int): int { if a <= b then a else b }

  function Max(a: int, b: int): int { if a >= b then a else b }

  /**
   * The unpruned search: 1 for a grid with no empty cell, otherwise the sum
   * over the digits that are safe in the first empty cell of the counts
   * with that digit placed.
   */
  ghost function Count(t: EmptyTest, g: Grid): nat
    requires IsGrid(g)
    decreases Holes(t, g), 1, 0
  {
    match FirstHole(t, g)
    case None => 1
    case Some(p) => CountDigits(t, g, p, 1)
  }

  ghost function CountDigits(t: EmptyTest, g: Grid, p: Pos, n: int): nat
    requires IsGrid(g) && InBounds(p.r, p.c) && IsHole(t, g[p.r][p.c]) && 1 <= n <= 10
    decreases Holes(t, g), 0, 10 - n
  {
    if n == 10 then 0
    else
      var here := if Safe(g, p.r, p.c, n) then FillShrinks(t, g, p.r, p.c, n); Count(t, Put(g, p.r, p.c, n)) else 0;
      here + CountDigits(t, g, p, n + 1)
  }

  /**
   * `countSolutionsRecursive` of the public solver: the value of the
   * by-reference counter after the call, given its value before. Empty
   * means `=== 0`; after each safe digit the search stops once the counter
   * has reached limit.
   */
  ghost function Search(g: Grid, limit: int, acc: nat): nat
    requires IsGrid(g)
    decreases Holes(ZeroOnly, g), 1, 0
  {
    match FirstHole(ZeroOnly, g)
    case None => acc + 1
    case Some(p) => SearchDigits(g, p, 1, limit, acc)
  }

  ghost function SearchDigits(g: Grid, p: Pos, n: int, limit: int, acc: nat): nat
    requires IsGrid(g) && InBounds(p.r, p.c) && g[p.r][p.c] == 0 && 1 <= n <= 10
    decreases Holes(ZeroOnly, g), 0, 10 - n
  {
    if n == 10 then acc
    else if Safe(g, p.r, p.c, n) then
      FillShrinks(ZeroOnly, g, p.r, p.c, n);
      var after := Search(Put(g, p.r, p.c, n), limit, acc);
      if after >= limit then after else SearchDigits(g, p, n + 1, limit, after)
    else SearchDigits(g, p, n + 1, limit, acc)
  }

  /**
   * `countSolutions` of the app solver: the value of the static counter
   * after the call, given its value before. A call that finds the counter
   * at limit returns at once; empty means `< 1`; every safe digit is tried.
   */
  ghost function AppSearch(g: Grid, limit: int, acc: nat): nat
    requires IsGrid(g)
    decreases Holes(BelowOne, g), 1, 0
  {
    if acc >= limit then acc
    else
      match FirstHole(BelowOne, g)
      case None => acc + 1
      case Some(p) => AppDigits(g, p, 1, limit, acc)
  }

  ghost function AppDigits(g: Grid, p: Pos, n: int, limit: int, acc: nat): nat
    requires IsGrid(g) && InBounds(p.r, p.c) && g[p.r][p.c] < 1 && 1 <= n <= 10
    decreases Holes(BelowOne, g), 0, 10 - n
  {
    if n == 10 then acc
    else if Safe(g, p.r, p.c, n) then
      FillShrinks(BelowOne, g, p.r, p.c, n);
      AppDigits(g, p, n + 1, limit, AppSearch(Put(g, p.r, p.c, n), limit, acc))
    else AppDigits(g, p, n + 1, limit, acc)
  }

  /**
   * The public search adds the number of completions to its counter, capped
   * at limit, whenever the counter starts below limit.
   */
  lemma {:induction false} SearchIsCappedCount(g: Grid, limit: int, acc: nat)
    requires IsGrid(g) && acc < limit
    ensures Search(g, limit, acc) == Min(limit, acc + Count(ZeroOnly, g))
    decreases Holes(ZeroOnly, g), 1, 0
  {
    match FirstHole(ZeroOnly, g)
    case None =>
    case Some(p) => SearchDigitsIsCappedCount(g, p, 1, limit, acc);
  }

  lemma {:induction false} SearchDigitsIsCappedCount(g: Grid, p: Pos, n: int, limit: int, acc: nat)
    requires IsGrid(g) && InBounds(p.r, p.c) && g[p.r][p.c] == 0 && 1 <= n <= 10 && acc < limit
    ensures SearchDigits(g, p, n, limit, acc) == Min(limit, acc + CountDigits(ZeroOnly, g, p, n))
    decreases Holes(ZeroOnly, g), 0, 10 - n
  {
    if n < 10 {
      if Safe(g, p.r, p.c, n) {
        FillShrinks(ZeroOnly, g, p.r, p.c, n);
        var h := Put(g, p.r, p.c, n);
        SearchIsCappedCount(h, limit, acc);
        var after := Search(h, limit, acc);
        if after < limit {
          SearchDigitsIsCappedCount(g, p, n + 1, limit, after);
        }
      } else {
        SearchDigitsIsCappedCount(g, p, n + 1, limit, acc);
      }
    }
  }

  /**
   * The app search, started below limit, ends at its start value plus the
   * number of completions, capped at limit; started at or above limit it
   * does nothing.
   */
  lemma {:induction false} AppSearchIsCappedCount(g: Grid, limit: int, acc: nat)
    requires IsGrid(g)
    ensures AppSearch(g, limit, acc) == if acc >= limit then acc else Min(limit, acc + Count(BelowOne, g))
    decreases Holes(BelowOne, g), 1, 0
  {
    if acc < limit {
      match FirstHole(BelowOne, g)
      case None =>
      case Some(p) => AppDigitsIsCappedCount(g, p, 1, limit, acc);
    }
  }

  lemma {:induction false} AppDigitsIsCappedCount(g: Grid, p: Pos, n: int, limit: int, acc: nat)
    requires IsGrid(g) && InBounds(p.r, p.c) && g[p.r][p.c] < 1 && 1 <= n <= 10
    ensures AppDigits(g, p, n, limit, acc) == if acc >= limit then acc else Min(limit, acc + CountDigits(BelowOne, g, p, n))
    decreases Holes(BelowOne, g), 0, 10 - n
  {
    if n < 10 {
      if Safe(g, p.r, p.c, n) {
        FillShrinks(BelowOne, g, p.r, p.c, n);
        var h := Put(g, p.r, p.c, n);
        AppSearchIsCappedCount(h, limit, acc);
        AppDigitsIsCappedCount(g, p, n + 1, limit, AppSearch(h, limit, acc));
      } else {
        AppDigitsIsCappedCount(g, p, n + 1, limit, acc);
      }
    }
  }

  /** With a positive limit the public count lies in [0, limit]. */
  lemma SearchBounded(g: Grid, limit: int)
    requires IsGrid(g) && limit >= 1
    ensures 0 <= Search(g, limit, 0) <= limit
  {
    SearchIsCappedCount(g, limit, 0);
  }

  /** A grid with no cell equal to 0 counts exactly 1, whatever its clues and the limit. */
  lemma SearchFullGrid(g: Grid, limit: int)
    requires IsGrid(g) && HoleFree(ZeroOnly, g)
    ensures Search(g, limit, 0) == 1
  {
  }

  /** No safe digit from n on: the digit loop leaves the counter as it found it. */
  lemma {:induction false} SearchDigitsNoneSafe(g: Grid, p: Pos, n: int, limit: int, acc: nat)
    requires IsGrid(g) && InBounds(p.r, p.c) && g[p.r][p.c] == 0 && 1 <= n <= 10
    requires forall d :: n <= d <= 9 ==> !Safe(g, p.r, p.c, d)
    ensures SearchDigits(g, p, n, limit, acc) == acc
    decreases 10 - n
  {
    if n < 10 {
      SearchDigitsNoneSafe(g, p, n + 1, limit, acc);
    }
  }

  /** If no digit is safe in the first empty cell, the public count is 0. */
  lemma SearchDeadEnd(g: Grid, limit: int)
    requires IsGrid(g) && FirstHole(ZeroOnly, g).Some?
    requires forall d :: 1 <= d <= 9 ==> !Safe(g, FirstHole(ZeroOnly, g).value.r, FirstHole(ZeroOnly, g).value.c, d)
    ensures Search(g, limit, 0) == 0
  {
    SearchDigitsNoneSafe(g, FirstHole(ZeroOnly, g).value, 1, limit, 0);
  }

  /** On cells in 0..9 the two emptiness tests give the same count. */
  lemma {:induction false} CountTestsAgree(g: Grid)
    requires IsGrid(g) && InRange(g)
    ensures Count(ZeroOnly, g) == Count(BelowOne, g)
    decreases Holes(BelowOne, g), 1, 0
  {
    assert FirstHole(ZeroOnly, g) == FirstHole(BelowOne, g) by {
      FirstHoleTestsAgree(g, 0, 0);
    }
    match FirstHole(BelowOne, g)
    case None =>
    case Some(p) => CountDigitsTestsAgree(g, p, 1);
  }

  lemma {:induction false} CountDigitsTestsAgree(g: Grid, p: Pos, n: int)
    requires IsGrid(g) && InRange(g) && InBounds(p.r, p.c) && g[p.r][p.c] == 0 && 1 <= n <= 10
    ensures CountDigits(ZeroOnly, g, p, n) == CountDigits(BelowOne, g, p, n)
    decreases Holes(BelowOne, g), 0, 10 - n
  {
    if n < 10 {
      if Safe(g, p.r, p.c, n) {
        FillShrinks(BelowOne, g, p.r, p.c, n);
        CountTestsAgree(Put(g, p.r, p.c, n));
      }
      CountDigitsTestsAgree(g, p, n + 1);
    }
  }

  lemma {:induction false} FirstHoleTestsAgree(g: Grid, i: int, j: int)
    requires IsGrid(g) && InRange(g) && 0 <= i <= Size && 0 <= j <= Size
    ensures FirstHoleFrom(ZeroOnly, g, i, j) == FirstHoleFrom(BelowOne, g, i, j)
    decreases Size - i, Size - j
  {
    if i < Size {
      if j == Size {
        FirstHoleTestsAgree(g, i + 1, 0);
      } else {
        FirstHoleTestsAgree(g, i, j + 1);
      }
    }
  }

  /** The app search only looks at which cells hold which digit, never at what an empty cell holds. */
  lemma {:induction false} AppSearchSameDigits(g: Grid, h: Grid, limit: int, acc: nat)
    requires IsGrid(g) && IsGrid(h) && SameDigits(g, h)
    ensures AppSearch(g, limit, acc) == AppSearch(h, limit, acc)
    decreases Holes(BelowOne, g), 1, 0
  {
    if acc < limit {
      SameDigitsFirstHole(g, h);
      match FirstHole(BelowOne, g)
      case None =>
      case Some(p) => AppDigitsSameDigits(g, h, p, 1, limit, acc);
    }
  }

  lemma {:induction false} AppDigitsSameDigits(g: Grid, h: Grid, p: Pos, n: int, limit: int, acc: nat)
    requires IsGrid(g) && IsGrid(h) && SameDigits(g, h) && InBounds(p.r, p.c) && g[p.r][p.c] < 1 && 1 <= n <= 10
    ensures AppDigits(g, p, n, limit, acc) == AppDigits(h, p, n, limit, acc)
    decreases Holes(BelowOne, g), 0, 10 - n
  {
    if n < 10 {
      SameDigitsSafe(g, h, p.r, p.c, n);
      if Safe(g, p.r, p.c, n) {
        FillShrinks(BelowOne, g, p.r, p.c, n);
        SameDigitsPut(g, h, p.r, p.c, n);
        AppSearchSameDigits(Put(g, p.r, p.c, n), Put(h, p.r, p.c, n), limit, acc);
        AppDigitsSameDigits(g, h, p, n + 1, limit, AppSearch(Put(g, p.r, p.c, n), limit, acc));
      } else {
        AppDigitsSameDigits(g, h, p, n + 1, limit, acc);
      }
    }
  }
}
