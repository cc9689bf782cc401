/**
 * What both carvers share: the JSON form of a puzzle (0 becomes null),
 * the `[puzzle, solution]` pair they return, the shuffled list of the 81
 * cell positions, clue counting, and what "a puzzle with one solution"
 * means.
 */
module Puzzles {
  import opened Opt
  import opened Rules
  import opened Completions

  /** A puzzle cell as sent to the client: null or the cell's value. */
  type Clue = Option<int>

  type ClueGrid = seq<seq<Clue>>

  /** `array_map(fn($cell) => $cell === 0 ? null : $cell, ...)` over every row. */
  function ToClues(g: Grid): (p: ClueGrid)
    requires IsGrid(g)
    ensures |p| == Size && forall i :: 0 <= i < Size ==> |p[i]| == Size
    ensures forall i, j :: 0 <= i < Size && 0 <= j < Size ==> (p[i][j].None? <==> g[i][j] == 0)
    ensures forall i, j :: 0 <= i < Size && 0 <= j < Size && g[i][j] != 0 ==> p[i][j] == Some(g[i][j])
  {
    seq(Size, i requires 0 <= i < Size => seq(Size, j requires 0 <= j < Size => if g[i][j] == 0 then None else Some(g[i][j])))
  }

  /** The client's reading of a puzzle: null is the empty cell 0. */
  function FromClues(p: ClueGrid): (g: Grid)
    requires |p| == Size && forall i :: 0 <= i < Size ==> |p[i]| == Size
    ensures IsGrid(g)
  {
    seq(Size, i requires 0 <= i < Size => seq(Size, j requires 0 <= j < Size => if p[i][j].None? then 0 else p[i][j].value))
  }

  /** No clue is `Some(0)`: the form ToClues produces. */
  ghost predicate IsClueGrid(p: ClueGrid)
  {
    |p| == Size && (forall i :: 0 <= i < Size ==> |p[i]| == Size)
    && forall i, j :: 0 <= i < Size && 0 <= j < Size ==> p[i][j] != Some(0)
  }

  /** Nothing is lost by the null mapping: reading it back gives the grid. */
  lemma FromToClues(g: Grid)
    requires IsGrid(g)
    ensures IsClueGrid(ToClues(g)) && FromClues(ToClues(g)) == g
  {
    GridExt(FromClues(ToClues(g)), g);
  }

  /** On its own form the mapping is onto: every clue grid is the mapping of its reading. */
  lemma ToFromClues(p: ClueGrid)
    requires IsClueGrid(p)
    ensures ToClues(FromClues(p)) == p
  {
    var q := ToClues(FromClues(p));
    forall i | 0 <= i < Size
      ensures q[i] == p[i]
    {
      assert forall j :: 0 <= j < Size ==> q[i][j] == p[i][j];
    }
  }

  /** `['puzzle' => ..., 'solution' => ...]`. */
  datatype Game = Game(puzzle: ClueGrid, solution: Grid)

  /**
   * Every result of `shuffle($positions)`: 81 cells of the grid among
   * which every cell occurs, hence each exactly once.
   */
  ghost predicate IsCellOrder(s: seq<Pos>)
  {
    && |s| == Size * Size
    && (forall m :: 0 <= m < |s| ==> InBounds(s[m].r, s[m].c))
    && (forall i, j :: 0 <= i < Size && 0 <= j < Size ==> Pos(i, j) in s)
  }

  ghost predicate CellOrders(orders: nat -> seq<Pos>)
  {
    forall k :: IsCellOrder(orders(k))
  }

  /** Clearing a clue lowers the clue count by one; clearing an empty cell changes nothing. */
  lemma ClearClue(g: Grid, r: int, c: int)
    requires IsGrid(g) && InBounds(r, c)
    ensures g[r][c] != 0 ==> ClueCount(Put(g, r, c, 0)) == ClueCount(g) - 1
    ensures g[r][c] == 0 ==> Put(g, r, c, 0) == g
  {
    if g[r][c] != 0 {
      var h := Put(g, r, c, 0);
      GridFill(ZeroOnly, h, r, c, g[r][c]);
      PutBack(g, r, c, 0);
    } else {
      assert g[r][c := 0] == g[r];
    }
  }

  lemma {:induction false} RowHolesRange(t: EmptyTest, s: seq<int>)
    ensures RowHoles(t, s) <= |s|
    ensures (forall j :: 0 <= j < |s| ==> !IsHole(t, s[j])) ==> RowHoles(t, s) == 0
    ensures (forall j :: 0 <= j < |s| ==> IsHole(t, s[j])) ==> RowHoles(t, s) == |s|
  {
    if s != [] {
      RowHolesRange(t, s[1..]);
    }
  }

  lemma {:induction false} HolesRange(t: EmptyTest, g: seq<seq<int>>)
    requires forall i :: 0 <= i < |g| ==> |g[i]| == Size
    ensures Holes(t, g) <= |g| * Size
    ensures (forall i, j :: 0 <= i < |g| && 0 <= j < Size ==> !IsHole(t, g[i][j])) ==> Holes(t, g) == 0
    ensures (forall i, j :: 0 <= i < |g| && 0 <= j < Size ==> IsHole(t, g[i][j])) ==> Holes(t, g) == |g| * Size
  {
    if g != [] {
      RowHolesRange(t, g[0]);
      HolesRange(t, g[1..]);
      assert forall i :: 1 <= i < |g| ==> g[1..][i - 1] == g[i];
    }
  }

  /** Every grid has 0 to 81 clues. */
  lemma ClueCountBound(g: Grid)
    requires IsGrid(g)
    ensures 0 <= ClueCount(g) <= Size * Size
  {
    HolesRange(ZeroOnly, g);
  }

  /** A grid with no 0 cell has 81 clues. */
  lemma FullClueCount(g: Grid)
    requires IsGrid(g) && HoleFree(ZeroOnly, g)
    ensures ClueCount(g) == Size * Size
  {
    HolesRange(ZeroOnly, g);
  }

  /** A grid with every cell 0 has no clue. */
  lemma EmptyClueCount(g: Grid)
    requires IsGrid(g) && forall i, j :: 0 <= i < Size && 0 <= j < Size ==> g[i][j] == 0
    ensures ClueCount(g) == 0
  {
    HolesRange(ZeroOnly, g);
  }

  /** s is the one and only way to fill the empty cells of p. */
  ghost predicate UniqueCompletion(t: EmptyTest, p: Grid, s: Grid)
    requires IsGrid(p)
  {
    IsCompletion(t, p, s) && forall h :: IsCompletion(t, p, h) ==> h == s
  }

  /** A solved grid is the unique completion of itself. */
  lemma SolvedIsUnique(t: EmptyTest, s: Grid)
    requires IsGrid(s) && ValidSolution(s)
    ensures UniqueCompletion(t, s, s)
  {
    SolutionIsCompletion(t, s, s);
    forall h | IsCompletion(t, s, h)
      ensures h == s
    {
      GridExt(h, s);
    }
  }

  /**
   * A solved grid with one cell emptied has that grid as its only
   * solution: the row's other eight digits leave one digit for the cell.
   */
  lemma OneHoleIsForced(t: EmptyTest, s: Grid, r: int, c: int)
    requires IsGrid(s) && ValidSolution(s) && InBounds(r, c)
    ensures UniqueCompletion(t, Put(s, r, c, 0), s)
  {
    var p := Put(s, r, c, 0);
    SolutionIsCompletion(t, p, s);
    RowIsPermutation(s, r);
    forall h | IsCompletion(t, p, h)
      ensures h == s
    {
      var v := h[r][c];
      forall k | 0 <= k < Size && k != c
        ensures s[r][k] != v
      {
        assert SameUnit(r, c, r, k);
        assert h[r][k] == p[r][k];
      }
      assert v in RowOf(s, r);
      assert h[r][c] == s[r][c];
      GridExt(h, s);
    }
  }

  // ---- the difficulty string ----

  /** PHP's `strtolower` on one character: A..Z become a..z, every other character is kept. */
  function LowerChar(ch: char): char
  {
    if 'A' <= ch <= 'Z' then (ch as int - 'A' as int + 'a' as int) as char else ch
  }

  /** `strtolower`: A..Z are lowered, every other character is kept. */
  function ToLower(s: string): (r: string)
    ensures |r| == |s|
    ensures forall i :: 0 <= i < |s| ==> r[i] == LowerChar(s[i])
    ensures forall i :: 0 <= i < |s| ==> !('A' <= r[i] <= 'Z')
    ensures forall i :: 0 <= i < |s| && 'A' <= s[i] <= 'Z' ==> r[i] as int == s[i] as int + 32
    ensures forall i :: 0 <= i < |s| && !('A' <= s[i] <= 'Z') ==> r[i] == s[i]
  {
    seq(|s|, i requires 0 <= i < |s| => LowerChar(s[i]))
  }

  /** Lowering twice is lowering once, so the difficulty switch ignores case. */
  lemma ToLowerIdempotent(s: string)
    ensures ToLower(ToLower(s)) == ToLower(s)
  {
  }

  /** Lowering leaves no upper-case letter and changes nothing else. */
  lemma LowerCharSpec(ch: char)
    ensures !('A' <= LowerChar(ch) <= 'Z')
    ensures !('A' <= ch <= 'Z') ==> LowerChar(ch) == ch
    ensures 'A' <= ch <= 'Z' ==> LowerChar(ch) as int == ch as int + 32
  {
  }
}
