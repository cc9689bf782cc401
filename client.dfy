/**
 * The board rules of the `SudokuGrid` component: the grid of numbers or
 * nulls the player edits, the cells locked by the puzzle, the optional
 * solution, the selected cell and the set of cells flagged as errors
 * (the keys `"r-c"`, kept here as positions). Only the state transitions
 * are modelled; the fetch and the rendering are not.
 */
module Client {
  import opened Opt
  import opened Rules
  import opened Puzzles

  /** A 9x9 grid of any cell type. */
  ghost predicate Shaped<T>(g: seq<seq<T>>)
  {
    |g| == Size && forall i :: 0 <= i < Size ==> |g[i]| == Size
  }

  /** `emptyGrid(fill)`. */
  function EmptyGrid(fill: Clue): (g: ClueGrid)
    ensures Shaped(g) && forall i, j :: 0 <= i < Size && 0 <= j < Size ==> g[i][j] == fill
  {
    seq(Size, _ => seq(Size, _ => fill))
  }

  /** `emptyBoolGrid(val)`. */
  function EmptyBoolGrid(val: bool): (g: seq<seq<bool>>)
    ensures Shaped(g) && forall i, j :: 0 <= i < Size && 0 <= j < Size ==> g[i][j] == val
  {
    seq(Size, _ => seq(Size, _ => val))
  }

  /** The client's placement rule: no cell other than (r, c) in its row, column or box holds num. */
  ghost predicate ValidPlacement(g: ClueGrid, r: int, c: int, num: int)
    requires Shaped(g) && InBounds(r, c)
  {
    forall i, j {:trigger SameUnit(r, c, i, j)} ::
      0 <= i < Size && 0 <= j < Size && (i != r || j != c) && SameUnit(r, c, i, j) ==> g[i][j] != Some(num)
  }

  /** `isValidPlacement`: the row scan, the column scan and the box scan, each skipping (row, col). */
  method IsValidPlacement(gridToCheck: ClueGrid, row: int, col: int, num: int) returns (ok: bool)
    requires Shaped(gridToCheck) && InBounds(row, col)
    ensures ok == ValidPlacement(gridToCheck, row, col, num)
  {
    for c := 0 to Size
      invariant forall k :: 0 <= k < c && k != col ==> gridToCheck[row][k] != Some(num)
    {
      if c != col && gridToCheck[row][c] == Some(num) {
        assert SameUnit(row, col, row, c);
        return false;
      }
    }
    for r := 0 to Size
      invariant forall k :: 0 <= k < r && k != row ==> gridToCheck[k][col] != Some(num)
    {
      if r != row && gridToCheck[r][col] == Some(num) {
        assert SameUnit(row, col, r, col);
        return false;
      }
    }
    var boxRow, boxCol := BoxStart(row), BoxStart(col);
    BoxRange(row, row);
    BoxRange(col, col);
    for r := boxRow to boxRow + 3
      invariant forall a, b :: boxRow <= a < r && boxCol <= b < boxCol + 3 && (a != row || b != col) ==> gridToCheck[a][b] != Some(num)
    {
      for c := boxCol to boxCol + 3
        invariant forall a, b :: boxRow <= a < r && boxCol <= b < boxCol + 3 && (a != row || b != col) ==> gridToCheck[a][b] != Some(num)
        invariant forall b :: boxCol <= b < c && (r != row || b != col) ==> gridToCheck[r][b] != Some(num)
      {
        if (r != row || c != col) && gridToCheck[r][c] == Some(num) {
          BoxRange(row, r);
          BoxRange(col, c);
          assert SameUnit(row, col, r, c);
          return false;
        }
      }
    }
    forall i, j | 0 <= i < Size && 0 <= j < Size && (i != row || j != col) && SameUnit(row, col, i, j)
      ensures gridToCheck[i][j] != Some(num)
    {
      if i != row && j != col {
        BoxRange(row, i);
        BoxRange(col, j);
      }
    }
    return true;
  }

  /**
   * The client's rule is the server's `isSafe` with the cell itself
   * emptied: for a digit, valid here exactly when safe there.
   */
  lemma PlacementMatchesServer(g: ClueGrid, r: int, c: int, num: int)
    requires Shaped(g) && InBounds(r, c) && num >= 1
    ensures ValidPlacement(g, r, c, num) <==> Safe(Put(FromClues(g), r, c, 0), r, c, num)
  {
    var h := Put(FromClues(g), r, c, 0);
    if ValidPlacement(g, r, c, num) {
      forall i, j | 0 <= i < Size && 0 <= j < Size && SameUnit(r, c, i, j)
        ensures h[i][j] != num
      {
      }
    }
    if Safe(h, r, c, num) {
      forall i, j | 0 <= i < Size && 0 <= j < Size && (i != r || j != c) && SameUnit(r, c, i, j)
        ensures g[i][j] != Some(num)
      {
        assert h[i][j] != num;
      }
    }
  }

  /** The `fixedGrid` loop of `loadGrid`: a cell is locked exactly when the puzzle gives it a value. */
  method FixedMask(puzzle: ClueGrid) returns (fixedGrid: seq<seq<bool>>)
    requires Shaped(puzzle)
    ensures Shaped(fixedGrid)
    ensures forall i, j :: 0 <= i < Size && 0 <= j < Size ==> (fixedGrid[i][j] <==> puzzle[i][j].Some?)
  {
    fixedGrid := EmptyBoolGrid(false);
    for r := 0 to Size
      invariant Shaped(fixedGrid)
      invariant forall i, j :: 0 <= i < r && 0 <= j < Size ==> (fixedGrid[i][j] <==> puzzle[i][j].Some?)
    {
      for c := 0 to Size
        invariant Shaped(fixedGrid)
        invariant forall i, j :: 0 <= i < r && 0 <= j < Size ==> (fixedGrid[i][j] <==> puzzle[i][j].Some?)
        invariant forall j :: 0 <= j < c ==> (fixedGrid[r][j] <==> puzzle[r][j].Some?)
      {
        fixedGrid := fixedGrid[r := fixedGrid[r][c := puzzle[r][c] != None]];
      }
    }
  }

  /** A given or entered value that differs from the solution's cell. */
  predicate Disagrees(v: Clue, s: Clue)
  {
    v.Some? && s != v
  }

  /** The `errs` loop of `loadGrid`: the cells whose puzzle value differs from the solution's. */
  method PrefillErrors(puzzle: ClueGrid, solution: ClueGrid) returns (errs: set<Pos>)
    requires Shaped(puzzle) && Shaped(solution)
    ensures forall p :: p in errs ==> InBounds(p.r, p.c)
    ensures forall i, j :: 0 <= i < Size && 0 <= j < Size ==> (Pos(i, j) in errs <==> Disagrees(puzzle[i][j], solution[i][j]))
  {
    errs := {};
    for r := 0 to Size
      invariant forall p :: p in errs ==> 0 <= p.r < r && 0 <= p.c < Size
      invariant forall i, j :: 0 <= i < r && 0 <= j < Size ==> (Pos(i, j) in errs <==> Disagrees(puzzle[i][j], solution[i][j]))
    {
      for c := 0 to Size
        invariant forall p :: p in errs ==> (0 <= p.r < r && 0 <= p.c < Size) || (p.r == r && 0 <= p.c < c)
        invariant forall i, j :: 0 <= i < r && 0 <= j < Size ==> (Pos(i, j) in errs <==> Disagrees(puzzle[i][j], solution[i][j]))
        invariant forall j :: 0 <= j < c ==> (Pos(r, j) in errs <==> Disagrees(puzzle[r][j], solution[r][j]))
      {
        var v := puzzle[r][c];
        if v != None && solution[r][c] != v {
          errs := errs + {Pos(r, c)};
        }
      }
    }
  }

  /** The component's state. */
  class SudokuGrid {
    var grid: ClueGrid
    var fixed: seq<seq<bool>>
    var solution: Option<ClueGrid>
    var selectedCell: Option<Pos>
    var errors: set<Pos>
    /** The puzzle last loaded: what the locked cells must keep showing. */
    ghost var puzzle: ClueGrid

    /**
     * The shapes, a selection inside the grid, the locked cells being the
     * puzzle's given cells and still showing them, and, once a solution is
     * known, the error set being exactly the filled cells that disagree
     * with it.
     */
    ghost predicate Valid()
      reads this
    {
      && Shaped(grid) && Shaped(fixed) && Shaped(puzzle)
      && (solution.Some? ==> Shaped(solution.value))
      && (selectedCell.Some? ==> InBounds(selectedCell.value.r, selectedCell.value.c))
      && (forall i, j :: 0 <= i < Size && 0 <= j < Size ==> (fixed[i][j] <==> puzzle[i][j].Some?))
      && (forall i, j :: 0 <= i < Size && 0 <= j < Size && fixed[i][j] ==> grid[i][j] == puzzle[i][j])
      && (forall p :: p in errors ==> InBounds(p.r, p.c))
      && (solution.Some? ==> forall i, j :: 0 <= i < Size && 0 <= j < Size ==>
            (Pos(i, j) in errors <==> Disagrees(grid[i][j], solution.value[i][j])))
    }

    /** The initial `useState` values. */
    constructor()
      ensures Valid()
      ensures grid == EmptyGrid(None) && fixed == EmptyBoolGrid(false)
      ensures solution == None && selectedCell == None && errors == {}
    {
      grid := EmptyGrid(None);
      fixed := EmptyBoolGrid(false);
      solution := None;
      selectedCell := None;
      errors := {};
      puzzle := EmptyGrid(None);
    }

    /**
     * The state updates of `loadGrid` for a response with fields puzzle and
     * solution: nothing without a puzzle; otherwise the grid is the puzzle,
     * the locked cells are its given cells, and the errors are the given
     * cells that disagree with the solution (none without a solution).
     */
    method Load(responsePuzzle: Option<ClueGrid>, responseSolution: Option<ClueGrid>)
      requires Valid()
      requires responsePuzzle.Some? ==> Shaped(responsePuzzle.value)
      requires responseSolution.Some? ==> Shaped(responseSolution.value)
      modifies this
      ensures Valid() && selectedCell == old(selectedCell)
      ensures responsePuzzle.None? ==>
        grid == old(grid) && fixed == old(fixed) && solution == old(solution) && errors == old(errors) && puzzle == old(puzzle)
      ensures responsePuzzle.Some? ==>
        && grid == responsePuzzle.value && puzzle == responsePuzzle.value && solution == responseSolution
        && (forall i, j :: 0 <= i < Size && 0 <= j < Size ==> (fixed[i][j] <==> grid[i][j].Some?))
        && (responseSolution.None? ==> errors == {})
        && (responseSolution.Some? ==> forall i, j :: 0 <= i < Size && 0 <= j < Size ==>
              (Pos(i, j) in errors <==> Disagrees(grid[i][j], responseSolution.value[i][j])))
    {
      if responsePuzzle.Some? {
        var data := responsePuzzle.value;
        grid := data;
        puzzle := data;
        fixed := FixedMask(data);
        if responseSolution.Some? {
          solution := responseSolution;
          errors := PrefillErrors(data, responseSolution.value);
        } else {
          solution := None;
          errors := {};
        }
      }
    }

    /** `onCellClick`. */
    method SelectCell(row: int, col: int)
      requires Valid() && InBounds(row, col)
      modifies this
      ensures Valid() && selectedCell == Some(Pos(row, col)) && puzzle == old(puzzle)
      ensures grid == old(grid) && fixed == old(fixed) && solution == old(solution) && errors == old(errors)
    {
      selectedCell := Some(Pos(row, col));
    }

    /** Whether an entry of num at (r, c) in the new grid is flagged: against the solution if there is one, else by the placement rule. */
    ghost predicate Wrong(newGrid: ClueGrid, r: int, c: int, num: int)
      requires Shaped(newGrid) && InBounds(r, c)
      requires solution.Some? ==> Shaped(solution.value)
      reads this
    {
      match solution
      case Some(s) => s[r][c] != Some(num)
      case None => !ValidPlacement(newGrid, r, c, num)
    }

    /**
     * `onNumberClick(num)`: nothing without a selection or on a locked
     * cell; otherwise only the selected cell changes, to num, and only its
     * error flag changes, to whether the entry is wrong.
     */
    method NumberClick(num: int)
      requires Valid()
      modifies this
      ensures Valid()
      ensures fixed == old(fixed) && solution == old(solution) && selectedCell == old(selectedCell) && puzzle == old(puzzle)
      ensures selectedCell.None? || fixed[selectedCell.value.r][selectedCell.value.c] ==>
        grid == old(grid) && errors == old(errors)
      ensures selectedCell.Some? && !fixed[selectedCell.value.r][selectedCell.value.c] ==>
        var Pos(r, c) := selectedCell.value;
        && grid == old(grid)[r := old(grid)[r][c := Some(num)]]
        && errors == (if Wrong(grid, r, c, num) then old(errors) + {Pos(r, c)} else old(errors) - {Pos(r, c)})
    {
      if selectedCell.None? {
        return;
      }
      var row, col := selectedCell.value.r, selectedCell.value.c;
      if fixed[row][col] {
        return;
      }
      var newGrid := grid[row := grid[row][col := Some(num)]];
      var newErrors := errors;
      if solution.Some? {
        var correct := solution.value[row][col] == Some(num);
        if !correct {
          newErrors := newErrors + {Pos(row, col)};
        } else {
          newErrors := newErrors - {Pos(row, col)};
        }
      } else {
        var ok := IsValidPlacement(newGrid, row, col, num);
        if !ok {
          newErrors := newErrors + {Pos(row, col)};
        } else {
          newErrors := newErrors - {Pos(row, col)};
        }
      }
      grid := newGrid;
      errors := newErrors;
    }

    /**
     * `onRemoveClick`: nothing without a selection or on a locked cell;
     * otherwise only the selected cell changes, to null, and only its
     * error flag is dropped.
     */
    method RemoveClick()
      requires Valid()
      modifies this
      ensures Valid()
      ensures fixed == old(fixed) && solution == old(solution) && selectedCell == old(selectedCell) && puzzle == old(puzzle)
      ensures selectedCell.None? || fixed[selectedCell.value.r][selectedCell.value.c] ==>
        grid == old(grid) && errors == old(errors)
      ensures selectedCell.Some? && !fixed[selectedCell.value.r][selectedCell.value.c] ==>
        var Pos(r, c) := selectedCell.value;
        && grid == old(grid)[r := old(grid)[r][c := None]]
        && errors == old(errors) - {Pos(r, c)}
    {
      if selectedCell.None? {
        return;
      }
      var row, col := selectedCell.value.r, selectedCell.value.c;
      if fixed[row][col] {
        return;
      }
      var newGrid := grid[row := grid[row][col := None]];
      var newErrors := errors - {Pos(row, col)};
      grid := newGrid;
      errors := newErrors;
    }
  }
}
