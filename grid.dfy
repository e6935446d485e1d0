/** Outcome of an operation that either returns a value or raises an error. */
module Results {

  datatype Result<T, E> = Ok(value: T) | Err(error: E)
}

/**
 * The Grid<int> value the simulation works on: a rectangular table of cell
 * ages, copied when passed or returned by value. Age 0 is a dead cell; a
 * positive age is a live one.
 */
module Grids {

  datatype Grid = Grid(rows: nat, cols: nat, cells: seq<seq<int>>)
  {
    /** No ragged rows: exactly `rows` rows of exactly `cols` cells. */
    predicate Valid()
    {
      |cells| == rows && forall r :: 0 <= r < |cells| ==> |cells[r]| == cols
    }

    /** The grid does not wrap: only these positions exist. */
    predicate InBounds(r: int, c: int)
    {
      0 <= r < rows && 0 <= c < cols
    }

    /** The write `grid[r][c] = v`. */
    function Set(r: int, c: int, v: int): (h: Grid)
      requires Valid() && InBounds(r, c)
      ensures h.Valid() && h.rows == rows && h.cols == cols
      ensures h.cells[r][c] == v
      ensures forall i, j :: InBounds(i, j) && (i != r || j != c) ==> h.cells[i][j] == cells[i][j]
    {
      this.(cells := cells[r := cells[r][c := v]])
    }

    /** `grid.resize(rows, cols)`: the new size, every cell at the default value 0. */
    function Resize(newRows: nat, newCols: nat): (h: Grid)
      ensures h.Valid() && h.rows == newRows && h.cols == newCols
      ensures forall i, j :: h.InBounds(i, j) ==> h.cells[i][j] == 0
    {
      Zeros(newRows, newCols)
    }

    /** `grid.fill(v)`: every cell becomes v, the dimensions stay. */
    function Fill(v: int): (h: Grid)
      requires Valid()
      ensures h.Valid() && h.rows == rows && h.cols == cols
      ensures forall i, j :: InBounds(i, j) ==> h.cells[i][j] == v
    {
      this.(cells := seq(rows, _ => seq(cols, _ => v)))
    }
  }

  /**
   * A freshly sized grid, as built by `Grid<int> g(rows, cols)` or left by
   * `grid.resize(rows, cols)`: every cell holds the default value 0, and
   * nothing of a previous content survives.
   */
  function Zeros(rows: nat, cols: nat): (g: Grid)
    ensures g.Valid() && g.rows == rows && g.cols == cols
    ensures forall i, j :: g.InBounds(i, j) ==> g.cells[i][j] == 0
  {
    Grid(rows, cols, seq(rows, _ => seq(cols, _ => 0)))
  }

  /** Structural equality: the same dimensions and the same age in every cell. */
  predicate SameGrid(a: Grid, b: Grid)
    requires a.Valid() && b.Valid()
  {
    a.rows == b.rows && a.cols == b.cols &&
    forall i, j :: 0 <= i < a.rows && 0 <= j < a.cols ==> a.cells[i][j] == b.cells[i][j]
  }

  /** On well-formed grids, structural equality is value equality. */
  lemma SameGridIsEquality(a: Grid, b: Grid)
    requires a.Valid() && b.Valid()
    ensures SameGrid(a, b) <==> a == b
  {
    if SameGrid(a, b) {
      forall i | 0 <= i < a.rows ensures a.cells[i] == b.cells[i] {
        assert forall j :: 0 <= j < a.cols ==> a.InBounds(i, j);
      }
    }
  }
}
