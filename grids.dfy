/** The live grid as the source holds it: rows of cell objects `{a, b}`
    whose fields `update` overwrites in place. A row is a sequence of
    references to cells; the cells are the only thing on the heap. */
module Grids {
  import opened Concentrations
  import opened Torus

  /** A cell object `{a, b}`. */
  class Cell {
    var a: real
    var b: real

    constructor (a: real, b: real)
      ensures this.a == a && this.b == b
    {
      this.a := a;
      this.b := b;
    }
  }

  /** `grid`: `grid[x]` is a row, `grid[x][y]` a cell object. */
  type Grid = seq<seq<Cell>>

  /** The concentrations a cell object currently holds. */
  function State(c: Cell): CellState
    reads c
  {
    CellState(c.a, c.b)
  }

  /** The cell objects of a grid. */
  ghost function Cells(g: Grid): set<Cell>
  {
    set i, j | 0 <= i < |g| && 0 <= j < |g[i]| :: g[i][j]
  }

  /** No cell object sits at two positions of the grid. */
  ghost predicate Distinct(g: Grid)
  {
    forall i, j, k, l ::
      (0 <= i < |g| && 0 <= j < |g[i]| && 0 <= k < |g| && 0 <= l < |g[k]| &&
       (i != k || j != l)) ==> g[i][j] != g[k][l]
  }

  /** The grid's cells hold the values v, position by position. */
  ghost predicate Holds(g: Grid, v: seq<seq<CellState>>)
    reads Cells(g)
  {
    |v| == |g| &&
    forall i :: 0 <= i < |g| ==>
      |v[i]| == |g[i]| && forall j :: 0 <= j < |g[i]| ==> State(g[i][j]) == v[i][j]
  }

  /** The values a grid holds have the grid's shape, so a rectangular grid
      holds a rectangular table, and the table is determined by the cells. */
  lemma HoldsShape(g: Grid, v: seq<seq<CellState>>, w: seq<seq<CellState>>)
    requires Rectangular(g) && Holds(g, v) && Holds(g, w)
    ensures Rectangular(v) && v == w
  {
    forall i | 0 <= i < |v|
      ensures v[i] == w[i]
    {
      assert forall j :: 0 <= j < |v[i]| ==> v[i][j] == State(g[i][j]) == w[i][j];
    }
  }

  /** `copyGrid(grid)`: a new grid whose row i is `grid[i].slice(0)`, a copy
      of the row holding the very same cell objects. The cells are shared,
      not copied: a write through the copy is a write to `grid`'s cells. */
  method CopyGrid(grid: Grid) returns (newGrid: Grid)
    ensures |newGrid| == |grid|
    ensures forall i :: 0 <= i < |grid| ==> |newGrid[i]| == |grid[i]|
    ensures forall i, j :: 0 <= i < |grid| && 0 <= j < |grid[i]| ==> newGrid[i][j] == grid[i][j]
    ensures Cells(newGrid) == Cells(grid)
  {
    var length := |grid|;
    newGrid := [];
    var i := 0;
    while i < length
      invariant 0 <= i <= length && |newGrid| == i
      invariant forall k :: 0 <= k < i ==> newGrid[k] == grid[k]
    {
      newGrid := newGrid + [grid[i][0..]];
      i := i + 1;
    }
    assert newGrid == grid;
  }
}
