/** One call of `update(grid)`. Because `copyGrid` copies only the row arrays,
    the cells `update` writes are the input grid's own cells, and a cell
    visited later in row-major order reads neighbours that were already
    updated: the step is an in-place Gauss-Seidel sweep. `Step` gives the
    values that sweep produces; the method `Update` does it on the heap. */
module Stepper {
  import opened Concentrations
  import opened Kinetics
  import opened Kernel
  import opened Torus
  import opened Grids
  import opened Sweep

  /** The new concentrations of cell (x, y) computed from the grid as it
      stands when the cell is visited: the diffusion of each species over
      the wrapped 3×3 area, then `updateA` / `updateB` on the cell's own
      current a and b. */
  function StepCell(v: seq<seq<CellState>>, x: nat, y: nat): CellState
    requires Rectangular(v) && x < |v| && y < |v[x]|
  {
    var area := Area(v, x, y);
    var c := v[x][y];
    CellState(UpdateA(c.a, c.b, DiffusionOf(A, area, LaplacianMatrix)),
              UpdateB(c.a, c.b, DiffusionOf(B, area, LaplacianMatrix)))
  }

  /** StepCell as a rule of the sweep. The sweep only applies it inside the
      grid, and only to grids shaped like a rectangular input, so the
      fallback value is never used there. */
  function Visit(v: seq<seq<CellState>>, x: nat, y: nat): CellState
  {
    if Rectangular(v) && x < |v| && y < |v[x]| then StepCell(v, x, y) else Rest
  }

  /** The values `update` leaves in the grid's cells. */
  function Step(v: seq<seq<CellState>>): (r: seq<seq<CellState>>)
    requires Rectangular(v)
    ensures SameShape(r, v) && Rectangular(r)
  {
    SweepAll(v, Visit)
  }

  lemma SameShapeRectangular(u: seq<seq<CellState>>, v: seq<seq<CellState>>)
    requires SameShape(u, v) && Rectangular(v)
    ensures Rectangular(u)
  {
  }

  /** The step cell by cell: the new value of (x, y) is StepCell applied to
      the grid in which every cell before (x, y) in row-major order already
      holds its new value and every other cell, (x, y) included, its old one. */
  lemma StepReadsUpdatedPredecessors(v: seq<seq<CellState>>, x: nat, y: nat)
    requires Rectangular(v) && x < |v| && y < |v[x]|
    ensures Rectangular(SeenAt(v, Step(v), x, y))
    ensures SeenAt(v, Step(v), x, y)[x][y] == v[x][y]
    ensures Step(v)[x][y] == StepCell(SeenAt(v, Step(v), x, y), x, y)
  {
    SweepReadsUpdatedPredecessors(v, x, y, Visit);
    SameShapeRectangular(SeenAt(v, Step(v), x, y), v);
  }

  /** The first cell, (0, 0), is computed from the old grid alone. */
  lemma FirstCellUsesOldGrid(v: seq<seq<CellState>>)
    requires Rectangular(v) && |v| > 0 && |v[0]| > 0
    ensures Step(v)[0][0] == StepCell(v, 0, 0)
  {
    FirstCellSeesOldGrid(v, Visit);
  }

  /** Every cell of the grid is in the rest state {a: 1, b: 0}. */
  predicate AllRest(v: seq<seq<CellState>>)
  {
    forall i, j :: 0 <= i < |v| && 0 <= j < |v[i]| ==> v[i][j] == Rest
  }

  /** A cell whose whole neighbourhood is at rest stays at rest. */
  lemma RestCellStays(v: seq<seq<CellState>>, x: nat, y: nat)
    requires Rectangular(v) && AllRest(v) && x < |v| && y < |v[x]|
    ensures StepCell(v, x, y) == Rest
  {
    var area := Area(v, x, y);
    AreaIsWindow(v, x, y);
    assert AtRest(area);
    RestWindowHasNoDiffusion(area);
    RestIsFixedPoint();
  }

  /** The uniform rest state is a fixed point of `update`. */
  lemma RestGridIsFixedPoint(v: seq<seq<CellState>>)
    requires Rectangular(v) && AllRest(v)
    ensures Step(v) == v
  {
    forall i, j | 0 <= i < |v| && 0 <= j < |v[i]|
      ensures Visit(v, i, j) == v[i][j]
    {
      RestCellStays(v, i, j);
    }
    SweepFixed(v, Visit);
  }

  /** The new a and b of cell (x, y) as the inner loop of `update` computes
      them: the `edges` and the `area` of cells as they currently stand, the
      diffusion of each species over the area, then `updateA` / `updateB` on
      the cell's own current a and b. */
  method NewCellState(grid: Grid, x: nat, y: nat, ghost s: seq<seq<CellState>>) returns (a: real, b: real)
    requires Holds(grid, s) && Rectangular(s) && x < |grid| && y < |grid[x]|
    ensures CellState(a, b) == StepCell(s, x, y)
  {
    var e := EdgesOf(x, y, |grid|, |grid[x]|);
    var area := [
      [State(grid[e.top][e.left]), State(grid[e.top][y]), State(grid[e.top][e.right])],
      [State(grid[x][e.left]), State(grid[x][y]), State(grid[x][e.right])],
      [State(grid[e.bottom][e.left]), State(grid[e.bottom][y]), State(grid[e.bottom][e.right])]
    ];
    assert area == Area(s, x, y);
    var aDiffusion := Diffusion(A, area, LaplacianMatrix);
    var bDiffusion := Diffusion(B, area, LaplacianMatrix);
    a := UpdateA(grid[x][y].a, grid[x][y].b, aDiffusion);
    b := UpdateB(grid[x][y].a, grid[x][y].b, bDiffusion);
  }

  /** A rule of the sweep that agrees with StepCell wherever StepCell is
      defined. The heap methods below are written against such a rule, so
      that they reason about the order of the sweep and not about the
      arithmetic of a cell. */
  ghost predicate Computes(rule: Rule<CellState>)
  {
    forall t: seq<seq<CellState>>, i: nat, j: nat {:trigger StepCell(t, i, j)} ::
      Rectangular(t) && i < |t| && j < |t[i]| ==> rule(t, i, j) == StepCell(t, i, j)
  }

  /** Visit is such a rule. */
  lemma VisitComputes() returns (rule: Rule<CellState>)
    ensures Computes(rule)
  {
    rule := Visit;
  }

  /** Sweeping with any rule that computes StepCell is `Step`. */
  lemma ComputedSweepIsStep(v: seq<seq<CellState>>, rule: Rule<CellState>)
    requires Rectangular(v) && Computes(rule)
    ensures SweepAll(v, rule) == Step(v)
  {
    forall t, i: nat, j: nat | SameShape(t, v) && i < |t| && j < |t[i]|
      ensures rule(t, i, j) == Visit(t, i, j)
    {
      SameShapeRectangular(t, v);
      assert StepCell(t, i, j) == Visit(t, i, j);
    }
    SweepRowsAgree(v, |v|, rule, Visit);
  }

  /** The body of the inner loop of `update` for cell (x, y): computes the
      new a and b and writes them into `newGrid[x][y]`, which is the cell
      object `grid[x][y]`; no other cell changes. */
  method VisitCell(grid: Grid, newRow: seq<Cell>, x: nat, y: nat, ghost s: seq<seq<CellState>>,
                   ghost rule: Rule<CellState>)
    requires Distinct(grid) && Holds(grid, s) && Rectangular(s) && Computes(rule)
    requires x < |grid| && y < |grid[x]| && newRow == grid[x]
    modifies grid[x][y]
    ensures Holds(grid, s[x := s[x][y := rule(s, x, y)]])
  {
    var a, b := NewCellState(grid, x, y, s);
    ghost var next := s[x := s[x][y := CellState(a, b)]];
    var cell := newRow[y];
    cell.a := a;
    cell.b := b;
    forall i, j | 0 <= i < |grid| && 0 <= j < |grid[i]|
      ensures State(grid[i][j]) == next[i][j]
    {
      if i != x || j != y {
        assert grid[i][j] != cell;
      }
    }
  }

  /** The inner loop of `update` for row x: visits (x, 0), (x, 1), ... in
      turn, taking the grid from the values s to the values after row x. */
  method VisitRow(grid: Grid, newRow: seq<Cell>, x: nat, ghost s: seq<seq<CellState>>,
                  ghost rule: Rule<CellState>)
    requires Distinct(grid) && Holds(grid, s) && Rectangular(s) && x < |s| && Computes(rule)
    requires newRow == grid[x]
    modifies Cells(grid)
    ensures Holds(grid, SweepRow(s, x, |s[x]|, rule))
  {
    var y := 0;
    while y < |grid[x]|
      invariant 0 <= y <= |grid[x]|
      invariant Holds(grid, SweepRow(s, x, y, rule))
    {
      ghost var t := SweepRow(s, x, y, rule);
      SameShapeRectangular(t, s);
      VisitCell(grid, newRow, x, y, t, rule);
      y := y + 1;
    }
  }

  /** The two loops of `update`: rows x = 0, 1, ... in turn, each swept by
      VisitRow, take the grid's cells from the values v to `Step(v)`. */
  method SweepGrid(grid: Grid, newGrid: Grid, ghost v: seq<seq<CellState>>)
    requires Distinct(grid) && Holds(grid, v) && Rectangular(v) && newGrid == grid
    modifies Cells(grid)
    ensures Holds(grid, Step(v))
  {
    ghost var rule := VisitComputes();
    var x := 0;
    while x < |grid|
      invariant 0 <= x <= |grid|
      invariant Holds(grid, SweepRows(v, x, rule))
    {
      SameShapeRectangular(SweepRows(v, x, rule), v);
      VisitRow(grid, newGrid[x], x, SweepRows(v, x, rule), rule);
      x := x + 1;
    }
    ComputedSweepIsStep(v, rule);
  }

  /** `update(grid)`: returns a copy of the grid holding the same cell
      objects, after overwriting every cell, in row-major order, with the
      value `updateA` / `updateB` compute from the cell and its area as they
      stand at that moment. The input's cells are the ones written, so the
      input and the result hold the same new values. */
  method Update(grid: Grid, ghost v: seq<seq<CellState>>) returns (newGrid: Grid)
    requires Rectangular(grid) && Distinct(grid) && Holds(grid, v)
    modifies Cells(grid)
    ensures Rectangular(v)
    ensures |newGrid| == |grid|
    ensures forall i :: 0 <= i < |grid| ==> |newGrid[i]| == |grid[i]|
    ensures forall i, j :: 0 <= i < |grid| && 0 <= j < |grid[i]| ==> newGrid[i][j] == grid[i][j]
    ensures Holds(grid, Step(v)) && Holds(newGrid, Step(v))
  {
    HoldsShape(grid, v, v);
    newGrid := CopyGrid(grid);
    assert newGrid == grid by {
      assert forall i :: 0 <= i < |grid| ==> newGrid[i] == grid[i];
    }
    SweepGrid(grid, newGrid, v);
  }
}
