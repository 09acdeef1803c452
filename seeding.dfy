/** The initial grid: `initGridCell(x, y)` and the `grid` built from it. */
module Seeding {
  import opened Concentrations
  import opened Torus
  import opened Grids
  import opened Integers

  const Size: nat := 100
  const GridWidth: nat := Size
  const GridHeight: nat := Size

  /** `initGridCell(x, y)`: the border ring and the block 45..55 × 45..55 start
      saturated, every other cell at rest. */
  function InitGridCell(x: int, y: int): CellState
  {
    if x == 0 || x == Size - 1 || y == 0 || y == Size - 1 then Saturated
    else if (x >= 45 && x <= 55) && (y >= 45 && y <= 55) then Saturated
    else Rest
  }

  /** The values of the initial `grid`: `gridWidth` rows of `gridHeight` cells. */
  function InitialValues(): seq<seq<CellState>>
  {
    seq(GridWidth, x requires 0 <= x < GridWidth => seq(GridHeight, y requires 0 <= y < GridHeight => InitGridCell(x, y)))
  }

  /** How many steps (x, y) is from the outside of the Size × Size square. */
  function BorderDistance(x: int, y: int): int
  {
    Min(Min(x, Size - 1 - x), Min(y, Size - 1 - y))
  }

  /** Chessboard distance between two positions. */
  function ChessDistance(x: int, y: int, cx: int, cy: int): nat
  {
    Max(Abs(x - cx), Abs(y - cy))
  }

  /** The seed: the initial grid has `gridWidth` rows of `gridHeight` cells;
      every cell has a = 1; b = 1 exactly on the outermost ring and within
      chessboard distance 5 of (50, 50), and b = 0 everywhere else. */
  lemma InitialSeed()
    ensures |InitialValues()| == GridWidth
    ensures forall x :: 0 <= x < GridWidth ==> |InitialValues()[x]| == GridHeight
    ensures forall x, y :: 0 <= x < GridWidth && 0 <= y < GridHeight ==>
      InitialValues()[x][y].a == 1.0 &&
      (InitialValues()[x][y].b == 1.0 <==> BorderDistance(x, y) == 0 || ChessDistance(x, y, 50, 50) <= 5) &&
      (InitialValues()[x][y].b == 0.0 <==> BorderDistance(x, y) > 0 && ChessDistance(x, y, 50, 50) > 5)
  {
  }

  /** The seed block is centred on 50, half a cell past the grid's centre
      49.5 (an 11-wide block cannot sit exactly in the middle of 100 cells),
      so the seeding is not mirror symmetric: row 55 = (Size - 1) - 44 is
      seeded but its mirror image, row 44, is not. */
  lemma SeedBlockIsNotSymmetric()
    ensures InitGridCell(55, 50) == Saturated
    ensures InitGridCell(Size - 1 - 55, 50) == Rest
  {
  }

  /** The initial `grid`: rows of fresh cell objects, one per position,
      holding `initGridCell(x, y)`. */
  method InitialGrid() returns (g: Grid)
    ensures fresh(Cells(g))
    ensures Holds(g, InitialValues())
    ensures Rectangular(g) && Distinct(g)
  {
    g := [];
    var x := 0;
    while x < GridWidth
      invariant 0 <= x <= GridWidth && |g| == x
      invariant forall i :: 0 <= i < x ==> |g[i]| == GridHeight
      invariant forall i, j :: 0 <= i < x && 0 <= j < GridHeight ==>
        fresh(g[i][j]) && State(g[i][j]) == InitGridCell(i, j)
      invariant Distinct(g)
    {
      var row: seq<Cell> := [];
      var y := 0;
      while y < GridHeight
        invariant 0 <= y <= GridHeight && |row| == y
        invariant forall j :: 0 <= j < y ==> fresh(row[j]) && State(row[j]) == InitGridCell(x, j)
        invariant forall j, l :: 0 <= j < l < y ==> row[j] != row[l]
        invariant forall j, i, l :: 0 <= j < y && 0 <= i < x && 0 <= l < GridHeight ==> row[j] != g[i][l]
        invariant forall i, j :: 0 <= i < x && 0 <= j < GridHeight ==> State(g[i][j]) == InitGridCell(i, j)
      {
        var init := InitGridCell(x, y);
        var cell := new Cell(init.a, init.b);
        row := row + [cell];
        y := y + 1;
      }
      g := g + [row];
      x := x + 1;
    }
  }
}
