/** Toroidal neighbour addressing: the `edges` object and the 3×3 `area`
    that `update` builds for every cell. */
module Torus {

  /** The neighbour before index i on an axis of length n: `top` (along x)
      and `left` (along y). Index 0 wraps to n - 1. */
  function Before(i: nat, n: nat): (r: nat)
    requires i < n
    ensures r < n
    ensures r == (i + n - 1) % n
  {
    if i > 0 then i - 1 else n - 1
  }

  /** The neighbour after index i on an axis of length n: `bottom` (along x)
      and `right` (along y). Index n - 1 wraps to 0. */
  function After(i: nat, n: nat): (r: nat)
    requires i < n
    ensures r < n
    ensures r == (i + 1) % n
  {
    if i < n - 1 then i + 1 else 0
  }

  /** The two ends of an axis are neighbours of each other. */
  lemma EndsAreNeighbours(n: nat)
    requires n >= 1
    ensures Before(0, n) == n - 1
    ensures After(n - 1, n) == 0
  {
  }

  /** Stepping back then forward, or forward then back, returns to i. */
  lemma BeforeAfterInverse(i: nat, n: nat)
    requires i < n
    ensures After(Before(i, n), n) == i
    ensures Before(After(i, n), n) == i
  {
  }

  /** The `edges` object of `update`. */
  datatype Edges = Edges(top: nat, bottom: nat, left: nat, right: nat)

  /** `edges` for cell (x, y): rows wrap over `grid.length`, columns over
      `grid[x].length`. */
  function EdgesOf(x: nat, y: nat, rows: nat, columns: nat): (e: Edges)
    requires x < rows && y < columns
    ensures e.top < rows && e.bottom < rows && e.left < columns && e.right < columns
  {
    Edges(Before(x, rows), After(x, rows), Before(y, columns), After(y, columns))
  }

  /** Every row has the length of the first. */
  predicate Rectangular<T>(g: seq<seq<T>>)
  {
    forall i :: 0 <= i < |g| ==> |g[i]| == |g[0]|
  }

  /** The 3×3 `area` around (x, y): rows top, x, bottom; columns left, y, right. */
  function Area<T>(g: seq<seq<T>>, x: nat, y: nat): (r: seq<seq<T>>)
    requires Rectangular(g) && x < |g| && y < |g[x]|
    ensures |r| == 3 && |r[0]| == 3 && |r[1]| == 3 && |r[2]| == 3
  {
    var e := EdgesOf(x, y, |g|, |g[x]|);
    [[g[e.top][e.left],    g[e.top][y],    g[e.top][e.right]],
     [g[x][e.left],        g[x][y],        g[x][e.right]],
     [g[e.bottom][e.left], g[e.bottom][y], g[e.bottom][e.right]]]
  }

  /** Position i of the window along an axis of length n centred on c is
      c + i - 1, taken modulo n. */
  function Offset(c: nat, i: nat, n: nat): (r: nat)
    requires c < n && i < 3
    ensures r < n
  {
    (c + i + n - 1) % n
  }

  /** The window's three positions are the neighbour before, the centre and
      the neighbour after. */
  lemma OffsetIsNeighbour(c: nat, n: nat)
    requires c < n
    ensures Offset(c, 0, n) == Before(c, n)
    ensures Offset(c, 1, n) == c
    ensures Offset(c, 2, n) == After(c, n)
  {
    assert (c + n) % n == c;
  }

  /** The area is the wrapped 3×3 window: entry [i][j] is the cell at
      (x + i - 1, y + j - 1) modulo the grid's dimensions, so the cell itself
      sits at [1][1]. */
  lemma AreaIsWindow<T>(g: seq<seq<T>>, x: nat, y: nat)
    requires Rectangular(g) && x < |g| && y < |g[x]|
    ensures Area(g, x, y)[1][1] == g[x][y]
    ensures forall i, j :: 0 <= i < 3 && 0 <= j < 3 ==>
      Area(g, x, y)[i][j] == g[Offset(x, i, |g|)][Offset(y, j, |g[x]|)]
  {
    OffsetIsNeighbour(x, |g|);
    OffsetIsNeighbour(y, |g[x]|);
  }
}
