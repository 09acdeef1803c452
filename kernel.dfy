/** The diffusion kernel: `laplacianMatrix` and `diffusion(key, area, laplacianMatrix)`. */
module Kernel {
  import opened Rounding
  import opened Concentrations

  /** `laplacianMatrix`: corners 0.05, edge midpoints 0.2, centre -1. */
  const LaplacianMatrix: seq<seq<real>> :=
    [[0.05, 0.2, 0.05],
     [0.2, -1.0, 0.2],
     [0.05, 0.2, 0.05]]

  /** `flat(1)`: the rows one after another. */
  function Flatten<T>(s: seq<seq<T>>): seq<T>
  {
    if s == [] then [] else Flatten(s[..|s| - 1]) + s[|s| - 1]
  }

  /** `reduce((a, b) => round(a + b, 2), 0)`: the running sum of the weights,
      rounded to two decimals after each addition. */
  function MassOf(ws: seq<real>): real
  {
    if ws == [] then 0.0 else Round(MassOf(ws[..|ws| - 1]) + ws[|ws| - 1], 2)
  }

  /** `laplacianSum`, the kernel's mass. */
  function KernelMass(m: seq<seq<real>>): real
  {
    MassOf(Flatten(m))
  }

  /** Every position of the area has a weight: `laplacianMatrix[x][y]` is
      defined wherever `area[x][y]` is. */
  predicate Covers(m: seq<seq<real>>, area: seq<seq<CellState>>)
  {
    |area| <= |m| && forall x :: 0 <= x < |area| ==> |area[x]| <= |m[x]|
  }

  /** `area[x][y][key] * laplacianMatrix[x][y]`: one weighted term. */
  function Weighted(c: CellState, key: Key, w: real): real
  {
    Get(c, key) * w
  }

  /** The weighted term at every position of the area. */
  function Products(key: Key, area: seq<seq<CellState>>, m: seq<seq<real>>): (r: seq<seq<real>>)
    requires Covers(m, area)
    ensures |r| == |area|
    ensures forall x :: 0 <= x < |area| ==> |r[x]| == |area[x]|
  {
    seq(|area|, x requires 0 <= x < |area| =>
      seq(|area[x]|, y requires 0 <= y < |area[x]| => Weighted(area[x][y], key, m[x][y])))
  }

  /** The loop's accumulator after the given terms, in order:
      `sum = round(sum + round(term, 5), 3)`. */
  function Accumulate(ts: seq<real>): real
  {
    if ts == [] then 0.0 else Round(Accumulate(ts[..|ts| - 1]) + Round(ts[|ts| - 1], 5), 3)
  }

  /** One more term of row x extends the accumulation by one loop step. */
  lemma AccumulateNext(terms: seq<seq<real>>, x: nat, y: nat)
    requires x < |terms| && y < |terms[x]|
    ensures Accumulate(Flatten(terms[..x]) + terms[x][..y + 1])
         == Round(Accumulate(Flatten(terms[..x]) + terms[x][..y]) + Round(terms[x][y], 5), 3)
  {
    var done := Flatten(terms[..x]) + terms[x][..y];
    assert Flatten(terms[..x]) + terms[x][..y + 1] == done + [terms[x][y]];
    assert (done + [terms[x][y]])[..|done|] == done;
  }

  /** A finished row joins the flattened prefix. */
  lemma FlattenNext<T>(s: seq<seq<T>>, x: nat)
    requires x < |s|
    ensures Flatten(s[..x + 1]) == Flatten(s[..x]) + s[x][..|s[x]|]
  {
    assert s[..x + 1][..x] == s[..x];
    assert s[x][..|s[x]|] == s[x];
  }

  /** What `diffusion` returns: the accumulated sum, divided by the mass only
      when the mass is strictly positive. */
  function DiffusionOf(key: Key, area: seq<seq<CellState>>, m: seq<seq<real>>): real
    requires Covers(m, area)
  {
    var sum := Accumulate(Flatten(Products(key, area, m)));
    var mass := KernelMass(m);
    if mass > 0.0 then sum / mass else sum
  }

  /** `diffusion(key, area, laplacianMatrix)`: row-major accumulation over the
      area, then a branch on the sign of the mass. A zero or negative mass
      returns the raw sum. */
  method Diffusion(key: Key, area: seq<seq<CellState>>, m: seq<seq<real>>) returns (r: real)
    requires Covers(m, area)
    ensures r == DiffusionOf(key, area, m)
    ensures KernelMass(m) > 0.0 ==> r == Accumulate(Flatten(Products(key, area, m))) / KernelMass(m)
    ensures KernelMass(m) <= 0.0 ==> r == Accumulate(Flatten(Products(key, area, m)))
  {
    var laplacianSum := KernelMass(m);
    ghost var terms := Products(key, area, m);
    var sum := 0.0;
    var x := 0;
    while x < |area|
      invariant 0 <= x <= |area|
      invariant sum == Accumulate(Flatten(terms[..x]))
    {
      var y := 0;
      assert Flatten(terms[..x]) + terms[x][..y] == Flatten(terms[..x]);
      while y < |area[x]|
        invariant 0 <= y <= |area[x]|
        invariant sum == Accumulate(Flatten(terms[..x]) + terms[x][..y])
      {
        AccumulateNext(terms, x, y);
        var term := Weighted(area[x][y], key, m[x][y]);
        assert term == terms[x][y];
        sum := Round(sum + Round(term, 5), 3);
        y := y + 1;
      }
      FlattenNext(terms, x);
      x := x + 1;
    }
    assert terms[..x] == terms;
    r := if laplacianSum > 0.0 then sum / laplacianSum else sum;
  }

  lemma MassOfSnoc(ws: seq<real>, w: real)
    ensures MassOf(ws + [w]) == Round(MassOf(ws) + w, 2)
  {
    assert (ws + [w])[..|ws|] == ws;
  }

  lemma AccumulateSnoc(ts: seq<real>, t: real)
    ensures Accumulate(ts + [t]) == Round(Accumulate(ts) + Round(t, 5), 3)
  {
    assert (ts + [t])[..|ts|] == ts;
  }

  /** The reference weights, row by row. */
  lemma FlattenLaplacian()
    ensures Flatten(LaplacianMatrix) == [0.05, 0.2, 0.05, 0.2, -1.0, 0.2, 0.05, 0.2, 0.05]
  {
    var m := LaplacianMatrix;
    assert m[..1] == [] + [m[0]];
    assert m[..2] == m[..1] + [m[1]];
    assert m[..3] == m[..2] + [m[2]];
    assert m == m[..3];
    FlattenNext(m, 0);
    FlattenNext(m, 1);
    FlattenNext(m, 2);
  }

  /** One exact step of the mass reduction: when prev + w has at most two
      decimals, rounding leaves it unchanged. */
  lemma MassStep(ws: seq<real>, k: nat, prev: real, n: int)
    requires k < |ws| && MassOf(ws[..k]) == prev
    requires (prev + ws[k]) * Pow10(2) == n as real
    ensures MassOf(ws[..k + 1]) == prev + ws[k]
  {
    assert ws[..k + 1] == ws[..k] + [ws[k]];
    MassOfSnoc(ws[..k], ws[k]);
    RoundExact(prev + ws[k], n, 2);
  }

  /** With the reference matrix the rounded mass is exactly zero, so
      `diffusion` never divides: it always takes the raw-sum branch. */
  lemma ReferenceMassIsZero()
    ensures KernelMass(LaplacianMatrix) == 0.0
  {
    var ws := Flatten(LaplacianMatrix);
    FlattenLaplacian();
    assert Pow10(2) == 100.0;
    assert ws[..0] == [];
    MassStep(ws, 0, 0.0, 5);
    MassStep(ws, 1, 0.05, 25);
    MassStep(ws, 2, 0.25, 30);
    MassStep(ws, 3, 0.3, 50);
    MassStep(ws, 4, 0.5, -50);
    MassStep(ws, 5, -0.5, -30);
    MassStep(ws, 6, -0.3, -25);
    MassStep(ws, 7, -0.25, -5);
    MassStep(ws, 8, -0.05, 0);
    assert ws[..9] == ws;
  }

  /** Hence with the reference matrix `diffusion` returns the raw rounded sum,
      for every area and either species. */
  lemma ReferenceDiffusionIsRawSum(key: Key, area: seq<seq<CellState>>)
    requires Covers(LaplacianMatrix, area)
    ensures DiffusionOf(key, area, LaplacianMatrix) == Accumulate(Flatten(Products(key, area, LaplacianMatrix)))
  {
    ReferenceMassIsZero();
  }

  /** One exact step of the accumulation loop: the term has at most five
      decimals and the new sum at most three, so neither rounding moves. */
  lemma AccumulateStep(ts: seq<real>, k: nat, prev: real, n5: int, n3: int)
    requires k < |ts| && Accumulate(ts[..k]) == prev
    requires ts[k] * Pow10(5) == n5 as real
    requires (prev + ts[k]) * Pow10(3) == n3 as real
    ensures Accumulate(ts[..k + 1]) == prev + ts[k]
  {
    assert ts[..k + 1] == ts[..k] + [ts[k]];
    AccumulateSnoc(ts[..k], ts[k]);
    RoundExact(ts[k], n5, 5);
    RoundExact(prev + ts[k], n3, 3);
  }

  /** Terms that are all zero accumulate to zero. */
  lemma {:induction false} AccumulateZeros(ts: seq<real>)
    requires forall i :: 0 <= i < |ts| ==> ts[i] == 0.0
    ensures Accumulate(ts) == 0.0
  {
    if ts != [] {
      AccumulateZeros(ts[..|ts| - 1]);
      RoundExact(0.0, 0, 5);
      RoundExact(0.0, 0, 3);
    }
  }

  /** A 3×3 window whose every cell is in the rest state `{a: 1, b: 0}`. */
  predicate AtRest(area: seq<seq<CellState>>)
  {
    |area| == 3 && forall x :: 0 <= x < 3 ==> |area[x]| == 3 && forall y :: 0 <= y < 3 ==> area[x][y] == Rest
  }

  lemma RestProductsA(area: seq<seq<CellState>>)
    requires AtRest(area)
    ensures Covers(LaplacianMatrix, area)
    ensures Products(A, area, LaplacianMatrix) == LaplacianMatrix
  {
    var m := LaplacianMatrix;
    var pa := Products(A, area, m);
    assert forall x, y | 0 <= x < 3 && 0 <= y < 3 :: pa[x][y] == m[x][y];
    assert forall x | 0 <= x < 3 :: pa[x] == m[x];
  }

  lemma RestProductsB(area: seq<seq<CellState>>)
    requires AtRest(area)
    ensures Covers(LaplacianMatrix, area)
    ensures Accumulate(Flatten(Products(B, area, LaplacianMatrix))) == 0.0
  {
    var pb := Products(B, area, LaplacianMatrix);
    var zeros := [0.0, 0.0, 0.0];
    assert forall x, y | 0 <= x < 3 && 0 <= y < 3 :: pb[x][y] == 0.0;
    assert forall x | 0 <= x < 3 :: pb[x] == zeros;
    assert pb[..1] == [] + [pb[0]];
    FlattenNext(pb, 0);
    FlattenNext(pb, 1);
    FlattenNext(pb, 2);
    assert pb[..3] == pb;
    var ts := Flatten(pb);
    assert ts == zeros + zeros + zeros;
    AccumulateZeros(ts);
  }

  /** The reference weights accumulate back to exactly 0 through the loop's
      roundings. */
  lemma LaplacianAccumulatesToZero()
    ensures Accumulate(Flatten(LaplacianMatrix)) == 0.0
  {
    var ts := Flatten(LaplacianMatrix);
    FlattenLaplacian();
    assert Pow10(5) == 100000.0;
    assert Pow10(3) == 1000.0;
    assert ts[..0] == [];
    AccumulateStep(ts, 0, 0.0, 5000, 50);
    AccumulateStep(ts, 1, 0.05, 20000, 250);
    AccumulateStep(ts, 2, 0.25, 5000, 300);
    AccumulateStep(ts, 3, 0.3, 20000, 500);
    AccumulateStep(ts, 4, 0.5, -100000, -500);
    AccumulateStep(ts, 5, -0.5, 20000, -300);
    AccumulateStep(ts, 6, -0.3, 5000, -250);
    AccumulateStep(ts, 7, -0.25, 20000, -50);
    AccumulateStep(ts, 8, -0.05, 5000, 0);
    assert ts[..9] == ts;
  }

  /** Over a window of cells at rest, the reference kernel gives no diffusion
      for either species: for A the weights sum back to 0 step by step, for B
      every term is 0. */
  lemma RestWindowHasNoDiffusion(area: seq<seq<CellState>>)
    requires AtRest(area)
    ensures Covers(LaplacianMatrix, area)
    ensures DiffusionOf(A, area, LaplacianMatrix) == 0.0
    ensures DiffusionOf(B, area, LaplacianMatrix) == 0.0
  {
    ReferenceMassIsZero();
    RestProductsA(area);
    LaplacianAccumulatesToZero();
    RestProductsB(area);
  }

  /** A 3×3 window every cell of which is c. */
  function Uniform(c: CellState): seq<seq<CellState>>
  {
    [[c, c, c], [c, c, c], [c, c, c]]
  }

  /** One step of the accumulation loop whose exact sum rounds to n3
      thousandths, for a term that already has at most five decimals. */
  lemma AccumulateRounded(ts: seq<real>, k: nat, prev: real, n5: int, n3: int)
    requires k < |ts| && Accumulate(ts[..k]) == prev
    requires ts[k] * Pow10(5) == n5 as real
    requires n3 as real - 0.5 <= (prev + ts[k]) * Pow10(3) < n3 as real + 0.5
    ensures Accumulate(ts[..k + 1]) == n3 as real / Pow10(3)
  {
    assert ts[..k + 1] == ts[..k] + [ts[k]];
    AccumulateSnoc(ts[..k], ts[k]);
    RoundExact(ts[k], n5, 5);
    RoundIs(prev + ts[k], 3, n3);
  }

  /** The weighted A terms of nine cells with a = 0.001, in loop order. */
  lemma UniformTerms()
    ensures Covers(LaplacianMatrix, Uniform(CellState(0.001, 0.0)))
    ensures Flatten(Products(A, Uniform(CellState(0.001, 0.0)), LaplacianMatrix))
         == [0.00005, 0.0002, 0.00005, 0.0002, -0.001, 0.0002, 0.00005, 0.0002, 0.00005]
  {
    var pa := Products(A, Uniform(CellState(0.001, 0.0)), LaplacianMatrix);
    var row0 := [0.00005, 0.0002, 0.00005];
    var row1 := [0.0002, -0.001, 0.0002];
    assert pa[0] == row0 && pa[2] == row0 && pa[1] == row1;
    assert pa[..1] == [] + [pa[0]];
    FlattenNext(pa, 0);
    FlattenNext(pa, 1);
    FlattenNext(pa, 2);
    assert pa[..3] == pa;
  }

  /** Those terms accumulate to -0.001: the positive ones never reach half a
      thousandth of the running sum and are rounded away. */
  lemma UniformTermsAccumulate(ts: seq<real>)
    requires ts == [0.00005, 0.0002, 0.00005, 0.0002, -0.001, 0.0002, 0.00005, 0.0002, 0.00005]
    ensures Accumulate(ts) == -0.001
  {
    assert Pow10(5) == 100000.0;
    assert Pow10(3) == 1000.0;
    assert ts[..0] == [];
    AccumulateRounded(ts, 0, 0.0, 5, 0);
    AccumulateRounded(ts, 1, 0.0, 20, 0);
    AccumulateRounded(ts, 2, 0.0, 5, 0);
    AccumulateRounded(ts, 3, 0.0, 20, 0);
    AccumulateRounded(ts, 4, 0.0, -100, -1);
    AccumulateRounded(ts, 5, -0.001, 20, -1);
    AccumulateRounded(ts, 6, -0.001, 5, -1);
    AccumulateRounded(ts, 7, -0.001, 20, -1);
    AccumulateRounded(ts, 8, -0.001, 5, -1);
    assert ts[..9] == ts;
  }

  /** A uniform window need not diffuse to 0, because the running sum is
      rounded to three decimals at every step: with a = 0.001 in all nine
      cells, `diffusion` of A returns -0.001. */
  lemma UniformWindowMayDiffuse()
    ensures Covers(LaplacianMatrix, Uniform(CellState(0.001, 0.0)))
    ensures DiffusionOf(A, Uniform(CellState(0.001, 0.0)), LaplacianMatrix) == -0.001
  {
    UniformTerms();
    UniformTermsAccumulate(Flatten(Products(A, Uniform(CellState(0.001, 0.0)), LaplacianMatrix)));
    ReferenceMassIsZero();
  }
}
