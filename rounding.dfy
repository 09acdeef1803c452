/** Decimal rounding as `round(value, precision)` does it, over the reals.
    The source multiplies by 10^precision, applies Math.round (which takes
    halves up, towards +infinity, i.e. floor(v + 1/2)) and divides back. */
module Rounding {

  /** 10 to the power p. */
  function Pow10(p: nat): (r: real)
    ensures r >= 1.0
  {
    if p == 0 then 1.0 else 10.0 * Pow10(p - 1)
  }

  /** Math.round: the nearest integer, halves going up. */
  function MathRound(v: real): (n: int)
    ensures n as real - 0.5 <= v < n as real + 0.5
  {
    (v + 0.5).Floor
  }

  /** Rounding to the nearest multiple of 1/m. */
  function RoundTo(v: real, m: real): real
    requires m > 0.0
  {
    MathRound(v * m) as real / m
  }

  /** `round(value, precision)`. */
  function Round(v: real, p: nat): real
  {
    RoundTo(v, Pow10(p))
  }

  /** A multiple of 1/m is left as it is. */
  lemma RoundToExact(x: real, n: int, m: real)
    requires m > 0.0 && x * m == n as real
    ensures RoundTo(x, m) == x
  {
    assert RoundTo(x, m) == MathRound(x * m) as real / m;
    assert MathRound(x * m) == n;
  }

  /** The result of RoundTo(v, m) is the multiple n/m of 1/m nearest v. */
  lemma RoundToIsMultiple(v: real, m: real) returns (n: int)
    requires m > 0.0
    ensures RoundTo(v, m) * m == n as real
    ensures n as real - 0.5 <= v * m < n as real + 0.5
  {
    n := MathRound(v * m);
    assert RoundTo(v, m) == n as real / m;
  }

  /** v rounds to n units of 10^-p when v·10^p lies within half a unit of n,
      a tie going up. */
  lemma RoundIs(v: real, p: nat, n: int)
    requires n as real - 0.5 <= v * Pow10(p) < n as real + 0.5
    ensures Round(v, p) == n as real / Pow10(p)
  {
    var w := v * Pow10(p);
    assert n as real <= w + 0.5 < (n + 1) as real;
    assert (w + 0.5).Floor == n;
  }

  /** A value with at most p decimal digits is left as it is. */
  lemma RoundExact(x: real, n: int, p: nat)
    requires x * Pow10(p) == n as real
    ensures Round(x, p) == x
  {
    RoundToExact(x, n, Pow10(p));
  }

  /** Rounding twice to the same precision is rounding once. */
  lemma RoundIdempotent(v: real, p: nat)
    ensures Round(Round(v, p), p) == Round(v, p)
  {
    var m := Pow10(p);
    var n := RoundToIsMultiple(v, m);
    RoundToExact(RoundTo(v, m), n, m);
  }

  /** The result differs from v by at most half a unit of the last kept
      digit (scaled by 10^p: within (-1/2, 1/2]), and a tie goes up. */
  lemma RoundError(v: real, p: nat)
    ensures -0.5 < (Round(v, p) - v) * Pow10(p) <= 0.5
  {
    var m := Pow10(p);
    var r := RoundTo(v, m);
    var n := RoundToIsMultiple(v, m);
    assert (r - v) * m == r * m - v * m;
  }

  /** Rounding is monotone. */
  lemma RoundMonotone(u: real, v: real, p: nat)
    requires u <= v
    ensures Round(u, p) <= Round(v, p)
  {
    var m := Pow10(p);
    assert v * m - u * m == (v - u) * m;
    var nu := RoundToIsMultiple(u, m);
    var nv := RoundToIsMultiple(v, m);
    assert nu <= nv;
    var ru, rv := RoundTo(u, m), RoundTo(v, m);
    assert (rv - ru) * m == (nv - nu) as real;
  }
}
