/** The visiting order of `update`: a row-major sweep that writes each cell
    once, in place, so that later cells read the values already written.
    Stated for any per-cell rule; `Stepper` instantiates it with the
    reaction-diffusion rule. */
module Sweep {

  /** A per-cell rule: the new value of (x, y) computed from a whole grid. */
  type Rule<!T> = (seq<seq<T>>, nat, nat) -> T

  /** u has the dimensions of v, row by row. */
  predicate SameShape<T>(u: seq<seq<T>>, v: seq<seq<T>>)
  {
    |u| == |v| && forall i :: 0 <= i < |v| ==> |u[i]| == |v[i]|
  }

  /** The grid once the inner loop has visited (x, 0), ..., (x, y - 1). */
  function SweepRow<T>(v: seq<seq<T>>, x: nat, y: nat, rule: Rule<T>): (r: seq<seq<T>>)
    requires x < |v| && y <= |v[x]|
    ensures SameShape(r, v)
    decreases y
  {
    if y == 0 then v
    else
      var s := SweepRow(v, x, y - 1, rule);
      s[x := s[x][y - 1 := rule(s, x, y - 1)]]
  }

  /** The grid once the outer loop has visited rows 0, ..., x - 1. */
  function SweepRows<T>(v: seq<seq<T>>, x: nat, rule: Rule<T>): (r: seq<seq<T>>)
    requires x <= |v|
    ensures SameShape(r, v)
    decreases x
  {
    if x == 0 then v else SweepRow(SweepRows(v, x - 1, rule), x - 1, |v[x - 1]|, rule)
  }

  /** The grid after the whole sweep. */
  function SweepAll<T>(v: seq<seq<T>>, rule: Rule<T>): (r: seq<seq<T>>)
    ensures SameShape(r, v)
  {
    SweepRows(v, |v|, rule)
  }

  /** The state the sweep is in just before visiting (x, y). */
  function StateBefore<T>(v: seq<seq<T>>, x: nat, y: nat, rule: Rule<T>): (s: seq<seq<T>>)
    requires x < |v| && y <= |v[x]|
    ensures SameShape(s, v)
  {
    SweepRow(SweepRows(v, x, rule), x, y, rule)
  }

  /** (i, j) comes strictly before (x, y) in row-major order. */
  predicate Precedes(i: nat, j: nat, x: nat, y: nat)
  {
    i < x || (i == x && j < y)
  }

  /** The grid as seen at (x, y): positions before (x, y) in row-major order
      hold their new values r, the others their old values v. */
  function SeenAt<T>(v: seq<seq<T>>, r: seq<seq<T>>, x: nat, y: nat): (s: seq<seq<T>>)
    requires SameShape(r, v)
    ensures SameShape(s, v)
  {
    seq(|v|, i requires 0 <= i < |v| =>
      seq(|v[i]|, j requires 0 <= j < |v[i]| => if Precedes(i, j, x, y) then r[i][j] else v[i][j]))
  }

  /** Before the sweep reaches its first position every cell still holds its
      old value; once the last row is done every cell holds its new one. */
  lemma SeenAtEnds<T>(v: seq<seq<T>>, r: seq<seq<T>>)
    requires SameShape(r, v)
    ensures SeenAt(v, r, 0, 0) == v
    ensures SeenAt(v, r, |v|, 0) == r
  {
    var first, last := SeenAt(v, r, 0, 0), SeenAt(v, r, |v|, 0);
    forall i | 0 <= i < |v|
      ensures first[i] == v[i] && last[i] == r[i]
    {
    }
  }

  /** Visiting row x does not touch the other rows. */
  lemma {:induction false} SweepRowOtherRows<T>(v: seq<seq<T>>, x: nat, y: nat, rule: Rule<T>, i: nat)
    requires x < |v| && y <= |v[x]| && i < |v| && i != x
    ensures SweepRow(v, x, y, rule)[i] == v[i]
    decreases y
  {
    if y > 0 {
      SweepRowOtherRows(v, x, y - 1, rule, i);
    }
  }

  /** Within row x, the inner loop has not yet touched columns y and later. */
  lemma {:induction false} SweepRowAhead<T>(v: seq<seq<T>>, x: nat, y: nat, rule: Rule<T>, j: nat)
    requires x < |v| && y <= j < |v[x]|
    ensures SweepRow(v, x, y, rule)[x][j] == v[x][j]
    decreases y
  {
    if y > 0 {
      SweepRowAhead(v, x, y - 1, rule, j);
    }
  }

  /** Within row x, column j is written once, when visited, and then kept. */
  lemma {:induction false} SweepRowSettled<T>(v: seq<seq<T>>, x: nat, y: nat, rule: Rule<T>, j: nat)
    requires x < |v| && j < y <= |v[x]|
    ensures SweepRow(v, x, y, rule)[x][j] == SweepRow(v, x, j + 1, rule)[x][j]
    decreases y
  {
    if y > j + 1 {
      SweepRowSettled(v, x, y - 1, rule, j);
    }
  }

  /** Rows x and later are untouched before the outer loop reaches them. */
  lemma {:induction false} SweepRowsAhead<T>(v: seq<seq<T>>, x: nat, rule: Rule<T>, i: nat)
    requires x <= i < |v|
    ensures SweepRows(v, x, rule)[i] == v[i]
    decreases x
  {
    if x > 0 {
      SweepRowsAhead(v, x - 1, rule, i);
      SweepRowOtherRows(SweepRows(v, x - 1, rule), x - 1, |v[x - 1]|, rule, i);
    }
  }

  /** Row i is final once the outer loop has left it. */
  lemma {:induction false} SweepRowsSettled<T>(v: seq<seq<T>>, x: nat, rule: Rule<T>, i: nat)
    requires i < x <= |v|
    ensures SweepRows(v, x, rule)[i] == SweepRows(v, i + 1, rule)[i]
    decreases x
  {
    if x > i + 1 {
      SweepRowsSettled(v, x - 1, rule, i);
      SweepRowOtherRows(SweepRows(v, x - 1, rule), x - 1, |v[x - 1]|, rule, i);
    }
  }

  /** The final value of (x, y) is the rule applied to the state just before
      (x, y) is visited. */
  lemma FinalIsRuleBefore<T>(v: seq<seq<T>>, x: nat, y: nat, rule: Rule<T>)
    requires x < |v| && y < |v[x]|
    ensures SweepAll(v, rule)[x][y] == rule(StateBefore(v, x, y, rule), x, y)
  {
    var rx := SweepRows(v, x, rule);
    SweepRowsSettled(v, |v|, rule, x);
    SweepRowSettled(rx, x, |v[x]|, rule, y);
  }

  /** The state just before (x, y) is visited is the old grid with every
      earlier position (row-major) already holding its final value. */
  lemma StateBeforeIsSeenAt<T>(v: seq<seq<T>>, x: nat, y: nat, rule: Rule<T>)
    requires x < |v| && y < |v[x]|
    ensures StateBefore(v, x, y, rule) == SeenAt(v, SweepAll(v, rule), x, y)
  {
    var r := SweepAll(v, rule);
    var rx := SweepRows(v, x, rule);
    var pre := StateBefore(v, x, y, rule);
    var seen := SeenAt(v, r, x, y);
    forall i | 0 <= i < |v|
      ensures pre[i] == seen[i]
    {
      if i < x {
        SweepRowOtherRows(rx, x, y, rule, i);
        SweepRowsSettled(v, x, rule, i);
        SweepRowsSettled(v, |v|, rule, i);
      } else if i > x {
        SweepRowOtherRows(rx, x, y, rule, i);
        SweepRowsAhead(v, x, rule, i);
      } else {
        forall j | 0 <= j < |v[x]|
          ensures pre[x][j] == seen[x][j]
        {
          if j < y {
            SweepRowSettled(rx, x, y, rule, j);
            SweepRowsSettled(v, |v|, rule, x);
            SweepRowSettled(rx, x, |v[x]|, rule, j);
          } else {
            SweepRowAhead(rx, x, y, rule, j);
            SweepRowsAhead(v, x, rule, x);
          }
        }
      }
    }
  }

  /** The in-place character of the sweep: the new value of every cell
      (x, y) is the rule applied to a grid in which the positions before
      (x, y) in row-major order already hold their new values and the
      others, (x, y) itself included, still hold their old ones. */
  lemma SweepReadsUpdatedPredecessors<T>(v: seq<seq<T>>, x: nat, y: nat, rule: Rule<T>)
    requires x < |v| && y < |v[x]|
    ensures SweepAll(v, rule)[x][y] == rule(SeenAt(v, SweepAll(v, rule), x, y), x, y)
    ensures SeenAt(v, SweepAll(v, rule), x, y)[x][y] == v[x][y]
  {
    FinalIsRuleBefore(v, x, y, rule);
    StateBeforeIsSeenAt(v, x, y, rule);
  }

  /** The first cell visited, (0, 0), sees the old grid untouched. */
  lemma FirstCellSeesOldGrid<T>(v: seq<seq<T>>, rule: Rule<T>)
    requires |v| > 0 && |v[0]| > 0
    ensures SweepAll(v, rule)[0][0] == rule(v, 0, 0)
  {
    SweepReadsUpdatedPredecessors(v, 0, 0, rule);
    var seen := SeenAt(v, SweepAll(v, rule), 0, 0);
    forall i | 0 <= i < |v|
      ensures seen[i] == v[i]
    {
      assert forall j :: 0 <= j < |v[i]| ==> seen[i][j] == v[i][j];
    }
    assert seen == v;
  }

  /** A grid on which the rule changes nothing anywhere is left as it is. */
  lemma {:induction false} SweepRowFixed<T>(v: seq<seq<T>>, x: nat, y: nat, rule: Rule<T>)
    requires x < |v| && y <= |v[x]|
    requires forall i, j :: 0 <= i < |v| && 0 <= j < |v[i]| ==> rule(v, i, j) == v[i][j]
    ensures SweepRow(v, x, y, rule) == v
    decreases y
  {
    if y > 0 {
      SweepRowFixed(v, x, y - 1, rule);
      assert v[x][y - 1 := v[x][y - 1]] == v[x];
    }
  }

  lemma {:induction false} SweepRowsFixed<T>(v: seq<seq<T>>, x: nat, rule: Rule<T>)
    requires x <= |v|
    requires forall i, j :: 0 <= i < |v| && 0 <= j < |v[i]| ==> rule(v, i, j) == v[i][j]
    ensures SweepRows(v, x, rule) == v
    decreases x
  {
    if x > 0 {
      SweepRowsFixed(v, x - 1, rule);
      SweepRowFixed(v, x - 1, |v[x - 1]|, rule);
    }
  }

  /** A fixed point of the rule at every position is a fixed point of the
      whole sweep. */
  lemma SweepFixed<T>(v: seq<seq<T>>, rule: Rule<T>)
    requires forall i, j :: 0 <= i < |v| && 0 <= j < |v[i]| ==> rule(v, i, j) == v[i][j]
    ensures SweepAll(v, rule) == v
  {
    SweepRowsFixed(v, |v|, rule);
  }

  /** Two rules that agree on every grid shaped like v, at every position of
      it, sweep v to the same result. */
  lemma {:induction false} SweepRowAgree<T>(v: seq<seq<T>>, u: seq<seq<T>>, x: nat, y: nat, r1: Rule<T>, r2: Rule<T>)
    requires SameShape(u, v) && x < |u| && y <= |u[x]|
    requires forall t, i: nat, j: nat :: SameShape(t, v) && i < |t| && j < |t[i]| ==> r1(t, i, j) == r2(t, i, j)
    ensures SweepRow(u, x, y, r1) == SweepRow(u, x, y, r2)
    decreases y
  {
    if y > 0 {
      SweepRowAgree(v, u, x, y - 1, r1, r2);
    }
  }

  lemma {:induction false} SweepRowsAgree<T>(v: seq<seq<T>>, x: nat, r1: Rule<T>, r2: Rule<T>)
    requires x <= |v|
    requires forall t, i: nat, j: nat :: SameShape(t, v) && i < |t| && j < |t[i]| ==> r1(t, i, j) == r2(t, i, j)
    ensures SweepRows(v, x, r1) == SweepRows(v, x, r2)
    decreases x
  {
    if x > 0 {
      SweepRowsAgree(v, x - 1, r1, r2);
      SweepRowAgree(v, SweepRows(v, x - 1, r1), x - 1, |v[x - 1]|, r1, r2);
    }
  }
}
