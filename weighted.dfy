/** Survey-weighted statistics: every population figure is
    Σ(measure · factor) / Σ(factor), never an unweighted count or mean.
    The measure and the weight are projections of a row, so the same
    definitions serve every page's row type. */
module Weighted {
  import opened Frames

  /** Σ w(r) over the rows (`df['factor'].sum()`). */
  function Total<R>(rows: seq<R>, w: R -> real): real
    decreases |rows|
  {
    if rows == [] then 0.0 else w(rows[0]) + Total(rows[1..], w)
  }

  /** Σ x(r)·w(r) over the rows (`(df[x] * df['factor']).sum()`). */
  function WSum<R>(rows: seq<R>, x: R -> real, w: R -> real): real
    decreases |rows|
  {
    if rows == [] then 0.0 else x(rows[0]) * w(rows[0]) + WSum(rows[1..], x, w)
  }

  /** The weighted mean; undefined (None) when the weights sum to zero. */
  function Mean<R>(rows: seq<R>, x: R -> real, w: R -> real): (m: Option<real>)
    ensures m.None? <==> Total(rows, w) == 0.0
    ensures m.Some? ==> m.value * Total(rows, w) == WSum(rows, x, w)
  {
    var t := Total(rows, w);
    if t == 0.0 then None else Some(WSum(rows, x, w) / t)
  }

  /** The weighted percentage Σ(x·w) / Σ(w) · 100; undefined when Σ(w) is zero. */
  function Pct<R>(rows: seq<R>, x: R -> real, w: R -> real): (p: Option<real>)
    ensures p.None? <==> Total(rows, w) == 0.0
    ensures p.Some? ==> p.value * Total(rows, w) == 100.0 * WSum(rows, x, w)
  {
    var t := Total(rows, w);
    if t == 0.0 then None else Some(WSum(rows, x, w) / t * 100.0)
  }

  ghost predicate NonNegative<R>(rows: seq<R>, w: R -> real)
  {
    forall i :: 0 <= i < |rows| ==> w(rows[i]) >= 0.0
  }

  ghost predicate Positive<R>(rows: seq<R>, w: R -> real)
  {
    forall i :: 0 <= i < |rows| ==> w(rows[i]) > 0.0
  }

  /** A 0/1 measure such as `tiene_celular` or a deprivation flag. */
  ghost predicate Indicator<R>(rows: seq<R>, x: R -> real)
  {
    forall i :: 0 <= i < |rows| ==> x(rows[i]) == 0.0 || x(rows[i]) == 1.0
  }

  ghost predicate Within<R>(rows: seq<R>, x: R -> real, lo: real, hi: real)
  {
    forall i :: 0 <= i < |rows| ==> lo <= x(rows[i]) <= hi
  }

  lemma {:induction false} TotalAppend<R>(a: seq<R>, b: seq<R>, w: R -> real)
    ensures Total(a + b, w) == Total(a, w) + Total(b, w)
    decreases |a|
  {
    if a == [] {
      assert a + b == b;
    } else {
      assert (a + b)[1..] == a[1..] + b;
      TotalAppend(a[1..], b, w);
    }
  }

  /** The weight of a selection, peeled one row at a time. */
  lemma TotalSelectUnfold<R(!new)>(rows: seq<R>, p: R -> bool, w: R -> real)
    requires rows != []
    ensures Total(Select(rows, p), w) == (if p(rows[0]) then w(rows[0]) else 0.0) + Total(Select(rows[1..], p), w)
  {
    var head := if p(rows[0]) then [rows[0]] else [];
    TotalAppend(head, Select(rows[1..], p), w);
    if p(rows[0]) {
      assert head[1..] == [];
    }
  }

  /** Non-negative weights on every member give a non-negative total for any
      selection of the members. */
  lemma SelectTotalNonNegative<R(!new)>(rows: seq<R>, p: R -> bool, w: R -> real)
    requires forall r :: r in rows ==> w(r) >= 0.0
    ensures Total(Select(rows, p), w) >= 0.0
  {
    var sel := Select(rows, p);
    forall i | 0 <= i < |sel| ensures w(sel[i]) >= 0.0 {
      assert sel[i] in sel;
    }
    TotalNonNegative(sel, w);
  }

  lemma {:induction false} TotalNonNegative<R>(rows: seq<R>, w: R -> real)
    requires NonNegative(rows, w)
    ensures Total(rows, w) >= 0.0
    decreases |rows|
  {
    if rows != [] {
      TotalNonNegative(rows[1..], w);
    }
  }

  lemma {:induction false} TotalPositive<R>(rows: seq<R>, w: R -> real)
    requires Positive(rows, w) && rows != []
    ensures Total(rows, w) > 0.0
    decreases |rows|
  {
    if |rows| > 1 {
      TotalPositive(rows[1..], w);
    }
  }

  /** With non-negative weights, a measure within [lo, hi] keeps its weighted
      sum within [lo·Σw, hi·Σw]. */
  lemma {:induction false} WSumBounds<R>(rows: seq<R>, x: R -> real, w: R -> real, lo: real, hi: real)
    requires NonNegative(rows, w) && Within(rows, x, lo, hi)
    ensures lo * Total(rows, w) <= WSum(rows, x, w) <= hi * Total(rows, w)
    decreases |rows|
  {
    if rows != [] {
      var r := rows[0];
      WSumBounds(rows[1..], x, w, lo, hi);
      assert lo * w(r) <= x(r) * w(r) <= hi * w(r) by {
        assert (x(r) - lo) * w(r) >= 0.0;
        assert (hi - x(r)) * w(r) >= 0.0;
      }
    }
  }

  /** The weighted mean of a group with positive weights lies between any
      lower and upper bound of its members' values (in particular between
      their minimum and maximum). */
  lemma MeanBounds<R>(rows: seq<R>, x: R -> real, w: R -> real, lo: real, hi: real)
    requires Positive(rows, w) && rows != [] && Within(rows, x, lo, hi)
    ensures Mean(rows, x, w).Some?
    ensures lo <= Mean(rows, x, w).value <= hi
  {
    TotalPositive(rows, w);
    WSumBounds(rows, x, w, lo, hi);
    QuotientBounds(WSum(rows, x, w), Total(rows, w), lo, hi);
  }

  /** lo·t <= a <= hi·t with t > 0 gives lo <= a / t <= hi. */
  lemma QuotientBounds(a: real, t: real, lo: real, hi: real)
    requires t > 0.0 && lo * t <= a <= hi * t
    ensures lo <= a / t <= hi
  {
    var q := a / t;
    assert (q - lo) * t == a - lo * t;
    assert (hi - q) * t == hi * t - a;
  }

  /** A weighted mean over members whose values are all zero is zero. */
  lemma {:induction false} WSumZero<R>(rows: seq<R>, x: R -> real, w: R -> real)
    requires Within(rows, x, 0.0, 0.0)
    ensures WSum(rows, x, w) == 0.0
    decreases |rows|
  {
    if rows != [] {
      WSumZero(rows[1..], x, w);
    }
  }

  lemma MeanZero<R>(rows: seq<R>, x: R -> real, w: R -> real)
    requires Total(rows, w) != 0.0 && Within(rows, x, 0.0, 0.0)
    ensures Mean(rows, x, w) == Some(0.0)
  {
    WSumZero(rows, x, w);
  }

  /** With positive weights, the weighted sum of a 0/1 indicator equals the
      total weight exactly when every member's indicator is 1. */
  lemma {:induction false} WSumFullIff<R>(rows: seq<R>, x: R -> real, w: R -> real)
    requires Positive(rows, w) && Indicator(rows, x)
    ensures WSum(rows, x, w) == Total(rows, w) <==> Within(rows, x, 1.0, 1.0)
    decreases |rows|
  {
    if rows != [] {
      var r := rows[0];
      WSumFullIff(rows[1..], x, w);
      WSumBounds(rows[1..], x, w, 0.0, 1.0);
      if x(r) == 0.0 {
        assert WSum(rows, x, w) < Total(rows, w);
      } else {
        assert Within(rows, x, 1.0, 1.0) <==> Within(rows[1..], x, 1.0, 1.0) by {
          if Within(rows[1..], x, 1.0, 1.0) {
            forall i | 0 <= i < |rows| ensures x(rows[i]) == 1.0 {
              if i > 0 { assert rows[i] == rows[1..][i - 1]; }
            }
          }
        }
      }
    }
  }

  /** With positive weights, the weighted sum of a 0/1 indicator is zero
      exactly when every member's indicator is 0. */
  lemma {:induction false} WSumEmptyIff<R>(rows: seq<R>, x: R -> real, w: R -> real)
    requires Positive(rows, w) && Indicator(rows, x)
    ensures WSum(rows, x, w) == 0.0 <==> Within(rows, x, 0.0, 0.0)
    decreases |rows|
  {
    if rows != [] {
      var r := rows[0];
      WSumEmptyIff(rows[1..], x, w);
      WSumBounds(rows[1..], x, w, 0.0, 1.0);
      TotalNonNegative(rows[1..], w);
      if x(r) == 1.0 {
        assert WSum(rows, x, w) > 0.0;
      } else {
        assert Within(rows, x, 0.0, 0.0) <==> Within(rows[1..], x, 0.0, 0.0) by {
          if Within(rows[1..], x, 0.0, 0.0) {
            forall i | 0 <= i < |rows| ensures x(rows[i]) == 0.0 {
              if i > 0 { assert rows[i] == rows[1..][i - 1]; }
            }
          }
        }
      }
    }
  }

  /** A weighted indicator percentage over a group with positive weights lies
      in [0, 100]; it is 100 exactly when every member has the indicator and
      0 exactly when none does. */
  lemma PctOfIndicator<R>(rows: seq<R>, x: R -> real, w: R -> real)
    requires Positive(rows, w) && rows != [] && Indicator(rows, x)
    ensures Pct(rows, x, w).Some?
    ensures 0.0 <= Pct(rows, x, w).value <= 100.0
    ensures Pct(rows, x, w).value == 100.0 <==> Within(rows, x, 1.0, 1.0)
    ensures Pct(rows, x, w).value == 0.0 <==> Within(rows, x, 0.0, 0.0)
  {
    TotalPositive(rows, w);
    WSumBounds(rows, x, w, 0.0, 1.0);
    WSumFullIff(rows, x, w);
    WSumEmptyIff(rows, x, w);
    var t := Total(rows, w);
    var a := WSum(rows, x, w);
    QuotientBounds(a, t, 0.0, 1.0);
    var q := a / t;
    assert q * t == a;
    assert Pct(rows, x, w).value == q * 100.0;
    assert q == 1.0 <==> a == t;
    assert q == 0.0 <==> a == 0.0;
  }
}
