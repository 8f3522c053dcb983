/**
 * `outlier_removal` of src/data/data_preprocessing.py: interquartile bounds on
 * `Premium Amount` and the in-place removal of the rows at or beyond them.
 * The quartiles are inputs: their interpolation is computed elsewhere.
 */
module OutlierRemoval {
  import opened Tables

  /** The two fences: rows at or above `upper`, or at or below `lower`, are outliers. */
  datatype Bounds = Bounds(lower: real, upper: real)

  /** Fences 1.5 interquartile ranges beyond the quartiles. */
  function IqrBounds(q1: real, q3: real): (b: Bounds)
    ensures b.upper - b.lower == 4.0 * (q3 - q1)
    ensures q1 - b.lower == b.upper - q3 == 3.0 / 2.0 * (q3 - q1)
    ensures q1 <= q3 ==> b.lower <= q1 <= q3 <= b.upper
  {
    var iqr := q3 - q1;
    Bounds(q1 - 1.5 * iqr, q3 + 1.5 * iqr)
  }

  /** Which of the two `np.where` scans: `>= upper` or `<= lower`. */
  datatype Side = AtOrAbove | AtOrBelow

  /** The scan's comparison; NaN compares false with every number. */
  predicate Hit(p: Premium, side: Side, bound: real) {
    match p
    case Missing => false
    case Amount(v) => if side == AtOrAbove then v >= bound else v <= bound
  }

  /** A premium strictly between the fences, or missing: a row the filter keeps. */
  predicate Within(p: Premium, b: Bounds) {
    p.Missing? || (b.lower < p.value < b.upper)
  }

  /** `np.where(column <op> bound)[0]`: the positions that hit, ascending. */
  function Where(s: seq<Entry>, side: Side, bound: real): seq<int>
  {
    if s == [] then []
    else
      Where(s[..|s| - 1], side, bound) + (if Hit(s[|s| - 1].record.premium, side, bound) then [|s| - 1] else [])
  }

  /** A position is reported exactly when it is in range and its premium hits. */
  lemma {:induction false} WhereMembership(s: seq<Entry>, side: Side, bound: real, p: int)
    ensures p in Where(s, side, bound) <==> 0 <= p < |s| && Hit(s[p].record.premium, side, bound)
  {
    if s != [] {
      var init := s[..|s| - 1];
      WhereMembership(init, side, bound, p);
      if p < |s| - 1 && 0 <= p {
        assert init[p] == s[p];
      }
    }
  }

  /** Positions come out strictly ascending and each below the row count. */
  lemma {:induction false} WhereAscending(s: seq<Entry>, side: Side, bound: real)
    ensures forall i, j :: 0 <= i < j < |Where(s, side, bound)| ==> Where(s, side, bound)[i] < Where(s, side, bound)[j]
    ensures forall i :: 0 <= i < |Where(s, side, bound)| ==> 0 <= Where(s, side, bound)[i] < |s|
  {
    if s != [] {
      var init := s[..|s| - 1];
      WhereAscending(init, side, bound);
      var w := Where(init, side, bound);
      assert forall i :: 0 <= i < |w| ==> w[i] < |init|;
    }
  }

  /** The scan of lines 41-42, one row at a time. */
  method WhereHits(s: seq<Entry>, side: Side, bound: real) returns (ps: seq<int>)
    ensures ps == Where(s, side, bound)
    ensures forall p :: p in ps <==> 0 <= p < |s| && Hit(s[p].record.premium, side, bound)
    ensures forall i, j :: 0 <= i < j < |ps| ==> ps[i] < ps[j]
  {
    ps := [];
    var i := 0;
    while i < |s|
      invariant 0 <= i <= |s|
      invariant ps == Where(s[..i], side, bound)
    {
      assert s[..i + 1][..i] == s[..i];
      if Hit(s[i].record.premium, side, bound) {
        ps := ps + [i];
      }
      i := i + 1;
    }
    assert s[..i] == s;
    forall p ensures p in ps <==> 0 <= p < |s| && Hit(s[p].record.premium, side, bound) {
      WhereMembership(s, side, bound, p);
    }
    WhereAscending(s, side, bound);
  }

  /** `np.concatenate((upper_array, lower_array))`: the labels handed to `drop`. */
  function OutlierTargets(s: seq<Entry>, b: Bounds): seq<int>
  {
    Where(s, AtOrAbove, b.upper) + Where(s, AtOrBelow, b.lower)
  }

  /** A target is the position of a row whose premium is at or beyond a fence. */
  lemma OutlierTargetsMembership(s: seq<Entry>, b: Bounds, p: int)
    ensures p in OutlierTargets(s, b) <==> 0 <= p < |s| && !Within(s[p].record.premium, b)
  {
    WhereMembership(s, AtOrAbove, b.upper, p);
    WhereMembership(s, AtOrBelow, b.lower, p);
  }

  /** Reference meaning of the filter: the rows strictly inside the fences (or with no premium), in order. */
  function KeepWithin(s: seq<Entry>, b: Bounds): seq<Entry>
  {
    if s == [] then []
    else
      var last := s[|s| - 1];
      KeepWithin(s[..|s| - 1], b) + (if Within(last.record.premium, b) then [last] else [])
  }

  /** A row is kept exactly when it was there and lies within the fences. */
  lemma {:induction false} KeepWithinMembership(s: seq<Entry>, b: Bounds, e: Entry)
    ensures e in KeepWithin(s, b) <==> e in s && Within(e.record.premium, b)
  {
    if s != [] {
      var init := s[..|s| - 1];
      KeepWithinMembership(init, b, e);
      assert s == init + [s[|s| - 1]];
    }
  }

  /** Filtering a concatenation is concatenating the filtered parts: the relative order of survivors is kept. */
  lemma {:induction false} KeepWithinConcat(x: seq<Entry>, y: seq<Entry>, b: Bounds)
    ensures KeepWithin(x + y, b) == KeepWithin(x, b) + KeepWithin(y, b)
  {
    if y == [] {
      assert x + y == x;
    } else {
      var init := y[..|y| - 1];
      KeepWithinConcat(x, init, b);
      assert (x + y)[..|x + y| - 1] == x + init;
    }
  }

  /** The table comes back unchanged exactly when no premium is at or beyond a fence. */
  lemma {:induction false} KeepWithinIdentity(s: seq<Entry>, b: Bounds)
    ensures KeepWithin(s, b) == s <==> forall i :: 0 <= i < |s| ==> Within(s[i].record.premium, b)
  {
    if s != [] {
      var init := s[..|s| - 1];
      KeepWithinIdentity(init, b);
      var last := s[|s| - 1];
      assert s == init + [last];
      if !Within(last.record.premium, b) {
        KeepWithinShorter(init, b);
      } else if KeepWithin(s, b) == s {
        assert KeepWithin(init, b) == init;
      }
    }
  }

  /** Filtering never lengthens a table. */
  lemma {:induction false} KeepWithinShorter(s: seq<Entry>, b: Bounds)
    ensures |KeepWithin(s, b)| <= |s|
  {
    if s != [] {
      KeepWithinShorter(s[..|s| - 1], b);
    }
  }

  /** A single row beyond the fences is removed, and no other row. */
  lemma KeepWithinSingleOutlier(s: seq<Entry>, b: Bounds, k: int)
    requires 0 <= k < |s|
    requires !Within(s[k].record.premium, b)
    requires forall i :: 0 <= i < |s| && i != k ==> Within(s[i].record.premium, b)
    ensures KeepWithin(s, b) == s[..k] + s[k + 1..]
  {
    assert s == s[..k] + [s[k]] + s[k + 1..];
    KeepWithinConcat(s[..k] + [s[k]], s[k + 1..], b);
    KeepWithinConcat(s[..k], [s[k]], b);
    KeepWithinIdentity(s[..k], b);
    KeepWithinIdentity(s[k + 1..], b);
    assert [s[k]][..0] == [];
  }

  /** Dropping labels that mark exactly the rows beyond the fences leaves `KeepWithin`. */
  lemma {:induction false} WithoutIsKeepWithin(s: seq<Entry>, targets: seq<int>, b: Bounds)
    requires forall i :: 0 <= i < |s| ==> (s[i].rowLabel in targets <==> !Within(s[i].record.premium, b))
    ensures Without(s, targets) == KeepWithin(s, b)
  {
    if s != [] {
      WithoutIsKeepWithin(s[..|s| - 1], targets, b);
    }
  }

  /**
   * On a table labelled 0..n-1 the positions `np.where` reports are labels, so
   * `drop` succeeds and leaves exactly the rows within the fences.
   */
  lemma RangeLabeledDropIsKeepWithin(s: seq<Entry>, b: Bounds)
    requires RangeLabeled(s)
    ensures forall t :: t in OutlierTargets(s, b) ==> HasLabel(s, t)
    ensures Without(s, OutlierTargets(s, b)) == KeepWithin(s, b)
  {
    forall t | t in OutlierTargets(s, b) ensures HasLabel(s, t) {
      OutlierTargetsMembership(s, b, t);
      assert s[t].rowLabel == t;
    }
    forall i | 0 <= i < |s| ensures s[i].rowLabel in OutlierTargets(s, b) <==> !Within(s[i].record.premium, b) {
      OutlierTargetsMembership(s, b, i);
    }
    WithoutIsKeepWithin(s, OutlierTargets(s, b), b);
  }

  /** The error the `except` branch logs: every call ends in one of the two. */
  datatype Logged =
    | LabelsNotFound       // `drop` raised KeyError: a reported position is not a label
    | NoneHasNoResetIndex  // `drop(..., inplace=True)` returned None, so `.reset_index` raised

  /**
   * `outlier_removal(df)`: computes the fences, drops the rows at or beyond them
   * in place, and returns the same table object. The chained `reset_index` never
   * runs, so the survivors keep their labels and an error is logged even when the
   * drop succeeded.
   */
  method RemoveOutliers(df: Table, q1: real, q3: real) returns (r: Table, logged: Logged)
    modifies df
    ensures r == df
    ensures var s, b := old(df.entries), IqrBounds(q1, q3);
            && (logged == LabelsNotFound <==> exists t :: t in OutlierTargets(s, b) && !HasLabel(s, t))
            && df.entries == (if logged == LabelsNotFound then s else Without(s, OutlierTargets(s, b)))
    ensures old(RangeLabeled(df.entries)) ==>
              logged == NoneHasNoResetIndex && df.entries == KeepWithin(old(df.entries), IqrBounds(q1, q3))
  {
    var b := IqrBounds(q1, q3);
    var upperArray := WhereHits(df.entries, AtOrAbove, b.upper);
    var lowerArray := WhereHits(df.entries, AtOrBelow, b.lower);
    ghost var s := df.entries;
    var found := df.Drop(upperArray + lowerArray);
    logged := if found then NoneHasNoResetIndex else LabelsNotFound;
    r := df;
    if RangeLabeled(s) {
      RangeLabeledDropIsKeepWithin(s, b);
    }
  }
}
