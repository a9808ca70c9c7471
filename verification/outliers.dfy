/** `get_list_of_outliers` on a one-dimensional vector: the modified z-score of each value
    (Iglewicz and Hoaglin), measured from the median with the median absolute deviation as
    the scale. */
module Outliers {
  import opened Wrappers
  import opened Sorting

  const DefaultThreshold: real := 1.5
  /** The constant of the modified z-score. */
  const ZScale: real := 0.6745

  function Abs(x: real): real {
    if x < 0.0 then -x else x
  }

  /** The median to measure from: a hint that is absent or zero (falsy) is recomputed. */
  function Center(values: seq<real>, median: Option<real>): real
    requires |values| > 0
  {
    if median.Some? && median.value != 0.0 then median.value else Median(values)
  }

  function DistanceFrom(m: real): real -> real {
    x => Abs(x - m)
  }

  lemma DistanceFromApply(m: real, x: real)
    ensures DistanceFrom(m)(x) == Abs(x - m)
  {
  }

  /** `sqrt((values - median) ** 2)` for one-dimensional observations. */
  function Deviations(values: seq<real>, m: real): (d: seq<real>)
    ensures |d| == |values|
  {
    MapSeq(DistanceFrom(m), values)
  }

  /** The median absolute deviation. */
  function Mad(values: seq<real>, m: real): real
    requires |values| > 0
  {
    Median(Deviations(values, m))
  }

  function ModifiedZ(d: real, mad: real): real
    requires mad != 0.0
  {
    ZScale * d / mad
  }

  /** The per-value verdict once the median `m` and a non-zero deviation scale `mad` are known. */
  predicate Flagged(v: real, m: real, mad: real, threshold: real, zerosAreOutliers: bool)
    requires mad != 0.0
  {
    ModifiedZ(Abs(v - m), mad) > threshold || (zerosAreOutliers && v == 0.0)
  }

  function ScoreMask(values: seq<real>, m: real, mad: real, t: real, zerosAreOutliers: bool): (mask: seq<bool>)
    requires mad != 0.0
    ensures |mask| == |values|
    ensures forall i :: 0 <= i < |values| ==> mask[i] == Flagged(values[i], m, mad, t, zerosAreOutliers)
  {
    seq(|values|, i requires 0 <= i < |values| => Flagged(values[i], m, mad, t, zerosAreOutliers))
  }

  function Constant(n: nat, b: bool): (mask: seq<bool>)
    ensures |mask| == n
    ensures forall i :: 0 <= i < n ==> mask[i] == b
  {
    seq(n, _ => b)
  }

  /** The outlier mask as the code computes it: when the deviation scale is zero, every verdict
      is decided by whether the FIRST value is zero. */
  function OutlierMaskAsWritten(values: seq<real>, threshold: Option<real>, zerosAreOutliers: bool,
                                median: Option<real>): (mask: seq<bool>)
    ensures |mask| == |values|
  {
    if |values| == 0 then []
    else
      var m := Center(values, median);
      var mad := Mad(values, m);
      if mad == 0.0 then Constant(|values|, values[0] == 0.0)
      else ScoreMask(values, m, mad, threshold.GetOr(DefaultThreshold), zerosAreOutliers)
  }

  /** The outlier mask with the zero-scale case decided by the median instead of the first
      value, so that it does not depend on the order of the values. */
  function OutlierMask(values: seq<real>, threshold: Option<real>, zerosAreOutliers: bool,
                       median: Option<real>): (mask: seq<bool>)
    ensures |mask| == |values|
  {
    if |values| == 0 then []
    else
      var m := Center(values, median);
      var mad := Mad(values, m);
      if mad == 0.0 then Constant(|values|, m == 0.0)
      else ScoreMask(values, m, mad, threshold.GetOr(DefaultThreshold), zerosAreOutliers)
  }

  /** `get_indices_for_outlier_values`: the positions the default mask flags (the corrected one). */
  function OutlierIndices(values: seq<real>): (s: set<int>)
    ensures forall p :: p in s <==> 0 <= p < |values| && OutlierMask(values, None, false, None)[p]
  {
    var mask := OutlierMask(values, None, false, None);
    set p | 0 <= p < |values| && mask[p]
  }

  // Properties

  lemma {:induction false} DeviationsAt(values: seq<real>, m: real, i: int)
    requires 0 <= i < |values|
    ensures Deviations(values, m)[i] == Abs(values[i] - m)
  {
    if i > 0 {
      DeviationsAt(values[1..], m, i - 1);
    }
  }

  /** A constant vector whose median is known (or left to be computed) is all outliers when the
      constant is zero and has no outliers otherwise, whatever the threshold. */
  lemma FlatSignal(values: seq<real>, c: real, threshold: Option<real>, zerosAreOutliers: bool,
                   median: Option<real>)
    requires |values| > 0
    requires forall i :: 0 <= i < |values| ==> values[i] == c
    requires median.None? || median.value == 0.0 || median.value == c
    ensures forall i :: 0 <= i < |values| ==> OutlierMask(values, threshold, zerosAreOutliers, median)[i] == (c == 0.0)
    ensures OutlierMaskAsWritten(values, threshold, zerosAreOutliers, median) == OutlierMask(values, threshold, zerosAreOutliers, median)
  {
    MedianOfConstant(values, c);
    var m := Center(values, median);
    assert m == c;
    var d := Deviations(values, m);
    forall i | 0 <= i < |d|
      ensures d[i] == 0.0
    {
      DeviationsAt(values, m, i);
    }
    MedianOfConstant(d, 0.0);
  }

  /** Raising the threshold can only clear verdicts. */
  lemma ThresholdMonotone(values: seq<real>, t1: real, t2: real, zerosAreOutliers: bool,
                          median: Option<real>, i: int)
    requires 0 <= i < |values|
    requires t1 <= t2
    ensures OutlierMask(values, Some(t2), zerosAreOutliers, median)[i] ==>
            OutlierMask(values, Some(t1), zerosAreOutliers, median)[i]
  {
  }

  /** A value at the centre has modified z-score zero, so with a non-negative threshold only
      the zero override can flag it. */
  lemma CentreOnlyByZero(m: real, mad: real, t: real, zerosAreOutliers: bool)
    requires mad != 0.0 && t >= 0.0
    ensures Flagged(m, m, mad, t, zerosAreOutliers) <==> zerosAreOutliers && m == 0.0
  {
    assert Abs(m - m) == 0.0;
  }

  /** The code's mask and the corrected one agree exactly when the deviation scale is not zero
      or the first value is zero just when the centre is. */
  lemma AsWrittenMaskAgrees(values: seq<real>, threshold: Option<real>, zerosAreOutliers: bool,
                            median: Option<real>)
    ensures OutlierMaskAsWritten(values, threshold, zerosAreOutliers, median) ==
            OutlierMask(values, threshold, zerosAreOutliers, median)
      <==> |values| == 0
           || Mad(values, Center(values, median)) != 0.0
           || (values[0] == 0.0) == (Center(values, median) == 0.0)
  {
    if |values| > 0 {
      var m := Center(values, median);
      if Mad(values, m) == 0.0 && (values[0] == 0.0) != (m == 0.0) {
        assert OutlierMaskAsWritten(values, threshold, zerosAreOutliers, median)[0] !=
               OutlierMask(values, threshold, zerosAreOutliers, median)[0];
      }
    }
  }

  /** `get_indices_for_outlier_values` does not depend on the order of the values: a value is
      reported at its position in one order exactly when it is in any other. */
  lemma OutlierIndicesPermutation(s: seq<real>, t: seq<real>, i: int, j: int)
    requires multiset(s) == multiset(t)
    requires 0 <= i < |s| && 0 <= j < |t| && s[i] == t[j]
    ensures i in OutlierIndices(s) <==> j in OutlierIndices(t)
  {
    OutlierMaskPermutation(s, t, None, false, i, j);
  }

  /** On a constant vector `get_indices_for_outlier_values` reports every position when the
      constant is zero and none otherwise. */
  lemma OutlierIndicesFlat(values: seq<real>, c: real)
    requires |values| > 0
    requires forall i :: 0 <= i < |values| ==> values[i] == c
    ensures forall p :: p in OutlierIndices(values) <==> 0 <= p < |values| && c == 0.0
  {
    FlatSignal(values, c, None, false, None);
  }

  /** The two orders of one multiset of coverage values on which the code's zero-scale branch
      disagrees: every value of the first is flagged, none of the second; the corrected mask
      flags every value of both. */
  lemma FlatVerdictDependsOnOrder()
    ensures OutlierMaskAsWritten([0.0, 0.0, 0.0, 5.0], None, false, None) == [true, true, true, true]
    ensures OutlierMaskAsWritten([5.0, 0.0, 0.0, 0.0], None, false, None) == [false, false, false, false]
    ensures OutlierMask([0.0, 0.0, 0.0, 5.0], None, false, None) == [true, true, true, true]
    ensures OutlierMask([5.0, 0.0, 0.0, 0.0], None, false, None) == [true, true, true, true]
  {
    ZeroFirstIsFlat();
    FiveFirstIsFlat();
  }

  /** `[0, 0, 0, 5]` has centre 0 and every deviation its own value, so its scale is 0. */
  lemma ZeroFirstIsFlat()
    ensures var a := [0.0, 0.0, 0.0, 5.0];
      Median(a) == 0.0 && Deviations(a, 0.0) == a
  {
    var a := [0.0, 0.0, 0.0, 5.0];
    assert Sort(a) == [0.0, 0.0, 0.0, 5.0] by {
      assert a[1..] == [0.0, 0.0, 5.0] && a[1..][1..] == [0.0, 5.0] && a[1..][1..][1..] == [5.0];
      assert Sort([5.0]) == [5.0];
      assert Sort([0.0, 5.0]) == [0.0, 5.0];
      assert Sort([0.0, 0.0, 5.0]) == [0.0, 0.0, 5.0];
    }
    DistanceFromApply(0.0, 0.0);
    DistanceFromApply(0.0, 5.0);
    assert Deviations(a, 0.0) == a by {
      assert a[1..] == [0.0, 0.0, 5.0] && a[1..][1..] == [0.0, 5.0] && a[1..][1..][1..] == [5.0];
    }
  }

  /** `[5, 0, 0, 0]` has centre 0 and every deviation its own value, so its scale is 0. */
  lemma FiveFirstIsFlat()
    ensures var b := [5.0, 0.0, 0.0, 0.0];
      Median(b) == 0.0 && Deviations(b, 0.0) == b
  {
    var b := [5.0, 0.0, 0.0, 0.0];
    assert Sort(b) == [0.0, 0.0, 0.0, 5.0] by {
      assert b[1..] == [0.0, 0.0, 0.0] && b[1..][1..] == [0.0, 0.0] && b[1..][1..][1..] == [0.0];
      assert Sort([0.0]) == [0.0];
      assert Sort([0.0, 0.0]) == [0.0, 0.0];
      assert Sort([0.0, 0.0, 0.0]) == [0.0, 0.0, 0.0];
      assert Insert(5.0, [0.0, 0.0, 0.0]) == [0.0, 0.0, 0.0, 5.0] by {
        assert [0.0, 0.0, 0.0][1..] == [0.0, 0.0] && [0.0, 0.0][1..] == [0.0] && [0.0][1..] == [];
        assert Insert(5.0, [0.0]) == [0.0, 5.0];
        assert Insert(5.0, [0.0, 0.0]) == [0.0, 0.0, 5.0];
      }
    }
    DistanceFromApply(0.0, 0.0);
    DistanceFromApply(0.0, 5.0);
    assert Deviations(b, 0.0) == b by {
      assert b[1..] == [0.0, 0.0, 0.0] && b[1..][1..] == [0.0, 0.0] && b[1..][1..][1..] == [0.0];
    }
  }

  /** Deviations from a fixed centre are a multiset function of the values. */
  lemma DeviationsPermutation(s: seq<real>, t: seq<real>, m: real)
    requires multiset(s) == multiset(t)
    ensures multiset(Deviations(s, m)) == multiset(Deviations(t, m))
  {
    MapPermutation(DistanceFrom(m), s, t);
  }

  /** A value's verdict depends only on the value and the multiset it belongs to: reordering
      a vector reorders its mask. */
  lemma OutlierMaskPermutation(s: seq<real>, t: seq<real>, threshold: Option<real>,
                               zerosAreOutliers: bool, i: int, j: int)
    requires multiset(s) == multiset(t)
    requires 0 <= i < |s| && 0 <= j < |t| && s[i] == t[j]
    ensures OutlierMask(s, threshold, zerosAreOutliers, None)[i] ==
            OutlierMask(t, threshold, zerosAreOutliers, None)[j]
  {
    MedianPermutation(s, t);
    var m := Median(s);
    DeviationsPermutation(s, t, m);
    MedianPermutation(Deviations(s, m), Deviations(t, m));
  }

  function ScaleHint(median: Option<real>, k: real): Option<real> {
    match median
    case None => None
    case Some(h) => Some(Times(k, h))
  }

  lemma TimesFacts(k: real, a: real, b: real)
    requires k > 0.0
    ensures Abs(Times(k, a) - Times(k, b)) == Times(k, Abs(a - b))
    ensures Times(k, a) == 0.0 <==> a == 0.0
  {
    assert k * a - k * b == k * (a - b);
    if a - b < 0.0 {
      assert k * (a - b) < 0.0;
      assert k * (b - a) == -(k * (a - b));
    } else {
      assert k * (a - b) >= 0.0;
    }
    if k * a == 0.0 {
      assert a == (k * a) / k;
    }
  }

  lemma ModifiedZScale(d: real, mad: real, k: real)
    requires k > 0.0 && mad != 0.0
    ensures Times(k, mad) != 0.0
    ensures ModifiedZ(Times(k, d), Times(k, mad)) == ModifiedZ(d, mad)
  {
    TimesFacts(k, mad, 0.0);
    var x := ZScale * d;
    var q := x / mad;
    assert q * mad == x;
    assert ZScale * (k * d) == k * x;
    assert q * (k * mad) == k * x;
    assert ZScale * Times(k, d) / Times(k, mad) == q;
  }

  lemma {:induction false} DeviationsScale(v: seq<real>, m: real, k: real)
    requires k > 0.0
    ensures Deviations(Scale(v, k), Times(k, m)) == Scale(Deviations(v, m), k)
  {
    if v != [] {
      DeviationsScale(v[1..], m, k);
      TimesFacts(k, v[0], m);
      var sv := Scale(v, k);
      assert sv[0] == Times(k, v[0]) && sv[1..] == Scale(v[1..], k);
    }
  }

  lemma CenterScale(v: seq<real>, k: real, median: Option<real>)
    requires |v| > 0 && k > 0.0
    ensures Center(Scale(v, k), ScaleHint(median, k)) == Times(k, Center(v, median))
  {
    if median.Some? {
      TimesFacts(k, median.value, 0.0);
    }
    if !(median.Some? && median.value != 0.0) {
      MedianScale(v, k);
    }
  }

  lemma FlaggedScale(v: real, m: real, mad: real, t: real, zerosAreOutliers: bool, k: real)
    requires k > 0.0 && mad != 0.0
    ensures Times(k, mad) != 0.0
    ensures Flagged(Times(k, v), Times(k, m), Times(k, mad), t, zerosAreOutliers) ==
            Flagged(v, m, mad, t, zerosAreOutliers)
  {
    TimesFacts(k, v, m);
    TimesFacts(k, v, 0.0);
    ModifiedZScale(Abs(v - m), mad, k);
  }

  lemma ScoreMaskScale(v: seq<real>, m: real, mad: real, t: real, zerosAreOutliers: bool, k: real)
    requires k > 0.0 && mad != 0.0
    ensures Times(k, mad) != 0.0
    ensures ScoreMask(Scale(v, k), Times(k, m), Times(k, mad), t, zerosAreOutliers) ==
            ScoreMask(v, m, mad, t, zerosAreOutliers)
  {
    FlaggedScale(0.0, m, mad, t, zerosAreOutliers, k);
    var a, b := ScoreMask(Scale(v, k), Times(k, m), Times(k, mad), t, zerosAreOutliers),
                ScoreMask(v, m, mad, t, zerosAreOutliers);
    forall i | 0 <= i < |v|
      ensures a[i] == b[i]
    {
      ScaleAt(v, k, i);
      FlaggedScale(v[i], m, mad, t, zerosAreOutliers, k);
    }
  }

  /** Multiplying every value (and the median hint) by a positive factor leaves the mask
      unchanged: the modified z-score is dimensionless. */
  lemma OutlierMaskScale(v: seq<real>, k: real, threshold: Option<real>, zerosAreOutliers: bool,
                         median: Option<real>)
    requires k > 0.0
    ensures OutlierMask(Scale(v, k), threshold, zerosAreOutliers, ScaleHint(median, k)) ==
            OutlierMask(v, threshold, zerosAreOutliers, median)
  {
    if |v| > 0 {
      var m := Center(v, median);
      CenterScale(v, k, median);
      DeviationsScale(v, m, k);
      MedianScale(Deviations(v, m), k);
      var mad := Mad(v, m);
      assert Mad(Scale(v, k), Times(k, m)) == Times(k, mad);
      TimesFacts(k, m, 0.0);
      TimesFacts(k, mad, 0.0);
      if mad != 0.0 {
        ScoreMaskScale(v, m, mad, threshold.GetOr(DefaultThreshold), zerosAreOutliers, k);
      }
    }
  }
}
