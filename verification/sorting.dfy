/** The numpy statistics the summaries use, over exact reals: `sorted`, `np.median` and
    `np.mean`. */
module Sorting {

  predicate Sorted(s: seq<real>) {
    forall i, j :: 0 <= i < j < |s| ==> s[i] <= s[j]
  }

  /** Inserts `x` before the first element it does not exceed. */
  function Insert(x: real, s: seq<real>): (r: seq<real>)
    ensures |r| == |s| + 1
  {
    if s == [] || x <= s[0] then [x] + s else [s[0]] + Insert(x, s[1..])
  }

  /** `sorted(s)`, by insertion. */
  function Sort(s: seq<real>): (r: seq<real>)
    ensures |r| == |s|
  {
    if s == [] then [] else Insert(s[0], Sort(s[1..]))
  }

  lemma {:induction false} InsertPermutes(x: real, s: seq<real>)
    ensures multiset(Insert(x, s)) == multiset(s) + multiset{x}
  {
    if s != [] && !(x <= s[0]) {
      InsertPermutes(x, s[1..]);
      assert s == [s[0]] + s[1..];
    }
  }

  lemma {:induction false} InsertSorted(x: real, s: seq<real>)
    requires Sorted(s)
    ensures Sorted(Insert(x, s))
  {
    if s != [] && !(x <= s[0]) {
      InsertSorted(x, s[1..]);
      InsertPermutes(x, s[1..]);
      var tail := Insert(x, s[1..]);
      forall i | 0 <= i < |tail|
        ensures s[0] <= tail[i]
      {
        assert tail[i] in multiset(s[1..]) + multiset{x};
      }
    }
  }

  /** `sorted` returns an ordered permutation of its input. */
  lemma {:induction false} SortSpec(s: seq<real>)
    ensures Sorted(Sort(s))
    ensures multiset(Sort(s)) == multiset(s)
  {
    if s != [] {
      SortSpec(s[1..]);
      InsertSorted(s[0], Sort(s[1..]));
      InsertPermutes(s[0], Sort(s[1..]));
      assert s == [s[0]] + s[1..];
    }
  }

  /** `np.median`: the middle of the sorted values, or the mean of the two middle ones. */
  function Median(s: seq<real>): real
    requires |s| > 0
  {
    var t := Sort(s);
    var h := |t| / 2;
    if |t| % 2 == 1 then t[h] else (t[h - 1] + t[h]) / 2.0
  }

  function Sum(s: seq<real>): real {
    if s == [] then 0.0 else s[0] + Sum(s[1..])
  }

  /** `np.mean`. */
  function Mean(s: seq<real>): real
    requires |s| > 0
  {
    Sum(s) / |s| as real
  }

  /** `k * x`, kept behind a name so that only the lemmas that need the arithmetic see it. */
  function Times(k: real, x: real): real {
    k * x
  }

  /** Every value multiplied by `k`. */
  function Scale(s: seq<real>, k: real): (r: seq<real>)
    ensures |r| == |s|
  {
    if s == [] then [] else [Times(k, s[0])] + Scale(s[1..], k)
  }

  lemma {:induction false} ScaleAt(s: seq<real>, k: real, i: int)
    requires 0 <= i < |s|
    ensures Scale(s, k)[i] == Times(k, s[i])
  {
    if i > 0 {
      ScaleAt(s[1..], k, i - 1);
    }
  }

  lemma {:induction false} SumBounds(s: seq<real>, lo: real, hi: real)
    requires forall i :: 0 <= i < |s| ==> lo <= s[i] <= hi
    ensures |s| as real * lo <= Sum(s) <= |s| as real * hi
  {
    if s != [] {
      SumBounds(s[1..], lo, hi);
    }
  }

  /** The mean of values in `[lo, hi]` lies in `[lo, hi]`. */
  lemma MeanBetween(s: seq<real>, lo: real, hi: real)
    requires |s| > 0
    requires forall i :: 0 <= i < |s| ==> lo <= s[i] <= hi
    ensures lo <= Mean(s) <= hi
  {
    SumBounds(s, lo, hi);
    DivideBounds(Sum(s), |s| as real, lo, hi);
  }

  lemma DivideBounds(a: real, n: real, lo: real, hi: real)
    requires n > 0.0 && n * lo <= a <= n * hi
    ensures lo <= a / n <= hi
  {
    var q := a / n;
    assert a == n * q;
    assert n * (q - lo) == a - n * lo >= 0.0;
    assert n * (hi - q) == n * hi - a >= 0.0;
  }

  /** Sorting only moves values: every element of the sorted sequence comes from the input. */
  lemma SortedFrom(s: seq<real>, i: int)
    requires 0 <= i < |s|
    ensures Sort(s)[i] in s
  {
    SortSpec(s);
    assert Sort(s)[i] in multiset(Sort(s));
  }

  /** The median of values in `[lo, hi]` lies in `[lo, hi]`. */
  lemma MedianBetween(s: seq<real>, lo: real, hi: real)
    requires |s| > 0
    requires forall i :: 0 <= i < |s| ==> lo <= s[i] <= hi
    ensures lo <= Median(s) <= hi
  {
    var h := |s| / 2;
    SortedFrom(s, h);
    if |s| % 2 == 0 {
      SortedFrom(s, h - 1);
    }
  }

  /** The median of a constant sequence is that constant. */
  lemma MedianOfConstant(s: seq<real>, c: real)
    requires |s| > 0
    requires forall i :: 0 <= i < |s| ==> s[i] == c
    ensures Median(s) == c
  {
    MedianBetween(s, c, c);
  }

  lemma MulMonotone(k: real, a: real, b: real)
    requires k > 0.0
    ensures a <= b <==> Times(k, a) <= Times(k, b)
  {
    if a <= b {
      assert k * b - k * a == k * (b - a);
    } else {
      assert k * a - k * b == k * (a - b);
    }
  }

  lemma ScaleCons(a: real, t: seq<real>, k: real)
    ensures Scale([a] + t, k) == [Times(k, a)] + Scale(t, k)
  {
    assert ([a] + t)[1..] == t;
  }

  lemma {:induction false} ScaleInsert(x: real, s: seq<real>, k: real)
    requires k > 0.0
    ensures Scale(Insert(x, s), k) == Insert(Times(k, x), Scale(s, k))
  {
    if s == [] {
      ScaleCons(x, [], k);
    } else if x <= s[0] {
      MulMonotone(k, x, s[0]);
      ScaleCons(x, s, k);
    } else {
      MulMonotone(k, x, s[0]);
      ScaleInsert(x, s[1..], k);
      ScaleCons(s[0], Insert(x, s[1..]), k);
    }
  }

  /** Scaling by a positive factor commutes with sorting. */
  lemma {:induction false} ScaleSort(s: seq<real>, k: real)
    requires k > 0.0
    ensures Sort(Scale(s, k)) == Scale(Sort(s), k)
  {
    if s != [] {
      ScaleSort(s[1..], k);
      ScaleInsert(s[0], Sort(s[1..]), k);
      assert Scale(s, k)[1..] == Scale(s[1..], k);
      assert Sort(Scale(s, k)) == Insert(Times(k, s[0]), Sort(Scale(s[1..], k)));
    }
  }

  /** `np.median` is scale-equivariant for a positive factor. */
  lemma MedianScale(s: seq<real>, k: real)
    requires |s| > 0 && k > 0.0
    ensures Median(Scale(s, k)) == Times(k, Median(s))
  {
    ScaleSort(s, k);
    var t := Sort(s);
    var u := Sort(Scale(s, k));
    assert u == Scale(t, k);
    var h := |t| / 2;
    ScaleAt(t, k, h);
    if |t| % 2 == 0 {
      ScaleAt(t, k, h - 1);
      TimesAverage(k, t[h - 1], t[h]);
    }
  }

  lemma TimesAverage(k: real, a: real, b: real)
    ensures (Times(k, a) + Times(k, b)) / 2.0 == Times(k, (a + b) / 2.0)
  {
    assert k * a + k * b == k * (a + b);
  }

  // Permutations

  /** `f` applied to every element. */
  function MapSeq<T, U>(f: T -> U, s: seq<T>): (r: seq<U>)
    ensures |r| == |s|
  {
    if s == [] then [] else [f(s[0])] + MapSeq(f, s[1..])
  }

  lemma {:induction false} MapAppend<T, U>(f: T -> U, a: seq<T>, b: seq<T>)
    ensures MapSeq(f, a + b) == MapSeq(f, a) + MapSeq(f, b)
  {
    if a != [] {
      assert (a + b)[1..] == a[1..] + b;
      MapAppend(f, a[1..], b);
    } else {
      assert a + b == b;
    }
  }

  lemma MultisetMiddle<T>(p: seq<T>, q: seq<T>, r: seq<T>)
    ensures multiset(p + q + r) == multiset(p + r) + multiset(q)
  {
    assert multiset(p + q + r) == multiset(p) + multiset(q) + multiset(r);
    assert multiset(p + r) == multiset(p) + multiset(r);
  }

  lemma SplitAt<T>(t: seq<T>, j: int)
    requires 0 <= j < |t|
    ensures t == t[..j] + [t[j]] + t[j + 1..]
  {
  }

  lemma MapRemoveAt<T, U>(f: T -> U, t: seq<T>, j: int)
    requires 0 <= j < |t|
    ensures multiset(MapSeq(f, t)) == multiset(MapSeq(f, t[..j] + t[j + 1..])) + multiset{f(t[j])}
  {
    var a, x, b := t[..j], t[j], t[j + 1..];
    SplitAt(t, j);
    MapAppend(f, a + [x], b);
    MapAppend(f, a, [x]);
    assert [x][1..] == [];
    assert MapSeq(f, [x]) == [f(x)];
    MapAppend(f, a, b);
    MultisetMiddle(MapSeq(f, a), [f(x)], MapSeq(f, b));
  }

  /** Finds an occurrence of `x` in `t`; removing it takes `x` out of the multiset once. */
  lemma FindAndRemove<T>(x: T, t: seq<T>) returns (j: int)
    requires x in multiset(t)
    ensures 0 <= j < |t| && t[j] == x
    ensures multiset(t[..j] + t[j + 1..]) == multiset(t) - multiset{x}
  {
    j :| 0 <= j < |t| && t[j] == x;
    SplitAt(t, j);
    MultisetMiddle(t[..j], [t[j]], t[j + 1..]);
  }

  /** Finds `s[0]` in `t` and removes it. */
  lemma MatchHead<T, U>(f: T -> U, s: seq<T>, t: seq<T>) returns (rest: seq<T>)
    requires |s| > 0 && multiset(s) == multiset(t)
    ensures multiset(s[1..]) == multiset(rest)
    ensures |rest| < |t|
    ensures multiset(MapSeq(f, t)) == multiset(MapSeq(f, rest)) + multiset{f(s[0])}
  {
    assert s == [s[0]] + s[1..];
    assert multiset(s) == multiset{s[0]} + multiset(s[1..]);
    var j := FindAndRemove(s[0], t);
    rest := t[..j] + t[j + 1..];
    MapRemoveAt(f, t, j);
  }

  /** A mapped sequence's multiset depends only on the multiset of the input. */
  lemma {:induction false} MapPermutation<T, U>(f: T -> U, s: seq<T>, t: seq<T>)
    requires multiset(s) == multiset(t)
    ensures multiset(MapSeq(f, s)) == multiset(MapSeq(f, t))
    decreases |s|
  {
    if s == [] {
      assert |multiset(t)| == 0;
    } else {
      var rest := MatchHead(f, s, t);
      MapPermutation(f, s[1..], rest);
      assert MapSeq(f, s) == [f(s[0])] + MapSeq(f, s[1..]);
    }
  }

  lemma {:induction false} SortedUnique(a: seq<real>, b: seq<real>)
    requires Sorted(a) && Sorted(b)
    requires multiset(a) == multiset(b)
    ensures a == b
  {
    if a != [] {
      assert |b| == |a| by {
        assert |multiset(a)| == |a| && |multiset(b)| == |b|;
      }
      assert a[0] in multiset(b);
      assert b[0] in multiset(a);
      assert a[0] == b[0];
      assert a == [a[0]] + a[1..];
      assert b == [b[0]] + b[1..];
      assert multiset(a) == multiset{a[0]} + multiset(a[1..]);
      assert multiset(b) == multiset{b[0]} + multiset(b[1..]);
      assert multiset(a[1..]) == multiset(a) - multiset{a[0]};
      assert multiset(a[1..]) == multiset(b[1..]);
      SortedUnique(a[1..], b[1..]);
    } else {
      assert |multiset(b)| == 0;
    }
  }

  /** The median depends only on the multiset of values. */
  lemma MedianPermutation(s: seq<real>, t: seq<real>)
    requires |s| > 0
    requires multiset(s) == multiset(t)
    ensures |t| == |s|
    ensures Median(s) == Median(t)
  {
    assert |multiset(s)| == |s| && |multiset(t)| == |t|;
    SortSpec(s);
    SortSpec(t);
    SortedUnique(Sort(s), Sort(t));
  }

  /** A count over a positive total is a fraction in [0, 1], 0 exactly for none and 1 for all. */
  lemma Fraction(p: real, n: real)
    requires 0.0 <= p <= n && n > 0.0
    ensures 0.0 <= p / n <= 1.0
    ensures p / n == 0.0 <==> p == 0.0
    ensures p / n == 1.0 <==> p == n
  {
    var f := p / n;
    assert f * n == p;
    assert (1.0 - f) * n == n - p;
  }
}
