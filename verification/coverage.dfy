/** `Coverage`: the per-position depth of a reference range, accumulated from the aligned
    blocks of the reads over it, optionally capped, and its summary statistics. */
module Coverage {
  import opened Wrappers
  import opened PySlice
  import opened Cigar
  import opened Reads
  import opened Alignment
  import opened Sorting
  import opened Outliers

  // Accumulation (`_accurate_routine`)

  /** Whether `c[start:end] += 1`, on an array of length `n`, increments index `k`: numpy
      clips (and wraps negative) slice bounds, so the block's coordinates are used as array
      indices as they are. */
  predicate Covers(b: Block, k: int, n: nat) {
    Bound(b.0, n) <= k < Bound(b.1, n)
  }

  /** `c[start:end] += 1`. */
  function AddBlock(c: seq<int>, b: Block): (d: seq<int>)
    ensures |d| == |c|
  {
    seq(|c|, k requires 0 <= k < |c| => if Covers(b, k, |c|) then c[k] + 1 else c[k])
  }

  /** How many of the blocks `bs` increment index `k`. */
  function BlockHits(bs: seq<Block>, k: int, n: nat): nat {
    if bs == [] then 0
    else BlockHits(bs[..|bs| - 1], k, n) + (if Covers(bs[|bs| - 1], k, n) then 1 else 0)
  }

  /** How many blocks of all the reads increment index `k`. */
  function Hits(rs: seq<Read>, k: int, n: nat): nat {
    if rs == [] then 0
    else Hits(rs[..|rs| - 1], k, n) + BlockHits(Blocks(rs[|rs| - 1]), k, n)
  }

  /** `Coverage._accurate_routine`: for every read, for every block, `c[start:end] += 1`. */
  method AccurateRoutine(c: seq<int>, rs: seq<Read>) returns (depth: seq<int>)
    ensures |depth| == |c|
    ensures forall k :: 0 <= k < |c| ==> depth[k] == c[k] + Hits(rs, k, |c|)
  {
    depth := c;
    var i := 0;
    while i < |rs|
      invariant 0 <= i <= |rs|
      invariant |depth| == |c|
      invariant forall k :: 0 <= k < |c| ==> depth[k] == c[k] + Hits(rs[..i], k, |c|)
    {
      var blocks := Blocks(rs[i]);
      var j := 0;
      while j < |blocks|
        invariant 0 <= j <= |blocks|
        invariant |depth| == |c|
        invariant forall k :: 0 <= k < |c| ==>
          depth[k] == c[k] + Hits(rs[..i], k, |c|) + BlockHits(blocks[..j], k, |c|)
      {
        depth := AddBlock(depth, blocks[j]);
        assert blocks[..j + 1][..j] == blocks[..j];
        j := j + 1;
      }
      assert blocks[..j] == blocks;
      assert rs[..i + 1][..i] == rs[..i];
      i := i + 1;
    }
    assert rs[..i] == rs;
  }

  lemma {:induction false} HitsAppend(a: seq<Read>, b: seq<Read>, k: int, n: nat)
    ensures Hits(a + b, k, n) == Hits(a, k, n) + Hits(b, k, n)
    decreases |b|
  {
    if b == [] {
      assert a + b == a;
    } else {
      assert (a + b)[..|a + b| - 1] == a + b[..|b| - 1];
      HitsAppend(a, b[..|b| - 1], k, n);
    }
  }

  lemma HitsRemoveAt(t: seq<Read>, j: int, k: int, n: nat)
    requires 0 <= j < |t|
    ensures Hits(t, k, n) == Hits(t[..j] + t[j + 1..], k, n) + Hits([t[j]], k, n)
  {
    var p, x, q := t[..j], [t[j]], t[j + 1..];
    SplitAt(t, j);
    HitsAppend(p + x, q, k, n);
    HitsAppend(p, x, k, n);
    HitsAppend(p, q, k, n);
  }

  /** Finds the last read of `s` in `t` and removes it. */
  lemma MatchLast(s: seq<Read>, t: seq<Read>, k: int, n: nat) returns (rest: seq<Read>)
    requires |s| > 0 && multiset(s) == multiset(t)
    ensures multiset(s[..|s| - 1]) == multiset(rest)
    ensures |rest| < |t|
    ensures Hits(t, k, n) == Hits(rest, k, n) + Hits([s[|s| - 1]], k, n)
  {
    var x := s[|s| - 1];
    assert s == s[..|s| - 1] + [x];
    assert multiset(s) == multiset(s[..|s| - 1]) + multiset{x};
    var j := FindAndRemove(x, t);
    rest := t[..j] + t[j + 1..];
    HitsRemoveAt(t, j, k, n);
  }

  /** The depth does not depend on the order in which the reads arrive. */
  lemma {:induction false} HitsPermutation(s: seq<Read>, t: seq<Read>, k: int, n: nat)
    requires multiset(s) == multiset(t)
    ensures Hits(s, k, n) == Hits(t, k, n)
    decreases |s|
  {
    if s == [] {
      assert |multiset(t)| == 0;
    } else {
      var rest := MatchLast(s, t, k, n);
      HitsPermutation(s[..|s| - 1], rest, k, n);
      assert [s[|s| - 1]][..0] == [];
    }
  }

  /** A block inside the array is incremented exactly on its own positions. */
  lemma CoversInside(b: Block, k: int, n: nat)
    requires 0 <= b.0 <= b.1 <= n
    ensures Covers(b, k, n) <==> b.0 <= k < b.1
  {
  }

  /** Over ordered blocks inside the array, at most one block increments a position: the one
      containing it. */
  lemma {:induction false} BlockHitsIsMembership(bs: seq<Block>, k: int, n: nat)
    requires Ordered(bs) && Within(bs, 0, n)
    ensures BlockHits(bs, k, n) == if InBlocks(bs, k) then 1 else 0
    decreases |bs|
  {
    if bs != [] {
      var init, last := bs[..|bs| - 1], bs[|bs| - 1];
      assert Ordered(init) && Within(init, 0, n);
      BlockHitsIsMembership(init, k, n);
      CoversInside(last, k, n);
      if last.0 <= k < last.1 {
        assert InBlocks(bs, k) by {
          assert bs[|bs| - 1] == last;
        }
        forall i | 0 <= i < |init|
          ensures !(init[i].0 <= k < init[i].1)
        {
          assert bs[i].1 <= bs[|bs| - 1].0;
        }
      } else {
        if InBlocks(bs, k) {
          var i :| 0 <= i < |bs| && bs[i].0 <= k < bs[i].1;
          assert i < |bs| - 1 && init[i] == bs[i];
        }
        if InBlocks(init, k) {
          var i :| 0 <= i < |init| && init[i].0 <= k < init[i].1;
          assert bs[i] == init[i];
        }
      }
    }
  }

  /** How many of the reads have an aligned base at reference position `x`. */
  function CoveringReads(rs: seq<Read>, x: int): nat {
    if rs == [] then 0
    else CoveringReads(rs[..|rs| - 1], x) + (if InBlocks(Blocks(rs[|rs| - 1]), x) then 1 else 0)
  }

  /** When the reads lie inside the array, the depth added at `k` is the number of reads with
      an aligned base at reference position `k`: a read's blocks never overlap, so no read is
      counted twice, and deletions and skips leave their positions uncounted. */
  lemma {:induction false} HitsCountReads(rs: seq<Read>, k: int, n: nat)
    requires forall i :: 0 <= i < |rs| ==> Consistent(rs[i])
    requires forall i :: 0 <= i < |rs| ==> 0 <= rs[i].refStart && rs[i].refEnd <= n
    ensures Hits(rs, k, n) == CoveringReads(rs, k)
    ensures Hits(rs, k, n) <= |rs|
    decreases |rs|
  {
    if rs != [] {
      var r := rs[|rs| - 1];
      HitsCountReads(rs[..|rs| - 1], k, n);
      BlocksOfRead(r);
      assert Within(Blocks(r), 0, n);
      BlockHitsIsMembership(Blocks(r), k, n);
    }
  }

  /** The block coordinates index the array as they are, with no offset for the start of the
      range: a read aligned at 100..105, accumulated into the ten-position array of the range
      starting at 100, increments nothing. */
  lemma AbsoluteCoordinates()
    ensures var r := Read([Run(M, 5)], [65, 67, 71, 84, 65], [65, 67, 71, 84, 65], 100, 105);
            Consistent(r) && Blocks(r) == [(100, 105)] &&
            forall k :: 0 <= k < 10 ==> Hits([r], k, 10) == 0
  {
    var r := Read([Run(M, 5)], [65, 67, 71, 84, 65], [65, 67, 71, 84, 65], 100, 105);
    assert Len(r.cigar, Query) == 5 && Len(r.cigar, Reference) == 5;
    assert Blocks(r) == [(100, 105)];
    assert [r][..0] == [];
    var bs := [(100, 105)];
    assert bs[..0] == [];
    forall k | 0 <= k < 10
      ensures Hits([r], k, 10) == 0
    {
      assert !Covers((100, 105), k, 10);
      assert BlockHits(bs, k, 10) == 0;
    }
  }

  // Capping (`max_coverage`)

  /** `np.max` of an empty array, or `np.zeros` of a negative size. */
  datatype CoverageError = MaxOfEmpty | NegativeSize(size: int)

  function MaxOf(c: seq<int>): (m: int)
    requires |c| > 0
    ensures forall k :: 0 <= k < |c| ==> c[k] <= m
    ensures exists k :: 0 <= k < |c| && c[k] == m
  {
    if |c| == 1 then c[0]
    else
      var rest := MaxOf(c[1..]);
      if c[0] >= rest then c[0] else rest
  }

  function MinOf(c: seq<int>): (m: int)
    requires |c| > 0
    ensures forall k :: 0 <= k < |c| ==> m <= c[k]
    ensures exists k :: 0 <= k < |c| && c[k] == m
  {
    if |c| == 1 then c[0]
    else
      var rest := MinOf(c[1..]);
      if c[0] <= rest then c[0] else rest
  }

  /** `if np.max(c) > max_coverage: c[c > max_coverage] = max_coverage`. `np.max` of an empty
      array raises, so a cap on an empty range is an error. */
  function ClampToMax(c: seq<int>, maxCoverage: Option<int>): (res: Result<seq<int>, CoverageError>)
    ensures maxCoverage.None? ==> res == Success(c)
    ensures maxCoverage.Some? && |c| == 0 ==> res == Failure(MaxOfEmpty)
    ensures maxCoverage.Some? && |c| > 0 ==>
      res.Success? && |res.value| == |c| &&
      forall k :: 0 <= k < |c| ==>
        res.value[k] <= maxCoverage.value &&
        (c[k] <= maxCoverage.value ==> res.value[k] == c[k]) &&
        (c[k] > maxCoverage.value ==> res.value[k] == maxCoverage.value)
  {
    match maxCoverage
    case None => Success(c)
    case Some(cap) =>
      if |c| == 0 then Failure(MaxOfEmpty)
      else if MaxOf(c) > cap then Success(seq(|c|, k requires 0 <= k < |c| => if c[k] > cap then cap else c[k]))
      else Success(c)
  }

  /** Capping twice at the same value is capping once. */
  lemma ClampIdempotent(c: seq<int>, cap: int, d: seq<int>)
    requires ClampToMax(c, Some(cap)) == Success(d)
    ensures ClampToMax(d, Some(cap)) == Success(d)
  {
  }

  // Summaries (`process_c`)

  datatype Summary = Summary(min: int, max: int, median: real, mean: real, detection: real,
                             meanQ2Q3: real, isOutlier: seq<bool>)

  function Reals(c: seq<int>): (r: seq<real>)
    ensures |r| == |c|
    ensures forall k :: 0 <= k < |c| ==> r[k] == c[k] as real
  {
    seq(|c|, k requires 0 <= k < |c| => c[k] as real)
  }

  function CountPositive(c: seq<int>): (p: nat)
    ensures p <= |c|
  {
    if c == [] then 0 else (if c[0] > 0 then 1 else 0) + CountPositive(c[1..])
  }

  /** `Q = int(c.size * 0.25)`; `0.25` and the product are exact in binary floating point. */
  function Quarter(n: nat): nat {
    (n as real * 0.25).Floor
  }

  /** `sorted(c)[Q:-Q]`, taken only for four values or more. */
  function InnerHalf(c: seq<int>): seq<real> {
    var q: int := Quarter(|c|);
    Slice(Sort(Reals(c)), Some(q), Some(-q))
  }

  /** The mean of the inner half of the sorted values, or the plain mean below four values. */
  function MeanQ2Q3(c: seq<int>): real
    requires |c| > 0
  {
    if |c| < 4 then Mean(Reals(c)) else Mean(InnerHalf(c))
  }

  /** `process_c` (the standard deviation aside), with the corrected outlier mask. */
  function ProcessC(c: seq<int>): Summary
    requires |c| > 0
  {
    var values := Reals(c);
    var median := Median(values);
    Summary(MinOf(c), MaxOf(c), median, Mean(values),
            CountPositive(c) as real / |c| as real,
            MeanQ2Q3(c),
            OutlierMask(values, None, false, Some(median)))
  }

  lemma QuarterBounds(n: nat)
    ensures 4 * Quarter(n) <= n < 4 * Quarter(n) + 4
    ensures Quarter(n) == n / 4
  {
    var q := n / 4;
    assert n as real * 0.25 == q as real + (n - 4 * q) as real * 0.25;
  }

  /** For four values or more, the inner half drops the `Q >= 1` smallest and `Q` largest
      values, keeping at least half of them; every value kept is one of the inputs. */
  lemma InnerHalfShape(c: seq<int>)
    requires |c| >= 4
    ensures var q := |c| / 4;
      1 <= q && InnerHalf(c) == Sort(Reals(c))[q..|c| - q] && 2 * |InnerHalf(c)| >= |c|
    ensures |InnerHalf(c)| > 0
    ensures forall i :: 0 <= i < |InnerHalf(c)| ==> InnerHalf(c)[i] in Reals(c)
  {
    QuarterBounds(|c|);
    var q := |c| / 4;
    var sorted := Sort(Reals(c));
    forall i | 0 <= i < |InnerHalf(c)|
      ensures InnerHalf(c)[i] in Reals(c)
    {
      assert InnerHalf(c)[i] == sorted[q + i];
      SortedFrom(Reals(c), q + i);
    }
  }

  lemma CountPositiveMeaning(c: seq<int>)
    ensures CountPositive(c) == 0 <==> forall k :: 0 <= k < |c| ==> c[k] <= 0
    ensures CountPositive(c) == |c| <==> forall k :: 0 <= k < |c| ==> c[k] > 0
  {
    if c != [] {
      CountPositiveMeaning(c[1..]);
      assert forall k :: 1 <= k < |c| ==> c[k] == c[1..][k - 1];
    }
  }

  lemma MinMaxBounds(c: seq<int>)
    requires |c| > 0
    ensures var s := ProcessC(c);
      && (forall k :: 0 <= k < |c| ==> s.min <= c[k] <= s.max)
      && s.min in c && s.max in c
  {
  }

  lemma CentralBounds(c: seq<int>)
    requires |c| > 0
    ensures var s := ProcessC(c);
      && s.min as real <= s.median <= s.max as real
      && s.min as real <= s.mean <= s.max as real
  {
    var values := Reals(c);
    var lo, hi := MinOf(c) as real, MaxOf(c) as real;
    MedianBetween(values, lo, hi);
    MeanBetween(values, lo, hi);
  }

  lemma MeanQ2Q3Bounds(c: seq<int>)
    requires |c| > 0
    ensures MinOf(c) as real <= MeanQ2Q3(c) <= MaxOf(c) as real
    ensures |c| < 4 ==> MeanQ2Q3(c) == Mean(Reals(c))
  {
    var values := Reals(c);
    var lo, hi := MinOf(c) as real, MaxOf(c) as real;
    if |c| >= 4 {
      InnerHalfShape(c);
      var inner := InnerHalf(c);
      forall i | 0 <= i < |inner|
        ensures lo <= inner[i] <= hi
      {
        assert inner[i] in values;
        var k :| 0 <= k < |values| && values[k] == inner[i];
        assert MinOf(c) <= c[k] <= MaxOf(c);
      }
      MeanBetween(inner, lo, hi);
    } else {
      MeanBetween(values, lo, hi);
    }
  }

  lemma DetectionBounds(c: seq<int>)
    requires |c| > 0
    ensures var d := CountPositive(c) as real / |c| as real;
      && 0.0 <= d <= 1.0
      && (d == 0.0 <==> forall k :: 0 <= k < |c| ==> c[k] <= 0)
      && (d == 1.0 <==> forall k :: 0 <= k < |c| ==> c[k] > 0)
  {
    CountPositiveMeaning(c);
    Fraction(CountPositive(c) as real, |c| as real);
  }

  /** The summary's statistics lie between the minimum and the maximum, detection is the
      fraction of covered positions, and the short-range mean falls back to the plain mean. */
  lemma ProcessCBounds(c: seq<int>)
    requires |c| > 0
    ensures var s := ProcessC(c);
      && (forall k :: 0 <= k < |c| ==> s.min <= c[k] <= s.max)
      && s.min in c && s.max in c
      && s.min as real <= s.median <= s.max as real
      && s.min as real <= s.mean <= s.max as real
      && s.min as real <= s.meanQ2Q3 <= s.max as real
      && 0.0 <= s.detection <= 1.0
      && (s.detection == 0.0 <==> forall k :: 0 <= k < |c| ==> c[k] <= 0)
      && (s.detection == 1.0 <==> forall k :: 0 <= k < |c| ==> c[k] > 0)
      && |s.isOutlier| == |c|
      && (|c| < 4 ==> s.meanQ2Q3 == s.mean)
  {
    MinMaxBounds(c);
    CentralBounds(c);
    MeanQ2Q3Bounds(c);
    DetectionBounds(c);
  }

  // One range (`Coverage.run` after the range is resolved)

  datatype Profile = Profile(depth: seq<int>, summary: Option<Summary>)

  function Capped(x: int, maxCoverage: Option<int>): int {
    if maxCoverage.Some? && x > maxCoverage.value then maxCoverage.value else x
  }

  /** A zero array the size of the range `end - start` (numpy refuses a negative size), the
      accurate routine over the reads, the optional cap, and the summary unless it is skipped
      or the range is empty. */
  method RunRange(rs: seq<Read>, start: int, end: int, maxCoverage: Option<int>, skipCoverageStats: bool)
    returns (res: Result<Profile, CoverageError>)
    ensures res.Failure? <==> end < start || (maxCoverage.Some? && end == start)
    ensures end < start ==> res == Failure(NegativeSize(end - start))
    ensures res.Success? ==>
      var n := end - start;
      && n >= 0
      && |res.value.depth| == n
      && (forall k :: 0 <= k < n ==> res.value.depth[k] == Capped(Hits(rs, k, n), maxCoverage))
      && (res.value.summary.Some? <==> n > 0 && !skipCoverageStats)
      && (res.value.summary.Some? ==> res.value.summary.value == ProcessC(res.value.depth))
  {
    if end < start {
      return Failure(NegativeSize(end - start));
    }
    var n: nat := end - start;
    var zeros := seq(n, _ => 0);
    var c := AccurateRoutine(zeros, rs);
    var clamped := ClampToMax(c, maxCoverage);
    if clamped.Failure? {
      return Failure(clamped.error);
    }
    var depth := clamped.value;
    var summary := if |depth| > 0 && !skipCoverageStats then Some(ProcessC(depth)) else None;
    return Success(Profile(depth, summary));
  }
}
