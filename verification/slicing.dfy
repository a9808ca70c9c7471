/** `Read.__getitem__`: `read[start:stop]` in reference coordinates, a copy of the read trimmed
    from the left up to `start` and from the right down to `stop`. Reads are values here, so
    the copy is implicit and the original is never changed. */
module Slicing {
  import opened Wrappers
  import opened Cigar
  import opened Reads
  import opened Trimming
  import opened Alignment

  /** The index of `read[...]`: a slice with its omitted parts as `None`, or any other key. */
  datatype Key = SliceKey(start: Option<int>, stop: Option<int>, step: Option<int>) | OtherKey

  /** `ValueError` for an unsupported key, or the `ConfigError` one of the two trims raised. */
  datatype SliceError = NotBasicSlice | TrimFailed(cause: TrimError)

  /** `read[start:stop]` with no step. */
  predicate IsBasic(key: Key) {
    key.SliceKey? && key.step.None?
  }

  /** The requested bounds, an omitted one standing for the read's own. */
  function StartOf(r: Read, key: Key): int
    requires key.SliceKey?
  {
    key.start.GetOr(r.refStart)
  }

  function StopOf(r: Read, key: Key): int
    requires key.SliceKey?
  {
    key.stop.GetOr(r.refEnd)
  }

  /** `read[key]` as the code does it: a left trim by `start - reference_start`, then a right
      trim by `reference_end - stop`, either of which raises when its amount is negative or
      exceeds what is left of the read. */
  function GetItem(r: Read, key: Key): (res: Result<Read, SliceError>)
    ensures !IsBasic(key) ==> res == Failure(NotBasicSlice)
  {
    if !IsBasic(key) then Failure(NotBasicSlice)
    else
      var start := StartOf(r, key);
      var stop := StopOf(r, key);
      match Trim(r, start - r.refStart, Left)
      case Failure(e) => Failure(TrimFailed(e))
      case Success(left) =>
        match Trim(left, left.refEnd - stop, Right)
        case Failure(e) => Failure(TrimFailed(e))
        case Success(t) => Success(t)
  }

  function Clamp(x: int, lo: int, hi: int): int {
    if x < lo then lo else if x > hi then hi else x
  }

  function Max(a: int, b: int): int {
    if a < b then b else a
  }

  function Min(a: int, b: int): int {
    if a < b then a else b
  }

  /** `read[key]` as its documentation describes it: bounds outside the read are clamped to it
      (the stop also to what the left trim left), so a basic slice never raises. */
  function GetItemClamped(r: Read, key: Key): (res: Result<Read, SliceError>)
    ensures !IsBasic(key) ==> res == Failure(NotBasicSlice)
  {
    if !IsBasic(key) then Failure(NotBasicSlice)
    else
      var start := Clamp(StartOf(r, key), r.refStart, r.refEnd);
      match Trim(r, start - r.refStart, Left)
      case Failure(e) => Failure(TrimFailed(e))
      case Success(left) =>
        var stop := Clamp(StopOf(r, key), left.refStart, left.refEnd);
        match Trim(left, left.refEnd - stop, Right)
        case Failure(e) => Failure(TrimFailed(e))
        case Success(t) => Success(t)
  }

  /** A consistent read's blocks lie inside any interval holding its span, and it has none
      when its span is empty. */
  lemma BlocksInsideInterval(t: Read, lo: int, hi: int)
    requires Consistent(t)
    requires t.Span() == 0 || (lo <= t.refStart && t.refEnd <= hi)
    ensures Within(Blocks(t), lo, hi)
  {
    BlocksOfRead(t);
    var bs := Blocks(t);
    if bs != [] {
      assert t.refStart <= bs[0].0 < bs[0].1 <= t.refEnd;
    }
  }

  /** A left trim followed by a right trim of a consistent read stays inside the original,
      with the reference bases of its interval and a contiguous stretch of the original's
      bases. */
  lemma TrimBothEnds(r: Read, fromLeft: int, left: Read, fromRight: int, t: Read)
    requires Consistent(r) && Consistent(left) && Consistent(t)
    requires LeftTrimOf(left, r, fromLeft)
    requires RightTrimOf(t, left, fromRight)
    ensures r.refStart + fromLeft <= left.refStart == t.refStart
    ensures t.refEnd <= left.refEnd - fromRight && left.refEnd == r.refEnd
    ensures r.refStart <= t.refStart <= t.refEnd <= r.refEnd
    ensures t.reference == r.reference[t.refStart - r.refStart..t.refEnd - r.refStart]
    ensures |t.query| <= |left.query| <= |r.query|
    ensures t.query == r.query[|r.query| - |left.query|..|r.query| - |left.query| + |t.query|]
  {
    LenNonNegative(t.cigar, Reference);
    NestedSlices(r.query, |r.query| - |left.query|, |t.query|);
    NestedSlices(r.reference, left.refStart - r.refStart, t.refEnd - t.refStart);
  }

  /** A left trim then a right trim that both succeed keep a consistent read consistent. */
  lemma LeftThenRight(r: Read, fromLeft: int, left: Read, fromRight: int, t: Read)
    requires Consistent(r)
    requires Trim(r, fromLeft, Left) == Success(left)
    requires Trim(left, fromRight, Right) == Success(t)
    ensures Consistent(left) && Consistent(t)
    ensures LeftTrimOf(left, r, fromLeft) && RightTrimOf(t, left, fromRight)
  {
    TrimKeepsConsistency(r, fromLeft, Left);
    TrimKeepsConsistency(left, fromRight, Right);
  }

  /** A prefix of a suffix is a contiguous stretch. */
  lemma NestedSlices<T>(s: seq<T>, i: int, n: int)
    requires 0 <= i <= |s| && 0 <= n <= |s| - i
    ensures s[i..][..n] == s[i..i + n]
  {
  }

  /** A slice of a consistent read that succeeds is a consistent read inside both the requested
      interval and the read's own, whose reference bases are the original's at that interval
      and whose blocks lie in the requested interval (its bases are a contiguous stretch of
      the original's, by `TrimBothEnds`). */
  lemma GetItemWithinBounds(r: Read, key: Key, t: Read)
    requires Consistent(r)
    requires GetItem(r, key) == Success(t)
    ensures Consistent(t)
    ensures StartOf(r, key) <= t.refStart && t.refEnd <= StopOf(r, key)
    ensures r.refStart <= t.refStart <= t.refEnd <= r.refEnd
    ensures t.reference == r.reference[t.refStart - r.refStart..t.refEnd - r.refStart]
    ensures Within(Blocks(t), StartOf(r, key), StopOf(r, key))
  {
    var left := GetItemParts(r, key, t);
    TrimBothEnds(r, StartOf(r, key) - r.refStart, left, left.refEnd - StopOf(r, key), t);
    BlocksInsideInterval(t, StartOf(r, key), StopOf(r, key));
  }

  /** A slice that succeeds is a left trim of the read followed by a right trim of what it left. */
  lemma GetItemParts(r: Read, key: Key, t: Read) returns (left: Read)
    requires Consistent(r)
    requires GetItem(r, key) == Success(t)
    ensures IsBasic(key)
    ensures Consistent(left) && Consistent(t)
    ensures LeftTrimOf(left, r, StartOf(r, key) - r.refStart)
    ensures RightTrimOf(t, left, left.refEnd - StopOf(r, key))
  {
    var lres := Trim(r, StartOf(r, key) - r.refStart, Left);
    assert lres.Success?;
    left := lres.value;
    TrimKeepsConsistency(r, StartOf(r, key) - r.refStart, Left);
    var rres := Trim(left, left.refEnd - StopOf(r, key), Right);
    assert rres.Success? && rres.value == t;
    TrimKeepsConsistency(left, left.refEnd - StopOf(r, key), Right);
  }

  /** The code does not clamp: a basic slice reaching before or past the read raises. */
  lemma GetItemRejectsOutOfSpan(r: Read, key: Key)
    requires Consistent(r)
    requires IsBasic(key)
    requires StartOf(r, key) < r.refStart || StopOf(r, key) > r.refEnd
    ensures GetItem(r, key).Failure?
  {
    var start := StartOf(r, key);
    if start >= r.refStart && Trim(r, start - r.refStart, Left).Success? {
      TrimKeepsConsistency(r, start - r.refStart, Left);
    }
  }

  /** An omitted bound is the read's own: `read[:]` is the read itself, and `read[:stop]`,
      `read[start:]` are the slices with the read's start and end written out. */
  lemma OmittedBoundsUseReadSpan(r: Read, start: int, stop: int)
    ensures GetItem(r, SliceKey(None, None, None)) == Success(r)
    ensures GetItem(r, SliceKey(None, Some(stop), None)) == GetItem(r, SliceKey(Some(r.refStart), Some(stop), None))
    ensures GetItem(r, SliceKey(Some(start), None, None)) == GetItem(r, SliceKey(Some(start), Some(r.refEnd), None))
  {
  }

  /** The documentation's example `read[4400:4700]` of a read on 4500..4600 raises instead of
      returning the read's own interval; the clamped slice returns the read unchanged. */
  lemma DocumentedClampExample()
    ensures var r := Read([Run(M, 100)], seq(100, _ => 65), seq(100, _ => 65), 4500, 4600);
      && Consistent(r)
      && GetItem(r, SliceKey(Some(4400), Some(4700), None)) == Failure(TrimFailed(NegativeTrim(-100)))
      && GetItemClamped(r, SliceKey(Some(4400), Some(4700), None)) == Success(r)
  {
    var r := Read([Run(M, 100)], seq(100, _ => 65), seq(100, _ => 65), 4500, 4600);
    assert r.cigar[1..] == [];
  }

  /** The clamped slice of a consistent read never fails on a basic slice. */
  lemma GetItemClampedSucceeds(r: Read, key: Key)
    requires Consistent(r)
    requires IsBasic(key)
    ensures GetItemClamped(r, key).Success?
  {
    LenNonNegative(r.cigar, Reference);
    var start := Clamp(StartOf(r, key), r.refStart, r.refEnd);
    var lres := Trim(r, start - r.refStart, Left);
    assert lres.Success?;
    TrimKeepsConsistency(r, start - r.refStart, Left);
    var left := lres.value;
    LenNonNegative(left.cigar, Reference);
    var stop := Clamp(StopOf(r, key), left.refStart, left.refEnd);
    assert 0 <= left.refEnd - stop <= left.Span();
    assert Trim(left, left.refEnd - stop, Right).Success?;
  }

  /** The clamped slice keeps the read consistent and inside its own span, and its blocks lie
      where the requested interval and the read's span overlap. */
  lemma GetItemClampedWithinBounds(r: Read, key: Key, t: Read)
    requires Consistent(r)
    requires GetItemClamped(r, key) == Success(t)
    ensures Consistent(t)
    ensures r.refStart <= t.refStart <= t.refEnd <= r.refEnd
    ensures t.reference == r.reference[t.refStart - r.refStart..t.refEnd - r.refStart]
    ensures Within(Blocks(t), Max(StartOf(r, key), r.refStart), Min(StopOf(r, key), r.refEnd))
  {
    var left := GetItemClampedParts(r, key, t);
    var start := Clamp(StartOf(r, key), r.refStart, r.refEnd);
    var stop := Clamp(StopOf(r, key), left.refStart, left.refEnd);
    LeftThenRight(r, start - r.refStart, left, left.refEnd - stop, t);
    TrimBothEnds(r, start - r.refStart, left, left.refEnd - stop, t);
    BlocksInsideInterval(t, Max(StartOf(r, key), r.refStart), Min(StopOf(r, key), r.refEnd));
  }

  /** The clamped slice is a left trim to the clamped start followed by a right trim to the
      stop clamped to what the left trim left. */
  lemma GetItemClampedParts(r: Read, key: Key, t: Read) returns (left: Read)
    requires GetItemClamped(r, key) == Success(t)
    ensures Trim(r, Clamp(StartOf(r, key), r.refStart, r.refEnd) - r.refStart, Left) == Success(left)
    ensures Trim(left, left.refEnd - Clamp(StopOf(r, key), left.refStart, left.refEnd), Right) == Success(t)
  {
    var start := Clamp(StartOf(r, key), r.refStart, r.refEnd);
    var lres := Trim(r, start - r.refStart, Left);
    assert lres.Success?;
    left := lres.value;
  }
}
