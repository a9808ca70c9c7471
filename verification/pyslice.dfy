/** Python (and numpy) basic slicing `s[start:stop]`, the only way the source cuts its arrays.
    A bound may be omitted; a negative bound counts from the end; every bound is clipped
    into the sequence, so a slice never fails. */
module PySlice {
  import opened Wrappers

  /** Where one slice bound `i` lands in a sequence of length `n`. */
  function Bound(i: int, n: nat): (b: nat)
    ensures b <= n
    ensures 0 <= i ==> b == if i <= n then i else n
    ensures i < 0 ==> b == if -i <= n then n + i else 0
  {
    if i < 0 then (if i + n < 0 then 0 else i + n)
    else if i > n then n
    else i
  }

  /** `s[start:stop]`, with `None` for an omitted bound. */
  function Slice<T>(s: seq<T>, start: Option<int>, stop: Option<int>): (r: seq<T>)
    ensures |r| <= |s|
  {
    var lo := if start.Some? then Bound(start.value, |s|) else 0;
    var hi := if stop.Some? then Bound(stop.value, |s|) else |s|;
    if lo < hi then s[lo..hi] else []
  }

  /** `s[k:]` with `0 <= k` drops the first `k` elements, or all of them when `k` exceeds the length. */
  lemma DropFront<T>(s: seq<T>, k: int)
    requires 0 <= k
    ensures Slice(s, Some(k), None) == if k <= |s| then s[k..] else []
  {
  }

  /** `s[:-k]` with `0 < k` drops the last `k` elements, or all of them when `k` exceeds the length. */
  lemma DropBack<T>(s: seq<T>, k: int)
    requires 0 < k
    ensures Slice(s, None, Some(-k)) == if k <= |s| then s[..|s| - k] else []
  {
  }

  /** `s[:-0]` is `s[:0]`, the empty sequence, not `s`. */
  lemma NegatedZeroStopEmpties<T>(s: seq<T>, k: int)
    requires k == 0
    ensures Slice(s, None, Some(-k)) == []
  {
  }

  /** `s[:len(s) - k]` with `0 <= k <= len(s)` keeps exactly the first `len(s) - k` elements. */
  lemma KeepPrefix<T>(s: seq<T>, k: int)
    requires 0 <= k <= |s|
    ensures Slice(s, None, Some(|s| - k)) == s[..|s| - k]
  {
  }
}
