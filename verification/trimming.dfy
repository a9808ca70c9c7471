/** `Read.trim` and the compiled helper `_trim` it delegates to: remove a number of reference
    positions from one end of a read, keeping the cigar, both base sequences and the reference
    interval in step, and absorbing the indels the cut leaves dangling. */
module Trimming {
  import opened Wrappers
  import opened PySlice
  import opened Cigar
  import opened Reads

  /** The `side` argument: `'left'`, or anything else, which the source treats as the right. */
  datatype Side = Left | Right

  /** The two `ConfigError`s `trim` raises before touching the read. */
  datatype TrimError =
    | NegativeTrim(amount: int)
    | ExceedsSpan(amount: int, span: int)

  /** What the walk of `_trim` leaves behind: the runs still to keep (in walk order, the
      boundary run possibly shortened) and the reference and read positions it removed. */
  datatype Cut = Cut(rest: Cigar, refTrimmed: int, readTrimmed: int)

  /** The loop of `_trim` over the runs in walk order. `refT`/`readT` are the positions
      removed so far and `terminateNext` is set once the reference budget is met; from then
      on only the first run consuming both axes stops the walk, so every run that consumes one
      axis or neither in between is removed with the rest. */
  function Walk(ops: Cigar, trimBy: int, refT: int, readT: int, terminateNext: bool): Cut
    decreases |ops|
  {
    if ops == [] then Cut([], refT, readT)
    else
      var run := ops[0];
      if ConsumesBoth(run.op) then
        if terminateNext then Cut(ops, refT, readT)
        else
          var remaining := trimBy - refT;
          if run.len > remaining then
            Cut([Run(run.op, run.len - remaining)] + ops[1..], refT + remaining, readT + remaining)
          else
            Walk(ops[1..], trimBy, refT + run.len, readT + run.len, terminateNext || refT + run.len >= trimBy)
      else if ConsumesRef(run.op) then
        Walk(ops[1..], trimBy, refT + run.len, readT, terminateNext || refT + run.len >= trimBy)
      else if ConsumesQuery(run.op) then
        Walk(ops[1..], trimBy, refT, readT + run.len, terminateNext || refT >= trimBy)
      else
        Walk(ops[1..], trimBy, refT, readT, terminateNext || refT >= trimBy)
  }

  /** The walk from the chosen end: the right side walks the reversed cigar. */
  function WalkFrom(c: Cigar, trimBy: int, side: Side): Cut {
    Walk(if side == Left then c else Reverse(c), trimBy, 0, 0, false)
  }

  /** `rest` is what a cut from the front leaves of `ops`: a suffix of it whose first run
      may have been shortened. */
  predicate IsCutOf(rest: Cigar, ops: Cigar) {
    && |rest| <= |ops|
    && (rest != [] ==>
          var j := |ops| - |rest|;
          && rest[1..] == ops[j + 1..]
          && rest[0].op == ops[j].op
          && rest[0].len <= ops[j].len)
  }

  /** `_trim` as written (sequence.py 649-702). On the right side it cuts the read with
      `query_sequence[:-read_positions_trimmed]`, which keeps nothing when no read position was
      trimmed. */
  function TrimIndelsAsWritten(r: Read, trimBy: int, side: Side): Read {
    var cut := WalkFrom(r.cigar, trimBy, side);
    match side
    case Left =>
      Read(cut.rest,
           Slice(r.query, Some(cut.readTrimmed), None),
           Slice(r.reference, Some(cut.refTrimmed), None),
           r.refStart + cut.refTrimmed,
           r.refEnd)
    case Right =>
      Read(Reverse(cut.rest),
           Slice(r.query, None, Some(-cut.readTrimmed)),
           Slice(r.reference, None, Some(-cut.refTrimmed)),
           r.refStart,
           r.refEnd - cut.refTrimmed)
  }

  /** `_trim` with the right-side read cut written `query_sequence[:len - read_positions_trimmed]`,
      so that trimming no read position keeps the whole read. The rest of the model uses this. */
  function TrimIndels(r: Read, trimBy: int, side: Side): Read {
    var cut := WalkFrom(r.cigar, trimBy, side);
    match side
    case Left =>
      Read(cut.rest,
           Slice(r.query, Some(cut.readTrimmed), None),
           Slice(r.reference, Some(cut.refTrimmed), None),
           r.refStart + cut.refTrimmed,
           r.refEnd)
    case Right =>
      Read(Reverse(cut.rest),
           Slice(r.query, None, Some(|r.query| - cut.readTrimmed)),
           Slice(r.reference, None, Some(-cut.refTrimmed)),
           r.refStart,
           r.refEnd - cut.refTrimmed)
  }

  /** The fast path of `trim` for a cigar of a single run: shorten the run and cut `trimBy`
      symbols off both sequences. A full trim leaves a run of length zero. */
  function TrimSingleRun(r: Read, trimBy: int, side: Side): Read
    requires |r.cigar| == 1
  {
    var cigar := [Run(r.cigar[0].op, r.cigar[0].len - trimBy)];
    match side
    case Left =>
      Read(cigar, Slice(r.query, Some(trimBy), None), Slice(r.reference, Some(trimBy), None),
           r.refStart + trimBy, r.refEnd)
    case Right =>
      Read(cigar, Slice(r.query, None, Some(-trimBy)), Slice(r.reference, None, Some(-trimBy)),
           r.refStart, r.refEnd - trimBy)
  }

  /** `Read.trim(trim_by, side)` on a private copy: the new read, or the error raised. */
  function Trim(r: Read, trimBy: int, side: Side): (res: Result<Read, TrimError>)
    ensures trimBy == 0 ==> res == Success(r)
    ensures trimBy < 0 ==> res == Failure(NegativeTrim(trimBy))
    ensures 0 < trimBy && r.Span() < trimBy ==> res == Failure(ExceedsSpan(trimBy, r.Span()))
    ensures 0 < trimBy <= r.Span() ==> res.Success?
  {
    if trimBy == 0 then Success(r)
    else if trimBy < 0 then Failure(NegativeTrim(trimBy))
    else if trimBy > r.Span() then Failure(ExceedsSpan(trimBy, r.Span()))
    else if |r.cigar| == 1 then Success(TrimSingleRun(r, trimBy, side))
    else Success(TrimIndels(r, trimBy, side))
  }

  /** The walk conserves both axes (what it removes plus what it keeps is what there was),
      meets the reference budget unless it runs out of runs, keeps a suffix of the cigar,
      and never stops in front of a run that consumes only one axis or neither. */
  lemma {:induction false} WalkCut(ops: Cigar, trimBy: int, refT: int, readT: int, terminateNext: bool)
    requires NonNegative(ops)
    requires 0 <= refT && 0 <= readT
    requires terminateNext ==> refT >= trimBy
    requires !terminateNext ==> refT <= trimBy
    ensures var cut := Walk(ops, trimBy, refT, readT, terminateNext);
      && NonNegative(cut.rest)
      && cut.refTrimmed + Len(cut.rest, Reference) == refT + Len(ops, Reference)
      && cut.readTrimmed + Len(cut.rest, Query) == readT + Len(ops, Query)
      && refT <= cut.refTrimmed && readT <= cut.readTrimmed
      && (cut.rest == [] || cut.refTrimmed >= trimBy)
      && (cut.rest == [] || ConsumesBoth(cut.rest[0].op))
      && IsCutOf(cut.rest, ops)
  {
    if ops != [] {
      var run := ops[0];
      assert Len(ops, Reference) == (if ConsumesRef(run.op) then run.len else 0) + Len(ops[1..], Reference);
      assert Len(ops, Query) == (if ConsumesQuery(run.op) then run.len else 0) + Len(ops[1..], Query);
      if ConsumesBoth(run.op) {
        if terminateNext {
        } else {
          var remaining := trimBy - refT;
          if run.len > remaining {
            var rest := [Run(run.op, run.len - remaining)] + ops[1..];
            assert rest[1..] == ops[1..];
          } else {
            var refT' := refT + run.len;
            WalkCut(ops[1..], trimBy, refT', readT + run.len, terminateNext || refT' >= trimBy);
            CutOfTail(Walk(ops[1..], trimBy, refT', readT + run.len, terminateNext || refT' >= trimBy).rest, ops);
          }
        }
      } else if ConsumesRef(run.op) {
        var refT' := refT + run.len;
        WalkCut(ops[1..], trimBy, refT', readT, terminateNext || refT' >= trimBy);
        CutOfTail(Walk(ops[1..], trimBy, refT', readT, terminateNext || refT' >= trimBy).rest, ops);
      } else if ConsumesQuery(run.op) {
        WalkCut(ops[1..], trimBy, refT, readT + run.len, terminateNext || refT >= trimBy);
        CutOfTail(Walk(ops[1..], trimBy, refT, readT + run.len, terminateNext || refT >= trimBy).rest, ops);
      } else {
        WalkCut(ops[1..], trimBy, refT, readT, terminateNext || refT >= trimBy);
        CutOfTail(Walk(ops[1..], trimBy, refT, readT, terminateNext || refT >= trimBy).rest, ops);
      }
    }
  }

  lemma CutOfTail(rest: Cigar, ops: Cigar)
    requires ops != []
    requires IsCutOf(rest, ops[1..])
    ensures IsCutOf(rest, ops)
  {
    if rest != [] {
      var j := |ops| - |rest|;
      assert ops[1..][j..] == ops[j + 1..];
    }
  }

  /** The general path keeps the read consistent: from the left it removes a prefix of the
      read, a prefix of the reference bases and moves the start by exactly the reference
      positions removed, at least `trimBy`; from the right it does the same at the end. */
  lemma TrimIndelsConsistent(r: Read, trimBy: int, side: Side)
    requires Consistent(r)
    requires 0 < trimBy <= r.Span()
    ensures var t := TrimIndels(r, trimBy, side);
      var cut := WalkFrom(r.cigar, trimBy, side);
      && Consistent(t)
      && trimBy <= cut.refTrimmed
      && 0 <= cut.readTrimmed <= |r.query|
      && (side == Left ==>
            && t.refStart == r.refStart + cut.refTrimmed && t.refEnd == r.refEnd
            && t.query == r.query[cut.readTrimmed..]
            && t.reference == r.reference[cut.refTrimmed..]
            && IsCutOf(t.cigar, r.cigar)
            && (t.cigar == [] || ConsumesBoth(t.cigar[0].op)))
      && (side == Right ==>
            && t.refStart == r.refStart && t.refEnd == r.refEnd - cut.refTrimmed
            && t.query == r.query[..|r.query| - cut.readTrimmed]
            && t.reference == r.reference[..|r.reference| - cut.refTrimmed]
            && IsCutOf(Reverse(t.cigar), Reverse(r.cigar))
            && (t.cigar == [] || ConsumesBoth(t.cigar[|t.cigar| - 1].op)))
  {
    if side == Left {
      TrimIndelsLeft(r, trimBy);
    } else {
      TrimIndelsRight(r, trimBy);
    }
  }

  lemma TrimIndelsLeft(r: Read, trimBy: int)
    requires Consistent(r)
    requires 0 < trimBy <= r.Span()
    ensures var t := TrimIndels(r, trimBy, Left);
      var cut := WalkFrom(r.cigar, trimBy, Left);
      && Consistent(t)
      && trimBy <= cut.refTrimmed
      && 0 <= cut.readTrimmed <= |r.query|
      && t.refStart == r.refStart + cut.refTrimmed && t.refEnd == r.refEnd
      && t.query == r.query[cut.readTrimmed..]
      && t.reference == r.reference[cut.refTrimmed..]
      && IsCutOf(t.cigar, r.cigar)
      && (t.cigar == [] || ConsumesBoth(t.cigar[0].op))
  {
    WalkCut(r.cigar, trimBy, 0, 0, false);
    var cut := WalkFrom(r.cigar, trimBy, Left);
    LenNonNegative(cut.rest, Query);
    LenNonNegative(cut.rest, Reference);
    DropFront(r.query, cut.readTrimmed);
    DropFront(r.reference, cut.refTrimmed);
  }

  lemma TrimIndelsRight(r: Read, trimBy: int)
    requires Consistent(r)
    requires 0 < trimBy <= r.Span()
    ensures var t := TrimIndels(r, trimBy, Right);
      var cut := WalkFrom(r.cigar, trimBy, Right);
      && Consistent(t)
      && trimBy <= cut.refTrimmed
      && 0 <= cut.readTrimmed <= |r.query|
      && t.refStart == r.refStart && t.refEnd == r.refEnd - cut.refTrimmed
      && t.query == r.query[..|r.query| - cut.readTrimmed]
      && t.reference == r.reference[..|r.reference| - cut.refTrimmed]
      && IsCutOf(Reverse(t.cigar), Reverse(r.cigar))
      && (t.cigar == [] || ConsumesBoth(t.cigar[|t.cigar| - 1].op))
  {
    ReverseNonNegative(r.cigar);
    LenReverse(r.cigar, Query);
    LenReverse(r.cigar, Reference);
    WalkCut(Reverse(r.cigar), trimBy, 0, 0, false);
    var cut := WalkFrom(r.cigar, trimBy, Right);
    LenNonNegative(cut.rest, Query);
    LenNonNegative(cut.rest, Reference);
    ReverseNonNegative(cut.rest);
    LenReverse(cut.rest, Query);
    LenReverse(cut.rest, Reference);
    ReverseReverse(cut.rest);
    KeepPrefix(r.query, cut.readTrimmed);
    DropBack(r.reference, cut.refTrimmed);
  }

  /** The fast path on a single run consuming both axes: the run loses exactly `trimBy`
      and both sequences lose exactly `trimBy` symbols on the trimmed side. */
  lemma SingleRunTrimExact(r: Read, trimBy: int, side: Side)
    requires Consistent(r)
    requires |r.cigar| == 1 && ConsumesBoth(r.cigar[0].op)
    requires 0 < trimBy <= r.Span()
    ensures Trim(r, trimBy, side).Success?
    ensures var t := Trim(r, trimBy, side).value;
      && t.cigar == [Run(r.cigar[0].op, r.cigar[0].len - trimBy)]
      && |t.query| == |r.query| - trimBy
      && |t.reference| == |r.reference| - trimBy
      && (side == Left ==>
            t.query == r.query[trimBy..] && t.reference == r.reference[trimBy..]
            && t.refStart == r.refStart + trimBy && t.refEnd == r.refEnd)
      && (side == Right ==>
            t.query == r.query[..|r.query| - trimBy] && t.reference == r.reference[..|r.reference| - trimBy]
            && t.refStart == r.refStart && t.refEnd == r.refEnd - trimBy)
  {
    assert r.cigar == [r.cigar[0]] + r.cigar[1..];
    assert Len(r.cigar, Query) == r.cigar[0].len;
    assert Len(r.cigar, Reference) == r.cigar[0].len;
    DropFront(r.query, trimBy);
    DropFront(r.reference, trimBy);
    DropBack(r.query, trimBy);
    DropBack(r.reference, trimBy);
  }

  /** The fast path keeps a consistent read consistent: the run, the reference bases and (when
      the run consumes the read) the read bases all lose `trimBy` on the trimmed side. */
  lemma SingleRunTrimConsistent(r: Read, trimBy: int, side: Side)
    requires Consistent(r) && |r.cigar| == 1
    requires 0 < trimBy <= r.Span()
    ensures var t := TrimSingleRun(r, trimBy, side);
      && Consistent(t)
      && (side == Left ==>
            && t.refStart == r.refStart + trimBy && t.refEnd == r.refEnd
            && t.query == r.query[|r.query| - |t.query|..]
            && t.reference == r.reference[trimBy..]
            && IsCutOf(t.cigar, r.cigar))
      && (side == Right ==>
            && t.refStart == r.refStart && t.refEnd == r.refEnd - trimBy
            && t.query == r.query[..|t.query|]
            && t.reference == r.reference[..|r.reference| - trimBy]
            && IsCutOf(Reverse(t.cigar), Reverse(r.cigar)))
  {
    var run := r.cigar[0];
    assert r.cigar == [run] + r.cigar[1..];
    assert Len(r.cigar, Reference) == if ConsumesRef(run.op) then run.len else 0;
    assert Len(r.cigar, Query) == if ConsumesQuery(run.op) then run.len else 0;
    var t := TrimSingleRun(r, trimBy, side);
    assert t.cigar == [t.cigar[0]] + t.cigar[1..];
    if side == Left {
      DropFront(r.query, trimBy);
      DropFront(r.reference, trimBy);
    } else {
      DropBack(r.query, trimBy);
      DropBack(r.reference, trimBy);
    }
  }

  /** `t` is what a left trim of at least `trimBy` positions leaves of `r`: the same end, a
      suffix of the read bases, the reference bases from the new start on, and a cut of the
      cigar from the front. */
  ghost predicate LeftTrimOf(t: Read, r: Read, trimBy: int) {
    && t.refEnd == r.refEnd
    && t.refStart >= r.refStart + trimBy
    && |t.query| <= |r.query|
    && t.query == r.query[|r.query| - |t.query|..]
    && r.refStart <= t.refStart <= r.refStart + |r.reference|
    && t.reference == r.reference[t.refStart - r.refStart..]
    && IsCutOf(t.cigar, r.cigar)
  }

  /** `t` is what a right trim of at least `trimBy` positions leaves of `r`: the same start, a
      prefix of the read bases, the reference bases up to the new end, and a cut of the cigar
      from the back. */
  ghost predicate RightTrimOf(t: Read, r: Read, trimBy: int) {
    && t.refStart == r.refStart
    && t.refEnd <= r.refEnd - trimBy
    && |t.query| <= |r.query|
    && t.query == r.query[..|t.query|]
    && 0 <= r.refEnd - t.refEnd <= |r.reference|
    && t.reference == r.reference[..|r.reference| - (r.refEnd - t.refEnd)]
    && IsCutOf(Reverse(t.cigar), Reverse(r.cigar))
  }

  /** `trim` keeps a consistent read consistent, on both the fast path and the general one:
      the read loses a prefix (left) or suffix (right) of its bases, the reference bases lose
      exactly as many positions as the interval shrinks by, and that is at least `trimBy`. */
  lemma TrimKeepsConsistency(r: Read, trimBy: int, side: Side)
    requires Consistent(r)
    requires Trim(r, trimBy, side).Success?
    ensures var t := Trim(r, trimBy, side).value;
      && Consistent(t)
      && (side == Left ==> LeftTrimOf(t, r, trimBy))
      && (side == Right ==> RightTrimOf(t, r, trimBy))
  {
    if trimBy != 0 {
      if |r.cigar| == 1 {
        SingleRunTrimConsistent(r, trimBy, side);
      } else {
        TrimIndelsConsistent(r, trimBy, side);
      }
    }
  }

  /** Terminal-gap collapse: after a trim the run at the trimmed end consumes both the read
      and the reference, or no run is left, provided a single-run cigar is a match-like run
      (the fast path does not look at the operation). */
  lemma TrimCollapsesTerminalGap(r: Read, trimBy: int, side: Side)
    requires Consistent(r)
    requires 0 < trimBy <= r.Span()
    requires |r.cigar| == 1 ==> ConsumesBoth(r.cigar[0].op)
    ensures var t := Trim(r, trimBy, side).value;
      t.cigar == [] || ConsumesBoth((if side == Left then t.cigar[0] else t.cigar[|t.cigar| - 1]).op)
  {
    if |r.cigar| != 1 {
      TrimIndelsConsistent(r, trimBy, side);
    }
  }

  /** The right-side read cut as written and as corrected differ exactly when the walk trimmed
      no read position from a read that has bases: then the as-written cut empties the read. */
  lemma AsWrittenDiffersOnlyWithoutReadTrim(r: Read, trimBy: int, side: Side)
    requires Consistent(r)
    requires 0 < trimBy <= r.Span()
    ensures TrimIndelsAsWritten(r, trimBy, side) != TrimIndels(r, trimBy, side)
      <==> side == Right && WalkFrom(r.cigar, trimBy, side).readTrimmed == 0 && |r.query| > 0
    ensures side == Right && WalkFrom(r.cigar, trimBy, side).readTrimmed == 0 ==>
      TrimIndelsAsWritten(r, trimBy, side).query == []
  {
    TrimIndelsConsistent(r, trimBy, side);
    var cut := WalkFrom(r.cigar, trimBy, side);
    if side == Right {
      if cut.readTrimmed == 0 {
        NegatedZeroStopEmpties(r.query, cut.readTrimmed);
        if |r.query| > 0 {
          assert TrimIndels(r, trimBy, side).query != TrimIndelsAsWritten(r, trimBy, side).query;
        }
      } else {
        DropBack(r.query, cut.readTrimmed);
      }
    }
  }

  /** A read ending in a deletion: trimming two reference positions from the right is met by
      the deletion alone, so no read position is trimmed, and the as-written cut empties the
      two-base read while the cigar still holds `M2`; the corrected cut keeps both bases. */
  lemma AsWrittenRightTrimEmptiesRead()
    ensures var r := Read([Run(M, 2), Run(D, 3)], [65, 67], [65, 67, 71, 84, 65], 100, 105);
      && Consistent(r)
      && TrimIndelsAsWritten(r, 2, Right) == Read([Run(M, 2)], [], [65, 67], 100, 102)
      && !Consistent(TrimIndelsAsWritten(r, 2, Right))
      && Trim(r, 2, Right) == Success(Read([Run(M, 2)], [65, 67], [65, 67], 100, 102))
      && Consistent(Trim(r, 2, Right).value)
  {
    var r := Read([Run(M, 2), Run(D, 3)], [65, 67], [65, 67, 71, 84, 65], 100, 105);
    assert Len([Run(D, 3)], Query) == 0;
    assert Len(r.cigar, Query) == 2;
    assert Len(r.cigar, Reference) == 5;
    var rev := Reverse(r.cigar);
    assert rev == [Run(D, 3), Run(M, 2)];
    assert rev[1..] == [Run(M, 2)];
    assert Walk(rev[1..], 2, 3, 0, true) == Cut([Run(M, 2)], 3, 0);
    assert Walk(rev, 2, 0, 0, false) == Cut([Run(M, 2)], 3, 0);
    assert WalkFrom(r.cigar, 2, Right) == Cut([Run(M, 2)], 3, 0);
    assert Reverse([Run(M, 2)]) == [Run(M, 2)];
    assert Slice(r.query, None, Some(-0)) == [];
    assert Slice(r.query, None, Some(2 - 0)) == [65, 67];
    assert Slice(r.reference, None, Some(-3)) == [65, 67];
    assert Len([Run(M, 2)], Query) == 2;
  }

  /** Two left trims do not add up to one: the first trim of 2 also absorbs the deletion after
      the cut and lands at 105, so a further trim of 1 lands at 106, while a single trim of 3
      lands at 105. */
  lemma LeftTrimsDoNotCompose()
    ensures var r := Read([Run(M, 2), Run(D, 3), Run(M, 5)], [65, 65, 67, 67, 71, 71, 84],
                          [65, 65, 78, 78, 78, 67, 67, 71, 71, 84], 100, 110);
      && Consistent(r)
      && Trim(r, 2, Left) == Success(Read([Run(M, 5)], [67, 67, 71, 71, 84], [67, 67, 71, 71, 84], 105, 110))
      && Trim(Trim(r, 2, Left).value, 1, Left).value.refStart == 106
      && Trim(r, 3, Left).value.refStart == 105
  {
    var r := Read([Run(M, 2), Run(D, 3), Run(M, 5)], [65, 65, 67, 67, 71, 71, 84],
                  [65, 65, 78, 78, 78, 67, 67, 71, 71, 84], 100, 110);
    var tail := [Run(D, 3), Run(M, 5)];
    assert r.cigar[1..] == tail;
    assert tail[1..] == [Run(M, 5)];
    assert Len([Run(M, 5)], Reference) == 5;
    assert Len(tail, Reference) == 8;
    assert Len([Run(M, 5)], Query) == 5;
    assert Len(tail, Query) == 5;
    assert Walk(tail[1..], 2, 5, 2, true) == Cut([Run(M, 5)], 5, 2);
    assert Walk(tail, 2, 2, 2, true) == Cut([Run(M, 5)], 5, 2);
    assert Walk(r.cigar, 2, 0, 0, false) == Cut([Run(M, 5)], 5, 2);
    assert Walk(tail[1..], 3, 5, 2, true) == Cut([Run(M, 5)], 5, 2);
    assert Walk(tail, 3, 2, 2, false) == Cut([Run(M, 5)], 5, 2);
    assert Walk(r.cigar, 3, 0, 0, false) == Cut([Run(M, 5)], 5, 2);
    assert Slice(r.query, Some(2), None) == [67, 67, 71, 71, 84];
    assert Slice(r.reference, Some(5), None) == [67, 67, 71, 71, 84];
    var t := Read([Run(M, 5)], [67, 67, 71, 71, 84], [67, 67, 71, 71, 84], 105, 110);
    assert TrimIndels(r, 2, Left) == t;
    assert TrimIndels(r, 3, Left).refStart == 105;
    assert Trim(t, 1, Left) == Success(TrimSingleRun(t, 1, Left));
  }
}
