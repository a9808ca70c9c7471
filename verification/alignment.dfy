/** What a read says about the reference: `Read.get_blocks`, the maximal runs of aligned
    reference positions, and `_get_aligned_sequence_and_reference_positions`, the read's base
    and the reference coordinate of every aligned column. */
module Alignment {
  import opened Cigar
  import opened Reads

  /** A half-open reference interval `[start, end)`. */
  type Block = (int, int)

  /** The block being grown is emitted only when it has a length (`if block_length:`). */
  function Close(blockStart: int, blockLen: int): seq<Block> {
    if blockLen != 0 then [(blockStart, blockStart + blockLen)] else []
  }

  /** The loop of `get_blocks` from a block that starts at `blockStart` and has grown to
      `blockLen`. An aligned run grows the block; a read-only run closes it and the next block
      starts where it ended; a reference-only run closes it and the next block starts after
      the run; a run consuming neither is skipped. */
  function BlocksFrom(ops: Cigar, blockStart: int, blockLen: int): seq<Block>
    decreases |ops|
  {
    if ops == [] then Close(blockStart, blockLen)
    else
      var run := ops[0];
      if ConsumesBoth(run.op) then
        BlocksFrom(ops[1..], blockStart, blockLen + run.len)
      else if ConsumesQuery(run.op) then
        Close(blockStart, blockLen) + BlocksFrom(ops[1..], blockStart + blockLen, 0)
      else if ConsumesRef(run.op) then
        Close(blockStart, blockLen) + BlocksFrom(ops[1..], blockStart + blockLen + run.len, 0)
      else
        BlocksFrom(ops[1..], blockStart, blockLen)
  }

  /** `Read.get_blocks()`. */
  function Blocks(r: Read): seq<Block> {
    BlocksFrom(r.cigar, r.refStart, 0)
  }

  /** Blocks in ascending order, each non-empty, no two overlapping. */
  predicate Ordered(bs: seq<Block>) {
    && (forall i :: 0 <= i < |bs| ==> bs[i].0 < bs[i].1)
    && (forall i, j :: 0 <= i < j < |bs| ==> bs[i].1 <= bs[j].0)
  }

  predicate Within(bs: seq<Block>, lo: int, hi: int) {
    forall i :: 0 <= i < |bs| ==> lo <= bs[i].0 && bs[i].1 <= hi
  }

  function TotalLength(bs: seq<Block>): int {
    if bs == [] then 0 else bs[0].1 - bs[0].0 + TotalLength(bs[1..])
  }

  /** Whether some block covers reference position `x`. */
  predicate InBlocks(bs: seq<Block>, x: int) {
    exists i :: 0 <= i < |bs| && bs[i].0 <= x < bs[i].1
  }

  /** `n` consecutive aligned columns: (read offset, reference position) pairs on a diagonal. */
  function Diagonal(readOff: int, refPos: int, n: int): seq<(int, int)> {
    if n <= 0 then [] else seq(n, i requires 0 <= i < n => (readOff + i, refPos + i))
  }

  /** The aligned columns of a cigar read from read offset `readOff` and reference position
      `refPos`: for every position consumed by both axes, the offset of its base in the read
      and its reference coordinate. This is the reference the projection is checked against. */
  function Columns(ops: Cigar, readOff: int, refPos: int): seq<(int, int)>
    decreases |ops|
  {
    if ops == [] then []
    else
      var run := ops[0];
      if ConsumesBoth(run.op) then
        Diagonal(readOff, refPos, run.len) + Columns(ops[1..], readOff + run.len, refPos + run.len)
      else if ConsumesRef(run.op) then
        Columns(ops[1..], readOff, refPos + run.len)
      else if ConsumesQuery(run.op) then
        Columns(ops[1..], readOff + run.len, refPos)
      else
        Columns(ops[1..], readOff, refPos)
  }

  function RefPositions(cols: seq<(int, int)>): (ps: seq<int>)
    ensures |ps| == |cols|
    ensures forall j :: 0 <= j < |cols| ==> ps[j] == cols[j].1
  {
    seq(|cols|, j requires 0 <= j < |cols| => cols[j].1)
  }

  lemma {:induction false} TotalLengthAppend(a: seq<Block>, b: seq<Block>)
    ensures TotalLength(a + b) == TotalLength(a) + TotalLength(b)
  {
    if a == [] {
      assert a + b == b;
    } else {
      assert (a + b)[1..] == a[1..] + b;
      TotalLengthAppend(a[1..], b);
    }
  }

  lemma InBlocksAppend(a: seq<Block>, b: seq<Block>, x: int)
    ensures InBlocks(a + b, x) <==> InBlocks(a, x) || InBlocks(b, x)
  {
    var ab := a + b;
    if InBlocks(a + b, x) {
      var i :| 0 <= i < |ab| && ab[i].0 <= x < ab[i].1;
      if i >= |a| {
        assert b[i - |a|] == ab[i];
      }
    }
    if InBlocks(a, x) {
      var i :| 0 <= i < |a| && a[i].0 <= x < a[i].1;
      assert ab[i] == a[i];
    }
    if InBlocks(b, x) {
      var i :| 0 <= i < |b| && b[i].0 <= x < b[i].1;
      assert ab[i + |a|] == b[i];
    }
  }

  lemma OrderedAppend(a: seq<Block>, b: seq<Block>, lo: int, mid: int, hi: int)
    requires Ordered(a) && Within(a, lo, mid)
    requires Ordered(b) && Within(b, mid, hi)
    requires lo <= mid <= hi
    ensures Ordered(a + b) && Within(a + b, lo, hi)
  {
    var ab := a + b;
    forall i, j | 0 <= i < j < |ab|
      ensures ab[i].1 <= ab[j].0
    {
      if j < |a| {
        assert ab[i] == a[i] && ab[j] == a[j];
      } else if i < |a| {
        assert ab[i] == a[i] && ab[j] == b[j - |a|];
      } else {
        assert ab[i] == b[i - |a|] && ab[j] == b[j - |a|];
      }
    }
  }

  lemma CloseShape(blockStart: int, blockLen: int)
    requires blockLen >= 0
    ensures Ordered(Close(blockStart, blockLen))
    ensures Within(Close(blockStart, blockLen), blockStart, blockStart + blockLen)
    ensures TotalLength(Close(blockStart, blockLen)) == blockLen
    ensures forall x :: InBlocks(Close(blockStart, blockLen), x) <==> blockStart <= x < blockStart + blockLen
  {
    if blockLen != 0 {
      var c := Close(blockStart, blockLen);
      assert c[1..] == [];
      forall x | blockStart <= x < blockStart + blockLen
        ensures InBlocks(c, x)
      {
        assert c[0].0 <= x < c[0].1;
      }
    }
  }

  /** Closing a pending block in front of ordered blocks that start at or after its end keeps
      them ordered. */
  lemma ClosedThen(blockStart: int, blockLen: int, tail: seq<Block>, tailStart: int, hi: int)
    requires blockLen >= 0 && blockStart + blockLen <= tailStart <= hi
    requires Ordered(tail) && Within(tail, tailStart, hi)
    ensures Ordered(Close(blockStart, blockLen) + tail)
    ensures Within(Close(blockStart, blockLen) + tail, blockStart, hi)
  {
    CloseShape(blockStart, blockLen);
    WithinWiden(tail, tailStart, blockStart + blockLen, hi);
    OrderedAppend(Close(blockStart, blockLen), tail, blockStart, blockStart + blockLen, hi);
  }

  /** The blocks grown from (`blockStart`, `blockLen`) are ordered and lie between `blockStart`
      and the end of the reference the cigar consumes. */
  lemma {:induction false} BlocksFromOrdered(ops: Cigar, blockStart: int, blockLen: int)
    requires NonNegative(ops) && blockLen >= 0
    ensures var bs := BlocksFrom(ops, blockStart, blockLen);
      Ordered(bs) && Within(bs, blockStart, blockStart + blockLen + Len(ops, Reference))
  {
    if ops == [] {
      CloseShape(blockStart, blockLen);
    } else {
      var run := ops[0];
      var rest := ops[1..];
      LenNonNegative(rest, Reference);
      var hi := blockStart + blockLen + Len(ops, Reference);
      assert Len(ops, Reference) == (if ConsumesRef(run.op) then run.len else 0) + Len(rest, Reference);
      if ConsumesBoth(run.op) {
        BlocksFromOrdered(rest, blockStart, blockLen + run.len);
      } else if ConsumesQuery(run.op) {
        BlocksFromOrdered(rest, blockStart + blockLen, 0);
        ClosedThen(blockStart, blockLen, BlocksFrom(rest, blockStart + blockLen, 0), blockStart + blockLen, hi);
      } else if ConsumesRef(run.op) {
        BlocksFromOrdered(rest, blockStart + blockLen + run.len, 0);
        ClosedThen(blockStart, blockLen, BlocksFrom(rest, blockStart + blockLen + run.len, 0),
          blockStart + blockLen + run.len, hi);
      } else {
        BlocksFromOrdered(rest, blockStart, blockLen);
      }
    }
  }

  lemma WithinWiden(bs: seq<Block>, lo: int, lo': int, hi: int)
    requires Within(bs, lo, hi) && lo' <= lo
    ensures Within(bs, lo', hi)
  {
  }

  /** The blocks grown from (`blockStart`, `blockLen`) add up to the pending length plus the
      aligned length of the cigar. */
  lemma {:induction false} BlocksFromTotal(ops: Cigar, blockStart: int, blockLen: int)
    ensures TotalLength(BlocksFrom(ops, blockStart, blockLen)) == blockLen + Len(ops, Aligned)
  {
    var closed := Close(blockStart, blockLen);
    assert TotalLength(closed) == blockLen by {
      if blockLen != 0 {
        assert closed[1..] == [];
      }
    }
    if ops != [] {
      var run := ops[0];
      var rest := ops[1..];
      if ConsumesBoth(run.op) {
        BlocksFromTotal(rest, blockStart, blockLen + run.len);
      } else if ConsumesQuery(run.op) {
        BlocksFromTotal(rest, blockStart + blockLen, 0);
        TotalLengthAppend(closed, BlocksFrom(rest, blockStart + blockLen, 0));
      } else if ConsumesRef(run.op) {
        BlocksFromTotal(rest, blockStart + blockLen + run.len, 0);
        TotalLengthAppend(closed, BlocksFrom(rest, blockStart + blockLen + run.len, 0));
      } else {
        BlocksFromTotal(rest, blockStart, blockLen);
      }
    }
  }

  lemma DiagonalShape(readOff: int, refPos: int, n: int)
    ensures var d := Diagonal(readOff, refPos, n);
      && |d| == (if n <= 0 then 0 else n)
      && (forall j :: 0 <= j < |d| ==> d[j] == (readOff + j, refPos + j))
      && (forall x :: x in RefPositions(d) <==> refPos <= x < refPos + n)
  {
    var d := Diagonal(readOff, refPos, n);
    forall x | refPos <= x < refPos + n
      ensures x in RefPositions(d)
    {
      assert RefPositions(d)[x - refPos] == x;
    }
  }

  lemma RefPositionsAppend(a: seq<(int, int)>, b: seq<(int, int)>)
    ensures RefPositions(a + b) == RefPositions(a) + RefPositions(b)
  {
  }

  /** The aligned columns lie inside the read and inside the reference span, as many as the
      aligned length, and both their read offsets and reference positions strictly increase. */
  lemma {:induction false} ColumnsShape(ops: Cigar, readOff: int, refPos: int)
    requires NonNegative(ops)
    ensures var cols := Columns(ops, readOff, refPos);
      && |cols| == Len(ops, Aligned)
      && (forall j :: 0 <= j < |cols| ==>
            && readOff <= cols[j].0 < readOff + Len(ops, Query)
            && refPos <= cols[j].1 < refPos + Len(ops, Reference))
      && (forall j, k :: 0 <= j < k < |cols| ==> cols[j].0 < cols[k].0 && cols[j].1 < cols[k].1)
  {
    if ops != [] {
      var run := ops[0];
      var rest := ops[1..];
      LenNonNegative(rest, Query);
      LenNonNegative(rest, Reference);
      if ConsumesBoth(run.op) {
        var d := Diagonal(readOff, refPos, run.len);
        var tail := Columns(rest, readOff + run.len, refPos + run.len);
        DiagonalShape(readOff, refPos, run.len);
        ColumnsShape(rest, readOff + run.len, refPos + run.len);
        var cols := d + tail;
        forall j, k | 0 <= j < k < |cols|
          ensures cols[j].0 < cols[k].0 && cols[j].1 < cols[k].1
        {
          if k < |d| {
          } else if j < |d| {
            assert cols[k] == tail[k - |d|];
          } else {
            assert cols[j] == tail[j - |d|] && cols[k] == tail[k - |d|];
          }
        }
        forall j | 0 <= j < |cols|
          ensures readOff <= cols[j].0 < readOff + Len(ops, Query)
          ensures refPos <= cols[j].1 < refPos + Len(ops, Reference)
        {
          if j >= |d| {
            assert cols[j] == tail[j - |d|];
          }
        }
      } else if ConsumesRef(run.op) {
        ColumnsShape(rest, readOff, refPos + run.len);
      } else if ConsumesQuery(run.op) {
        ColumnsShape(rest, readOff + run.len, refPos);
      } else {
        ColumnsShape(rest, readOff, refPos);
      }
    }
  }

  /** The blocks cover exactly the reference positions of the aligned columns (together with
      the pending block). */
  lemma {:induction false} ColumnsMatchBlocks(ops: Cigar, readOff: int, blockStart: int, blockLen: int)
    requires NonNegative(ops) && blockLen >= 0
    ensures forall x :: InBlocks(BlocksFrom(ops, blockStart, blockLen), x) <==>
      (blockStart <= x < blockStart + blockLen || x in RefPositions(Columns(ops, readOff, blockStart + blockLen)))
  {
    if ops == [] {
      CloseShape(blockStart, blockLen);
    } else {
      var run := ops[0];
      var rest := ops[1..];
      if ConsumesBoth(run.op) {
        var d := Diagonal(readOff, blockStart + blockLen, run.len);
        var cols := Columns(rest, readOff + run.len, blockStart + blockLen + run.len);
        assert Columns(ops, readOff, blockStart + blockLen) == d + cols;
        ColumnsMatchBlocks(rest, readOff + run.len, blockStart, blockLen + run.len);
        DiagonalShape(readOff, blockStart + blockLen, run.len);
        RefPositionsAppend(d, cols);
      } else if ConsumesQuery(run.op) {
        ColumnsMatchBlocks(rest, readOff + run.len, blockStart + blockLen, 0);
        ClosedThenCovers(blockStart, blockLen, BlocksFrom(rest, blockStart + blockLen, 0));
      } else if ConsumesRef(run.op) {
        ColumnsMatchBlocks(rest, readOff, blockStart + blockLen + run.len, 0);
        ClosedThenCovers(blockStart, blockLen, BlocksFrom(rest, blockStart + blockLen + run.len, 0));
      } else {
        ColumnsMatchBlocks(rest, readOff, blockStart, blockLen);
      }
    }
  }

  /** Closing a pending block in front of other blocks covers its own positions and theirs. */
  lemma ClosedThenCovers(blockStart: int, blockLen: int, tail: seq<Block>)
    requires blockLen >= 0
    ensures forall x :: InBlocks(Close(blockStart, blockLen) + tail, x) <==>
      (blockStart <= x < blockStart + blockLen || InBlocks(tail, x))
  {
    CloseShape(blockStart, blockLen);
    forall x
      ensures InBlocks(Close(blockStart, blockLen) + tail, x) <==>
        InBlocks(Close(blockStart, blockLen), x) || InBlocks(tail, x)
    {
      InBlocksAppend(Close(blockStart, blockLen), tail, x);
    }
  }

  /** `get_blocks` on a consistent read: the blocks are ascending, non-empty and pairwise
      disjoint, lie inside `[reference_start, reference_end)`, add up to the aligned length,
      and cover exactly the reference positions of the read's aligned columns. */
  lemma BlocksOfRead(r: Read)
    requires Consistent(r)
    ensures Ordered(Blocks(r))
    ensures Within(Blocks(r), r.refStart, r.refEnd)
    ensures TotalLength(Blocks(r)) == Len(r.cigar, Aligned)
    ensures forall x :: InBlocks(Blocks(r), x) <==> x in RefPositions(Columns(r.cigar, 0, r.refStart))
  {
    BlocksFromOrdered(r.cigar, r.refStart, 0);
    BlocksFromTotal(r.cigar, r.refStart, 0);
    ColumnsMatchBlocks(r.cigar, 0, r.refStart, 0);
  }

  /** What the projection holds after the runs `ops`: one base and one reference coordinate per
      aligned column of those runs. */
  ghost predicate Projected(r: Read, ops: Cigar, bases: seq<Byte>, positions: seq<int>) {
    var cols := Columns(ops, 0, r.refStart);
    && |bases| == |cols| && |positions| == |cols|
    && forall j :: 0 <= j < |cols| ==>
         0 <= cols[j].0 < |r.query| && bases[j] == r.query[cols[j].0] && positions[j] == cols[j].1
  }

  /** One run of the projection loop: a run consuming both axes appends its bases and its
      coordinates, any other run appends nothing. */
  lemma ProjectRun(r: Read, i: nat, bases: seq<Byte>, positions: seq<int>)
    requires Consistent(r) && i < |r.cigar|
    requires Projected(r, r.cigar[..i], bases, positions)
    ensures var run, q := r.cigar[i], Len(r.cigar[..i], Query);
      && 0 <= q
      && Len(r.cigar[..i + 1], Query) == q + Len([run], Query)
      && Len(r.cigar[..i + 1], Reference) == Len(r.cigar[..i], Reference) + Len([run], Reference)
      && if ConsumesBoth(run.op) then
           && q + run.len <= |r.query|
           && Projected(r, r.cigar[..i + 1], bases + r.query[q..q + run.len],
                positions + RefPositions(Diagonal(q, r.refStart + Len(r.cigar[..i], Reference), run.len)))
         else Projected(r, r.cigar[..i + 1], bases, positions)
  {
    var run := r.cigar[i];
    var q, p := Len(r.cigar[..i], Query), Len(r.cigar[..i], Reference);
    PrefixLenBounded(r.cigar, i, Query);
    PrefixLenBounded(r.cigar, i + 1, Query);
    ColumnsShape(r.cigar[..i + 1], 0, r.refStart);
    assert NonNegative(r.cigar[..i + 1]);
    ColumnsAppendRun(r.cigar[..i], run, 0, r.refStart);
    assert r.cigar[..i + 1] == r.cigar[..i] + [run];
    LenAppend(r.cigar[..i], [run], Query);
    LenAppend(r.cigar[..i], [run], Reference);
    if ConsumesBoth(run.op) {
      DiagonalShape(q, r.refStart + p, run.len);
    }
  }

  /** `_get_aligned_sequence_and_reference_positions`: the read's base and the reference
      coordinate of every aligned column, in order. */
  method AlignedSequenceAndPositions(r: Read) returns (bases: seq<Byte>, positions: seq<int>)
    requires Consistent(r)
    ensures |bases| == |positions| == |Columns(r.cigar, 0, r.refStart)| == Len(r.cigar, Aligned)
    ensures var cols := Columns(r.cigar, 0, r.refStart);
      forall j :: 0 <= j < |cols| ==>
        0 <= cols[j].0 < |r.query| && bases[j] == r.query[cols[j].0] && positions[j] == cols[j].1
    ensures forall j, k :: 0 <= j < k < |positions| ==> positions[j] < positions[k]
    ensures forall j :: 0 <= j < |positions| ==> r.refStart <= positions[j] < r.refEnd
    ensures forall x :: x in positions <==> InBlocks(Blocks(r), x)
  {
    bases, positions := [], [];
    var refConsumed, readConsumed := 0, 0;
    var i := 0;
    while i < |r.cigar|
      invariant 0 <= i <= |r.cigar|
      invariant readConsumed == Len(r.cigar[..i], Query)
      invariant refConsumed == Len(r.cigar[..i], Reference)
      invariant Projected(r, r.cigar[..i], bases, positions)
    {
      var run := r.cigar[i];
      ProjectRun(r, i, bases, positions);
      if ConsumesBoth(run.op) {
        bases := bases + r.query[readConsumed..readConsumed + run.len];
        positions := positions + RefPositions(Diagonal(readConsumed, r.refStart + refConsumed, run.len));
        readConsumed := readConsumed + run.len;
        refConsumed := refConsumed + run.len;
      } else if ConsumesRef(run.op) {
        refConsumed := refConsumed + run.len;
      } else if ConsumesQuery(run.op) {
        readConsumed := readConsumed + run.len;
      }
      i := i + 1;
    }
    assert r.cigar[..i] == r.cigar;
    ColumnsShape(r.cigar, 0, r.refStart);
    BlocksOfRead(r);
    forall x | x in positions
      ensures x in RefPositions(Columns(r.cigar, 0, r.refStart))
    {
      var j :| 0 <= j < |positions| && positions[j] == x;
      assert RefPositions(Columns(r.cigar, 0, r.refStart))[j] == x;
    }
    forall x | x in RefPositions(Columns(r.cigar, 0, r.refStart))
      ensures x in positions
    {
      var j :| 0 <= j < |positions| && RefPositions(Columns(r.cigar, 0, r.refStart))[j] == x;
      assert positions[j] == x;
    }
  }

  /** Appending a run extends the columns by that run's own columns, read from where the
      earlier runs left both axes. */
  lemma {:induction false} ColumnsAppendRun(ops: Cigar, run: Run, readOff: int, refPos: int)
    ensures Columns(ops + [run], readOff, refPos) ==
      Columns(ops, readOff, refPos) + Columns([run], readOff + Len(ops, Query), refPos + Len(ops, Reference))
  {
    if ops == [] {
      assert ops + [run] == [run];
    } else {
      var head, rest := ops[0], ops[1..];
      assert (ops + [run])[0] == head && (ops + [run])[1..] == rest + [run];
      var q := if ConsumesQuery(head.op) then head.len else 0;
      var f := if ConsumesRef(head.op) then head.len else 0;
      assert Len(ops, Query) == q + Len(rest, Query);
      assert Len(ops, Reference) == f + Len(rest, Reference);
      var front := if ConsumesBoth(head.op) then Diagonal(readOff, refPos, head.len) else [];
      assert Columns(ops + [run], readOff, refPos) == front + Columns(rest + [run], readOff + q, refPos + f);
      assert Columns(ops, readOff, refPos) == front + Columns(rest, readOff + q, refPos + f);
      ColumnsAppendRun(rest, run, readOff + q, refPos + f);
    }
  }

  /** An insertion closes the block and the next one starts at the same coordinate: `M3 I2 M4`
      at 10 gives two adjacent blocks, not one. */
  lemma InsertionSplitsBlock()
    ensures Blocks(Read([Run(M, 3), Run(I, 2), Run(M, 4)], [65, 67, 71, 84, 84, 65, 67, 71, 84],
                        [65, 67, 71, 65, 67, 71, 84], 10, 17)) == [(10, 13), (13, 17)]
  {
    var ops := [Run(M, 3), Run(I, 2), Run(M, 4)];
    assert ops[1..] == [Run(I, 2), Run(M, 4)];
    assert ops[1..][1..] == [Run(M, 4)];
    assert BlocksFrom([Run(M, 4)], 13, 0) == [(13, 17)];
    assert BlocksFrom(ops[1..], 10, 3) == [(10, 13), (13, 17)];
  }

  /** A deletion leaves a gap: `M3 D2 M4` at 10 gives blocks at 10..13 and 15..19. */
  lemma DeletionLeavesGap()
    ensures Blocks(Read([Run(M, 3), Run(D, 2), Run(M, 4)], [65, 67, 71, 65, 67, 71, 84],
                        [65, 67, 71, 78, 78, 65, 67, 71, 84], 10, 19)) == [(10, 13), (15, 19)]
  {
    var ops := [Run(M, 3), Run(D, 2), Run(M, 4)];
    assert ops[1..] == [Run(D, 2), Run(M, 4)];
    assert ops[1..][1..] == [Run(M, 4)];
    assert BlocksFrom([Run(M, 4)], 15, 0) == [(15, 19)];
    assert BlocksFrom(ops[1..], 10, 3) == [(10, 13), (15, 19)];
  }
}
