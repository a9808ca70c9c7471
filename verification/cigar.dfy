/** The CIGAR operations of the SAM format (section 1.4, field 6, of the SAM/BAM format
    specification, SAMv1) and the table of which of them consume query bases and which
    consume reference bases. A read's alignment is a run-length list of (operation, length)
    pairs, its "cigartuples". */
module Cigar {

  /** BAM operation codes 0..8, in order: M I D N S H P = X. */
  datatype Op = M | I | D | N | S | H | P | Eq | X

  /** Whether an operation advances along the read (query). */
  predicate ConsumesQuery(op: Op) {
    match op
    case M | I | S | Eq | X => true
    case D | N | H | P => false
  }

  /** Whether an operation advances along the reference. */
  predicate ConsumesRef(op: Op) {
    match op
    case M | D | N | Eq | X => true
    case I | S | H | P => false
  }

  /** An aligned column: a base of the read placed against a base of the reference. */
  predicate ConsumesBoth(op: Op) {
    ConsumesQuery(op) && ConsumesRef(op)
  }

  /** The three lengths of an alignment one can measure. */
  datatype Axis = Query | Reference | Aligned

  predicate Consumes(op: Op, axis: Axis) {
    match axis
    case Query => ConsumesQuery(op)
    case Reference => ConsumesRef(op)
    case Aligned => ConsumesBoth(op)
  }

  /** One (operation, length) pair. Lengths are numpy integers, so they are not
      constrained here; `NonNegative` says when they make sense. */
  datatype Run = Run(op: Op, len: int)

  type Cigar = seq<Run>

  predicate NonNegative(c: Cigar) {
    forall i :: 0 <= i < |c| ==> c[i].len >= 0
  }

  /** Sum of the lengths of the runs whose operation consumes `axis`. */
  function Len(c: Cigar, axis: Axis): int {
    if c == [] then 0
    else (if Consumes(c[0].op, axis) then c[0].len else 0) + Len(c[1..], axis)
  }

  /** The runs in the opposite order (numpy's `cigartuples[::-1]`). */
  function Reverse(c: Cigar): (r: Cigar)
    ensures |r| == |c|
    ensures forall i :: 0 <= i < |c| ==> r[i] == c[|c| - 1 - i]
  {
    seq(|c|, i requires 0 <= i < |c| => c[|c| - 1 - i])
  }

  /** Each operation falls in exactly one of the four classes the walks over a cigar
      distinguish, and the match-like operations are exactly M, = and X. */
  lemma ConsumptionClasses(op: Op)
    ensures ConsumesBoth(op) <==> op in {M, Eq, X}
    ensures ConsumesRef(op) && !ConsumesQuery(op) <==> op in {D, N}
    ensures ConsumesQuery(op) && !ConsumesRef(op) <==> op in {I, S}
    ensures !ConsumesQuery(op) && !ConsumesRef(op) <==> op in {H, P}
  {
  }

  lemma {:induction false} LenAppend(a: Cigar, b: Cigar, axis: Axis)
    ensures Len(a + b, axis) == Len(a, axis) + Len(b, axis)
  {
    if a == [] {
      assert a + b == b;
    } else {
      assert (a + b)[1..] == a[1..] + b;
      LenAppend(a[1..], b, axis);
    }
  }

  lemma {:induction false} LenNonNegative(c: Cigar, axis: Axis)
    requires NonNegative(c)
    ensures Len(c, axis) >= 0
  {
    if c != [] {
      LenNonNegative(c[1..], axis);
    }
  }

  /** An aligned column consumes both axes, so the aligned length bounds both others. */
  lemma {:induction false} AlignedLenBounded(c: Cigar)
    requires NonNegative(c)
    ensures Len(c, Aligned) <= Len(c, Query)
    ensures Len(c, Aligned) <= Len(c, Reference)
  {
    if c != [] {
      AlignedLenBounded(c[1..]);
    }
  }

  /** The lengths of a prefix are bounded by those of the whole cigar. */
  lemma PrefixLenBounded(c: Cigar, i: nat, axis: Axis)
    requires NonNegative(c)
    requires i <= |c|
    ensures 0 <= Len(c[..i], axis) <= Len(c, axis)
  {
    assert c == c[..i] + c[i..];
    LenAppend(c[..i], c[i..], axis);
    LenNonNegative(c[..i], axis);
    LenNonNegative(c[i..], axis);
  }

  /** Reading the runs backwards does not change how much of either axis they consume. */
  lemma {:induction false} LenReverse(c: Cigar, axis: Axis)
    ensures Len(Reverse(c), axis) == Len(c, axis)
  {
    if c != [] {
      assert Reverse(c) == Reverse(c[1..]) + [c[0]];
      LenAppend(Reverse(c[1..]), [c[0]], axis);
      LenReverse(c[1..], axis);
    }
  }

  lemma ReverseNonNegative(c: Cigar)
    requires NonNegative(c)
    ensures NonNegative(Reverse(c))
  {
  }

  lemma ReverseReverse(c: Cigar)
    ensures Reverse(Reverse(c)) == c
  {
  }
}
