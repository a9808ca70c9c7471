/** The `Read` class: one read aligned to a reference, held as four correlated parts
    (the cigar, the read's bases, the reference bases under the alignment, and the
    half-open reference interval it covers). */
module Reads {
  import opened Cigar

  /** One base as an ASCII code (the source stores sequences as numpy uint8 arrays). */
  newtype Byte = b: int | 0 <= b < 256

  datatype Read = Read(
    cigar: Cigar,
    query: seq<Byte>,
    reference: seq<Byte>,
    refStart: int,
    refEnd: int)
  {
    /** `reference_end - reference_start`, the bound `trim` checks against. */
    function Span(): int {
      refEnd - refStart
    }
  }

  /** The class invariant the constructor establishes from a decoded alignment and every
      edit must keep: the query holds one base per query-consuming position, the reference
      one per reference-consuming position, and the interval is exactly as long as that. */
  predicate Consistent(r: Read) {
    && NonNegative(r.cigar)
    && |r.query| == Len(r.cigar, Query)
    && |r.reference| == Len(r.cigar, Reference)
    && r.Span() == Len(r.cigar, Reference)
  }
}
