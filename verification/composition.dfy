/** `Composition.report`: base counts and GC content of a sequence. */
module Composition {
  import opened Sorting

  /** `s.count(ch)` for a single character. */
  function Count(s: string, ch: char): nat {
    if s == [] then 0 else (if s[0] == ch then 1 else 0) + Count(s[1..], ch)
  }

  predicate IsBase(ch: char) {
    ch == 'A' || ch == 'T' || ch == 'C' || ch == 'G'
  }

  /** The characters that are none of the four upper-case bases. */
  function CountOthers(s: string): nat {
    if s == [] then 0 else (if IsBase(s[0]) then 0 else 1) + CountOthers(s[1..])
  }

  datatype Report = Report(a: nat, t: nat, c: nat, g: nat, n: int, gcContent: real)

  /** `report`: `N` is whatever is left once the four bases are counted, and the GC content is
      taken over the bases only, or 0 when there are none. */
  function MakeReport(s: string): (r: Report) {
    var a, t, c, g := Count(s, 'A'), Count(s, 'T'), Count(s, 'C'), Count(s, 'G');
    var n := |s| - (a + t + c + g);
    var length := |s| - n;
    Report(a, t, c, g, n, if length == 0 then 0.0 else (g + c) as real / length as real)
  }

  lemma {:induction false} CountsPartition(s: string)
    ensures Count(s, 'A') + Count(s, 'T') + Count(s, 'C') + Count(s, 'G') + CountOthers(s) == |s|
  {
    if s != [] {
      CountsPartition(s[1..]);
    }
  }

  lemma {:induction false} CountAppend(s: string, u: string, ch: char)
    ensures Count(s + u, ch) == Count(s, ch) + Count(u, ch)
  {
    if s == [] {
      assert s + u == u;
    } else {
      assert (s + u)[1..] == s[1..] + u;
      CountAppend(s[1..], u, ch);
    }
  }

  /** `N` counts exactly the characters that are not one of the four bases (lower-case bases
      and gaps included), and the GC content is a fraction of the bases. */
  lemma ReportSpec(s: string)
    ensures MakeReport(s).n == CountOthers(s)
    ensures MakeReport(s).a + MakeReport(s).t + MakeReport(s).c + MakeReport(s).g + MakeReport(s).n == |s|
    ensures 0.0 <= MakeReport(s).gcContent <= 1.0
    ensures MakeReport(s).gcContent == 0.0 <==> Count(s, 'G') + Count(s, 'C') == 0
  {
    CountsPartition(s);
    var r := MakeReport(s);
    var gc := r.g + r.c;
    var length := r.a + r.t + r.c + r.g;
    if length != 0 {
      Fraction(gc as real, length as real);
    }
  }

  /** Counting is additive over concatenation, so the report of a sequence is determined by the
      reports of its pieces. */
  lemma ReportAppend(s: string, u: string)
    ensures MakeReport(s + u).a == MakeReport(s).a + MakeReport(u).a
    ensures MakeReport(s + u).t == MakeReport(s).t + MakeReport(u).t
    ensures MakeReport(s + u).c == MakeReport(s).c + MakeReport(u).c
    ensures MakeReport(s + u).g == MakeReport(s).g + MakeReport(u).g
    ensures MakeReport(s + u).n == MakeReport(s).n + MakeReport(u).n
  {
    CountAppend(s, u, 'A');
    CountAppend(s, u, 'T');
    CountAppend(s, u, 'C');
    CountAppend(s, u, 'G');
  }

  /** `GGCAN`: the `N` is left out of the GC denominator. */
  lemma GgcanReport()
    ensures MakeReport("GGCAN") == Report(1, 0, 1, 2, 1, 0.75)
  {
    assert "GGCAN"[1..] == "GCAN" && "GCAN"[1..] == "CAN" && "CAN"[1..] == "AN" && "AN"[1..] == "N";
    assert "N"[1..] == [];
  }
}
