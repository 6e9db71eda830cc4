/** The two-record run from the command-line test, worked through the
    lemmas about the record loop. */
module DriverCases {
  import opened Bytes
  import opened Complement
  import opened Header
  import opened Driver

  /** Both i5 fields (`ACGT` and `nnnn`) are their own reverse complements,
      so the output is the input and the run succeeds. */
  lemma TwoValidReads()
    ensures var first := Ascii("@r1 1:N:0:AAAA+ACGT\n") + Ascii("ACGT\n") + Ascii("+\n") + Ascii("!!!!\n");
      var second := Ascii("@r2 1:N:0:CCCC+nnnn\n") + Ascii("TGCA\n") + Ascii("+\n") + Ascii("####\n");
      Fix(first + second) == Outcome(first + second, Success)
  {
    QualityLines();
    HeaderOne();
    HeaderTwo();
    FixTwoRecords(Ascii("@r1 1:N:0:AAAA+ACGT\n"), Ascii("ACGT\n"), Ascii("+\n"), Ascii("!!!!\n"),
                  Ascii("@r2 1:N:0:CCCC+nnnn\n"), Ascii("TGCA\n"), Ascii("####\n"));
  }

  /** Two records of line-feed-terminated lines, sharing their `+` line,
      whose headers the rewrite leaves alone come out as they went in. */
  lemma FixTwoRecords(h1: seq<byte>, s1: seq<byte>, p: seq<byte>, q1: seq<byte>, h2: seq<byte>, s2: seq<byte>, q2: seq<byte>)
    requires h1 != [] && IsLine(h1) && h1[|h1| - 1] == LF && RewriteI5(h1) == h1
    requires h2 != [] && IsLine(h2) && h2[|h2| - 1] == LF && RewriteI5(h2) == h2
    requires s1 != [] && IsLine(s1) && s1[|s1| - 1] == LF
    requires s2 != [] && IsLine(s2) && s2[|s2| - 1] == LF
    requires p != [] && IsLine(p) && p[|p| - 1] == LF
    requires q1 != [] && IsLine(q1) && q1[|q1| - 1] == LF
    requires q2 != [] && IsLine(q2) && q2[|q2| - 1] == LF
    ensures Fix((h1 + s1 + p + q1) + (h2 + s2 + p + q2)) == Outcome((h1 + s1 + p + q1) + (h2 + s2 + p + q2), Success)
  {
    var ls := [h1, s1, p, q1, h2, s2, p, q2];
    TwoRecordLines(h1, s1, p, q1, h2, s2, q2);
    assert ls[..|ls| / 4 * 4] == ls;
    var w := Concat(ls);
    FixOfLines(ls);
    assert Fix(w) == Outcome(w, Success);
  }

  lemma TwoRecordLines(h1: seq<byte>, s1: seq<byte>, p: seq<byte>, q1: seq<byte>, h2: seq<byte>, s2: seq<byte>, q2: seq<byte>)
    requires h1 != [] && IsLine(h1) && h1[|h1| - 1] == LF && RewriteI5(h1) == h1
    requires h2 != [] && IsLine(h2) && h2[|h2| - 1] == LF && RewriteI5(h2) == h2
    requires s1 != [] && IsLine(s1) && s1[|s1| - 1] == LF
    requires s2 != [] && IsLine(s2) && s2[|s2| - 1] == LF
    requires p != [] && IsLine(p) && p[|p| - 1] == LF
    requires q1 != [] && IsLine(q1) && q1[|q1| - 1] == LF
    requires q2 != [] && IsLine(q2) && q2[|q2| - 1] == LF
    ensures var ls := [h1, s1, p, q1, h2, s2, p, q2];
      && WellFormedLines(ls) && RewriteHeaders(ls) == ls
      && Concat(ls) == (h1 + s1 + p + q1) + (h2 + s2 + p + q2)
  {
    var r1, r2 := [h1, s1, p, q1], [h2, s2, p, q2];
    var ls := r1 + r2;
    assert ls == [h1, s1, p, q1, h2, s2, p, q2];
    WellFormedRecord(h2, s2, p, q2, []);
    assert r2 + [] == r2;
    WellFormedRecord(h1, s1, p, q1, r2);
    RewriteHeadersRecord(h2, s2, p, q2, []);
    RewriteHeadersRecord(h1, s1, p, q1, r2);
    ConcatAppend(r1, r2);
    ConcatFour(h1, s1, p, q1);
    ConcatFour(h2, s2, p, q2);
  }

  lemma QualityLines()
    ensures var s1, p, q1, s2, q2 := Ascii("ACGT\n"), Ascii("+\n"), Ascii("!!!!\n"), Ascii("TGCA\n"), Ascii("####\n");
      && s1 != [] && IsLine(s1) && s1[|s1| - 1] == LF
      && p != [] && IsLine(p) && p[|p| - 1] == LF
      && q1 != [] && IsLine(q1) && q1[|q1| - 1] == LF
      && s2 != [] && IsLine(s2) && s2[|s2| - 1] == LF
      && q2 != [] && IsLine(q2) && q2[|q2| - 1] == LF
  {
  }

  lemma HeaderOne()
    ensures var h := Ascii("@r1 1:N:0:AAAA+ACGT\n");
      h != [] && IsLine(h) && h[|h| - 1] == LF && RewriteI5(h) == h
  {
    var pre, i7, i5 := Ascii("@r1 1:N:0"), Ascii("AAAA"), Ascii("ACGT");
    HeaderOneParts();
    RewriteI5Grammar(pre, i7, i5, [LF]);
  }

  lemma HeaderOneParts()
    ensures var h := Ascii("@r1 1:N:0:AAAA+ACGT\n");
      && h == Ascii("@r1 1:N:0") + [COLON] + Ascii("AAAA") + [PLUS] + Ascii("ACGT") + [LF]
      && RevComp(Ascii("ACGT")) == Ascii("ACGT") && IsLine(h)
  {
  }

  lemma HeaderTwo()
    ensures var h := Ascii("@r2 1:N:0:CCCC+nnnn\n");
      h != [] && IsLine(h) && h[|h| - 1] == LF && RewriteI5(h) == h
  {
    var pre, i7, i5 := Ascii("@r2 1:N:0"), Ascii("CCCC"), Ascii("nnnn");
    HeaderTwoParts();
    RewriteI5Grammar(pre, i7, i5, [LF]);
  }

  lemma HeaderTwoParts()
    ensures var h := Ascii("@r2 1:N:0:CCCC+nnnn\n");
      && h == Ascii("@r2 1:N:0") + [COLON] + Ascii("CCCC") + [PLUS] + Ascii("nnnn") + [LF]
      && RevComp(Ascii("nnnn")) == Ascii("nnnn") && IsLine(h)
  {
  }
}
