/** Concrete headers from the rewrite's own test table, worked through the
    general lemmas about the rewrite. */
module HeaderCases {
  import opened Bytes
  import opened Complement
  import opened Header

  /** Mixed case: `AcTg` becomes `cAgT`, the case of each letter kept. */
  lemma MixedCase()
    ensures RewriteI5(Ascii("@r4 1:N:0:TTTT+AcTg\n")) == Ascii("@r4 1:N:0:TTTT+cAgT\n")
  {
    var pre, i7, i5 := Ascii("@r4 1:N:0"), Ascii("TTTT"), Ascii("AcTg");
    MixedCaseParts();
    RewriteI5Grammar(pre, i7, i5, [LF]);
  }

  lemma MixedCaseParts()
    ensures var pre, i7 := Ascii("@r4 1:N:0"), Ascii("TTTT");
      && Ascii("@r4 1:N:0:TTTT+AcTg\n") == pre + [COLON] + i7 + [PLUS] + Ascii("AcTg") + [LF]
      && Ascii("@r4 1:N:0:TTTT+cAgT\n") == pre + [COLON] + i7 + [PLUS] + Ascii("cAgT") + [LF]
      && RevComp(Ascii("AcTg")) == Ascii("cAgT")
      && COLON !in i7 && PLUS !in i7 && COLON !in Ascii("AcTg") && LF !in Ascii("AcTg")
  {
  }

  /** Without a final line feed the field runs to the end of the header. */
  lemma NoNewline()
    ensures RewriteI5(Ascii("@r7 1:N:0:CCCC+AGTC")) == Ascii("@r7 1:N:0:CCCC+GACT")
  {
    var pre, i7, i5 := Ascii("@r7 1:N:0"), Ascii("CCCC"), Ascii("AGTC");
    NoNewlineParts();
    RewriteI5Grammar(pre, i7, i5, []);
  }

  lemma NoNewlineParts()
    ensures var pre, i7 := Ascii("@r7 1:N:0"), Ascii("CCCC");
      && Ascii("@r7 1:N:0:CCCC+AGTC") == pre + [COLON] + i7 + [PLUS] + Ascii("AGTC") + []
      && Ascii("@r7 1:N:0:CCCC+GACT") == pre + [COLON] + i7 + [PLUS] + Ascii("GACT") + []
      && RevComp(Ascii("AGTC")) == Ascii("GACT")
      && COLON !in i7 && PLUS !in i7 && COLON !in Ascii("AGTC") && LF !in Ascii("AGTC")
  {
  }

  /** No `+` after the last `:`: the header is left as it is. */
  lemma NoPlus()
    ensures I5Span(Ascii("@r5 1:N:0:AAAA\n")).None?
    ensures RewriteI5(Ascii("@r5 1:N:0:AAAA\n")) == Ascii("@r5 1:N:0:AAAA\n")
  {
    var h := Ascii("@r5 1:N:0:AAAA\n");
    assert h[9] == COLON && h[10..] == Ascii("AAAA\n");
    ScansFindNoDelimiters(h, Some(9));
  }

  /** No `:` at all: the header is left as it is. */
  lemma NoColon()
    ensures I5Span(Ascii("@r6 no_index_here\n")).None?
    ensures RewriteI5(Ascii("@r6 no_index_here\n")) == Ascii("@r6 no_index_here\n")
  {
    ScansFindNoDelimiters(Ascii("@r6 no_index_here\n"), None);
  }

  /** A header that is only `@` and a line feed is left as it is. */
  lemma EmptyHeader()
    ensures I5Span([AT, LF]).None? && RewriteI5([AT, LF]) == [AT, LF]
  {
    ScansFindNoDelimiters([AT, LF], None);
  }

  /** An empty field after the `+` still counts as found, and the header is
      left as it is. */
  lemma EmptyI5()
    ensures I5Span(Ascii("@pyt1 1:N:0:AAAA+\n")).Some?
    ensures RewriteI5(Ascii("@pyt1 1:N:0:AAAA+\n")) == Ascii("@pyt1 1:N:0:AAAA+\n")
  {
    var pre, i7 := Ascii("@pyt1 1:N:0"), Ascii("AAAA");
    EmptyI5Parts();
    RewriteI5Grammar(pre, i7, [], [LF]);
    GrammarDelimiters(pre, i7, [], [LF]);
  }

  lemma EmptyI5Parts()
    ensures var pre, i7 := Ascii("@pyt1 1:N:0"), Ascii("AAAA");
      && Ascii("@pyt1 1:N:0:AAAA+\n") == pre + [COLON] + i7 + [PLUS] + [] + [LF]
      && COLON !in i7 && PLUS !in i7 && |pre| > 0 && pre[0] == AT
  {
  }
}
