/** The header rewrite: in a FASTQ header line `@...:<i7>+<i5>[\n]`, find the
    i5 index (everything after the first `+` that follows the last `:`, up
    to a final line feed) and reverse-complement it in place. */
module Header {
  import opened Bytes
  import opened Complement
  import opened Vec

  /** The half-open range `[start, end)` of the i5 field within a header. */
  datatype Span = Span(start: nat, end: nat)

  /** Where the rewritable part of a line stops: before a final line feed
      if there is one, else at the end. */
  function LineEnd(h: seq<byte>): (e: nat)
    ensures e <= |h|
    ensures e == |h| || (e == |h| - 1 && h[e] == LF)
  {
    if |h| > 0 && h[|h| - 1] == LF then |h| - 1 else |h|
  }

  /** `c` is the last `:` in `h` and `p` is the first `+` after it. */
  ghost predicate IsIndexDelimiters(h: seq<byte>, c: nat, p: nat) {
    c < p < |h| && h[c] == COLON && h[p] == PLUS &&
    (forall k | c < k < |h| :: h[k] != COLON) &&
    (forall k | c < k < p :: h[k] != PLUS)
  }

  /** `h` starts with `@` and has a `+` somewhere after its last `:`. */
  ghost predicate HasIndexPair(h: seq<byte>) {
    |h| > 0 && h[0] == AT && exists c: nat, p: nat :: IsIndexDelimiters(h, c, p)
  }

  /** A line has at most one pair of index delimiters. */
  lemma DelimitersUnique(h: seq<byte>, c: nat, p: nat, c': nat, p': nat)
    requires IsIndexDelimiters(h, c, p) && IsIndexDelimiters(h, c', p')
    ensures c == c' && p == p'
  {
  }

  /** The last `:` and the first `+` after it, as the two scans report
      them, are the index delimiters. */
  lemma ScansFindDelimiters(h: seq<byte>, j: nat, relK: nat)
    requires j < |h| && h[j] == COLON && COLON !in h[j + 1..]
    requires j + 1 + relK < |h| && h[j + 1 + relK] == PLUS && PLUS !in h[j + 1..][..relK]
    ensures IsIndexDelimiters(h, j, j + 1 + relK)
  {
    assert h[j + 1..][..relK] == h[j + 1..j + 1 + relK];
  }

  /** When there is no `:`, or no `+` after the last `:`, there are no index
      delimiters. */
  lemma ScansFindNoDelimiters(h: seq<byte>, j: Option<nat>)
    requires j.None? ==> COLON !in h
    requires j.Some? ==> j.value < |h| && h[j.value] == COLON && COLON !in h[j.value + 1..] && PLUS !in h[j.value + 1..]
    ensures forall c: nat, p: nat :: !IsIndexDelimiters(h, c, p)
  {
  }

  /** Locates the i5 field of a header line: it starts right after the
      first `+` that follows the last `:` and stops at the line end. There
      is none when the line is empty, does not start with `@`, has no `:`,
      or has no `+` after its last `:`. */
  ghost function I5Span(h: seq<byte>): (r: Option<Span>)
    ensures r.Some? <==> HasIndexPair(h)
    ensures r.Some? ==> 0 < r.value.start <= r.value.end <= |h|
  {
    if HasIndexPair(h) then
      var c: nat, p: nat :| IsIndexDelimiters(h, c, p);
      Some(Span(p + 1, LineEnd(h)))
    else None
  }

  /** The i5 field is determined by the delimiters alone: whichever pair
      satisfies the description, the field starts right after its `+` and
      ends at the line end. */
  lemma I5SpanOf(h: seq<byte>, c: nat, p: nat)
    requires |h| > 0 && h[0] == AT && IsIndexDelimiters(h, c, p)
    ensures I5Span(h) == Some(Span(p + 1, LineEnd(h)))
  {
    var c': nat, p': nat :| IsIndexDelimiters(h, c', p') && I5Span(h) == Some(Span(p' + 1, LineEnd(h)));
    DelimitersUnique(h, c, p, c', p');
  }

  /** The header with its i5 field reverse-complemented, or unchanged when
      the field cannot be located. */
  ghost function RewriteI5(h: seq<byte>): (r: seq<byte>)
    ensures |r| == |h|
  {
    match I5Span(h)
    case None => h
    case Some(sp) => RevCompRange(h, sp.start, sp.end)
  }

  /** What the rewrite changes: nothing when no field is found; otherwise
      each byte of the field becomes the complement of its mirror image in
      the field and every other byte, the final line feed included, is kept. */
  lemma RewriteI5Frame(h: seq<byte>)
    ensures I5Span(h).None? ==> RewriteI5(h) == h
    ensures I5Span(h).Some? ==>
      var sp := I5Span(h).value;
      var r := RewriteI5(h);
      (forall k | 0 <= k < sp.start || sp.end <= k < |h| :: r[k] == h[k]) &&
      (forall k | sp.start <= k < sp.end :: r[k] == ComplementBase(h[sp.start + sp.end - 1 - k]))
  {
    if I5Span(h).Some? {
      RevCompRangePoints(h, I5Span(h).value.start, I5Span(h).value.end);
    }
  }

  /** The rewrite keeps a line a line, with the same line end: its last
      byte is a line feed exactly when the original's is, and no line feed
      appears anywhere else. */
  lemma RewriteI5KeepsLine(h: seq<byte>)
    requires IsLine(h)
    ensures IsLine(RewriteI5(h)) && LineEnd(RewriteI5(h)) == LineEnd(h)
  {
    if I5Span(h).Some? {
      var sp := I5Span(h).value;
      RevCompRangePoints(h, sp.start, sp.end);
      RevCompRangeAbsent(h, sp.start, sp.end, LF, 0, sp.end);
    }
  }

  /** After the rewrite the same `:` and `+` are still the index delimiters:
      the field lies after the last `:` and complementing creates no `:`. */
  lemma RewriteI5KeepsDelimiters(h: seq<byte>, c: nat, p: nat)
    requires |h| > 0 && h[0] == AT && IsIndexDelimiters(h, c, p)
    ensures RewriteI5(h)[0] == AT && IsIndexDelimiters(RewriteI5(h), c, p)
  {
    I5SpanOf(h, c, p);
    RevCompRangePoints(h, p + 1, LineEnd(h));
    RevCompRangeAbsent(h, p + 1, LineEnd(h), COLON, c + 1, |h|);
  }

  /** Rewriting a header twice gives back the header, provided its i5
      field holds no line feed: the second rewrite finds the same
      delimiters and the same field, and reverse-complementing is an
      involution. */
  lemma RewriteI5Involution(h: seq<byte>)
    requires I5Span(h).Some? ==> forall k | I5Span(h).value.start <= k < I5Span(h).value.end :: h[k] != LF
    ensures RewriteI5(RewriteI5(h)) == h
  {
    if I5Span(h).Some? {
      var c: nat, p: nat :| IsIndexDelimiters(h, c, p);
      I5SpanOf(h, c, p);
      RewriteI5KeepsDelimiters(h, c, p);
      var r := RewriteI5(h);
      RevCompRangePoints(h, p + 1, LineEnd(h));
      assert LineEnd(r) == LineEnd(h) by {
        if LineEnd(h) == |h| && p + 1 < |h| {
          assert r[|h| - 1] == ComplementBase(h[p + 1]);
        }
      }
      I5SpanOf(r, c, p);
      RevCompRangeInvolution(h, p + 1, LineEnd(h));
    }
  }

  /** Every line the reader produces meets the condition above: its only
      line feed is the final one, which lies outside the field. */
  lemma RewriteI5LineInvolution(h: seq<byte>)
    requires IsLine(h)
    ensures RewriteI5(RewriteI5(h)) == h
  {
    if I5Span(h).Some? {
      var sp := I5Span(h).value;
      assert forall k | sp.start <= k < sp.end :: h[k] != LF by {
        assert sp.end == LineEnd(h);
      }
    }
    RewriteI5Involution(h);
  }

  /** In a header of the shape `@<prefix>:<i7>+<i5>[\n]`, the `:` after the
      prefix and the `+` after the i7 index are the index delimiters. */
  lemma GrammarDelimiters(pre: seq<byte>, i7: seq<byte>, i5: seq<byte>, nl: seq<byte>)
    requires |pre| > 0 && pre[0] == AT
    requires COLON !in i7 && PLUS !in i7 && COLON !in i5
    requires nl == [] || nl == [LF]
    ensures IsIndexDelimiters(pre + [COLON] + i7 + [PLUS] + i5 + nl, |pre|, |pre| + 1 + |i7|)
  {
    var h := pre + [COLON] + i7 + [PLUS] + i5 + nl;
    var c := |pre|;
    forall k | c < k < |h|
      ensures h[k] != COLON
    {
      if k <= c + |i7| {
        assert h[k] == i7[k - c - 1];
      } else if c + |i7| + 1 < k < c + |i7| + 2 + |i5| {
        assert h[k] == i5[k - c - |i7| - 2];
      }
    }
    forall k | c < k < c + 1 + |i7|
      ensures h[k] != PLUS
    {
      assert h[k] == i7[k - c - 1];
    }
  }

  /** The header grammar `@<prefix>:<i7>+<i5>[\n]`: with no `:` or `+` in
      the i7 index and no `:` or line feed in the i5 index, the rewrite
      replaces the i5 index by its reverse complement and keeps the rest.
      The prefix may contain further colons. */
  lemma RewriteI5Grammar(pre: seq<byte>, i7: seq<byte>, i5: seq<byte>, nl: seq<byte>)
    requires |pre| > 0 && pre[0] == AT
    requires COLON !in i7 && PLUS !in i7
    requires COLON !in i5 && LF !in i5
    requires nl == [] || nl == [LF]
    ensures RewriteI5(pre + [COLON] + i7 + [PLUS] + i5 + nl) == pre + [COLON] + i7 + [PLUS] + RevComp(i5) + nl
  {
    var front := pre + [COLON] + i7 + [PLUS];
    var h := front + i5 + nl;
    GrammarDelimiters(pre, i7, i5, nl);
    assert LineEnd(h) == |front| + |i5| by {
      if nl == [] && i5 != [] {
        assert h[|h| - 1] == i5[|i5| - 1];
      }
    }
    assert h[0] == AT;
    I5SpanOf(h, |pre|, |pre| + 1 + |i7|);
    assert h[..|front|] == front && h[|front|..|front| + |i5|] == i5 && h[|front| + |i5|..] == nl;
  }

  /** The scanning part of `rewrite_header_i5`: checks for `@`, notes a
      final line feed, scans backward for the last `:` and forward from it
      for the first `+`, and computes the field's bounds. */
  method LocateI5(h: seq<byte>) returns (span: Option<Span>)
    ensures span == I5Span(h)
  {
    if |h| == 0 || h[0] != AT {
      return None;
    }
    var hasNl := h[|h| - 1] == LF;
    var j := MemRChr(COLON, h);
    if j.None? {
      ScansFindNoDelimiters(h, j);
      return None;
    }
    var relK := MemChr(PLUS, h[j.value + 1..]);
    if relK.None? {
      ScansFindNoDelimiters(h, j);
      return None;
    }
    var i5Start := j.value + 1 + relK.value + 1;
    var i5End := if hasNl then |h| - 1 else |h|;
    ScansFindDelimiters(h, j.value, relK.value);
    I5SpanOf(h, j.value, j.value + 1 + relK.value);
    return Some(Span(i5Start, i5End));
  }

  /** Rewrites the i5 field of the header held in `header` in place and
      reports whether the field was found (`rewrite_header_i5`). */
  method RewriteHeaderI5(header: ByteVec) returns (rewritten: bool)
    requires header.Valid()
    modifies header.data
    ensures header.Valid()
    ensures rewritten == I5Span(old(header.Contents())).Some?
    ensures header.Contents() == RewriteI5(old(header.Contents()))
  {
    var span := LocateI5(header.data[..header.len]);
    if span.None? {
      return false;
    }
    ghost var before := header.data[..];
    ReverseComplementInPlace(header.data, span.value.start, span.value.end);
    RevCompRangePrefix(before, span.value.start, span.value.end, header.len);
    return true;
  }
}
