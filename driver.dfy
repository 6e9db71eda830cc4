/** The record loop of `main`: reads the input four lines at a time
    (header, sequence, plus line, quality), rewrites the header's i5 index
    and writes the four lines out; stops cleanly when the input ends before
    a header and with a truncation error when it ends inside a record. */
module Driver {
  import opened Bytes
  import opened Vec
  import opened LineReader
  import opened Header

  /** How a run ends: after all input is consumed, or at a record with
      fewer than four lines ("truncated FASTQ record (expected 4 lines)"). */
  datatype Status = Success | TruncatedRecord

  /** What a run writes and how it ends. */
  datatype Outcome = Outcome(written: seq<byte>, status: Status)

  /** Where the line that starts at `pos` ends, which is where the reader
      is after reading it. */
  function LineEndAt(input: seq<byte>, pos: nat): (e: nat)
    requires pos <= |input|
    ensures pos <= e <= |input|
    ensures e == pos <==> pos == |input|
  {
    pos + |NextLine(input[pos..])|
  }

  /** The input from `pos` on, as the record loop sees it: nothing left, a
      record cut short, or a whole record and the position after it. */
  datatype Split =
    | NoRecord
    | Truncated
    | Record(header: seq<byte>, sequence: seq<byte>, plus: seq<byte>, quality: seq<byte>, next: nat)

  /** The record that starts at `pos`: four lines, or fewer when the input ends. */
  function SplitAt(input: seq<byte>, pos: nat): (sp: Split)
    requires pos <= |input|
    ensures sp.NoRecord? <==> pos == |input|
    ensures sp.Record? ==> pos < sp.next <= |input|
    ensures sp.Record? ==> sp.next == pos + |sp.header| + |sp.sequence| + |sp.plus| + |sp.quality|
  {
    var e0 := LineEndAt(input, pos);
    var e1 := LineEndAt(input, e0);
    var e2 := LineEndAt(input, e1);
    var e3 := LineEndAt(input, e2);
    if e0 == pos then NoRecord
    else if e1 == e0 || e2 == e1 || e3 == e2 then Truncated
    else Record(NextLine(input[pos..]), NextLine(input[e0..]), NextLine(input[e1..]), NextLine(input[e2..]), e3)
  }

  /** What the record loop writes for the input from `pos` on: each complete
      record with its header rewritten, up to the end of input or up to a
      record that is cut short, which is not written. */
  ghost function FixFrom(input: seq<byte>, pos: nat): (o: Outcome)
    requires pos <= |input|
    ensures |o.written| <= |input| - pos
    ensures o.status == Success ==> |o.written| == |input| - pos
    decreases |input| - pos
  {
    match SplitAt(input, pos)
    case NoRecord => Outcome([], Success)
    case Truncated => Outcome([], TruncatedRecord)
    case Record(h, sq, pl, ql, next) =>
      var o := FixFrom(input, next);
      Outcome(RewriteI5(h) + sq + pl + ql + o.written, o.status)
  }

  /** What a run writes for the whole input. */
  ghost function Fix(input: seq<byte>): (o: Outcome)
    ensures |o.written| <= |input|
    ensures o.status == Success ==> |o.written| == |input|
  {
    FixFrom(input, 0)
  }

  /** Reads the three lines after a header: clears the three buffers, then
      reads the sequence, plus and quality lines one after the other,
      stopping at the first that comes back empty. Reports whether all three
      were read. */
  method ReadBody(r: BufReader, s: ByteVec, p: ByteVec, q: ByteVec) returns (complete: bool)
    requires r.Valid() && s.Valid() && p.Valid() && q.Valid()
    requires s != p && s != q && p != q && s.data != p.data && s.data != q.data && p.data != q.data
    modifies r, s, s.data, p, p.data, q, q.data
    ensures r.Valid() && s.Valid() && p.Valid() && q.Valid()
    ensures s.data != p.data && s.data != q.data && p.data != q.data
    ensures s.data == old(s.data) || fresh(s.data)
    ensures p.data == old(p.data) || fresh(p.data)
    ensures q.data == old(q.data) || fresh(q.data)
    ensures var e1 := old(r.pos);
      var e2 := LineEndAt(r.input, e1);
      var e3 := LineEndAt(r.input, e2);
      var e4 := LineEndAt(r.input, e3);
      (complete <==> e1 != e2 && e2 != e3 && e3 != e4) &&
      (complete ==>
        r.pos == e4 && s.Contents() == NextLine(r.input[e1..]) &&
        p.Contents() == NextLine(r.input[e2..]) && q.Contents() == NextLine(r.input[e3..]))
  {
    ghost var e1 := r.pos;
    s.Clear();
    p.Clear();
    q.Clear();
    var ns := ReadLine(r, s);
    ghost var e2 := r.pos;
    assert e2 == LineEndAt(r.input, e1);
    if ns == 0 {
      return false;
    }
    ghost var sq := s.Contents();
    var np := ReadLine(r, p);
    ghost var e3 := r.pos;
    assert e3 == LineEndAt(r.input, e2);
    if np == 0 {
      return false;
    }
    ghost var pl := p.Contents();
    var nq := ReadLine(r, q);
    assert r.pos == LineEndAt(r.input, e3);
    assert s.Contents() == sq && p.Contents() == pl;
    return nq != 0;
  }

  /** The four line buffers have storage of their own. */
  ghost predicate Separate(h: ByteVec, s: ByteVec, p: ByteVec, q: ByteVec)
    reads h, s, p, q
  {
    h.data != s.data && h.data != p.data && h.data != q.data &&
    s.data != p.data && s.data != q.data && p.data != q.data
  }

  /** How far `read_line` has got through a record. */
  datatype Progress = AtEnd | Cut | Whole

  /** Reads one record into the four line buffers: clears the header buffer
      and reads the header; at end of input stops; otherwise reads the
      three lines after it. */
  method ReadRecord(r: BufReader, h: ByteVec, s: ByteVec, p: ByteVec, q: ByteVec) returns (progress: Progress)
    requires r.Valid() && h.Valid() && s.Valid() && p.Valid() && q.Valid()
    requires Separate(h, s, p, q)
    modifies r, h, h.data, s, s.data, p, p.data, q, q.data
    ensures r.Valid() && h.Valid() && s.Valid() && p.Valid() && q.Valid()
    ensures Separate(h, s, p, q)
    ensures h.data == old(h.data) || fresh(h.data)
    ensures s.data == old(s.data) || fresh(s.data)
    ensures p.data == old(p.data) || fresh(p.data)
    ensures q.data == old(q.data) || fresh(q.data)
    ensures progress == AtEnd <==> SplitAt(r.input, old(r.pos)).NoRecord?
    ensures progress == Cut <==> SplitAt(r.input, old(r.pos)).Truncated?
    ensures progress == Whole ==>
      SplitAt(r.input, old(r.pos)) == Record(h.Contents(), s.Contents(), p.Contents(), q.Contents(), r.pos)
  {
    ghost var e0 := r.pos;
    h.Clear();
    var n := ReadLine(r, h);
    assert r.pos == LineEndAt(r.input, e0);
    if n == 0 {
      return AtEnd;
    }
    ghost var hl := h.Contents();
    var complete := ReadBody(r, s, p, q);
    assert h.Contents() == hl;
    return if complete then Whole else Cut;
  }

  /** One record of the run: at the end of input nothing more is written,
      at a record cut short nothing more is written and the run fails, and
      a whole record is written, header rewritten, before whatever the rest
      of the input gives. */
  lemma FixStep(input: seq<byte>, pos: nat)
    requires pos <= |input|
    ensures SplitAt(input, pos).NoRecord? ==> FixFrom(input, pos) == Outcome([], Success)
    ensures SplitAt(input, pos).Truncated? ==> FixFrom(input, pos) == Outcome([], TruncatedRecord)
    ensures SplitAt(input, pos).Record? ==>
      var sp := SplitAt(input, pos);
      FixFrom(input, pos) == Outcome(RewriteI5(sp.header) + sp.sequence + sp.plus + sp.quality + FixFrom(input, sp.next).written, FixFrom(input, sp.next).status)
  {
  }

  /** Appending a record's lines one by one, then the rest, is appending
      the record followed by the rest. */
  lemma AppendRecord(out: seq<byte>, a: seq<byte>, b: seq<byte>, c: seq<byte>, d: seq<byte>, w: seq<byte>)
    ensures out + a + b + c + d + w == out + (a + b + c + d + w)
  {
  }

  /** One turn of the record loop: reads a record into the four buffers
      and, when it is whole, rewrites the header in place and appends the
      four lines to the output. */
  method FixRecordStep(r: BufReader, h: ByteVec, s: ByteVec, p: ByteVec, q: ByteVec, out: seq<byte>)
    returns (progress: Progress, out': seq<byte>)
    requires r.Valid() && h.Valid() && s.Valid() && p.Valid() && q.Valid()
    requires Separate(h, s, p, q)
    modifies r, h, h.data, s, s.data, p, p.data, q, q.data
    ensures r.Valid() && h.Valid() && s.Valid() && p.Valid() && q.Valid()
    ensures Separate(h, s, p, q)
    ensures h.data == old(h.data) || fresh(h.data)
    ensures s.data == old(s.data) || fresh(s.data)
    ensures p.data == old(p.data) || fresh(p.data)
    ensures q.data == old(q.data) || fresh(q.data)
    ensures progress == AtEnd <==> SplitAt(r.input, old(r.pos)).NoRecord?
    ensures progress == Cut <==> SplitAt(r.input, old(r.pos)).Truncated?
    ensures progress != Whole ==> out' == out
    ensures progress == Whole ==>
      var sp := SplitAt(r.input, old(r.pos));
      sp.Record? && r.pos == sp.next &&
      out' == out + RewriteI5(sp.header) + sp.sequence + sp.plus + sp.quality
  {
    progress := ReadRecord(r, h, s, p, q);
    if progress != Whole {
      return progress, out;
    }
    var _ := RewriteHeaderI5(h);
    out' := out + h.Contents() + s.Contents() + p.Contents() + q.Contents();
  }

  /** The record loop of `main` over the input stream `input`: four reused
      line buffers, each record read into them, the header rewritten in
      place and the four lines appended to the output. */
  method FixFastq(input: seq<byte>) returns (out: seq<byte>, status: Status)
    ensures Outcome(out, status) == Fix(input)
  {
    var r := new BufReader.WithCapacity(64 * 1024, input);
    var h := new ByteVec.WithCapacity(256);
    var s := new ByteVec.WithCapacity(256);
    var p := new ByteVec.WithCapacity(256);
    var q := new ByteVec.WithCapacity(256);
    out := [];
    while true
      invariant r.Valid() && h.Valid() && s.Valid() && p.Valid() && q.Valid()
      invariant r.input == input
      invariant fresh(h.data) && fresh(s.data) && fresh(p.data) && fresh(q.data)
      invariant Separate(h, s, p, q)
      invariant out + FixFrom(input, r.pos).written == Fix(input).written
      invariant FixFrom(input, r.pos).status == Fix(input).status
      decreases |input| - r.pos
    {
      ghost var pos, before := r.pos, out;
      FixStep(input, pos);
      var progress;
      progress, out := FixRecordStep(r, h, s, p, q, out);
      if progress == AtEnd {
        return out, Success;
      } else if progress == Cut {
        return out, TruncatedRecord;
      }
      ghost var sp := SplitAt(input, pos);
      AppendRecord(before, RewriteI5(sp.header), sp.sequence, sp.plus, sp.quality, FixFrom(input, r.pos).written);
    }
  }

  /** The lines of `s` as the line reader produces them, one after another. */
  function Lines(s: seq<byte>): (ls: seq<seq<byte>>)
    ensures |ls| <= |s|
    ensures ls == [] <==> s == []
    decreases |s|
  {
    if s == [] then [] else [NextLine(s)] + Lines(s[|NextLine(s)|..])
  }

  /** The bytes of a sequence of lines, joined. */
  function Concat(ls: seq<seq<byte>>): seq<byte> {
    if ls == [] then [] else ls[0] + Concat(ls[1..])
  }

  /** Every line is non-empty, has no line feed before its last byte, and
      all but the last end with a line feed. */
  ghost predicate WellFormedLines(ls: seq<seq<byte>>) {
    forall i | 0 <= i < |ls| :: ls[i] != [] && IsLine(ls[i]) && (i < |ls| - 1 ==> ls[i][|ls[i]| - 1] == LF)
  }

  lemma {:induction false} ConcatAppend(a: seq<seq<byte>>, b: seq<seq<byte>>)
    ensures Concat(a + b) == Concat(a) + Concat(b)
  {
    if a == [] {
      assert a + b == b;
    } else {
      assert (a + b)[1..] == a[1..] + b;
      ConcatAppend(a[1..], b);
    }
  }

  /** The line reader splits the input without loss: joining its lines
      gives back the input, and the lines are well formed. */
  lemma {:induction false} LinesJoin(s: seq<byte>)
    ensures Concat(Lines(s)) == s
    ensures WellFormedLines(Lines(s))
    decreases |s|
  {
    if s != [] {
      var l := NextLine(s);
      var t := s[|l|..];
      NextLineShape(s);
      LinesJoin(t);
      var rest := Lines(t);
      assert Lines(s) == [l] + rest;
      assert ([l] + rest)[1..] == rest;
      assert Concat([l] + rest) == l + Concat(rest);
      assert s == s[..|l|] + t;
      if l[|l| - 1] != LF {
        assert t == [];
      }
      WellFormedCons(l, rest);
    }
  }

  /** A line in front of well-formed lines keeps them well formed, provided
      it ends with a line feed whenever more lines follow. */
  lemma WellFormedCons(l: seq<byte>, rest: seq<seq<byte>>)
    requires l != [] && IsLine(l) && (rest != [] ==> l[|l| - 1] == LF)
    requires WellFormedLines(rest)
    ensures WellFormedLines([l] + rest)
  {
    var ls := [l] + rest;
    forall i | 0 <= i < |ls|
      ensures ls[i] != [] && IsLine(ls[i]) && (i < |ls| - 1 ==> ls[i][|ls[i]| - 1] == LF)
    {
      if i > 0 {
        assert ls[i] == rest[i - 1];
      }
    }
  }

  /** A line followed by more input: the reader reads exactly that line. */
  lemma {:induction false} NextLineOfJoin(l: seq<byte>, rest: seq<byte>)
    requires l != [] && IsLine(l) && (l[|l| - 1] == LF || rest == [])
    ensures NextLine(l + rest) == l
  {
    if |l| == 1 {
      if rest != [] {
        assert (l + rest)[0] == LF;
      } else {
        assert l + rest == l;
        if l[0] != LF {
          assert (l + rest)[1..] == [];
        }
      }
    } else {
      assert (l + rest)[0] == l[0] != LF;
      assert (l + rest)[1..] == l[1..] + rest;
      NextLineOfJoin(l[1..], rest);
    }
  }

  /** Joining well-formed lines and reading them back gives the same lines. */
  lemma {:induction false} LinesOfConcat(ls: seq<seq<byte>>)
    requires WellFormedLines(ls)
    ensures Lines(Concat(ls)) == ls
  {
    if ls != [] {
      var c := Concat(ls);
      assert c == ls[0] + Concat(ls[1..]);
      NextLineOfJoin(ls[0], Concat(ls[1..]));
      assert c[|ls[0]|..] == Concat(ls[1..]);
      assert WellFormedLines(ls[1..]) by {
        forall i | 0 <= i < |ls[1..]|
          ensures ls[1..][i] != [] && IsLine(ls[1..][i]) && (i < |ls[1..]| - 1 ==> ls[1..][i][|ls[1..][i]| - 1] == LF)
        {
          assert ls[1..][i] == ls[i + 1];
        }
      }
      LinesOfConcat(ls[1..]);
      assert ls == [ls[0]] + ls[1..];
    }
  }

  /** The lines with every record's header rewritten: the first line of each
      complete group of four; fewer than four lines left over are kept. */
  ghost function RewriteHeaders(ls: seq<seq<byte>>): (r: seq<seq<byte>>)
    ensures |r| == |ls|
    decreases |ls|
  {
    if |ls| < 4 then ls else [RewriteI5(ls[0]), ls[1], ls[2], ls[3]] + RewriteHeaders(ls[4..])
  }

  lemma RewriteHeadersRecord(a: seq<byte>, b: seq<byte>, c: seq<byte>, d: seq<byte>, x: seq<seq<byte>>)
    ensures RewriteHeaders([a, b, c, d] + x) == [RewriteI5(a), b, c, d] + RewriteHeaders(x)
  {
    var l := [a, b, c, d] + x;
    assert l[4..] == x;
    assert l[0] == a && l[1] == b && l[2] == c && l[3] == d;
  }

  lemma LinesStep(input: seq<byte>, pos: nat)
    requires pos < |input|
    ensures Lines(input[pos..]) == [NextLine(input[pos..])] + Lines(input[LineEndAt(input, pos)..])
  {
    assert input[pos..][|NextLine(input[pos..])|..] == input[LineEndAt(input, pos)..];
  }

  /** A whole record in front of more lines adds its rewritten lines in
      front of what the more lines give, and four to the line count. */
  lemma RecordLines(l0: seq<byte>, l1: seq<byte>, l2: seq<byte>, l3: seq<byte>, rest: seq<seq<byte>>)
    ensures var ls := [l0, l1, l2, l3] + rest;
      |ls| % 4 == |rest| % 4 &&
      Concat(RewriteHeaders(ls[..|ls| / 4 * 4])) == RewriteI5(l0) + l1 + l2 + l3 + Concat(RewriteHeaders(rest[..|rest| / 4 * 4]))
  {
    var ls := [l0, l1, l2, l3] + rest;
    var k := |rest| / 4 * 4;
    assert |ls| / 4 * 4 == 4 + k;
    assert ls[..4 + k] == [l0, l1, l2, l3] + rest[..k];
    RewriteHeadersRecord(l0, l1, l2, l3, rest[..k]);
    ConcatAppend([RewriteI5(l0), l1, l2, l3], RewriteHeaders(rest[..k]));
    ConcatFour(RewriteI5(l0), l1, l2, l3);
  }

  lemma ConcatFour(a: seq<byte>, b: seq<byte>, c: seq<byte>, d: seq<byte>)
    ensures Concat([a, b, c, d]) == a + b + c + d
  {
    assert [d][1..] == [];
    assert Concat([d]) == d;
    assert [c, d][1..] == [d];
    assert Concat([c, d]) == c + d;
    assert [b, c, d][1..] == [c, d];
    assert Concat([b, c, d]) == b + (c + d);
    assert [a, b, c, d][1..] == [b, c, d];
    assert Concat([a, b, c, d]) == a + (b + (c + d));
  }

  /** The lines from `pos` on when four lines start there: the record's
      four lines, then the lines after them. */
  lemma LinesOfRecord(input: seq<byte>, pos: nat)
    requires pos <= |input| && SplitAt(input, pos).Record?
    ensures var sp := SplitAt(input, pos);
      Lines(input[pos..]) == [sp.header, sp.sequence, sp.plus, sp.quality] + Lines(input[sp.next..])
  {
    var e0 := LineEndAt(input, pos);
    var e1 := LineEndAt(input, e0);
    var e2 := LineEndAt(input, e1);
    LinesStep(input, pos);
    LinesStep(input, e0);
    LinesStep(input, e1);
    LinesStep(input, e2);
    ConsFour(NextLine(input[pos..]), NextLine(input[e0..]), NextLine(input[e1..]), NextLine(input[e2..]),
      Lines(input[LineEndAt(input, e2)..]), Lines(input[e2..]), Lines(input[e1..]), Lines(input[e0..]), Lines(input[pos..]));
  }

  lemma ConsFour<T>(a: T, b: T, c: T, d: T, r: seq<T>, x3: seq<T>, x2: seq<T>, x1: seq<T>, x0: seq<T>)
    requires x3 == [d] + r && x2 == [c] + x3 && x1 == [b] + x2 && x0 == [a] + x1
    ensures x0 == [a, b, c, d] + r
  {
  }

  /** The lines from `pos` on when fewer than four lines start there. */
  lemma LinesOfTruncated(input: seq<byte>, pos: nat)
    requires pos <= |input| && SplitAt(input, pos).Truncated?
    ensures 0 < |Lines(input[pos..])| < 4
  {
    var e0 := LineEndAt(input, pos);
    var e1 := LineEndAt(input, e0);
    var e2 := LineEndAt(input, e1);
    LinesStep(input, pos);
    if e0 == |input| {
      assert input[e0..] == [];
    } else {
      LinesStep(input, e0);
      if e1 == |input| {
        assert input[e1..] == [];
      } else {
        LinesStep(input, e1);
        assert input[e2..] == [];
      }
    }
  }

  /** The run as a whole, stated on lines: the output is the input's
      complete records, in order, each with its header rewritten and its
      other three lines unchanged; the run succeeds exactly when the input's
      lines come in whole groups of four. A trailing incomplete record is
      not written. */
  lemma {:induction false} FixByLines(input: seq<byte>, pos: nat)
    requires pos <= |input|
    ensures var ls := Lines(input[pos..]);
      FixFrom(input, pos) == Outcome(Concat(RewriteHeaders(ls[..|ls| / 4 * 4])), if |ls| % 4 == 0 then Success else TruncatedRecord)
    decreases |input| - pos
  {
    FixStep(input, pos);
    var sp := SplitAt(input, pos);
    var ls := Lines(input[pos..]);
    if sp.NoRecord? {
      assert input[pos..] == [];
    } else if sp.Truncated? {
      LinesOfTruncated(input, pos);
      assert ls[..|ls| / 4 * 4] == [];
    } else {
      LinesOfRecord(input, pos);
      FixByLines(input, sp.next);
      RecordLines(sp.header, sp.sequence, sp.plus, sp.quality, Lines(input[sp.next..]));
    }
  }

  /** Rewriting headers keeps the lines well formed, and rewriting them
      twice gives the lines back. */
  lemma {:induction false} RewriteHeadersTwice(ls: seq<seq<byte>>)
    requires WellFormedLines(ls)
    ensures WellFormedLines(RewriteHeaders(ls))
    ensures RewriteHeaders(RewriteHeaders(ls)) == ls
    decreases |ls|
  {
    if |ls| >= 4 {
      var t := ls[4..];
      WellFormedTail(ls);
      RewriteHeadersTwice(t);
      var h := RewriteI5(ls[0]);
      RewriteHeaderLine(ls[0]);
      var rt := RewriteHeaders(t);
      assert RewriteHeaders(ls) == [h, ls[1], ls[2], ls[3]] + rt;
      assert |rt| == |ls| - 4;
      WellFormedRecord(h, ls[1], ls[2], ls[3], rt);
      RewriteHeadersRecord(h, ls[1], ls[2], ls[3], rt);
      assert ls == [ls[0], ls[1], ls[2], ls[3]] + t;
    }
  }

  /** A header line ending in a line feed still does after the rewrite, and
      a second rewrite restores it. */
  lemma RewriteHeaderLine(l: seq<byte>)
    requires l != [] && IsLine(l) && l[|l| - 1] == LF
    ensures RewriteI5(l) != [] && IsLine(RewriteI5(l)) && RewriteI5(l)[|l| - 1] == LF
    ensures RewriteI5(RewriteI5(l)) == l
  {
    RewriteI5KeepsLine(l);
    RewriteI5LineInvolution(l);
  }

  lemma WellFormedTail(ls: seq<seq<byte>>)
    requires WellFormedLines(ls) && |ls| >= 4
    ensures WellFormedLines(ls[4..])
  {
    var t := ls[4..];
    forall i | 0 <= i < |t|
      ensures t[i] != [] && IsLine(t[i]) && (i < |t| - 1 ==> t[i][|t[i]| - 1] == LF)
    {
      assert t[i] == ls[i + 4];
    }
  }

  lemma WellFormedRecord(a: seq<byte>, b: seq<byte>, c: seq<byte>, d: seq<byte>, rest: seq<seq<byte>>)
    requires a != [] && IsLine(a) && a[|a| - 1] == LF
    requires b != [] && IsLine(b) && b[|b| - 1] == LF
    requires c != [] && IsLine(c) && c[|c| - 1] == LF
    requires d != [] && IsLine(d) && (rest != [] ==> d[|d| - 1] == LF)
    requires WellFormedLines(rest)
    ensures WellFormedLines([a, b, c, d] + rest)
  {
    var r := [a, b, c, d] + rest;
    forall i | 0 <= i < |r|
      ensures r[i] != [] && IsLine(r[i]) && (i < |r| - 1 ==> r[i][|r[i]| - 1] == LF)
    {
      if i >= 4 {
        assert r[i] == rest[i - 4];
      }
    }
  }

  /** Running the fixer on its own successful output gives back the
      original input: a successful run only ever reverse-complements i5
      fields, and doing so twice is the identity. */
  lemma FixTwice(s: seq<byte>)
    requires Fix(s).status == Success
    ensures Fix(Fix(s).written) == Outcome(s, Success)
  {
    var ls := Lines(s);
    FixSucceeded(s);
    var rs := RewriteHeaders(ls);
    RewriteHeadersTwice(ls);
    FixOfLines(rs);
    assert rs[..|rs| / 4 * 4] == rs;
  }

  /** A successful run has read whole records of well-formed lines that
      join to the input, and written them with their headers rewritten. */
  lemma FixSucceeded(s: seq<byte>)
    requires Fix(s).status == Success
    ensures var ls := Lines(s);
      WellFormedLines(ls) && Concat(ls) == s && |ls| % 4 == 0 && Fix(s).written == Concat(RewriteHeaders(ls))
  {
    var ls := Lines(s);
    LinesJoin(s);
    FixOfLines(ls);
    assert ls[..|ls| / 4 * 4] == ls;
  }

  /** The fixer on input given as well-formed lines: it writes the complete
      records, each with its header rewritten, and drops the one to three
      lines of a trailing incomplete record; it succeeds exactly when the
      lines come in whole records. */
  lemma FixOfLines(ls: seq<seq<byte>>)
    requires WellFormedLines(ls)
    ensures Fix(Concat(ls)) == Outcome(Concat(RewriteHeaders(ls[..|ls| / 4 * 4])), if |ls| % 4 == 0 then Success else TruncatedRecord)
  {
    LinesOfConcat(ls);
    FixByLines(Concat(ls), 0);
    assert Concat(ls)[0..] == Concat(ls);
  }
}
