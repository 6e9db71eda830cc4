/** The line reader: a buffered byte source (Rust's `BufReader`) over an
    input stream, and `read_line`, which moves one line from it into a
    reusable buffer. */
module LineReader {
  import opened Bytes
  import opened Vec

  /** The first line of `s`: everything up to and including its first line
      feed, or all of `s` when it has none. */
  function NextLine(s: seq<byte>): (r: seq<byte>)
    ensures |r| <= |s|
    ensures |r| == 0 <==> |s| == 0
  {
    if s == [] then []
    else if s[0] == LF then [LF]
    else [s[0]] + NextLine(s[1..])
  }

  /** The first line is a prefix of the input and a line: it has no line
      feed before its last byte, and it either is the whole input or ends
      with a line feed. */
  lemma {:induction false} NextLineShape(s: seq<byte>)
    ensures NextLine(s) == s[..|NextLine(s)|]
    ensures IsLine(NextLine(s))
    ensures NextLine(s) == s || NextLine(s)[|NextLine(s)| - 1] == LF
  {
    if s != [] && s[0] != LF {
      NextLineShape(s[1..]);
      assert s == [s[0]] + s[1..];
    }
  }

  /** With no line feed in `s`, the line is all of `s`. */
  lemma {:induction false} NextLineWithoutFeed(s: seq<byte>)
    requires LF !in s
    ensures NextLine(s) == s
  {
    if s != [] {
      assert LF !in s[1..];
      NextLineWithoutFeed(s[1..]);
    }
  }

  /** With the first line feed at `i`, the line is `s[..i + 1]`. */
  lemma {:induction false} NextLineAtFeed(s: seq<byte>, i: nat)
    requires i < |s| && s[i] == LF && LF !in s[..i]
    ensures NextLine(s) == s[..i + 1]
  {
    if i > 0 {
      assert s[0] == s[..i][0];
      assert s[1..][..i - 1] == s[..i][1..];
      NextLineAtFeed(s[1..], i - 1);
    }
  }

  /** A buffered reader over the whole input stream `input`. The bytes
      `input[pos..filled]` are those the last refill brought into the
      buffer and that have not been consumed yet. */
  class BufReader {
    const input: seq<byte>
    const capacity: nat
    var pos: nat
    var filled: nat

    ghost predicate Valid()
      reads this
    {
      0 < capacity && pos <= filled <= |input| && filled - pos <= capacity
    }

    /** `BufReader::with_capacity` over a stream whose contents are `input`. */
    constructor WithCapacity(capacity: nat, input: seq<byte>)
      requires 0 < capacity
      ensures Valid() && this.input == input && this.capacity == capacity && pos == 0
    {
      this.input := input;
      this.capacity := capacity;
      pos, filled := 0, 0;
    }

    /** `fill_buf`: the unconsumed buffered bytes; when there are none, a
        read from the stream first refills the buffer with between one and
        `capacity` bytes, however many the stream delivers. Empty only at
        end of input. */
    method FillBuf() returns (available: seq<byte>)
      requires Valid()
      modifies this`filled
      ensures Valid()
      ensures available == input[pos..filled]
      ensures available == [] <==> pos == |input|
      ensures old(pos < filled) ==> filled == old(filled)
    {
      if pos == filled && pos < |input| {
        var n: nat :| 0 < n <= capacity && pos + n <= |input|;
        filled := pos + n;
      }
      available := input[pos..filled];
    }

    /** `consume`: marks `amt` buffered bytes as used, never moving past
        the buffered ones. */
    method Consume(amt: nat)
      requires Valid()
      modifies this`pos
      ensures Valid()
      ensures pos == if old(pos) + amt <= filled then old(pos) + amt else filled
    {
      pos := if pos + amt <= filled then pos + amt else filled;
    }
  }

  /** A chunk whose first line feed is at `i` completes the line begun at
      `start`. */
  lemma ChunkEndsLine(input: seq<byte>, start: nat, pos: nat, chunk: seq<byte>, i: nat)
    requires start <= pos && pos + |chunk| <= |input| && chunk == input[pos..pos + |chunk|]
    requires LF !in input[start..pos]
    requires i < |chunk| && chunk[i] == LF && LF !in chunk[..i]
    ensures input[start..pos + i + 1] == NextLine(input[start..])
  {
    var s := input[start..];
    assert s[..pos - start + i] == input[start..pos] + chunk[..i];
    NextLineAtFeed(s, pos - start + i);
  }

  /** A chunk without a line feed continues the line begun at `start`. */
  lemma ChunkContinuesLine(input: seq<byte>, start: nat, pos: nat, chunk: seq<byte>)
    requires start <= pos && pos + |chunk| <= |input| && chunk == input[pos..pos + |chunk|]
    requires LF !in input[start..pos] && LF !in chunk
    ensures LF !in input[start..pos + |chunk|]
  {
    assert input[start..pos + |chunk|] == input[start..pos] + chunk;
  }

  /** At end of input the line begun at `start` is the rest of the input. */
  lemma InputEndsLine(input: seq<byte>, start: nat)
    requires start <= |input| && LF !in input[start..]
    ensures NextLine(input[start..]) == input[start..]
  {
    NextLineWithoutFeed(input[start..]);
  }

  /** Copies the first `n` buffered bytes onto the end of `buf` and
      consumes them, so that `buf` still holds the input from `start` up to
      the reader's position. */
  method CopyAndConsume(r: BufReader, buf: ByteVec, ghost start: nat, available: seq<byte>, n: nat)
    requires r.Valid() && buf.Valid()
    requires start <= r.pos && buf.Contents() == r.input[start..r.pos]
    requires available == r.input[r.pos..r.filled] && n <= |available|
    modifies r`pos, buf, buf.data
    ensures r.Valid() && buf.Valid()
    ensures r.pos == old(r.pos) + n && buf.Contents() == r.input[start..r.pos]
    ensures buf.data == old(buf.data) || fresh(buf.data)
  {
    assert r.input[start..r.pos] + available[..n] == r.input[start..r.pos + n];
    buf.ExtendFromSlice(available[..n]);
    r.Consume(n);
  }

  /** The branch of `read_line` that finds a line feed at `i` in the
      buffered bytes: copies them through the line feed, which completes
      the line begun at `start`. */
  method CopyThroughFeed(r: BufReader, buf: ByteVec, ghost start: nat, available: seq<byte>, i: nat) returns (n: nat)
    requires r.Valid() && buf.Valid()
    requires start <= r.pos && buf.Contents() == r.input[start..r.pos] && LF !in r.input[start..r.pos]
    requires available == r.input[r.pos..r.filled] && i < |available| && available[i] == LF && LF !in available[..i]
    modifies r`pos, buf, buf.data
    ensures r.Valid() && buf.Valid()
    ensures r.pos == old(r.pos) + n && buf.Contents() == r.input[start..r.pos]
    ensures r.input[start..r.pos] == NextLine(r.input[start..])
    ensures buf.data == old(buf.data) || fresh(buf.data)
  {
    ChunkEndsLine(r.input, start, r.pos, available, i);
    n := i + 1;
    CopyAndConsume(r, buf, start, available, n);
  }

  /** The branch of `read_line` that finds no line feed in the buffered
      bytes: copies all of them, and the line goes on. */
  method CopyAll(r: BufReader, buf: ByteVec, ghost start: nat, available: seq<byte>) returns (n: nat)
    requires r.Valid() && buf.Valid()
    requires start <= r.pos && buf.Contents() == r.input[start..r.pos] && LF !in r.input[start..r.pos]
    requires available == r.input[r.pos..r.filled] && available != [] && LF !in available
    modifies r`pos, buf, buf.data
    ensures r.Valid() && buf.Valid()
    ensures r.pos == old(r.pos) + n && buf.Contents() == r.input[start..r.pos]
    ensures 0 < n && LF !in r.input[start..r.pos]
    ensures buf.data == old(buf.data) || fresh(buf.data)
  {
    ChunkContinuesLine(r.input, start, r.pos, available);
    n := |available|;
    CopyAndConsume(r, buf, start, available, n);
  }

  /** One pass of `read_line`'s loop for the line begun at `start`, of which
      `buf` already holds the part read so far: takes the buffered bytes,
      copies them up to and including the first line feed (or all of them
      when there is none) and consumes what it copied. Reports whether the
      line is complete, which it is at a line feed or at end of input. */
  method ReadChunk(r: BufReader, buf: ByteVec, ghost start: nat) returns (n: nat, done: bool)
    requires r.Valid() && buf.Valid()
    requires start <= r.pos && buf.Contents() == r.input[start..r.pos] && LF !in r.input[start..r.pos]
    modifies r, buf, buf.data
    ensures r.Valid() && buf.Valid()
    ensures r.pos == old(r.pos) + n && buf.Contents() == r.input[start..r.pos]
    ensures done ==> r.input[start..r.pos] == NextLine(r.input[start..])
    ensures !done ==> 0 < n && LF !in r.input[start..r.pos]
    ensures buf.data == old(buf.data) || fresh(buf.data)
  {
    var available := r.FillBuf();
    if |available| == 0 {
      InputEndsLine(r.input, start);
      return 0, true;
    }
    var nl := MemChr(LF, available);
    if nl.Some? {
      n := CopyThroughFeed(r, buf, start, available, nl.value);
      done := true;
    } else {
      n := CopyAll(r, buf, start, available);
      done := false;
    }
  }

  /** Reads one line into `buf` (`read_line`): clears `buf`, then copies
      buffered chunks into it until a line feed has been copied or the
      input is exhausted, consuming what it copies. Returns the number of
      bytes read, zero only at end of input. */
  method ReadLine(r: BufReader, buf: ByteVec) returns (total: nat)
    requires r.Valid() && buf.Valid()
    modifies r, buf, buf.data
    ensures r.Valid() && buf.Valid()
    ensures buf.Contents() == NextLine(r.input[old(r.pos)..])
    ensures total == |buf.Contents()| && r.pos == old(r.pos) + total
    ensures buf.data == old(buf.data) || fresh(buf.data)
  {
    buf.Clear();
    total := 0;
    ghost var start := r.pos;
    while true
      invariant r.Valid() && buf.Valid()
      invariant start <= r.pos && total == r.pos - start
      invariant buf.Contents() == r.input[start..r.pos]
      invariant LF !in r.input[start..r.pos]
      invariant buf.data == old(buf.data) || fresh(buf.data)
      decreases |r.input| - r.pos
    {
      var n, done := ReadChunk(r, buf, start);
      total := total + n;
      if done {
        return;
      }
    }
  }
}
