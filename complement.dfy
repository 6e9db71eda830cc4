/** Complementing DNA bases and reverse-complementing a run of bytes, both as
    a specification on sequences and as the two-pointer loop that does it in
    place on a slice. */
module Complement {
  import opened Bytes

  /** The ten bytes that `complement_base` maps: A, C, G, T, N in both cases. */
  predicate IsBase(b: byte) {
    || b == 'A' as byte || b == 'C' as byte || b == 'G' as byte || b == 'T' as byte || b == 'N' as byte
    || b == 'a' as byte || b == 'c' as byte || b == 'g' as byte || b == 't' as byte || b == 'n' as byte
  }

  predicate IsUpper(b: byte) { 'A' as byte <= b <= 'Z' as byte }

  predicate IsLower(b: byte) { 'a' as byte <= b <= 'z' as byte }

  /** The complement of a DNA base, preserving case; every other byte maps
      to itself. */
  function ComplementBase(b: byte): (r: byte)
    ensures IsBase(r) <==> IsBase(b)
    ensures !IsBase(b) ==> r == b
  {
    if b == 'A' as byte then 'T' as byte
    else if b == 'C' as byte then 'G' as byte
    else if b == 'G' as byte then 'C' as byte
    else if b == 'T' as byte then 'A' as byte
    else if b == 'N' as byte then 'N' as byte
    else if b == 'a' as byte then 't' as byte
    else if b == 'c' as byte then 'g' as byte
    else if b == 'g' as byte then 'c' as byte
    else if b == 't' as byte then 'a' as byte
    else if b == 'n' as byte then 'n' as byte
    else b
  }

  /** Complementing keeps the case of a letter, and the only bytes it
      leaves in place are the non-bases and `N`/`n`. */
  lemma ComplementKeepsCase(b: byte)
    ensures IsUpper(ComplementBase(b)) == IsUpper(b) && IsLower(ComplementBase(b)) == IsLower(b)
    ensures ComplementBase(b) == b <==> !IsBase(b) || b == 'N' as byte || b == 'n' as byte
  {
  }

  /** Complementing twice gives back the byte. */
  lemma ComplementInvolution(b: byte)
    ensures ComplementBase(ComplementBase(b)) == b
  {
  }

  /** The reverse complement: the bytes of `s` in reverse order, each complemented. */
  function RevComp(s: seq<byte>): (r: seq<byte>)
    ensures |r| == |s|
  {
    if s == [] then [] else RevComp(s[1..]) + [ComplementBase(s[0])]
  }

  /** Position `k` of the reverse complement holds the complement of the
      byte mirrored at `|s| - 1 - k`. */
  lemma {:induction false} RevCompAt(s: seq<byte>, k: nat)
    requires k < |s|
    ensures RevComp(s)[k] == ComplementBase(s[|s| - 1 - k])
  {
    if k < |s| - 1 {
      RevCompAt(s[1..], k);
    }
  }

  /** Reverse-complementing twice gives back the sequence. */
  lemma RevCompInvolution(s: seq<byte>)
    ensures RevComp(RevComp(s)) == s
  {
    forall k | 0 <= k < |s|
      ensures RevComp(RevComp(s))[k] == s[k]
    {
      RevCompAt(RevComp(s), k);
      RevCompAt(s, |s| - 1 - k);
      ComplementInvolution(s[k]);
    }
  }

  /** A byte that is not a base occurs in the reverse complement exactly
      when it occurs in the sequence; so no `:`, `+` or line feed is ever
      created or removed. */
  lemma RevCompKeepsNonBase(s: seq<byte>, x: byte)
    requires !IsBase(x)
    ensures x in RevComp(s) <==> x in s
  {
    if x in s {
      var k :| 0 <= k < |s| && s[k] == x;
      RevCompAt(s, |s| - 1 - k);
    }
    if x in RevComp(s) {
      var k :| 0 <= k < |s| && RevComp(s)[k] == x;
      RevCompAt(s, k);
    }
  }

  /** `s` with its range `[lo, hi)` replaced by that range's reverse complement. */
  function RevCompRange(s: seq<byte>, lo: nat, hi: nat): (r: seq<byte>)
    requires lo <= hi <= |s|
    ensures |r| == |s|
  {
    s[..lo] + RevComp(s[lo..hi]) + s[hi..]
  }

  /** Pointwise: inside the range each byte is the complement of its mirror
      image in the range, and outside it every byte is kept. */
  lemma RevCompRangeAt(s: seq<byte>, lo: nat, hi: nat, k: nat)
    requires lo <= hi <= |s| && k < |s|
    ensures RevCompRange(s, lo, hi)[k] == if lo <= k < hi then ComplementBase(s[lo + hi - 1 - k]) else s[k]
  {
    if lo <= k < hi {
      RevCompAt(s[lo..hi], k - lo);
    }
  }

  /** The pointwise description above, for every position at once. */
  lemma RevCompRangePoints(s: seq<byte>, lo: nat, hi: nat)
    requires lo <= hi <= |s|
    ensures forall k | 0 <= k < lo || hi <= k < |s| :: RevCompRange(s, lo, hi)[k] == s[k]
    ensures forall k | lo <= k < hi :: RevCompRange(s, lo, hi)[k] == ComplementBase(s[lo + hi - 1 - k])
  {
    forall k | 0 <= k < |s|
      ensures RevCompRange(s, lo, hi)[k] == if lo <= k < hi then ComplementBase(s[lo + hi - 1 - k]) else s[k]
    {
      RevCompRangeAt(s, lo, hi, k);
    }
  }

  /** Reverse-complementing the same range twice gives back the sequence. */
  lemma RevCompRangeInvolution(s: seq<byte>, lo: nat, hi: nat)
    requires lo <= hi <= |s|
    ensures RevCompRange(RevCompRange(s, lo, hi), lo, hi) == s
  {
    RevCompInvolution(s[lo..hi]);
    var r := RevCompRange(s, lo, hi);
    assert r[..lo] == s[..lo] && r[lo..hi] == RevComp(s[lo..hi]) && r[hi..] == s[hi..];
  }

  /** A byte that is not a base and does not occur in `s[a..b]` does not
      occur there after reverse-complementing a range inside it. */
  lemma RevCompRangeAbsent(s: seq<byte>, lo: nat, hi: nat, x: byte, a: nat, b: nat)
    requires a <= lo <= hi <= b <= |s| && !IsBase(x)
    requires forall k | a <= k < b :: s[k] != x
    ensures forall k | a <= k < b :: RevCompRange(s, lo, hi)[k] != x
  {
    forall k | a <= k < b
      ensures RevCompRange(s, lo, hi)[k] != x
    {
      RevCompRangeAt(s, lo, hi, k);
    }
  }

  /** Conversely, a sequence that agrees pointwise with the description above
      is the range reverse complement. */
  lemma RevCompRangeByPoints(before: seq<byte>, after: seq<byte>, lo: nat, hi: nat)
    requires lo <= hi <= |before| == |after|
    requires forall k | 0 <= k < lo || hi <= k < |after| :: after[k] == before[k]
    requires forall k | lo <= k < hi :: after[k] == ComplementBase(before[lo + hi - 1 - k])
    ensures after == RevCompRange(before, lo, hi)
  {
    forall k | 0 <= k < |after|
      ensures after[k] == RevCompRange(before, lo, hi)[k]
    {
      RevCompRangeAt(before, lo, hi, k);
    }
  }

  /** Cutting off bytes after the range commutes with reverse-complementing it. */
  lemma RevCompRangePrefix(s: seq<byte>, lo: nat, hi: nat, n: nat)
    requires lo <= hi <= n <= |s|
    ensures RevCompRange(s, lo, hi)[..n] == RevCompRange(s[..n], lo, hi)
  {
    forall k | 0 <= k < n
      ensures RevCompRange(s, lo, hi)[k] == RevCompRange(s[..n], lo, hi)[k]
    {
      RevCompRangeAt(s, lo, hi, k);
      RevCompRangeAt(s[..n], lo, hi, k);
    }
  }

  /** Reverse-complements `buf[lo..hi]` in place with two indices walking in
      from both ends (`reverse_complement_in_place` applied to the sub-slice
      `buf[lo..hi]`; the slice's own indices 0 and its length become `lo`
      and `hi`). */
  method ReverseComplementInPlace(buf: array<byte>, lo: nat, hi: nat)
    requires lo <= hi <= buf.Length
    modifies buf
    ensures buf[..] == RevCompRange(old(buf[..]), lo, hi)
  {
    var i := lo;
    var j := hi;
    while i < j
      invariant lo <= i <= j + 1 && j <= hi && i - lo == hi - j
      invariant forall k | 0 <= k < lo || hi <= k < buf.Length :: buf[k] == old(buf[k])
      invariant forall k | i <= k < j :: buf[k] == old(buf[k])
      invariant forall k | lo <= k < i || j <= k < hi :: buf[k] == ComplementBase(old(buf[lo + hi - 1 - k]))
    {
      j := j - 1;
      var a := ComplementBase(buf[i]);
      var b := ComplementBase(buf[j]);
      buf[i] := b;
      buf[j] := a;
      i := i + 1;
    }
    RevCompRangeByPoints(old(buf[..]), buf[..], lo, hi);
  }
}
