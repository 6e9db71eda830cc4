/** Bytes, the delimiters the header fixer looks for, and the two byte
    scans it relies on: a forward search for the first occurrence of a byte
    (`memchr`) and a backward search for the last one (`memrchr`). */
module Bytes {

  /** An unsigned 8-bit value, Rust's `u8`. */
  newtype byte = b: int | 0 <= b < 256

  datatype Option<+T> = None | Some(value: T)

  const LF: byte := '\n' as byte
  const AT: byte := '@' as byte
  const COLON: byte := ':' as byte
  const PLUS: byte := '+' as byte

  /** A line in the shape the line reader produces: no line feed except
      possibly as its last byte. */
  ghost predicate IsLine(h: seq<byte>) {
    forall k | 0 <= k < |h| - 1 :: h[k] != LF
  }

  /** The bytes of an ASCII string literal. */
  function Ascii(s: string): (r: seq<byte>)
    requires forall i | 0 <= i < |s| :: s[i] as int < 256
    ensures |r| == |s| && forall i | 0 <= i < |s| :: r[i] as int == s[i] as int
  {
    seq(|s|, i requires 0 <= i < |s| => s[i] as byte)
  }

  /** Forward linear scan of a slice for `needle` (the `memchr` crate's `memchr`). */
  method MemChr(needle: byte, haystack: seq<byte>) returns (r: Option<nat>)
    ensures r.None? <==> needle !in haystack
    ensures r.Some? ==> r.value < |haystack| && haystack[r.value] == needle && needle !in haystack[..r.value]
  {
    var i := 0;
    while i < |haystack|
      invariant 0 <= i <= |haystack|
      invariant needle !in haystack[..i]
    {
      if haystack[i] == needle {
        return Some(i);
      }
      assert haystack[..i + 1] == haystack[..i] + [haystack[i]];
      i := i + 1;
    }
    assert haystack[..i] == haystack;
    return None;
  }

  /** Backward linear scan of a slice for `needle` (the `memchr` crate's `memrchr`). */
  method MemRChr(needle: byte, haystack: seq<byte>) returns (r: Option<nat>)
    ensures r.None? <==> needle !in haystack
    ensures r.Some? ==> r.value < |haystack| && haystack[r.value] == needle && needle !in haystack[r.value + 1..]
  {
    var i := |haystack|;
    while i > 0
      invariant 0 <= i <= |haystack|
      invariant needle !in haystack[i..]
    {
      if haystack[i - 1] == needle {
        return Some(i - 1);
      }
      assert haystack[i - 1..] == [haystack[i - 1]] + haystack[i..];
      i := i - 1;
    }
    assert haystack[i..] == haystack;
    return None;
  }
}
