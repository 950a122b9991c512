/** The byte-aligned part of the save file's bit cursor: fixed-width
    little-endian unsigned integers and raw byte runs.

    A read takes the unread remainder of the buffer and returns the value
    together with the new remainder, or `None` when the remainder is too
    short (a buffer underrun). A write returns the bytes it emits; the
    writer appends them to what was written before. */
module Bytes {
  import opened Wrappers

  type byte = x: int | 0 <= x < 0x100
  type u16 = x: int | 0 <= x < 0x1_0000
  type u32 = x: int | 0 <= x < 0x1_0000_0000
  type u64 = x: int | 0 <= x < 0x1_0000_0000_0000_0000

  function Pow256(n: nat): (p: nat)
    ensures p > 0
  {
    if n == 0 then 1 else 256 * Pow256(n - 1)
  }

  /** The value of a byte run read least significant byte first. */
  function LeValue(s: seq<byte>): nat
  {
    if |s| == 0 then 0 else s[0] + 256 * LeValue(s[1..])
  }

  /** The `n` low bytes of `x`, least significant first. */
  function LeBytes(x: nat, n: nat): (s: seq<byte>)
    ensures |s| == n
  {
    if n == 0 then [] else [x % 256] + LeBytes(x / 256, n - 1)
  }

  lemma {:induction false} LeValueBound(s: seq<byte>)
    ensures LeValue(s) < Pow256(|s|)
  {
    if |s| > 0 {
      LeValueBound(s[1..]);
    }
  }

  /** Little-endian encoding is injective on values that fit in `n` bytes. */
  lemma {:induction false} LeValueOfLeBytes(x: nat, n: nat)
    requires x < Pow256(n)
    ensures LeValue(LeBytes(x, n)) == x
  {
    if n > 0 {
      LeValueOfLeBytes(x / 256, n - 1);
      assert LeBytes(x, n)[1..] == LeBytes(x / 256, n - 1);
    }
  }

  /** Every byte run is the encoding of its own value. */
  lemma {:induction false} LeBytesOfLeValue(s: seq<byte>)
    ensures LeBytes(LeValue(s), |s|) == s
  {
    if |s| > 0 {
      LeBytesOfLeValue(s[1..]);
      var v := LeValue(s);
      assert v % 256 == s[0] && v / 256 == LeValue(s[1..]);
    }
  }

  // ---------------------------------------------------------------------
  // Reads

  /** Reads a run of `n` raw bytes (the reader's ReadBytes). */
  function ReadBytes(s: seq<byte>, n: nat): (r: Option<(seq<byte>, seq<byte>)>)
    ensures r.Some? <==> n <= |s|
    ensures r.Some? ==> |r.value.0| == n && r.value.0 + r.value.1 == s
  {
    if |s| < n then None else Some((s[..n], s[n..]))
  }

  /** Reads an `n`-byte little-endian unsigned integer. */
  function ReadUInt(s: seq<byte>, n: nat): (r: Option<(nat, seq<byte>)>)
    ensures r.Some? <==> n <= |s|
    ensures r.Some? ==> r.value.0 < Pow256(n) && LeBytes(r.value.0, n) + r.value.1 == s
  {
    if |s| < n then None
    else
      LeValueBound(s[..n]);
      LeBytesOfLeValue(s[..n]);
      Some((LeValue(s[..n]), s[n..]))
  }

  function ReadByte(s: seq<byte>): (r: Option<(byte, seq<byte>)>)
    ensures r.Some? <==> 1 <= |s|
    ensures r.Some? ==> |r.value.1| == |s| - 1 && [r.value.0] + r.value.1 == s
  {
    if |s| < 1 then None else Some((s[0], s[1..]))
  }

  function ReadUInt16(s: seq<byte>): (r: Option<(u16, seq<byte>)>)
    ensures r.Some? <==> 2 <= |s|
    ensures r.Some? ==> |r.value.1| == |s| - 2
    ensures r.Some? ==> WriteUInt16(r.value.0) + r.value.1 == s
  {
    var p :- ReadUInt(s, 2);
    Some((p.0, p.1))
  }

  function ReadUInt32(s: seq<byte>): (r: Option<(u32, seq<byte>)>)
    ensures r.Some? <==> 4 <= |s|
    ensures r.Some? ==> |r.value.1| == |s| - 4
    ensures r.Some? ==> WriteUInt32(r.value.0) + r.value.1 == s
  {
    var p :- ReadUInt(s, 4);
    Some((p.0, p.1))
  }

  function ReadUInt64(s: seq<byte>): (r: Option<(u64, seq<byte>)>)
    ensures r.Some? <==> 8 <= |s|
    ensures r.Some? ==> |r.value.1| == |s| - 8
    ensures r.Some? ==> WriteUInt64(r.value.0) + r.value.1 == s
  {
    var p :- ReadUInt(s, 8);
    Some((p.0, p.1))
  }

  // ---------------------------------------------------------------------
  // Writes

  function WriteUInt16(x: u16): (s: seq<byte>)
    ensures |s| == 2
  {
    LeBytes(x, 2)
  }

  function WriteUInt32(x: u32): (s: seq<byte>)
    ensures |s| == 4
  {
    LeBytes(x, 4)
  }

  function WriteUInt64(x: u64): (s: seq<byte>)
    ensures |s| == 8
  {
    LeBytes(x, 8)
  }

  // ---------------------------------------------------------------------
  // Round trips

  /** Reading `n` bytes back from what was written gives the value and
      leaves exactly what followed. */
  lemma ReadUIntOfLeBytes(x: nat, n: nat, rest: seq<byte>)
    requires x < Pow256(n)
    ensures ReadUInt(LeBytes(x, n) + rest, n) == Some((x, rest))
  {
    var s := LeBytes(x, n) + rest;
    assert s[..n] == LeBytes(x, n);
    assert s[n..] == rest;
    LeValueOfLeBytes(x, n);
  }

  lemma ReadWriteUInt16(x: u16, rest: seq<byte>)
    ensures ReadUInt16(WriteUInt16(x) + rest) == Some((x, rest))
  {
    ReadUIntOfLeBytes(x, 2, rest);
  }

  lemma ReadWriteUInt32(x: u32, rest: seq<byte>)
    ensures ReadUInt32(WriteUInt32(x) + rest) == Some((x, rest))
  {
    ReadUIntOfLeBytes(x, 4, rest);
  }

  lemma ReadWriteUInt64(x: u64, rest: seq<byte>)
    ensures ReadUInt64(WriteUInt64(x) + rest) == Some((x, rest))
  {
    ReadUIntOfLeBytes(x, 8, rest);
  }

  /** A slice of a slice is the slice at the shifted bounds. */
  lemma SubSlice(b: seq<byte>, lo: nat, hi: nat, i: nat, j: nat)
    requires lo <= hi <= |b| && i <= j <= hi - lo
    ensures b[lo..hi][i..j] == b[lo + i..lo + j]
  {
    assert forall k :: 0 <= k < j - i ==> b[lo..hi][i..j][k] == b[lo + i + k];
  }

  // ---------------------------------------------------------------------
  // Consecutive reads

  /** Eight reads in a row, each leaving the next one's input, consumed
      exactly the concatenation of what each one consumed. */
  lemma Chain8(s: seq<byte>, e1: seq<byte>, s1: seq<byte>, e2: seq<byte>, s2: seq<byte>,
               e3: seq<byte>, s3: seq<byte>, e4: seq<byte>, s4: seq<byte>, e5: seq<byte>, s5: seq<byte>,
               e6: seq<byte>, s6: seq<byte>, e7: seq<byte>, s7: seq<byte>, e8: seq<byte>, rest: seq<byte>)
    requires s == e1 + s1 && s1 == e2 + s2 && s2 == e3 + s3 && s3 == e4 + s4 && s4 == e5 + s5
    requires s5 == e6 + s6 && s6 == e7 + s7 && s7 == e8 + rest
    ensures s == e1 + e2 + e3 + e4 + e5 + e6 + e7 + e8 + rest
  {
  }

  /** Nine reads in a row, each leaving the next one's input, consumed
      exactly the concatenation of what each one consumed. */
  lemma Chain9(s: seq<byte>, e1: seq<byte>, s1: seq<byte>, e2: seq<byte>, s2: seq<byte>,
               e3: seq<byte>, s3: seq<byte>, e4: seq<byte>, s4: seq<byte>, e5: seq<byte>, s5: seq<byte>,
               e6: seq<byte>, s6: seq<byte>, e7: seq<byte>, s7: seq<byte>, e8: seq<byte>, s8: seq<byte>,
               e9: seq<byte>, rest: seq<byte>)
    requires s == e1 + s1 && s1 == e2 + s2 && s2 == e3 + s3 && s3 == e4 + s4 && s4 == e5 + s5
    requires s5 == e6 + s6 && s6 == e7 + s7 && s7 == e8 + s8 && s8 == e9 + rest
    ensures s == e1 + e2 + e3 + e4 + e5 + e6 + e7 + e8 + e9 + rest
  {
  }

  /** Eleven reads in a row, each leaving the next one's input, consumed
      exactly the concatenation of what each one consumed. */
  lemma Chain11(s: seq<byte>, e1: seq<byte>, s1: seq<byte>, e2: seq<byte>, s2: seq<byte>,
                e3: seq<byte>, s3: seq<byte>, e4: seq<byte>, s4: seq<byte>, e5: seq<byte>, s5: seq<byte>,
                e6: seq<byte>, s6: seq<byte>, e7: seq<byte>, s7: seq<byte>, e8: seq<byte>, s8: seq<byte>,
                e9: seq<byte>, s9: seq<byte>, e10: seq<byte>, s10: seq<byte>, e11: seq<byte>, rest: seq<byte>)
    requires s == e1 + s1 && s1 == e2 + s2 && s2 == e3 + s3 && s3 == e4 + s4 && s4 == e5 + s5
    requires s5 == e6 + s6 && s6 == e7 + s7 && s7 == e8 + s8 && s8 == e9 + s9 && s9 == e10 + s10
    requires s10 == e11 + rest
    ensures s == e1 + e2 + e3 + e4 + e5 + e6 + e7 + e8 + e9 + e10 + e11 + rest
  {
  }
}
