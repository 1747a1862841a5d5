/**
 * Node `Buffer` primitives the decoder relies on: bytes, `buf.indexOf(byte, from)`, and
 * `buf.toString('hex')`, the lowercase base16 encoding of section 8 of RFC 4648.
 */
module Bytes {

  newtype byte = x: int | 0 <= x < 256

  const Space: byte := 0x20
  const Nul: byte := 0x00

  /** `buf.indexOf(b, from)`: a position at or after `from` holding `b`, or -1. */
  function IndexOf(buf: seq<byte>, b: byte, from: nat): (r: int)
    ensures r == -1 || from <= r < |buf|
    decreases |buf| - from
  {
    if from >= |buf| then -1 else if buf[from] == b then from else IndexOf(buf, b, from + 1)
  }

  /** A position holding `b` with no `b` between `from` and it is what `indexOf` finds. */
  lemma {:induction false} IndexOfAt(buf: seq<byte>, b: byte, from: nat, i: nat)
    requires from <= i < |buf| && buf[i] == b
    requires forall k :: from <= k < i ==> buf[k] != b
    ensures IndexOf(buf, b, from) == i
    decreases i - from
  {
    if from < i {
      IndexOfAt(buf, b, from + 1, i);
    }
  }

  /** The position found holds `b` and is the first one, and -1 means there is none. */
  lemma {:induction false} IndexOfFirst(buf: seq<byte>, b: byte, from: nat)
    ensures IndexOf(buf, b, from) != -1 ==> buf[IndexOf(buf, b, from)] == b
    ensures IndexOf(buf, b, from) == -1 <==> forall k :: from <= k < |buf| ==> buf[k] != b
    ensures forall k :: from <= k < IndexOf(buf, b, from) ==> buf[k] != b
    decreases |buf| - from
  {
    if from < |buf| && buf[from] != b {
      IndexOfFirst(buf, b, from + 1);
    }
  }

  /** Searching behind a prefix finds the same position, shifted by the prefix length. */
  lemma {:induction false} IndexOfShift(p: seq<byte>, s: seq<byte>, b: byte, from: nat)
    ensures IndexOf(p + s, b, |p| + from) ==
            (if IndexOf(s, b, from) == -1 then -1 else |p| + IndexOf(s, b, from))
    decreases |s| - from
  {
    if from < |s| {
      assert (p + s)[|p| + from] == s[from];
      if s[from] != b {
        IndexOfShift(p, s, b, from + 1);
      }
    }
  }

  // ---------------------------------------------------------------- base16

  predicate IsLowerHexDigit(c: char) {
    '0' <= c <= '9' || 'a' <= c <= 'f'
  }

  /** The lowercase hex digit of a value below 16. */
  function HexDigit(v: int): (c: char)
    requires 0 <= v < 16
    ensures IsLowerHexDigit(c)
  {
    if v < 10 then ('0' as int + v) as char else ('a' as int + v - 10) as char
  }

  predicate IsLowerHex(s: string) {
    forall k :: 0 <= k < |s| ==> IsLowerHexDigit(s[k])
  }

  /** The two lowercase hex digits of one byte, high nibble first. */
  function HexByte(b: byte): (r: string)
    ensures |r| == 2 && IsLowerHex(r)
  {
    [HexDigit(b as int / 16), HexDigit(b as int % 16)]
  }

  /** `buf.toString('hex')`. */
  function Hex(bs: seq<byte>): (r: string)
    ensures |r| == 2 * |bs|
    decreases |bs|
  {
    if bs == [] then "" else HexByte(bs[0]) + Hex(bs[1..])
  }

  /** The value of one lowercase hex digit. */
  function NibbleValue(c: char): (v: int)
    requires IsLowerHexDigit(c)
    ensures 0 <= v < 16 && HexDigit(v) == c
  {
    if c <= '9' then c as int - '0' as int else c as int - 'a' as int + 10
  }

  /** Decoding of lowercase base16, the inverse of `Hex`. */
  function Unhex(s: string): seq<byte>
    requires |s| % 2 == 0 && IsLowerHex(s)
    decreases |s|
  {
    if s == [] then []
    else [(NibbleValue(s[0]) * 16 + NibbleValue(s[1])) as byte] + Unhex(s[2..])
  }

  /**
   * Every character of the encoding is a lowercase hex digit, and the encoding loses nothing:
   * decoding it gives the bytes back.
   */
  lemma {:induction false} HexRoundTrip(bs: seq<byte>)
    ensures IsLowerHex(Hex(bs))
    ensures Unhex(Hex(bs)) == bs
    decreases |bs|
  {
    if bs != [] {
      var h := Hex(bs);
      assert h[2..] == Hex(bs[1..]);
      HexRoundTrip(bs[1..]);
      var hi, lo := bs[0] as int / 16, bs[0] as int % 16;
      assert NibbleValue(HexDigit(hi)) == hi;
      assert NibbleValue(HexDigit(lo)) == lo;
      assert [bs[0]] + bs[1..] == bs;
    }
  }
}
