/**
  UTF-8, the encoding Go strings hold their text in. Strings of the model are sequences of
  Unicode scalar values; what reaches a file is their UTF-8 bytes.
 */
module Utf8 {
  newtype byte = x: int | 0 <= x < 256

  /** The byte of an ASCII character. */
  function Ascii(c: char): byte
    requires c as int < 0x80
  {
    c as int as byte
  }

  /** The UTF-8 encoding of one scalar value: one byte below U+0080, two below U+0800,
      three below U+10000, four otherwise. */
  function EncodeChar(c: char): (b: seq<byte>)
    ensures 1 <= |b| <= 4
    ensures |b| == 1 <==> c as int < 0x80
  {
    var v := c as int;
    if v < 0x80 then [v as byte]
    else if v < 0x800 then [(0xC0 + v / 0x40) as byte, (0x80 + v % 0x40) as byte]
    else if v < 0x1_0000 then
      [(0xE0 + v / 0x1000) as byte, (0x80 + v / 0x40 % 0x40) as byte, (0x80 + v % 0x40) as byte]
    else
      [(0xF0 + v / 0x4_0000) as byte, (0x80 + v / 0x1000 % 0x40) as byte,
       (0x80 + v / 0x40 % 0x40) as byte, (0x80 + v % 0x40) as byte]
  }

  /** The scalar value a well-formed sequence of one to four bytes encodes. */
  function DecodeChar(b: seq<byte>): int
    requires 1 <= |b| <= 4
  {
    if |b| == 1 then b[0] as int
    else if |b| == 2 then (b[0] as int - 0xC0) * 0x40 + (b[1] as int - 0x80)
    else if |b| == 3 then ((b[0] as int - 0xE0) * 0x40 + (b[1] as int - 0x80)) * 0x40 + (b[2] as int - 0x80)
    else (((b[0] as int - 0xF0) * 0x40 + (b[1] as int - 0x80)) * 0x40 + (b[2] as int - 0x80)) * 0x40 + (b[3] as int - 0x80)
  }

  /** Decoding the bytes of a scalar value gives it back. */
  lemma {:induction false} DecodeEncodeChar(c: char)
    ensures DecodeChar(EncodeChar(c)) == c as int
  {
    var v := c as int;
    if v >= 0x80 {
      assert v / 0x40 * 0x40 + v % 0x40 == v;
      if v >= 0x800 {
        var h := v / 0x40;
        assert h / 0x40 * 0x40 + h % 0x40 == h;
        assert v / 0x1000 == h / 0x40;
        if v >= 0x1_0000 {
          var g := h / 0x40;
          assert g / 0x40 * 0x40 + g % 0x40 == g;
          assert v / 0x4_0000 == g / 0x40;
        }
      }
    }
  }

  /** The UTF-8 encoding of a string: its scalar values' encodings, in order. */
  function Encode(s: string): (b: seq<byte>)
    ensures |s| <= |b| <= 4 * |s|
  {
    if |s| == 0 then [] else EncodeChar(s[0]) + Encode(s[1..])
  }

  /** Encoding distributes over concatenation. */
  lemma {:induction false} EncodeAppend(a: string, b: string)
    ensures Encode(a + b) == Encode(a) + Encode(b)
    decreases |a|
  {
    if |a| == 0 {
      assert a + b == b;
    } else {
      assert (a + b)[1..] == a[1..] + b;
      EncodeAppend(a[1..], b);
    }
  }

  /** An ASCII string is encoded byte for byte. */
  lemma {:induction false} EncodeAscii(s: string)
    requires forall i :: 0 <= i < |s| ==> s[i] as int < 0x80
    ensures |Encode(s)| == |s|
    ensures forall i :: 0 <= i < |s| ==> Encode(s)[i] == Ascii(s[i])
    decreases |s|
  {
    if |s| > 0 {
      EncodeAscii(s[1..]);
    }
  }
}
