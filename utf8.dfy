/**
 * UTF-8, standing in for the `TextEncoder` and `TextDecoder` the codec uses
 * for STRING payloads. Dafny strings hold Unicode scalar values, so there are
 * no lone surrogates to replace on the encoding side; on the decoding side a
 * byte that does not start a well-formed sequence becomes U+FFFD. A decoder
 * made by `new TextDecoder()` has `ignoreBOM` false, so it drops one leading
 * byte order mark: decoding is a left inverse of encoding only on strings
 * that do not start with U+FEFF.
 */
module Utf8 {
  import opened Bytes

  const Replacement: char := '�'

  /** U+FEFF. */
  const ByteOrderMark: char := '\U{FEFF}'

  /** A string without its leading byte order mark, if it has one. */
  function StripBom(s: string): string
  {
    if |s| > 0 && s[0] == ByteOrderMark then s[1..] else s
  }

  /** The UTF-8 bytes of one scalar value. */
  function EncodeChar(c: char): (r: seq<byte>)
    ensures 1 <= |r| <= 4
  {
    var cp := c as int;
    if cp < 0x80 then [cp]
    else if cp < 0x800 then [0xC0 + cp / 64, 0x80 + cp % 64]
    else if cp < 0x10000 then [0xE0 + cp / 4096, 0x80 + (cp / 64) % 64, 0x80 + cp % 64]
    else [0xF0 + cp / 262144, 0x80 + (cp / 4096) % 64, 0x80 + (cp / 64) % 64, 0x80 + cp % 64]
  }

  /** `TextEncoder.encode`: each scalar value takes one to four bytes. */
  function Encode(s: string): (r: seq<byte>)
    ensures |s| <= |r| <= 4 * |s|
  {
    if s == [] then [] else EncodeChar(s[0]) + Encode(s[1..])
  }

  predicate IsContinuation(b: byte)
  {
    0x80 <= b < 0xC0
  }

  /** The scalar value that starts `b` and the number of bytes it takes; U+FFFD and one byte if `b` does not start a well-formed sequence. */
  function DecodeFirst(b: seq<byte>): (r: (char, nat))
    requires |b| > 0
    ensures 1 <= r.1 <= |b|
  {
    var b0: int := b[0];
    if b0 < 0x80 then
      (b0 as char, 1)
    else if 0xC2 <= b0 < 0xE0 && |b| >= 2 && IsContinuation(b[1]) then
      (((b0 - 0xC0) * 64 + (b[1] as int - 0x80)) as char, 2)
    else if 0xE0 <= b0 < 0xF0 && |b| >= 3 && IsContinuation(b[1]) && IsContinuation(b[2]) then
      var cp := (b0 - 0xE0) * 4096 + (b[1] as int - 0x80) * 64 + (b[2] as int - 0x80);
      if 0x800 <= cp && !(0xD800 <= cp < 0xE000) then (cp as char, 3) else (Replacement, 1)
    else if 0xF0 <= b0 < 0xF5 && |b| >= 4 && IsContinuation(b[1]) && IsContinuation(b[2]) && IsContinuation(b[3]) then
      var cp := (b0 - 0xF0) * 262144 + (b[1] as int - 0x80) * 4096 + (b[2] as int - 0x80) * 64 + (b[3] as int - 0x80);
      if 0x10000 <= cp < 0x110000 then (cp as char, 4) else (Replacement, 1)
    else
      (Replacement, 1)
  }

  /**
   * Decoding the scalar values of `b` one after the other, each taking at
   * least one byte; with `dropBom`, a first scalar value that is a byte order
   * mark is dropped.
   */
  function DecodeFrom(b: seq<byte>, dropBom: bool): (r: string)
    ensures |r| <= |b|
    decreases |b|
  {
    if b == [] then [] else
      var first := DecodeFirst(b);
      var rest := DecodeFrom(b[first.1..], false);
      if dropBom && first.0 == ByteOrderMark then rest else [first.0] + rest
  }

  /** Decoding every scalar value of `b`, a leading byte order mark included. */
  function DecodeAll(b: seq<byte>): string
  {
    DecodeFrom(b, false)
  }

  /** `new TextDecoder().decode(b)`: `ignoreBOM` is false, so a leading byte order mark is not returned. */
  function Decode(b: seq<byte>): string
  {
    DecodeFrom(b, true)
  }

  /** Whether `b` starts with the three bytes of a byte order mark. */
  predicate StartsWithBom(b: seq<byte>)
  {
    |b| >= 3 && b[0] == 0xEF && b[1] == 0xBB && b[2] == 0xBF
  }

  /** The decoder reads back one encoded scalar value, whatever follows it. */
  lemma DecodeFirstEncodeChar(c: char, rest: seq<byte>)
    ensures DecodeFirst(EncodeChar(c) + rest) == (c, |EncodeChar(c)|)
  {
    var cp := c as int;
    if cp < 0x80 {
    } else if cp < 0x800 {
      DecodeTwo(c, rest);
    } else if cp < 0x10000 {
      DecodeThree(c, rest);
    } else {
      DecodeFour(c, rest);
    }
  }

  lemma DecodeTwo(c: char, rest: seq<byte>)
    requires 0x80 <= c as int < 0x800
    ensures DecodeFirst(EncodeChar(c) + rest) == (c, 2)
  {
    var cp := c as int;
    assert (cp / 64) * 64 + cp % 64 == cp;
  }

  lemma DecodeThree(c: char, rest: seq<byte>)
    requires 0x800 <= c as int < 0x10000
    ensures DecodeFirst(EncodeChar(c) + rest) == (c, 3)
  {
    var cp := c as int;
    var b := EncodeChar(c) + rest;
    assert b[1] as int - 0x80 == (cp / 64) % 64 && b[2] as int - 0x80 == cp % 64;
    assert (cp / 4096) * 4096 + ((cp / 64) % 64) * 64 + cp % 64 == cp;
  }

  lemma DecodeFour(c: char, rest: seq<byte>)
    requires 0x10000 <= c as int
    ensures DecodeFirst(EncodeChar(c) + rest) == (c, 4)
  {
    var cp := c as int;
    var b := EncodeChar(c) + rest;
    var q1, q2, q3 := cp / 64, cp / 4096, cp / 262144;
    assert cp == q1 * 64 + cp % 64;
    assert q2 == q1 / 64 && q1 == q2 * 64 + q1 % 64;
    assert q3 == q2 / 64 && q2 == q3 * 64 + q2 % 64;
    assert b[0] as int == 0xF0 + q3 && b[1] as int == 0x80 + q2 % 64;
    assert b[2] as int == 0x80 + q1 % 64 && b[3] as int == 0x80 + cp % 64;
  }

  /** Decoding every scalar value of the encoding of a string gives the string back. */
  lemma {:induction false} DecodeAllEncode(s: string)
    ensures DecodeAll(Encode(s)) == s
  {
    if s != [] {
      var e := EncodeChar(s[0]);
      DecodeFirstEncodeChar(s[0], Encode(s[1..]));
      assert (e + Encode(s[1..]))[|e|..] == Encode(s[1..]);
      DecodeAllEncode(s[1..]);
    }
  }

  /** The first scalar value of `b` is a byte order mark exactly when `b` starts with its three bytes. */
  lemma DecodeFirstBom(b: seq<byte>)
    requires |b| > 0
    ensures DecodeFirst(b).0 == ByteOrderMark <==> StartsWithBom(b)
    ensures DecodeFirst(b).0 == ByteOrderMark ==> DecodeFirst(b).1 == 3
  {
    assert EncodeChar(ByteOrderMark) == [0xEF, 0xBB, 0xBF];
    if StartsWithBom(b) {
      assert b == EncodeChar(ByteOrderMark) + b[3..];
      DecodeFirstEncodeChar(ByteOrderMark, b[3..]);
    }
  }

  /** `decode` skips the three bytes EF BB BF at the start, and only there, and decodes the rest. */
  lemma DecodeSkipsBomBytes(b: seq<byte>)
    ensures Decode(b) == if StartsWithBom(b) then DecodeAll(b[3..]) else DecodeAll(b)
  {
    if b != [] {
      DecodeFirstBom(b);
    }
  }

  /** `decode` is decoding every scalar value and then dropping one leading byte order mark. */
  lemma DecodeDropsBom(b: seq<byte>)
    ensures Decode(b) == StripBom(DecodeAll(b))
  {
  }

  /** Decoding the encoding of a string gives the string back, without a leading byte order mark. */
  lemma DecodeEncode(s: string)
    ensures Decode(Encode(s)) == StripBom(s)
  {
    DecodeDropsBom(Encode(s));
    DecodeAllEncode(s);
  }
}
