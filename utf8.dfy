/**
 * UTF-8 as Python's `str.encode()` and strict `bytes.decode()` use it
 * (RFC 3629): every Unicode scalar value is written in its shortest form,
 * and decoding refuses overlong forms, surrogates, values above U+10FFFF,
 * stray continuation bytes and truncated sequences.
 */
module Utf8 {
  import opened Common

  /** A continuation byte, 10xxxxxx. */
  predicate IsContinuation(b: Byte) {
    0x80 <= b < 0xC0
  }

  /** The code points a Dafny `char` (and a Python `str` element without lone surrogates) can hold. */
  predicate IsScalarValue(n: int) {
    0 <= n < 0xD800 || 0xE000 <= n < 0x11_0000
  }

  /** The bytes of one character, one to four of them depending on its code point. */
  function EncodeChar(c: char): (r: seq<Byte>)
    ensures 1 <= |r| <= 4
    ensures (|r| == 1) == (c as int < 0x80)
  {
    var cp := c as int;
    if cp < 0x80 then [cp]
    else if cp < 0x800 then [0xC0 + cp / 64, 0x80 + cp % 64]
    else if cp < 0x1_0000 then [0xE0 + cp / 4096, 0x80 + (cp / 64) % 64, 0x80 + cp % 64]
    else [0xF0 + cp / 262144, 0x80 + (cp / 4096) % 64, 0x80 + (cp / 64) % 64, 0x80 + cp % 64]
  }

  /** `s.encode()`: the characters' encodings, concatenated in order. */
  function Encode(s: string): (r: seq<Byte>)
    ensures |r| >= |s|
  {
    if s == [] then [] else EncodeChar(s[0]) + Encode(s[1..])
  }

  /**
   * Reads the character at the head of `b`: the character and the number of
   * bytes it took, or None when the head is not a well-formed shortest encoding.
   */
  function DecodeChar(b: seq<Byte>): (r: Option<(char, nat)>)
    requires |b| > 0
    ensures r.Some? ==> 1 <= r.value.1 <= |b| && r.value.1 <= 4
  {
    var b0 := b[0] as int;
    if b0 < 0x80 then Some((b0 as char, 1))
    else if 0xC0 <= b0 < 0xE0 then
      if |b| >= 2 && IsContinuation(b[1]) then
        var cp := (b0 - 0xC0) * 64 + (b[1] as int - 0x80);
        if 0x80 <= cp then Some((cp as char, 2)) else None
      else None
    else if 0xE0 <= b0 < 0xF0 then
      if |b| >= 3 && IsContinuation(b[1]) && IsContinuation(b[2]) then
        var cp := (b0 - 0xE0) * 4096 + (b[1] as int - 0x80) * 64 + (b[2] as int - 0x80);
        if 0x800 <= cp && IsScalarValue(cp) then Some((cp as char, 3)) else None
      else None
    else if 0xF0 <= b0 < 0xF8 then
      if |b| >= 4 && IsContinuation(b[1]) && IsContinuation(b[2]) && IsContinuation(b[3]) then
        var cp := (b0 - 0xF0) * 262144 + (b[1] as int - 0x80) * 4096 + (b[2] as int - 0x80) * 64 + (b[3] as int - 0x80);
        if 0x1_0000 <= cp < 0x11_0000 then Some((cp as char, 4)) else None
      else None
    else None
  }

  /** `b.decode()`: the string `b` encodes, or None where Python raises UnicodeDecodeError. */
  function Decode(b: seq<Byte>): (r: Option<string>)
    ensures r.Some? ==> |r.value| <= |b| <= 4 * |r.value|
    decreases |b|
  {
    if b == [] then Some([])
    else match DecodeChar(b)
      case None => None
      case Some((c, n)) =>
        match Decode(b[n..])
        case None => None
        case Some(rest) => Some([c] + rest)
  }

  /** Euclidean division by 64 is determined by quotient and remainder. */
  lemma DivMod64(x: int, q: int, r: int)
    requires 0 <= r < 64 && x == q * 64 + r
    ensures x / 64 == q && x % 64 == r
  {
  }

  /** The six-bit fields of a code point below 2^21, most significant first. */
  lemma Fields(cp: int)
    requires 0 <= cp < 0x20_0000
    ensures cp / 4096 == (cp / 64) / 64 && cp / 262144 == (cp / 4096) / 64
    ensures cp == (cp / 64) * 64 + cp % 64
    ensures cp / 64 == (cp / 4096) * 64 + (cp / 64) % 64
    ensures cp / 4096 == (cp / 262144) * 64 + (cp / 4096) % 64
  {
  }

  /** The fields of a three-byte form put back together. */
  lemma Recombine3(cp: int)
    requires 0 <= cp < 0x1_0000
    ensures (cp / 4096) * 4096 + ((cp / 64) % 64) * 64 + cp % 64 == cp
  {
    Fields(cp);
  }

  /** The fields of a four-byte form put back together. */
  lemma Recombine4(cp: int)
    requires 0 <= cp < 0x20_0000
    ensures (cp / 262144) * 262144 + ((cp / 4096) % 64) * 4096 + ((cp / 64) % 64) * 64 + cp % 64 == cp
  {
    Fields(cp);
  }

  lemma DecodeTwo(c: char, rest: seq<Byte>)
    requires 0x80 <= c as int < 0x800
    ensures DecodeChar(EncodeChar(c) + rest) == Some((c, 2))
  {
    var cp := c as int;
    var b := EncodeChar(c) + rest;
    assert b[0] == 0xC0 + cp / 64 && b[1] == 0x80 + cp % 64;
  }

  lemma DecodeThree(c: char, rest: seq<Byte>)
    requires 0x800 <= c as int < 0x1_0000
    ensures DecodeChar(EncodeChar(c) + rest) == Some((c, 3))
  {
    var cp := c as int;
    var b := EncodeChar(c) + rest;
    assert b[0] == 0xE0 + cp / 4096 && b[1] == 0x80 + (cp / 64) % 64 && b[2] == 0x80 + cp % 64;
    Recombine3(cp);
  }

  lemma DecodeFour(c: char, rest: seq<Byte>)
    requires 0x1_0000 <= c as int
    ensures DecodeChar(EncodeChar(c) + rest) == Some((c, 4))
  {
    var cp := c as int;
    var b := EncodeChar(c) + rest;
    assert b[0] == 0xF0 + cp / 262144 && b[1] == 0x80 + (cp / 4096) % 64;
    assert b[2] == 0x80 + (cp / 64) % 64 && b[3] == 0x80 + cp % 64;
    Recombine4(cp);
  }

  /** Decoding the head of an encoded character gives the character back and consumes exactly its bytes. */
  lemma DecodeCharOfEncoded(c: char, rest: seq<Byte>)
    ensures DecodeChar(EncodeChar(c) + rest) == Some((c, |EncodeChar(c)|))
  {
    var cp := c as int;
    if cp < 0x80 {
    } else if cp < 0x800 {
      DecodeTwo(c, rest);
    } else if cp < 0x1_0000 {
      DecodeThree(c, rest);
    } else {
      DecodeFour(c, rest);
    }
  }

  /** Round trip: strict decoding of an encoded string gives the string back. */
  lemma {:induction false} DecodeEncode(s: string)
    ensures Decode(Encode(s)) == Some(s)
  {
    if s != [] {
      var head := EncodeChar(s[0]);
      var tail := Encode(s[1..]);
      DecodeCharOfEncoded(s[0], tail);
      assert (head + tail)[|head|..] == tail;
      DecodeEncode(s[1..]);
      assert [s[0]] + s[1..] == s;
    }
  }

  /** A two-byte form re-encodes to itself. */
  lemma EncodeCharOfDecoded2(b: seq<Byte>)
    requires |b| > 0 && DecodeChar(b).Some? && DecodeChar(b).value.1 == 2
    ensures EncodeChar(DecodeChar(b).value.0) == b[..2]
  {
    var cp := DecodeChar(b).value.0 as int;
    var d0, d1 := b[0] as int - 0xC0, b[1] as int - 0x80;
    assert cp == d0 * 64 + d1;
    DivMod64(cp, d0, d1);
  }

  /** A three-byte form re-encodes to itself. */
  lemma EncodeCharOfDecoded3(b: seq<Byte>)
    requires |b| > 0 && DecodeChar(b).Some? && DecodeChar(b).value.1 == 3
    ensures EncodeChar(DecodeChar(b).value.0) == b[..3]
  {
    var cp := DecodeChar(b).value.0 as int;
    var d0, d1, d2 := b[0] as int - 0xE0, b[1] as int - 0x80, b[2] as int - 0x80;
    assert cp == (d0 * 64 + d1) * 64 + d2;
    DivMod64(cp, d0 * 64 + d1, d2);
    DivMod64(cp / 64, d0, d1);
    Fields(cp);
  }

  /** A four-byte form re-encodes to itself. */
  lemma EncodeCharOfDecoded4(b: seq<Byte>)
    requires |b| > 0 && DecodeChar(b).Some? && DecodeChar(b).value.1 == 4
    ensures EncodeChar(DecodeChar(b).value.0) == b[..4]
  {
    var cp := DecodeChar(b).value.0 as int;
    var d0, d1, d2, d3 := b[0] as int - 0xF0, b[1] as int - 0x80, b[2] as int - 0x80, b[3] as int - 0x80;
    assert cp == ((d0 * 64 + d1) * 64 + d2) * 64 + d3;
    DivMod64(cp, (d0 * 64 + d1) * 64 + d2, d3);
    DivMod64(cp / 64, d0 * 64 + d1, d2);
    DivMod64(cp / 4096, d0, d1);
    Fields(cp);
  }

  /** A character that decodes was written in exactly the bytes its encoding produces. */
  lemma EncodeCharOfDecoded(b: seq<Byte>)
    requires |b| > 0 && DecodeChar(b).Some?
    ensures EncodeChar(DecodeChar(b).value.0) == b[..DecodeChar(b).value.1]
  {
    var n := DecodeChar(b).value.1;
    if n == 2 {
      EncodeCharOfDecoded2(b);
    } else if n == 3 {
      EncodeCharOfDecoded3(b);
    } else if n == 4 {
      EncodeCharOfDecoded4(b);
    }
  }

  /** One step of a successful decode: a character at the head, the rest decoded after it. */
  lemma DecodeCons(b: seq<Byte>)
    requires b != [] && Decode(b).Some?
    ensures DecodeChar(b).Some? && Decode(b[DecodeChar(b).value.1..]).Some?
    ensures Decode(b).value == [DecodeChar(b).value.0] + Decode(b[DecodeChar(b).value.1..]).value
  {
  }

  /** One step of re-encoding: the head's `n` bytes are the first character's encoding, and the rest decodes to the remaining characters. */
  lemma ReencodeStep(b: seq<Byte>, s: string) returns (n: nat)
    requires b != [] && Decode(b) == Some(s)
    ensures 1 <= n <= |b| && s != [] && Decode(b[n..]) == Some(s[1..])
    ensures Encode(s) == b[..n] + Encode(s[1..])
  {
    DecodeCons(b);
    n := DecodeChar(b).value.1;
    EncodeCharOfDecoded(b);
  }

  /** A head followed by the tail it was cut from is the whole sequence. */
  lemma SplitJoin(b: seq<Byte>, n: nat, whole: seq<Byte>, tail: seq<Byte>)
    requires n <= |b| && whole == b[..n] + tail && tail == b[n..]
    ensures whole == b
  {
    assert b == b[..n] + b[n..];
  }

  /** Bytes that decode to `s` are exactly the encoding of `s`. */
  lemma {:induction false} Reencode(b: seq<Byte>, s: string)
    requires Decode(b) == Some(s)
    ensures Encode(s) == b
    decreases |b|
  {
    if b != [] {
      var n := ReencodeStep(b, s);
      Reencode(b[n..], s[1..]);
      SplitJoin(b, n, Encode(s), Encode(s[1..]));
    }
  }

  /** The other direction: bytes that decode are exactly the encoding of what they decode to. */
  lemma EncodeDecode(b: seq<Byte>)
    requires Decode(b).Some?
    ensures Encode(Decode(b).value) == b
  {
    Reencode(b, Decode(b).value);
  }

  /** Encoding is injective: two strings with the same UTF-8 bytes are the same string. */
  lemma EncodeInjective(s: string, t: string)
    requires Encode(s) == Encode(t)
    ensures s == t
  {
    DecodeEncode(s);
    DecodeEncode(t);
  }
}
