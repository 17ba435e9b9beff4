/**
 * The padded Base64 encoding of RFC 4648, section 4 (the alphabet A-Z a-z 0-9 + /
 * with `=` padding), which Python's `base64.b64encode` produces and the
 * browser's `btoa` produces for byte strings. Decoding here is the strict,
 * canonical reading: the length is a multiple of four, every character is in
 * the alphabet except one or two final `=`, and the unused bits before the
 * padding are zero (section 3.5 of RFC 4648).
 */
module Base64 {
  import opened Common

  /** The character for the six-bit value `i`. */
  function Digit(i: int): char
    requires 0 <= i < 64
  {
    if i < 26 then ('A' as int + i) as char
    else if i < 52 then ('a' as int + i - 26) as char
    else if i < 62 then ('0' as int + i - 52) as char
    else if i == 62 then '+'
    else '/'
  }

  /** A character of the alphabet (padding excluded). */
  predicate IsDigit(c: char) {
    ('A' <= c <= 'Z') || ('a' <= c <= 'z') || ('0' <= c <= '9') || c == '+' || c == '/'
  }

  /** The six-bit value a character of the alphabet stands for. */
  function ValueOf(c: char): (v: int)
    requires IsDigit(c)
    ensures 0 <= v < 64
  {
    if 'A' <= c <= 'Z' then c as int - 'A' as int
    else if 'a' <= c <= 'z' then c as int - 'a' as int + 26
    else if '0' <= c <= '9' then c as int - '0' as int + 52
    else if c == '+' then 62
    else 63
  }

  /** Every six-bit value has its own character, read back by ValueOf. */
  lemma ValueOfDigit(i: int)
    requires 0 <= i < 64
    ensures IsDigit(Digit(i)) && ValueOf(Digit(i)) == i
  {
  }

  /** ... and every character of the alphabet is the character of its value. */
  lemma DigitOfValue(c: char)
    requires IsDigit(c)
    ensures Digit(ValueOf(c)) == c
  {
  }

  /** Three bytes as four characters. */
  function Quad3(x0: Byte, x1: Byte, x2: Byte): string {
    [Digit(x0 as int / 4), Digit(x0 as int % 4 * 16 + x1 as int / 16),
     Digit(x1 as int % 16 * 4 + x2 as int / 64), Digit(x2 as int % 64)]
  }

  /** Two final bytes as three characters and one `=`. */
  function Quad2(x0: Byte, x1: Byte): string {
    [Digit(x0 as int / 4), Digit(x0 as int % 4 * 16 + x1 as int / 16), Digit(x1 as int % 16 * 4), '=']
  }

  /** One final byte as two characters and `==`. */
  function Quad1(x0: Byte): string {
    [Digit(x0 as int / 4), Digit(x0 as int % 4 * 16), '=', '=']
  }

  /** `base64.b64encode(b).decode()`. */
  function Encode(b: seq<Byte>): (r: string)
    ensures |r| % 4 == 0 && (|r| == 0 <==> |b| == 0)
    decreases |b|
  {
    if |b| == 0 then ""
    else if |b| == 1 then Quad1(b[0])
    else if |b| == 2 then Quad2(b[0], b[1])
    else Quad3(b[0], b[1], b[2]) + Encode(b[3..])
  }

  /** Four alphabet characters as three bytes. */
  function DecodeFull(c0: char, c1: char, c2: char, c3: char): (r: Option<seq<Byte>>)
    ensures r.Some? ==> |r.value| == 3
  {
    if IsDigit(c0) && IsDigit(c1) && IsDigit(c2) && IsDigit(c3) then
      var v0, v1, v2, v3 := ValueOf(c0), ValueOf(c1), ValueOf(c2), ValueOf(c3);
      Some([v0 * 4 + v1 / 16, v1 % 16 * 16 + v2 / 4, v2 % 4 * 64 + v3])
    else None
  }

  /** The last group, which may carry one or two padding characters. */
  function DecodeLast(c0: char, c1: char, c2: char, c3: char): (r: Option<seq<Byte>>)
    ensures r.Some? ==> 1 <= |r.value| <= 3
  {
    if IsDigit(c0) && IsDigit(c1) && c2 == '=' && c3 == '=' then
      var v0, v1 := ValueOf(c0), ValueOf(c1);
      if v1 % 16 == 0 then Some([v0 * 4 + v1 / 16]) else None
    else if IsDigit(c0) && IsDigit(c1) && IsDigit(c2) && c3 == '=' then
      var v0, v1, v2 := ValueOf(c0), ValueOf(c1), ValueOf(c2);
      if v2 % 4 == 0 then Some([v0 * 4 + v1 / 16, v1 % 16 * 16 + v2 / 4]) else None
    else DecodeFull(c0, c1, c2, c3)
  }

  /** Strict decoding: the bytes `s` encodes, or None for text that is not canonical padded Base64. */
  function Decode(s: string): (r: Option<seq<Byte>>)
    ensures r.Some? ==> |s| % 4 == 0 && |r.value| <= |s| / 4 * 3 <= |r.value| + 2
    decreases |s|
  {
    if |s| % 4 != 0 then None
    else if s == [] then Some([])
    else if |s| == 4 then DecodeLast(s[0], s[1], s[2], s[3])
    else Join(DecodeFull(s[0], s[1], s[2], s[3]), Decode(s[4..]))
  }

  /** A decoded group followed by the decoded rest; None when either failed. */
  function Join(group: Option<seq<Byte>>, rest: Option<seq<Byte>>): Option<seq<Byte>> {
    if group.Some? && rest.Some? then Some(group.value + rest.value) else None
  }

  /** Splitting three bytes into four six-bit values and packing them again is the identity. */
  lemma Sextets3(a: int, b: int, c: int)
    requires 0 <= a < 256 && 0 <= b < 256 && 0 <= c < 256
    ensures var v1, v2 := a % 4 * 16 + b / 16, b % 16 * 4 + c / 64;
      && a / 4 * 4 + v1 / 16 == a
      && v1 % 16 * 16 + v2 / 4 == b
      && v2 % 4 * 64 + c % 64 == c
  {
  }

  lemma Quad3RoundTrip(x0: Byte, x1: Byte, x2: Byte)
    ensures var q := Quad3(x0, x1, x2); DecodeFull(q[0], q[1], q[2], q[3]) == Some([x0, x1, x2])
  {
    var a, b, c := x0 as int, x1 as int, x2 as int;
    var v0, v1, v2, v3 := a / 4, a % 4 * 16 + b / 16, b % 16 * 4 + c / 64, c % 64;
    ValueOfDigit(v0); ValueOfDigit(v1); ValueOfDigit(v2); ValueOfDigit(v3);
    Sextets3(a, b, c);
  }

  lemma Quad2RoundTrip(x0: Byte, x1: Byte)
    ensures var q := Quad2(x0, x1); DecodeLast(q[0], q[1], q[2], q[3]) == Some([x0, x1])
  {
    var a, b := x0 as int, x1 as int;
    var v0, v1, v2 := a / 4, a % 4 * 16 + b / 16, b % 16 * 4;
    ValueOfDigit(v0); ValueOfDigit(v1); ValueOfDigit(v2);
    Sextets3(a, b, 0);
  }

  lemma Quad1RoundTrip(x0: Byte)
    ensures var q := Quad1(x0); DecodeLast(q[0], q[1], q[2], q[3]) == Some([x0])
  {
    var a := x0 as int;
    ValueOfDigit(a / 4); ValueOfDigit(a % 4 * 16);
    Sextets3(a, 0, 0);
  }

  /** Adding a group of four keeps the length's remainder modulo four. */
  lemma Mod4Shift(n: int)
    requires n >= 0
    ensures (n + 4) % 4 == n % 4
  {
  }

  /** Decoding splits at a group boundary: a leading full group, then the rest. */
  lemma DecodeSplit(q: string, t: string)
    requires |q| == 4 && |t| > 0
    ensures Decode(q + t) == Join(DecodeFull(q[0], q[1], q[2], q[3]), Decode(t))
  {
    var s := q + t;
    Mod4Shift(|t|);
    assert |s| == |t| + 4;
    if |t| % 4 != 0 {
      assert Decode(s) == None;
      assert Decode(t) == None;
    } else {
      assert s[4..] == t;
      assert s[0] == q[0] && s[1] == q[1] && s[2] == q[2] && s[3] == q[3];
      assert Decode(s) == Join(DecodeFull(s[0], s[1], s[2], s[3]), Decode(s[4..]));
    }
  }

  /** A single group is read as a last group. */
  lemma DecodeGroup(q: string)
    requires |q| == 4
    ensures Decode(q) == DecodeLast(q[0], q[1], q[2], q[3])
  {
  }

  lemma EncodeOne(b: seq<Byte>)
    requires |b| == 1
    ensures Decode(Encode(b)) == Some(b)
  {
    var q := Quad1(b[0]);
    assert Encode(b) == q;
    DecodeGroup(q);
    Quad1RoundTrip(b[0]);
    assert [b[0]] == b;
  }

  lemma EncodeTwo(b: seq<Byte>)
    requires |b| == 2
    ensures Decode(Encode(b)) == Some(b)
  {
    var q := Quad2(b[0], b[1]);
    assert Encode(b) == q;
    DecodeGroup(q);
    Quad2RoundTrip(b[0], b[1]);
    assert [b[0], b[1]] == b;
  }

  /** Three bytes encode as one group. */
  lemma EncodeTriple(b: seq<Byte>)
    requires |b| == 3
    ensures Encode(b) == Quad3(b[0], b[1], b[2])
  {
    assert Encode(b) == Quad3(b[0], b[1], b[2]) + Encode(b[3..]);
    assert Encode(b[3..]) == [];
  }

  /** Three bytes' group, read as a last group, gives them back. */
  lemma TripleGroupRoundTrip(x0: Byte, x1: Byte, x2: Byte)
    ensures var q := Quad3(x0, x1, x2); DecodeLast(q[0], q[1], q[2], q[3]) == Some([x0, x1, x2])
  {
    Quad3RoundTrip(x0, x1, x2);
    Quad2Or3Last(x0, x1, x2);
  }

  lemma EncodeThree(b: seq<Byte>)
    requires |b| == 3
    ensures Decode(Encode(b)) == Some(b)
  {
    var q := Quad3(b[0], b[1], b[2]);
    EncodeTriple(b);
    DecodeGroup(q);
    TripleGroupRoundTrip(b[0], b[1], b[2]);
    assert [b[0], b[1], b[2]] == b;
  }

  /** Round trip: decoding what `b64encode` produced gives the bytes back. */
  lemma {:induction false} DecodeEncode(b: seq<Byte>)
    ensures Decode(Encode(b)) == Some(b)
    decreases |b|
  {
    if |b| == 1 {
      EncodeOne(b);
    } else if |b| == 2 {
      EncodeTwo(b);
    } else if |b| == 3 {
      EncodeThree(b);
    } else if |b| > 3 {
      DecodeEncode(b[3..]);
      EncodeMore(b);
    }
  }

  lemma HeadThree(b: seq<Byte>)
    requires |b| >= 3
    ensures [b[0], b[1], b[2]] + b[3..] == b
  {
    assert b == b[..3] + b[3..];
  }

  lemma EncodeMore(b: seq<Byte>)
    requires |b| > 3 && Decode(Encode(b[3..])) == Some(b[3..])
    ensures Decode(Encode(b)) == Some(b)
  {
    var q := Quad3(b[0], b[1], b[2]);
    var t := Encode(b[3..]);
    calc {
      Decode(Encode(b));
      { assert Encode(b) == q + t; }
      Decode(q + t);
      { Quad3RoundTrip(b[0], b[1], b[2]); DecodeSplit(q, t); }
      Some([b[0], b[1], b[2]] + b[3..]);
      { HeadThree(b); }
      Some(b);
    }
  }

  /** A group of four alphabet characters reads the same as a last group. */
  lemma Quad2Or3Last(x0: Byte, x1: Byte, x2: Byte)
    ensures var q := Quad3(x0, x1, x2); DecodeLast(q[0], q[1], q[2], q[3]) == DecodeFull(q[0], q[1], q[2], q[3])
  {
  }

  /** Packing four six-bit values into three bytes and splitting them again is the identity. */
  lemma Pack4(v0: int, v1: int, v2: int, v3: int)
    requires 0 <= v0 < 64 && 0 <= v1 < 64 && 0 <= v2 < 64 && 0 <= v3 < 64
    ensures var a, b, c := v0 * 4 + v1 / 16, v1 % 16 * 16 + v2 / 4, v2 % 4 * 64 + v3;
      && 0 <= a < 256 && 0 <= b < 256 && 0 <= c < 256
      && a / 4 == v0 && a % 4 * 16 + b / 16 == v1 && b % 16 * 4 + c / 64 == v2 && c % 64 == v3
  {
  }

  /** Four six-bit values packed into three bytes encode as their four characters. */
  lemma Quad3OfValues(v0: int, v1: int, v2: int, v3: int)
    requires 0 <= v0 < 64 && 0 <= v1 < 64 && 0 <= v2 < 64 && 0 <= v3 < 64
    ensures var a, b, c := v0 * 4 + v1 / 16, v1 % 16 * 16 + v2 / 4, v2 % 4 * 64 + v3;
      0 <= a < 256 && 0 <= b < 256 && 0 <= c < 256
      && Quad3(a, b, c) == [Digit(v0), Digit(v1), Digit(v2), Digit(v3)]
  {
    Pack4(v0, v1, v2, v3);
  }

  lemma FullGroupEncodes(c0: char, c1: char, c2: char, c3: char)
    requires DecodeFull(c0, c1, c2, c3).Some?
    ensures var g := DecodeFull(c0, c1, c2, c3).value; |g| == 3 && Quad3(g[0], g[1], g[2]) == [c0, c1, c2, c3]
  {
    var v0, v1, v2, v3 := ValueOf(c0), ValueOf(c1), ValueOf(c2), ValueOf(c3);
    Quad3OfValues(v0, v1, v2, v3);
    DigitOfValue(c0); DigitOfValue(c1); DigitOfValue(c2); DigitOfValue(c3);
  }

  /** A final group with `==` re-encodes to itself. */
  lemma LastOneEncodes(c0: char, c1: char)
    requires IsDigit(c0) && IsDigit(c1) && ValueOf(c1) % 16 == 0
    ensures Encode([ValueOf(c0) * 4 + ValueOf(c1) / 16]) == [c0, c1, '=', '=']
  {
    var v0, v1 := ValueOf(c0), ValueOf(c1);
    Pack4(v0, v1, 0, 0);
    DigitOfValue(c0); DigitOfValue(c1);
    var g: seq<Byte> := [v0 * 4 + v1 / 16];
    assert Encode(g) == Quad1(g[0]);
  }

  lemma EncodePair(x0: Byte, x1: Byte)
    ensures Encode([x0, x1]) == Quad2(x0, x1)
  {
  }

  /** Three six-bit values, the last with two zero low bits, packed into two bytes encode as their three characters and `=`. */
  lemma Quad2OfValues(v0: int, v1: int, v2: int)
    requires 0 <= v0 < 64 && 0 <= v1 < 64 && 0 <= v2 < 64 && v2 % 4 == 0
    ensures var a, b := v0 * 4 + v1 / 16, v1 % 16 * 16 + v2 / 4;
      0 <= a < 256 && 0 <= b < 256 && Quad2(a, b) == [Digit(v0), Digit(v1), Digit(v2), '=']
  {
    var a, b := v0 * 4 + v1 / 16, v1 % 16 * 16 + v2 / 4;
    assert a / 4 == v0 && a % 4 * 16 + b / 16 == v1 && b % 16 * 4 == v2;
  }

  /** A final group with one `=` re-encodes to itself. */
  lemma LastTwoEncodes(c0: char, c1: char, c2: char)
    requires IsDigit(c0) && IsDigit(c1) && IsDigit(c2) && ValueOf(c2) % 4 == 0
    ensures Encode([ValueOf(c0) * 4 + ValueOf(c1) / 16, ValueOf(c1) % 16 * 16 + ValueOf(c2) / 4]) == [c0, c1, c2, '=']
  {
    var v0, v1, v2 := ValueOf(c0), ValueOf(c1), ValueOf(c2);
    Quad2OfValues(v0, v1, v2);
    EncodePair(v0 * 4 + v1 / 16, v1 % 16 * 16 + v2 / 4);
    DigitOfValue(c0); DigitOfValue(c1); DigitOfValue(c2);
  }

  /** A final group without padding re-encodes to itself. */
  lemma LastThreeEncodes(c0: char, c1: char, c2: char, c3: char)
    requires DecodeFull(c0, c1, c2, c3).Some?
    ensures Encode(DecodeFull(c0, c1, c2, c3).value) == [c0, c1, c2, c3]
  {
    var g := DecodeFull(c0, c1, c2, c3).value;
    FullGroupEncodes(c0, c1, c2, c3);
    assert Encode(g) == Quad3(g[0], g[1], g[2]) + Encode(g[3..]);
    assert g[3..] == [];
  }

  lemma LastGroupEncodes(c0: char, c1: char, c2: char, c3: char)
    requires DecodeLast(c0, c1, c2, c3).Some?
    ensures Encode(DecodeLast(c0, c1, c2, c3).value) == [c0, c1, c2, c3]
  {
    if IsDigit(c0) && IsDigit(c1) && c2 == '=' && c3 == '=' {
      LastOneEncodes(c0, c1);
    } else if IsDigit(c0) && IsDigit(c1) && IsDigit(c2) && c3 == '=' {
      LastTwoEncodes(c0, c1, c2);
    } else {
      LastThreeEncodes(c0, c1, c2, c3);
    }
  }

  /** Encoding a full leading group, then the rest. */
  lemma EncodeCons(g: seq<Byte>, rest: seq<Byte>)
    requires |g| == 3 && |rest| > 0
    ensures Encode(g + rest) == Quad3(g[0], g[1], g[2]) + Encode(rest)
  {
    var b := g + rest;
    assert b[0] == g[0] && b[1] == g[1] && b[2] == g[2];
    assert b[3..] == rest;
  }

  lemma DecodeMore(s: string)
    requires |s| > 4 && Decode(s).Some?
    requires Decode(s[4..]).Some? && Encode(Decode(s[4..]).value) == s[4..]
    ensures Encode(Decode(s).value) == s
  {
    var q, t := s[..4], s[4..];
    assert s == q + t;
    assert q[0] == s[0] && q[1] == s[1] && q[2] == s[2] && q[3] == s[3];
    DecodeSplit(q, t);
    var g := DecodeFull(q[0], q[1], q[2], q[3]).value;
    var rest := Decode(t).value;
    assert |rest| > 0 by {
      assert |Encode(rest)| == |t| > 0;
    }
    calc {
      Encode(Decode(s).value);
      Encode(g + rest);
      { FullGroupEncodes(q[0], q[1], q[2], q[3]); EncodeCons(g, rest); }
      Quad3(g[0], g[1], g[2]) + Encode(rest);
      { FullGroupEncodes(q[0], q[1], q[2], q[3]); QuadOf(q); }
      q + t;
    }
  }

  lemma QuadOf(q: string)
    requires |q| == 4
    ensures [q[0], q[1], q[2], q[3]] == q
  {
  }

  /** The other direction: text that decodes is exactly the encoding of what it decodes to (no aliases). */
  lemma {:induction false} EncodeDecode(s: string)
    requires Decode(s).Some?
    ensures Encode(Decode(s).value) == s
    decreases |s|
  {
    if |s| == 4 {
      LastGroupEncodes(s[0], s[1], s[2], s[3]);
      QuadOf(s);
    } else if |s| > 4 {
      assert Decode(s[4..]).Some?;
      EncodeDecode(s[4..]);
      DecodeMore(s);
    }
  }

  /** Encoding is injective, so an encoded token names exactly one byte string. */
  lemma EncodeInjective(a: seq<Byte>, b: seq<Byte>)
    requires Encode(a) == Encode(b)
    ensures a == b
  {
    DecodeEncode(a);
    DecodeEncode(b);
  }
}
