/**
 * The browser script's pure helpers: whether a pushed text is an image in
 * Base64 form, how such a text becomes a `data:` URL, and the working-hours
 * window.
 */
module Validators {
  import opened Common
  import Text
  import Base64

  /** Every character is in the Base64 alphabet (padding excluded). */
  predicate AllDigits(s: string) {
    forall i :: 0 <= i < |s| ==> Base64.IsDigit(s[i])
  }

  /** `s` without one or two final `=`. */
  function Unpadded(s: string): (body: string)
    ensures body <= s && |s| - 2 <= |body|
  {
    if |s| >= 2 && s[|s| - 2..] == "==" then s[..|s| - 2]
    else if |s| >= 1 && s[|s| - 1] == '=' then s[..|s| - 1]
    else s
  }

  /**
   * `/^[A-Za-z0-9+/]+={0,2}$/.test(s)`: a non-empty run of alphabet
   * characters followed by at most two `=`. Since `=` is not in the alphabet,
   * the run is what remains once the final `=` (at most two) are dropped.
   */
  predicate Base64Shape(s: string) {
    var body := Unpadded(s);
    |body| >= 1 && AllDigits(body)
  }

  /** A string of that shape holds alphabet characters and `=` only. */
  lemma ShapeChars(s: string, i: int)
    requires Base64Shape(s) && 0 <= i < |s|
    ensures Base64.IsDigit(s[i]) || s[i] == '='
  {
    var body := Unpadded(s);
    if i < |body| {
      assert s[i] == body[i];
    }
  }

  /**
   * `isBase64ImageString(text)`; None stands for a value that is not a
   * string. The text is trimmed and the trimmed text decides.
   */
  function IsBase64ImageString(text: Option<string>): (r: bool)
    ensures r ==> text.Some? && |Text.TrimJs(text.value)| >= 11
  {
    match text
    case None => false
    case Some(s) => IsBase64Image(Text.TrimJs(s))
  }

  /**
   * The decision on the trimmed text `t`: a `data:image/` URL with
   * `;base64,` in it is accepted, anything else shorter than 100 UTF-16 units
   * is refused, and the rest is accepted when, without white space, it has
   * the Base64 shape.
   */
  predicate IsBase64Image(t: string) {
    if "data:image/" <= t && Text.Contains(t, ";base64,") then true
    else if Text.Utf16Length(t) < 100 then false
    else Base64Shape(Text.RemoveAll(t, Text.IsJsSpace))
  }

  /** The four outcomes of the validator, each stated against the trimmed text. */
  lemma ValidatorCases(text: Option<string>)
    ensures text.None? ==> !IsBase64ImageString(text)
    ensures text.Some? && "data:image/" <= Text.TrimJs(text.value) && Text.Contains(Text.TrimJs(text.value), ";base64,")
      ==> IsBase64ImageString(text)
    ensures text.Some? && !("data:image/" <= Text.TrimJs(text.value) && Text.Contains(Text.TrimJs(text.value), ";base64,"))
      ==> (IsBase64ImageString(text) <==> Text.Utf16Length(Text.TrimJs(text.value)) >= 100
                                          && Base64Shape(Text.RemoveAll(Text.TrimJs(text.value), Text.IsJsSpace)))
  {
  }

  /** The length of a padded encoding: four characters for every started group of three bytes. */
  lemma {:induction false} EncodeLength(b: seq<Byte>)
    ensures |Base64.Encode(b)| == 4 * ((|b| + 2) / 3)
    decreases |b|
  {
    if |b| > 3 {
      EncodeLength(b[3..]);
      assert (|b| + 2) / 3 == (|b[3..]| + 2) / 3 + 1;
    }
  }

  lemma Quad3Digits(x0: Byte, x1: Byte, x2: Byte)
    ensures AllDigits(Base64.Quad3(x0, x1, x2))
  {
    Base64.ValueOfDigit(x0 as int / 4);
    Base64.ValueOfDigit(x0 as int % 4 * 16 + x1 as int / 16);
    Base64.ValueOfDigit(x1 as int % 16 * 4 + x2 as int / 64);
    Base64.ValueOfDigit(x2 as int % 64);
  }

  /** Alphabet characters in front of a shaped string keep the shape. */
  lemma ShapeCons(q: string, rest: string)
    requires |q| > 0 && AllDigits(q) && |rest| >= 4 && Base64Shape(rest)
    ensures Base64Shape(q + rest)
  {
    var s := q + rest;
    assert s[|s| - 2..] == rest[|rest| - 2..];
    assert s[|s| - 1] == rest[|rest| - 1];
    assert Unpadded(s) == q + Unpadded(rest);
  }

  /** Every non-empty padded encoding has the shape the validator looks for. */
  lemma {:induction false} EncodeHasShape(b: seq<Byte>)
    requires |b| > 0
    ensures Base64Shape(Base64.Encode(b))
    decreases |b|
  {
    if |b| == 1 {
      Base64.ValueOfDigit(b[0] as int / 4);
      Base64.ValueOfDigit(b[0] as int % 4 * 16);
      assert Unpadded(Base64.Encode(b)) == Base64.Encode(b)[..2];
    } else if |b| == 2 {
      Base64.ValueOfDigit(b[0] as int / 4);
      Base64.ValueOfDigit(b[0] as int % 4 * 16 + b[1] as int / 16);
      Base64.ValueOfDigit(b[1] as int % 16 * 4);
      assert Unpadded(Base64.Encode(b)) == Base64.Encode(b)[..3];
    } else {
      var q := Base64.Quad3(b[0], b[1], b[2]);
      Quad3Digits(b[0], b[1], b[2]);
      if |b| == 3 {
        assert Base64.Encode(b) == q + Base64.Encode(b[3..]);
        assert Base64.Encode(b) == q;
      } else {
        EncodeHasShape(b[3..]);
        ShapeCons(q, Base64.Encode(b[3..]));
      }
    }
  }

  /** Alphabet characters and `=` are neither white space nor outside the Basic Multilingual Plane. */
  lemma ShapeCharPlain(c: char)
    requires Base64.IsDigit(c) || c == '='
    ensures !Text.IsJsSpace(c) && c as int < 0x1_0000
  {
  }

  /** A string of that shape has no white space, so removing white space leaves it alone, and its JavaScript length is its length. */
  lemma ShapeNoSpace(s: string)
    requires Base64Shape(s)
    ensures IsTrimmed(s) && Text.RemoveAll(s, Text.IsJsSpace) == s
    ensures Text.Utf16Length(s) == |s|
  {
    forall i | 0 <= i < |s|
      ensures !Text.IsJsSpace(s[i]) && s[i] as int < 0x1_0000
    {
      ShapeChars(s, i);
      ShapeCharPlain(s[i]);
    }
    Text.RemoveAllNoop(s, Text.IsJsSpace);
  }

  /** A text of the Base64 shape is accepted exactly when it is at least 100 characters long. */
  lemma ShapedAcceptedByLength(s: string)
    requires Base64Shape(s)
    ensures IsBase64ImageString(Some(s)) <==> |s| >= 100
  {
    ShapeNoSpace(s);
    if |s| > 4 {
      ShapeChars(s, 4);
    }
    assert !("data:image/" <= s);
  }

  /**
   * The server's own encoding of an image is recognised as a Base64 image
   * exactly when the image has 73 bytes or more: 73 bytes encode to 100
   * characters, 72 to 96, which the `length < 100` test refuses.
   */
  lemma EncodedImageRecognised(b: seq<Byte>)
    ensures IsBase64ImageString(Some(Base64.Encode(b))) <==> |b| >= 73
  {
    var s := Base64.Encode(b);
    EncodeLength(b);
    GroupsReachHundred(|b|);
    if |b| == 0 {
      assert Text.TrimJs(s) == [];
    } else {
      EncodeHasShape(b);
      ShapedAcceptedByLength(s);
    }
  }

  /** Four characters per started group of three reach 100 from 73 bytes on. */
  lemma GroupsReachHundred(n: nat)
    ensures 4 * ((n + 2) / 3) >= 100 <==> n >= 73
  {
  }

  /** `buildDataUrlFromBase64(text)`. */
  function BuildDataUrlFromBase64(text: string): (r: string)
    ensures "data:image/" <= r
    ensures |text| <= |r| && r[|r| - |text|..] == text
  {
    if "data:image/" <= text then text
    else
      var u := "data:image/png;base64," + text;
      assert u[..11] == "data:image/";
      u
  }

  /** Building the URL again changes nothing, and a text without the prefix is wrapped as a PNG data URL. */
  lemma DataUrlShape(text: string)
    ensures BuildDataUrlFromBase64(BuildDataUrlFromBase64(text)) == BuildDataUrlFromBase64(text)
    ensures !("data:image/" <= text) ==> BuildDataUrlFromBase64(text) == "data:image/png;base64," + text
  {
    var u := "data:image/png;base64," + text;
    assert u[..11] == "data:image/";
  }

  /** A `data:image/` text never has the Base64 shape, even without its white space: `:` is not in the alphabet. */
  lemma DataPrefixNotShaped(t: string)
    requires "data:image/" <= t
    ensures !Base64Shape(Text.RemoveAll(t, Text.IsJsSpace))
  {
    assert t[4] == "data:image/"[4] == ':';
    assert ':' in multiset(t);
    Text.RemoveAllKeepsOthers(t, Text.IsJsSpace, ':');
    ShapeExcludes(Text.RemoveAll(t, Text.IsJsSpace), ':');
  }

  /** A string holding a character that is neither in the alphabet nor `=` does not have the shape. */
  lemma ShapeExcludes(s: string, c: char)
    requires c in multiset(s) && !Base64.IsDigit(c) && c != '='
    ensures !Base64Shape(s)
  {
    assert c in s;
    var i :| 0 <= i < |s| && s[i] == c;
    if Base64Shape(s) {
      ShapeChars(s, i);
    }
  }

  /** Wrapping a text that does not end in white space gives a `data:image/` URL containing `;base64,` with no white space at either end. */
  lemma WrappedIsDataUrl(t: string)
    requires t == [] || !Text.IsJsSpace(t[|t| - 1])
    ensures var u := "data:image/png;base64," + t;
      IsTrimmed(u) && "data:image/" <= u && Text.Contains(u, ";base64,")
  {
    var p := "data:image/png;base64,";
    var u := p + t;
    assert u[..11] == p[..11] == "data:image/";
    assert u[0] == 'd' && !Text.IsJsSpace(u[0]);
    if t == [] {
      assert u == p;
    } else {
      assert u[|u| - 1] == t[|t| - 1];
    }
    assert u[14..][..8] == p[14..] == ";base64,";
  }

  /** No white space at either end. */
  predicate IsTrimmed(t: string) {
    t == [] || (!Text.IsJsSpace(t[0]) && !Text.IsJsSpace(t[|t| - 1]))
  }

  /** A text whose trimmed form is a `data:image/` URL carrying `;base64,` is accepted. */
  lemma MarkedAccepted(u: string)
    requires "data:image/" <= Text.TrimJs(u) && Text.Contains(Text.TrimJs(u), ";base64,")
    ensures IsBase64ImageString(Some(u))
  {
  }

  /** An accepted `data:image/` text carries `;base64,`. */
  lemma AcceptedDataUrlMarked(t: string)
    requires IsBase64Image(t) && "data:image/" <= t
    ensures Text.Contains(t, ";base64,")
  {
    DataPrefixNotShaped(t);
  }

  /** A trimmed text that carries `;base64,` whenever it starts with `data:image/` is accepted once turned into a `data:` URL. */
  lemma TrimmedStaysAccepted(t: string)
    requires IsTrimmed(t)
    requires "data:image/" <= t ==> Text.Contains(t, ";base64,")
    ensures IsBase64ImageString(Some(BuildDataUrlFromBase64(t)))
  {
    if "data:image/" <= t {
      MarkedAccepted(t);
    } else {
      var u := "data:image/png;base64," + t;
      WrappedIsDataUrl(t);
      MarkedAccepted(u);
    }
  }

  /** A text the validator accepts still passes it once trimmed and turned into a `data:` URL, as the clipboard path does. */
  lemma DataUrlStaysAccepted(text: string)
    requires IsBase64ImageString(Some(text))
    ensures IsBase64ImageString(Some(BuildDataUrlFromBase64(Text.TrimJs(text))))
  {
    var t := Text.TrimJs(text);
    if "data:image/" <= t {
      AcceptedDataUrlMarked(t);
    }
    TrimmedStaysAccepted(t);
  }

  /** `CONFIG.WORKING_HOURS`: 9 to 12 and 13.5 to 18, in hours. */
  const MorningStart: real := 9.0
  const MorningEnd: real := 12.0
  const AfternoonStart: real := 13.5
  const AfternoonEnd: real := 18.0

  /** `isWorkingHours()` at `hours:minutes` of the local clock, the hour written as `hours + minutes / 60`. */
  predicate IsWorkingHours(hours: int, minutes: int): (b: bool)
    requires 0 <= hours < 24 && 0 <= minutes < 60
    ensures b ==> 9 <= hours <= 18
    ensures hours == 12 && minutes > 0 ==> !b
  {
    var h := hours as real + minutes as real / 60.0;
    (MorningStart <= h <= MorningEnd) || (AfternoonStart <= h <= AfternoonEnd)
  }

  /** The window in minutes of the day: 09:00 to 12:00 and 13:30 to 18:00, both ends included. */
  lemma WorkingHoursInMinutes(hours: int, minutes: int)
    requires 0 <= hours < 24 && 0 <= minutes < 60
    ensures var m := hours * 60 + minutes;
      IsWorkingHours(hours, minutes) <==> (540 <= m <= 720) || (810 <= m <= 1080)
  {
    var h := hours as real + minutes as real / 60.0;
    var m := hours * 60 + minutes;
    assert h * 60.0 == m as real;
  }
}
