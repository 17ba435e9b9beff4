/**
 * The string helpers the server (Python) and the browser script (JavaScript)
 * rely on: their two notions of white space, trimming and stripping, removal
 * of white space, substring search and the length a JavaScript string reports.
 */
module Text {

  /** JavaScript's WhiteSpace and LineTerminator code points: what `trim()` and `\s` cover. */
  predicate IsJsSpace(c: char) {
    var n := c as int;
    (0x09 <= n <= 0x0D) || n == 0x20 || n == 0xA0 || n == 0x1680 || (0x2000 <= n <= 0x200A)
    || n == 0x2028 || n == 0x2029 || n == 0x202F || n == 0x205F || n == 0x3000 || n == 0xFEFF
  }

  /** The characters Python's `str.isspace()` accepts, which `str.strip()` removes. */
  predicate IsPySpace(c: char) {
    var n := c as int;
    (0x09 <= n <= 0x0D) || (0x1C <= n <= 0x20) || n == 0x85 || n == 0xA0 || n == 0x1680
    || (0x2000 <= n <= 0x200A) || n == 0x2028 || n == 0x2029 || n == 0x202F || n == 0x205F || n == 0x3000
  }

  /** `s` without its leading characters of class `sp`. */
  function TrimLeft(s: string, sp: char -> bool): (r: string)
    ensures |r| <= |s| && r == s[|s| - |r|..]
    ensures forall i :: 0 <= i < |s| - |r| ==> sp(s[i])
    ensures r == [] || !sp(r[0])
  {
    if s == [] || !sp(s[0]) then s else TrimLeft(s[1..], sp)
  }

  /** `s` without its trailing characters of class `sp`. */
  function TrimRight(s: string, sp: char -> bool): (r: string)
    ensures |r| <= |s| && r == s[..|r|]
    ensures forall i :: |r| <= i < |s| ==> sp(s[i])
    ensures r == [] || !sp(r[|r| - 1])
  {
    if s == [] || !sp(s[|s| - 1]) then s else TrimRight(s[..|s| - 1], sp)
  }

  /** Trimming both ends leaves no character of the class at either end, and changes nothing when there is none there. */
  lemma TrimBoth(s: string, sp: char -> bool)
    ensures var r := TrimRight(TrimLeft(s, sp), sp);
      |r| <= |s| && (r == [] || (!sp(r[0]) && !sp(r[|r| - 1])))
      && ((s == [] || (!sp(s[0]) && !sp(s[|s| - 1]))) ==> r == s)
  {
    var l := TrimLeft(s, sp);
    var r := TrimRight(l, sp);
    if r != [] {
      assert r[0] == l[0];
    }
    if s != [] && !sp(s[0]) && !sp(s[|s| - 1]) {
      assert l == s;
    }
  }

  /** JavaScript's `s.trim()`: no white space is left at either end, and a string with none there is returned as it is. */
  function TrimJs(s: string): (r: string)
    ensures |r| <= |s|
    ensures r == [] || (!IsJsSpace(r[0]) && !IsJsSpace(r[|r| - 1]))
    ensures (s == [] || (!IsJsSpace(s[0]) && !IsJsSpace(s[|s| - 1]))) ==> r == s
  {
    TrimBoth(s, IsJsSpace);
    TrimRight(TrimLeft(s, IsJsSpace), IsJsSpace)
  }

  /** Python's `s.strip()`: no white space is left at either end, and a string with none there is returned as it is. */
  function StripPy(s: string): (r: string)
    ensures |r| <= |s|
    ensures r == [] || (!IsPySpace(r[0]) && !IsPySpace(r[|r| - 1]))
    ensures (s == [] || (!IsPySpace(s[0]) && !IsPySpace(s[|s| - 1]))) ==> r == s
  {
    TrimBoth(s, IsPySpace);
    TrimRight(TrimLeft(s, IsPySpace), IsPySpace)
  }

  /** Trimming both ends leaves a contiguous piece of `s` that starts and ends with a non-space. */
  lemma TrimmedPiece(s: string, sp: char -> bool)
    ensures var l := TrimLeft(s, sp); var r := TrimRight(l, sp); var k := |s| - |l|;
      k + |r| <= |s| && r <= s[k..] && (r == [] || (!sp(r[0]) && !sp(r[|r| - 1])))
  {
    var l := TrimLeft(s, sp);
    var r := TrimRight(l, sp);
    assert r <= l;
  }

  /** A prefix of a suffix of a prefix of `s` is a prefix of the same suffix of `s`. */
  lemma PrefixOfSuffix(f: string, s: string, k: nat, p: string)
    requires f <= s && k <= |f| && p <= f[k..]
    ensures k <= |s| - |p| && p <= s[k..]
  {
    forall i | 0 <= i < |p|
      ensures p[i] == s[k..][i]
    {
      assert p[i] == f[k + i];
    }
  }

  /** Stripping a prefix of `s` leaves a piece of `s`. */
  lemma StrippedPrefixPiece(f: string, s: string)
    requires f <= s
    ensures var p := StripPy(f); exists k :: 0 <= k <= |s| - |p| && p <= s[k..]
  {
    var l := TrimLeft(f, IsPySpace);
    var k := |f| - |l|;
    assert StripPy(f) <= f[k..] by {
      TrimmedPiece(f, IsPySpace);
    }
    PrefixOfSuffix(f, s, k, StripPy(f));
  }

  /** The stripped first field of `s` holds no separator and is a piece of `s`. */
  lemma StrippedFieldPiece(s: string, sep: char)
    ensures var p := StripPy(FirstField(s, sep));
      (forall i :: 0 <= i < |p| ==> p[i] != sep)
      && exists k :: 0 <= k <= |s| - |p| && p <= s[k..]
  {
    var f := FirstField(s, sep);
    TrimmedAvoids(f, IsPySpace, sep);
    StrippedPrefixPiece(f, s);
  }

  /** Trimming only removes characters: a character absent from `s` is absent from the result. */
  lemma TrimmedAvoids(s: string, sp: char -> bool, c: char)
    requires forall i :: 0 <= i < |s| ==> s[i] != c
    ensures var r := TrimRight(TrimLeft(s, sp), sp); forall i :: 0 <= i < |r| ==> r[i] != c
  {
    var l := TrimLeft(s, sp);
    var r := TrimRight(l, sp);
    forall i | 0 <= i < |r|
      ensures r[i] != c
    {
      assert r[i] == l[i] == s[|s| - |l| + i];
    }
  }

  /** Trimming is idempotent. */
  lemma TrimIdempotent(s: string, sp: char -> bool)
    ensures var r := TrimRight(TrimLeft(s, sp), sp); TrimRight(TrimLeft(r, sp), sp) == r
  {
    var r := TrimRight(TrimLeft(s, sp), sp);
    if r != [] {
      assert TrimLeft(r, sp) == r;
    }
  }

  /** `s` with every character of class `sp` removed (`s.replace(/\s+/g, '')` for the JavaScript class). */
  function RemoveAll(s: string, sp: char -> bool): (r: string)
    ensures |r| <= |s|
    ensures forall i :: 0 <= i < |r| ==> !sp(r[i])
  {
    if s == [] then []
    else
      var rest := RemoveAll(s[1..], sp);
      if sp(s[0]) then rest
      else
        assert forall i :: 1 <= i < |rest| + 1 ==> ([s[0]] + rest)[i] == rest[i - 1];
        [s[0]] + rest
  }

  /** Removal takes out the characters of the class and nothing else: every other character occurs as often as before. */
  lemma {:induction false} RemoveAllKeepsOthers(s: string, sp: char -> bool, c: char)
    requires !sp(c)
    ensures multiset(RemoveAll(s, sp))[c] == multiset(s)[c]
  {
    if s != [] {
      RemoveAllKeepsOthers(s[1..], sp, c);
      assert s == [s[0]] + s[1..];
      assert multiset(s) == multiset{s[0]} + multiset(s[1..]);
      if !sp(s[0]) {
        var rest := RemoveAll(s[1..], sp);
        assert multiset([s[0]] + rest) == multiset{s[0]} + multiset(rest);
      }
    }
  }

  /** Removing nothing: a string with no character of the class is left as it is. */
  lemma {:induction false} RemoveAllNoop(s: string, sp: char -> bool)
    requires forall i :: 0 <= i < |s| ==> !sp(s[i])
    ensures RemoveAll(s, sp) == s
  {
    if s != [] {
      RemoveAllNoop(s[1..], sp);
    }
  }

  /** Removal works piecewise: removing from a concatenation is concatenating the removals. */
  lemma {:induction false} RemoveAllConcat(a: string, b: string, sp: char -> bool)
    ensures RemoveAll(a + b, sp) == RemoveAll(a, sp) + RemoveAll(b, sp)
  {
    if a != [] {
      var ab := a + b;
      assert ab[0] == a[0] && ab[1..] == a[1..] + b;
      RemoveAllConcat(a[1..], b, sp);
      if !sp(a[0]) {
        assert RemoveAll(ab, sp) == [a[0]] + RemoveAll(a[1..] + b, sp);
        assert RemoveAll(a, sp) == [a[0]] + RemoveAll(a[1..], sp);
      }
    } else {
      assert a + b == b;
    }
  }

  /** Substring search, as `s.includes(sub)`: some position of `s` starts with `sub`. */
  function Contains(s: string, sub: string): (r: bool)
    ensures r <==> exists i :: 0 <= i <= |s| && sub <= s[i..]
  {
    if sub <= s then
      assert s[0..] == s;
      true
    else if s == [] then false
    else
      var r := Contains(s[1..], sub);
      assert forall i :: 1 <= i <= |s| ==> s[i..] == s[1..][i - 1..];
      r
  }

  /** The JavaScript `length` of a string: UTF-16 code units, two for a character outside the Basic Multilingual Plane. */
  function Utf16Length(s: string): (n: nat)
    ensures |s| <= n <= 2 * |s|
    ensures (forall i :: 0 <= i < |s| ==> s[i] as int < 0x1_0000) ==> n == |s|
  {
    if s == [] then 0 else (if s[0] as int < 0x1_0000 then 1 else 2) + Utf16Length(s[1..])
  }

  /** The text of `s` before the first `sep`, the first element of Python's `s.split(sep)`. */
  function FirstField(s: string, sep: char): (r: string)
    ensures r <= s
    ensures forall i :: 0 <= i < |r| ==> r[i] != sep
    ensures |r| == |s| || s[|r|] == sep
  {
    if s == [] || s[0] == sep then [] else [s[0]] + FirstField(s[1..], sep)
  }
}
