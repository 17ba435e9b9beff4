/**
 * The browser script's own token pair: the webhook token is the device
 * fingerprint and the post token is `btoa` of it. `btoa` encodes each UTF-16
 * code unit as one byte and refuses code units above 0xFF; the server derives
 * the app token from the UTF-8 bytes instead. The two agree on ASCII, which
 * is what fingerprints are (a hexadecimal visitor id, or the
 * `fallback_<time>_<base-36 digits>` stand-in).
 */
module ClientToken {
  import opened Common
  import Utf8
  import Base64
  import Tokens

  /** Every character fits in one byte. */
  predicate IsLatin1(s: string) {
    forall i :: 0 <= i < |s| ==> s[i] as int < 0x100
  }

  predicate IsAscii(s: string) {
    forall i :: 0 <= i < |s| ==> s[i] as int < 0x80
  }

  /** The one-byte-per-character encoding `btoa` reads its argument as. */
  function Latin1(s: string): (r: seq<Byte>)
    requires IsLatin1(s)
    ensures |r| == |s| && forall i :: 0 <= i < |s| ==> r[i] == s[i] as int
  {
    if s == [] then [] else [s[0] as int] + Latin1(s[1..])
  }

  /** `btoa(s)`: None where it throws for a character outside Latin-1. */
  function Btoa(s: string): (r: Option<string>)
    ensures r.Some? <==> IsLatin1(s)
  {
    if IsLatin1(s) then Some(Base64.Encode(Latin1(s))) else None
  }

  /** `atob` undoes `btoa`: the post token decodes to the fingerprint's Latin-1 bytes. */
  lemma BtoaDecodes(s: string)
    requires IsLatin1(s)
    ensures Base64.Decode(Btoa(s).value) == Some(Latin1(s))
  {
    Base64.DecodeEncode(Latin1(s));
  }

  /** On ASCII text the UTF-8 bytes are the Latin-1 bytes. */
  lemma {:induction false} AsciiUtf8IsLatin1(s: string)
    requires IsAscii(s)
    ensures IsLatin1(s) && Utf8.Encode(s) == Latin1(s)
  {
    if s != [] {
      assert IsAscii(s[1..]) by {
        forall i | 0 <= i < |s[1..]|
          ensures s[1..][i] as int < 0x80
        {
          assert s[1..][i] == s[i + 1];
        }
      }
      AsciiUtf8IsLatin1(s[1..]);
    }
  }

  /**
   * For an ASCII fingerprint the script's post token is the app token the
   * server issues for it, so the server resolves it back to the fingerprint.
   */
  lemma PostTokenIsAppToken(fingerprint: string, s: Tokens.Store, geo: Option<Tokens.GeoInfo>, createdAt: string)
    requires IsAscii(fingerprint) && fingerprint != ""
    ensures Btoa(fingerprint) == Some(Tokens.AppToken(fingerprint))
    ensures Tokens.Lookup(Tokens.Issue(s, fingerprint, geo, createdAt), Btoa(fingerprint).value) == Some(fingerprint)
  {
    AsciiUtf8IsLatin1(fingerprint);
    Tokens.IssueResolves(s, fingerprint, geo, createdAt);
  }

  /** Beyond ASCII the two differ: for "é" `btoa` gives "6Q==" and the server "w6k=". */
  lemma NonAsciiDiffers()
    ensures Btoa([0xE9 as char]) == Some("6Q==")
    ensures Tokens.AppToken([0xE9 as char]) == "w6k="
  {
    var e: string := [0xE9 as char];
    assert Latin1(e) == [0xE9];
    assert Utf8.Encode(e) == [0xC3, 0xA9];
  }
}
