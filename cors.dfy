/**
 * The server's CORS policy. An origin is allowed when it is empty or when one
 * of four patterns matches it from its first character (Python's `re.match`):
 * any `https://` origin ending in `.zeabur.app` or `.730406.xyz`, and
 * `http://localhost` or `http://127.0.0.1` with an optional numeric port.
 * Every response, preflight or not, names an allowed origin back and answers
 * `*` to everybody else.
 */
module Cors {

  /** An origin pattern: `^https://.*<suffix>$`, or `^<base>(:\d+)?$`. */
  datatype OriginPattern = HttpsUnder(suffix: string) | WithOptionalPort(base: string)

  /** The four patterns, in the order they are tried. */
  const Patterns: seq<OriginPattern> := [
    HttpsUnder(".zeabur.app"),
    HttpsUnder(".730406.xyz"),
    WithOptionalPort("http://localhost"),
    WithOptionalPort("http://127.0.0.1")
  ]

  predicate IsAsciiDigit(c: char) {
    '0' <= c <= '9'
  }

  /** Python's `$` also matches just before one final newline: the part of `o` that the rest of a pattern must cover. */
  function MatchCore(o: string): (core: string)
    ensures core <= o && |o| - 1 <= |core| <= |o|
    ensures |core| < |o| <==> |o| > 0 && o[|o| - 1] == '\n'
  {
    if |o| > 0 && o[|o| - 1] == '\n' then o[..|o| - 1] else o
  }

  /** Whether `p` matches `o`; `.` and `\d` never match a newline. */
  predicate Matches(p: OriginPattern, o: string) {
    var core := MatchCore(o);
    match p
    case HttpsUnder(suffix) =>
      |core| >= 8 + |suffix| && "https://" <= core && core[|core| - |suffix|..] == suffix
      && forall i :: 0 <= i < |core| ==> core[i] != '\n'
    case WithOptionalPort(base) =>
      core == base
      || (|core| > |base| + 1 && base + ":" <= core && forall i :: |base| + 1 <= i < |core| ==> IsAsciiDigit(core[i]))
  }

  /** Every origin of the form `https://<x><suffix>`, optionally followed by one newline, matches when `x` has no newline. */
  lemma HttpsUnderComplete(suffix: string, x: string, t: string)
    requires forall i :: 0 <= i < |x| ==> x[i] != '\n'
    requires forall i :: 0 <= i < |suffix| ==> suffix[i] != '\n'
    requires t == "" || t == "\n"
    ensures Matches(HttpsUnder(suffix), "https://" + x + suffix + t)
  {
    var core := "https://" + x + suffix;
    var o := core + t;
    forall i | 0 <= i < |core|
      ensures core[i] != '\n'
    {
      if i < 8 {
      } else if i < 8 + |x| {
        assert core[i] == x[i - 8];
      } else {
        assert core[i] == suffix[i - 8 - |x|];
      }
    }
    if t == "\n" {
      assert o[..|o| - 1] == core;
    } else {
      assert o == core;
    }
    assert MatchCore(o) == core;
    assert core[|core| - |suffix|..] == suffix;
    assert "https://" <= core;
  }

  /** ... and nothing else matches: a matching origin is `https://`, a newline-free middle, the suffix, and at most one newline. */
  lemma HttpsUnderSound(suffix: string, o: string)
    requires Matches(HttpsUnder(suffix), o)
    ensures var core := MatchCore(o); var x := core[8..|core| - |suffix|];
      o == "https://" + x + suffix + o[|core|..]
      && (o[|core|..] == "" || o[|core|..] == "\n")
      && forall i :: 0 <= i < |x| ==> x[i] != '\n'
  {
    var core := MatchCore(o);
    var x := core[8..|core| - |suffix|];
    assert core == "https://" + x + suffix;
    assert o == core + o[|core|..];
    if |core| < |o| {
      assert o[|core|..] == [o[|o| - 1]];
    }
    forall i | 0 <= i < |x|
      ensures x[i] != '\n'
    {
      assert x[i] == core[8 + i];
    }
  }

  /** The scan of `is_origin_allowed`: some pattern of `ps` matches `o`. */
  function AnyMatches(ps: seq<OriginPattern>, o: string): (r: bool)
    ensures r <==> exists i :: 0 <= i < |ps| && Matches(ps[i], o)
  {
    if ps == [] then false
    else if Matches(ps[0], o) then true
    else
      var r := AnyMatches(ps[1..], o);
      assert forall i :: 1 <= i < |ps| ==> ps[i] == ps[1..][i - 1];
      r
  }

  /** `is_origin_allowed(origin)`: an empty origin passes, otherwise some pattern must match. */
  function IsOriginAllowed(origin: string): (r: bool)
    ensures r <==> origin == "" || exists i :: 0 <= i < |Patterns| && Matches(Patterns[i], origin)
  {
    if origin == "" then true else AnyMatches(Patterns, origin)
  }

  /** The `Access-Control-Allow-Origin` value for a request carrying `origin` (`""` when it has none). */
  function AllowOrigin(origin: string): (r: string)
    ensures origin != "" && AnyMatches(Patterns, origin) ==> r == origin
    ensures !(origin != "" && AnyMatches(Patterns, origin)) ==> r == "*"
  {
    if IsOriginAllowed(origin) then (if origin != "" then origin else "*") else "*"
  }

  /** The browser sees its own origin echoed only for an allowed one (or for the origin `*` itself). */
  lemma EchoOnlyAllowed(origin: string)
    ensures AllowOrigin(origin) == origin <==> (origin != "" && IsOriginAllowed(origin)) || origin == "*"
  {
  }

  const AllowedMethods: string := "GET, POST, PUT, DELETE, OPTIONS"

  /** The CORS response headers the middleware writes. */
  datatype CorsHeader = AllowOriginHeader | AllowMethods | AllowHeaders | AllowCredentials | MaxAge | ExposeHeaders

  function HeaderName(h: CorsHeader): string {
    match h
    case AllowOriginHeader => "Access-Control-Allow-Origin"
    case AllowMethods => "Access-Control-Allow-Methods"
    case AllowHeaders => "Access-Control-Allow-Headers"
    case AllowCredentials => "Access-Control-Allow-Credentials"
    case MaxAge => "Access-Control-Max-Age"
    case ExposeHeaders => "Access-Control-Expose-Headers"
  }

  /**
   * The CORS headers of a response to a request carrying `origin`: a
   * preflight (`OPTIONS`, answered with status 200 by the middleware itself)
   * carries a cache lifetime, any other response exposes every header.
   */
  function CorsHeaders(origin: string, preflight: bool): (h: map<CorsHeader, string>)
    ensures h.Keys == {AllowOriginHeader, AllowMethods, AllowHeaders, AllowCredentials} + (if preflight then {MaxAge} else {ExposeHeaders})
    ensures h[AllowOriginHeader] == AllowOrigin(origin) && h[AllowCredentials] == "true"
    ensures h[AllowMethods] == AllowedMethods && h[AllowHeaders] == "*"
    ensures preflight ==> h[MaxAge] == "600"
    ensures !preflight ==> h[ExposeHeaders] == "*"
  {
    var common := map[
      AllowOriginHeader := AllowOrigin(origin),
      AllowMethods := AllowedMethods,
      AllowHeaders := "*",
      AllowCredentials := "true"
    ];
    if preflight then common[MaxAge := "600"] else common[ExposeHeaders := "*"]
  }

  /** Preflight and ordinary responses agree on every CORS header they both carry. */
  lemma PreflightAgrees(origin: string)
    ensures var p, r := CorsHeaders(origin, true), CorsHeaders(origin, false);
      forall k :: k in p && k in r ==> p[k] == r[k]
  {
  }

  /** The header names are distinct, so no header overwrites another. */
  lemma HeaderNamesDistinct(a: CorsHeader, b: CorsHeader)
    requires a != b
    ensures HeaderName(a) != HeaderName(b)
  {
    assert HeaderName(a)[15] != HeaderName(b)[15] || HeaderName(a)[21] != HeaderName(b)[21] || |HeaderName(a)| != |HeaderName(b)|;
  }
}
