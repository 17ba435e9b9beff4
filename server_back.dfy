/**
 * The older server. Its registry, `create_token_pair` (without a location in
 * the record) and health check are those of the current server; what differs
 * is `get_client_token`: when the store has no client token for an app token,
 * it decodes the app token itself (Base64, then UTF-8) and, when that works,
 * writes the pair into the store as if it had been issued.
 */
module ServerBack {
  import opened Common
  import opened Registry
  import Utf8
  import Base64
  import Tokens
  import Server

  /** `base64.b64decode(app_token.encode()).decode()`, or None where it raises; only an issued app token decodes, to the client token it was made from. */
  function FallbackDecode(appToken: string): (r: Option<string>)
    ensures r.Some? ==> Tokens.AppToken(r.value) == appToken
  {
    match Base64.Decode(appToken)
    case None => None
    case Some(bytes) =>
      Base64.EncodeDecode(appToken);
      match Utf8.Decode(bytes)
      case None => None
      case Some(ct) =>
        Utf8.EncodeDecode(bytes);
        Some(ct)
  }

  /** Decoding inverts the token derivation: every issued app token decodes to its client token. */
  lemma FallbackOfIssued(clientToken: string)
    ensures FallbackDecode(Tokens.AppToken(clientToken)) == Some(clientToken)
  {
    Base64.DecodeEncode(Utf8.Encode(clientToken));
    Utf8.DecodeEncode(clientToken);
  }

  /** The client token `get_client_token` returns when the store does not answer. */
  function Resolve(s: Option<Tokens.Store>, appToken: string): (r: Option<string>)
    ensures r.None? ==> FallbackDecode(appToken).None?
    ensures r.Some? ==> (s.Some? && Tokens.Lookup(s.value, appToken) == r) || Tokens.AppToken(r.value) == appToken
  {
    if s.Some? && Tokens.Lookup(s.value, appToken).Some? then Tokens.Lookup(s.value, appToken)
    else FallbackDecode(appToken)
  }

  /** The store after `get_client_token`: a miss that decodes writes the pair, anything else writes nothing. */
  function Repaired(s: Tokens.Store, appToken: string, createdAt: string): (r: Tokens.Store)
    ensures s.Keys <= r.Keys
    ensures Tokens.Lookup(s, appToken).Some? ==> r == s
  {
    if Tokens.Lookup(s, appToken).None? && FallbackDecode(appToken).Some? then
      Tokens.Issue(s, FallbackDecode(appToken).value, None, createdAt)
    else s
  }

  /** For a pair that was issued, the store and the decoding fallback name the same client token; a store that lost the pair still resolves it. */
  lemma SameIdentityEitherWay(s: Tokens.Store, ct: string, geo: Option<Tokens.GeoInfo>, createdAt: string)
    requires ct != ""
    ensures var issued := Tokens.Issue(s, ct, geo, createdAt); var at := Tokens.AppToken(ct);
      Resolve(Some(issued), at) == Some(ct) && Resolve(None, at) == Some(ct)
      && (Tokens.Lookup(s, at).None? ==> Resolve(Some(s), at) == Some(ct))
  {
    Tokens.IssueResolves(s, ct, geo, createdAt);
    FallbackOfIssued(ct);
  }

  /** With a store, a miss that decodes leaves the store as if the pair had been issued, so the next lookup hits. */
  lemma RepairThenHit(s: Tokens.Store, appToken: string, createdAt: string)
    requires Tokens.Lookup(s, appToken).None? && FallbackDecode(appToken).Some?
    ensures var ct := FallbackDecode(appToken).value;
      Repaired(s, appToken, createdAt) == Tokens.Issue(s, ct, None, createdAt)
      && (ct != "" ==> Tokens.Lookup(Repaired(s, appToken, createdAt), appToken) == Some(ct))
      && Tokens.Known(Repaired(s, appToken, createdAt), ct)
  {
    var ct := FallbackDecode(appToken).value;
    Tokens.IssueResolves(s, ct, None, createdAt);
  }

  /** A token that neither the store nor the decoder understands resolves to nothing and writes nothing. */
  lemma UndecodableMiss(s: Tokens.Store, appToken: string, createdAt: string)
    requires Tokens.Lookup(s, appToken).None? && FallbackDecode(appToken).None?
    ensures Resolve(Some(s), appToken) == None && Repaired(s, appToken, createdAt) == s
  {
  }

  /**
   * `get_client_token(app_token)` of the older server. The store, when
   * present, answers first; on a miss the app token is decoded and, when it
   * decodes and the store is present, the pair is written under both keys
   * with the app token as given. The empty app token decodes to the empty
   * client token, which is returned (and rejected by the caller).
   */
  method GetClientTokenWithFallback(store: Tokens.KvStore?, appToken: string, createdAt: string)
    returns (clientToken: Option<string>)
    modifies store
    ensures clientToken == Resolve(if store == null then None else Some(old(store.data)), appToken)
    ensures store != null ==> store.data == Repaired(old(store.data), appToken, createdAt)
  {
    if store != null {
      var v := store.Get(Tokens.AppKey(appToken));
      if v.Some? && v.value.Plain? && v.value.text != "" {
        return Some(v.value.text);
      }
    }
    var bytes := Base64.Decode(appToken);
    if bytes.None? {
      return None;
    }
    clientToken := Utf8.Decode(bytes.value);
    if clientToken.None? {
      return None;
    }
    var ct := clientToken.value;
    if store != null {
        store.Set(Tokens.ClientKey(ct), Tokens.Record(Tokens.ClientRecord(appToken, createdAt, None)));
      store.Set(Tokens.AppKey(appToken), Tokens.Plain(ct));
    }
  }

  /** POST /message on the older server: the fallback resolver, then the same delivery as the current server. */
  method PostMessage(manager: ConnectionManager, store: Tokens.KvStore?, appToken: string, createdAt: string, ok: Socket -> bool)
    returns (r: Server.PostResponse)
    requires manager.Valid()
    modifies manager, store
    ensures manager.Valid()
    ensures var resolved := Resolve(if store == null then None else Some(old(store.data)), appToken);
      (r, manager.active) == Server.PostOutcome(old(manager.active), resolved, ok)
    ensures store != null ==> store.data == Repaired(old(store.data), appToken, createdAt)
  {
    var ct := GetClientTokenWithFallback(store, appToken, createdAt);
    r := Server.Deliver(manager, ct, ok);
  }
}
