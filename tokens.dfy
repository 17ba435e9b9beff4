/**
 * The token pair the server issues: a client token (the identity a browser
 * connects with) and its app token, the padded Base64 encoding of the client
 * token's UTF-8 bytes (the token senders post with). Both directions are kept
 * in a key-value store: `client:<client token>` holds a record describing the
 * pair, `app:<app token>` holds the client token. The store may be absent
 * (`redis_client` is None), in which case nothing is written or found.
 */
module Tokens {
  import opened Common
  import Utf8
  import Base64

  /** The caller's location as the geolocation lookup reported it. */
  datatype GeoInfo = GeoInfo(ip: string, country: string, region: string, city: string)

  /** What the JSON under a `client:` key holds: the app token, when it was made, and where from if known. */
  datatype ClientRecord = ClientRecord(appToken: string, createdAt: string, geo: Option<GeoInfo>)

  /** A stored value: a plain string, or a client record (serialised to JSON in the store). */
  datatype StoredValue = Plain(text: string) | Record(record: ClientRecord)

  type Store = map<string, StoredValue>

  /** `base64.b64encode(client_token.encode()).decode()`. */
  function AppToken(clientToken: string): (r: string)
    ensures |r| % 4 == 0
    ensures r == "" <==> clientToken == ""
  {
    Base64.Encode(Utf8.Encode(clientToken))
  }

  function ClientKey(clientToken: string): string {
    "client:" + clientToken
  }

  function AppKey(appToken: string): string {
    "app:" + appToken
  }

  /** A `client:` key and an `app:` key never collide, and each family is injective. */
  lemma KeysDistinct(c: string, c2: string, a: string, a2: string)
    ensures ClientKey(c) != AppKey(a)
    ensures ClientKey(c) == ClientKey(c2) ==> c == c2
    ensures AppKey(a) == AppKey(a2) ==> a == a2
  {
    assert ClientKey(c)[0] == 'c' && AppKey(a)[0] == 'a';
    if ClientKey(c) == ClientKey(c2) {
      assert c == ClientKey(c)[7..] && c2 == ClientKey(c2)[7..];
    }
    if AppKey(a) == AppKey(a2) {
      assert a == AppKey(a)[4..] && a2 == AppKey(a2)[4..];
    }
  }

  /** Two client tokens never share an app token. */
  lemma AppTokenInjective(c: string, c2: string)
    requires AppToken(c) == AppToken(c2)
    ensures c == c2
  {
    Base64.EncodeInjective(Utf8.Encode(c), Utf8.Encode(c2));
    Utf8.EncodeInjective(c, c2);
  }

  /** The store after `create_token_pair` wrote both keys for `clientToken`. */
  function Issue(s: Store, clientToken: string, geo: Option<GeoInfo>, createdAt: string): (r: Store)
    ensures r.Keys == s.Keys + {ClientKey(clientToken), AppKey(AppToken(clientToken))}
    ensures r[AppKey(AppToken(clientToken))] == Plain(clientToken)
    ensures r[ClientKey(clientToken)] == Record(ClientRecord(AppToken(clientToken), createdAt, geo))
    ensures forall k :: k in s && k != ClientKey(clientToken) && k != AppKey(AppToken(clientToken)) ==> r[k] == s[k]
  {
    var at := AppToken(clientToken);
    KeysDistinct(clientToken, clientToken, at, at);
    s[ClientKey(clientToken) := Record(ClientRecord(at, createdAt, geo))][AppKey(at) := Plain(clientToken)]
  }

  /** What `get_client_token` of the current server returns: a stored, non-empty client token, and nothing otherwise. */
  function Lookup(s: Store, appToken: string): (r: Option<string>)
    ensures r.Some? ==> AppKey(appToken) in s && s[AppKey(appToken)] == Plain(r.value) && r.value != ""
    ensures r.None? ==> AppKey(appToken) !in s || !s[AppKey(appToken)].Plain? || s[AppKey(appToken)].text == ""
  {
    var k := AppKey(appToken);
    if k in s && s[k].Plain? && s[k].text != "" then Some(s[k].text) else None
  }

  /** The store holds a record for the client token. */
  predicate Known(s: Store, clientToken: string) {
    ClientKey(clientToken) in s
  }

  /** After issuing, the app token resolves to its client token (unless that is empty), and the client token is known. */
  lemma IssueResolves(s: Store, ct: string, geo: Option<GeoInfo>, createdAt: string)
    ensures Known(Issue(s, ct, geo, createdAt), ct)
    ensures Lookup(Issue(s, ct, geo, createdAt), AppToken(ct)) == if ct == "" then None else Some(ct)
  {
    KeysDistinct(ct, ct, AppToken(ct), AppToken(ct));
  }

  /** Issuing one pair leaves every other app token's resolution and every other client token's record as they were. */
  lemma IssueKeepsOthers(s: Store, ct: string, geo: Option<GeoInfo>, createdAt: string, at: string, other: string)
    requires at != AppToken(ct) && other != ct
    ensures Lookup(Issue(s, ct, geo, createdAt), at) == Lookup(s, at)
    ensures Known(Issue(s, ct, geo, createdAt), other) == Known(s, other)
  {
    KeysDistinct(ct, other, at, AppToken(ct));
    KeysDistinct(other, ct, AppToken(ct), at);
  }

  /** Issuing keeps apart what was issued: distinct client tokens resolve from distinct app tokens. */
  lemma IssueTwoResolves(s: Store, c1: string, c2: string, g1: Option<GeoInfo>, g2: Option<GeoInfo>, t1: string, t2: string)
    requires c1 != c2 && c1 != ""
    ensures Lookup(Issue(Issue(s, c1, g1, t1), c2, g2, t2), AppToken(c1)) == Some(c1)
  {
    if AppToken(c1) == AppToken(c2) {
      AppTokenInjective(c1, c2);
    }
    IssueResolves(s, c1, g1, t1);
    IssueKeepsOthers(Issue(s, c1, g1, t1), c2, g2, t2, AppToken(c1), c1);
  }

  /** The store client, offering Redis's `get`, `set` and `exists` on whole values. */
  class KvStore {
    var data: Store

    constructor ()
      ensures data == map[]
    {
      data := map[];
    }

    method Get(key: string) returns (v: Option<StoredValue>)
      ensures v == if key in data then Some(data[key]) else None
    {
      v := if key in data then Some(data[key]) else None;
    }

    method Set(key: string, v: StoredValue)
      modifies this
      ensures data == old(data)[key := v]
    {
      data := data[key := v];
    }

    method Exists(key: string) returns (b: bool)
      ensures b == (key in data)
    {
      b := key in data;
    }
  }

  /**
   * `create_token_pair(client_token, geo_info)`: derives the app token and,
   * when the store is present, stores the record and the reverse mapping.
   * The older server writes the same record without a location (`geo` None).
   */
  method CreateTokenPair(store: KvStore?, clientToken: string, geo: Option<GeoInfo>, createdAt: string) returns (appToken: string)
    modifies store
    ensures appToken == AppToken(clientToken)
    ensures store != null ==> store.data == Issue(old(store.data), clientToken, geo, createdAt)
  {
    appToken := Base64.Encode(Utf8.Encode(clientToken));
    if store != null {
      store.Set(ClientKey(clientToken), Record(ClientRecord(appToken, createdAt, geo)));
      store.Set(AppKey(appToken), Plain(clientToken));
    }
  }

  /** `get_client_token(app_token)` of the current server: the store, and nothing else, answers. */
  method GetClientToken(store: KvStore?, appToken: string) returns (clientToken: Option<string>)
    ensures store == null ==> clientToken == None
    ensures store != null ==> clientToken == Lookup(store.data, appToken)
  {
    clientToken := None;
    if store != null {
      var v := store.Get(AppKey(appToken));
      if v.Some? && v.value.Plain? && v.value.text != "" {
        clientToken := Some(v.value.text);
      }
    }
  }

  /** `token_exists(client_token)`. */
  method TokenExists(store: KvStore?, clientToken: string) returns (b: bool)
    ensures b <==> store != null && Known(store.data, clientToken)
  {
    b := false;
    if store != null {
      b := store.Exists(ClientKey(clientToken));
    }
  }
}
