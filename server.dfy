/**
 * The request handlers of the current server around the registry and the
 * token store: POST /message (resolve the app token, then fan the message out),
 * GET /health (registry counts), and the client address a request is
 * attributed to.
 */
module Server {
  import opened Common
  import opened Registry
  import Tokens
  import Text

  /** The outcome of POST /message: HTTP 400, or a 200 whose JSON `status` is `no_connection` or `success`. */
  datatype PostResponse =
    | BadRequest
    | NoConnection(clientToken: string)
    | Delivered(clientToken: string, connections: nat)

  function StatusCode(r: PostResponse): int {
    if r.BadRequest? then 400 else 200
  }

  /** The `connections` field of a 200 answer. */
  function Connections(r: PostResponse): nat
    requires !r.BadRequest?
  {
    if r.NoConnection? then 0 else r.connections
  }

  /**
   * The handler after the app token resolved to `resolved`: a missing or
   * empty client token is a 400; a token with no live sockets gets
   * `no_connection` and nothing is sent; otherwise every socket is tried and
   * the answer counts the sockets still registered after the failed ones
   * were dropped. Returns the answer and the registry afterwards.
   */
  function PostOutcome(m: Connections, resolved: Option<string>, ok: Socket -> bool): (r: (PostResponse, Connections))
    ensures r.0.BadRequest? <==> resolved.None? || resolved.value == ""
    ensures !r.0.BadRequest? ==> r.0.clientToken == resolved.value
    ensures r.0.NoConnection? <==> !r.0.BadRequest? && (resolved.value !in m || m[resolved.value] == {})
    ensures !r.0.Delivered? ==> r.1 == m
    ensures r.1.Keys <= m.Keys
    ensures r.0.Delivered? ==> forall u :: u in m && u != resolved.value ==> u in r.1 && r.1[u] == m[u]
  {
    if resolved.None? || resolved.value == "" then (BadRequest, m)
    else
      var ct := resolved.value;
      if ct !in m || m[ct] == {} then (NoConnection(ct), m)
      else
        var after := RemovedAll(m, ct, Failed(m, ct, ok));
        (Delivered(ct, if ct in after then |after[ct]| else 0), after)
  }

  /** An unresolvable app token is refused with 400 and touches nothing. */
  lemma UnknownTokenRefused(m: Connections, resolved: Option<string>, ok: Socket -> bool)
    requires resolved.None? || resolved == Some("")
    ensures PostOutcome(m, resolved, ok) == (BadRequest, m)
  {
  }

  /** A resolved token without a registry entry answers `no_connection` with 0 connections, and no socket is tried. */
  lemma NoEntryNothingSent(m: Connections, ct: string, ok: Socket -> bool)
    requires ct != "" && ct !in m
    ensures var (r, after) := PostOutcome(m, Some(ct), ok);
      r == NoConnection(ct) && StatusCode(r) == 200 && Connections(r) == 0 && after == m
  {
  }

  /** A delivered message reports exactly the sockets whose send succeeded, and the others were dropped. */
  lemma DeliveredCountsSuccesses(m: Connections, ct: string, ok: Socket -> bool)
    requires ct != "" && ct in m && m[ct] != {}
    ensures var (r, after) := PostOutcome(m, Some(ct), ok);
      r.Delivered? && r.clientToken == ct
      && r.connections == |set ws | ws in m[ct] && ok(ws)|
      && after == RemovedAll(m, ct, Failed(m, ct, ok))
  {
    var f := Failed(m, ct, ok);
    var good := set ws | ws in m[ct] && ok(ws);
    assert m[ct] - f == good;
    if m[ct] - f == {} {
      assert |good| == 0;
    }
  }

  /** POST /message keeps the registry free of empty sets. */
  lemma PostKeepsNoEmptySets(m: Connections, resolved: Option<string>, ok: Socket -> bool)
    requires NoEmptySets(m)
    ensures NoEmptySets(PostOutcome(m, resolved, ok).1)
  {
    if resolved.Some? && resolved.value in m {
      NoEmptySetsKept(m, resolved.value, 0, Failed(m, resolved.value, ok));
    }
  }

  /**
   * POST /message on the current server: the token store alone resolves the
   * app token, then the registry sends to the client token's sockets.
   */
  method PostMessage(manager: ConnectionManager, store: Tokens.KvStore?, appToken: string, ok: Socket -> bool)
    returns (r: PostResponse)
    requires manager.Valid()
    modifies manager
    ensures manager.Valid()
    ensures var resolved := if store == null then None else Tokens.Lookup(store.data, appToken);
      (r, manager.active) == PostOutcome(old(manager.active), resolved, ok)
  {
    var ct := Tokens.GetClientToken(store, appToken);
    r := Deliver(manager, ct, ok);
  }

  /** The part of POST /message after the app token was resolved, shared by both servers. */
  method Deliver(manager: ConnectionManager, resolved: Option<string>, ok: Socket -> bool) returns (r: PostResponse)
    requires manager.Valid()
    modifies manager
    ensures manager.Valid()
    ensures (r, manager.active) == PostOutcome(old(manager.active), resolved, ok)
  {
    if resolved.None? || resolved.value == "" {
      return BadRequest;
    }
    var ct := resolved.value;
    if ct !in manager.active || manager.active[ct] == {} {
      return NoConnection(ct);
    }
    var _ := manager.SendMessage(ct, ok);
    r := Delivered(ct, if ct in manager.active then |manager.active[ct]| else 0);
  }

  /** The body of GET /health. */
  datatype Health = Health(redis: string, activeClients: nat, totalConnections: nat)

  /** GET /health: the store reports `disconnected` only when it is present and its ping fails. */
  ghost function HealthCheck(m: Connections, storePresent: bool, pingOk: bool): (h: Health)
    ensures h.redis == "connected" || h.redis == "disconnected"
    ensures h.redis == "disconnected" <==> storePresent && !pingOk
    ensures m == map[] ==> h.activeClients == 0 && h.totalConnections == 0
  {
    Health(if storePresent && !pingOk then "disconnected" else "connected", |m|, SizeSum(m))
  }

  /** The two counts agree with each other: at least one socket per client, and no sockets exactly when no clients. */
  lemma HealthCountsConsistent(m: Connections, storePresent: bool, pingOk: bool)
    requires NoEmptySets(m)
    ensures var h := HealthCheck(m, storePresent, pingOk);
      h.totalConnections >= h.activeClients && (h.totalConnections == 0 <==> h.activeClients == 0)
  {
    TotalAtLeastClients(m);
    if m == map[] {
      assert SizeSum(m) == 0;
    }
  }

  /** A connect raises the total by one for a new socket and the client count by one for a new token. */
  lemma HealthAfterConnect(m: Connections, t: Token, ws: Socket)
    requires t !in m || ws !in m[t]
    ensures var h0, h1 := HealthCheck(m, false, true), HealthCheck(Added(m, t, ws), false, true);
      h1.totalConnections == h0.totalConnections + 1
      && h1.activeClients == h0.activeClients + (if t in m then 0 else 1)
  {
    TotalAfterConnect(m, t, ws);
    var a := Added(m, t, ws);
    if t in m {
      assert a.Keys == m.Keys;
    } else {
      assert a.Keys == m.Keys + {t};
    }
  }

  /** A request header that is present and non-empty. */
  predicate Given(h: Option<string>) {
    h.Some? && h.value != ""
  }

  /**
   * `get_client_ip`: the first entry of `X-Forwarded-For`, stripped; else
   * `X-Real-IP`; else the peer's host; else `unknown`.
   */
  function ClientIp(forwardedFor: Option<string>, realIp: Option<string>, peerHost: Option<string>): (ip: string)
    ensures Given(forwardedFor) ==> forall i :: 0 <= i < |ip| ==> ip[i] != ','
    ensures Given(forwardedFor) ==> ip == [] || (!Text.IsPySpace(ip[0]) && !Text.IsPySpace(ip[|ip| - 1]))
    ensures ip == "" ==> Given(forwardedFor) || peerHost == Some("")
  {
    if Given(forwardedFor) then
      var first := Text.FirstField(forwardedFor.value, ',');
      Text.TrimmedAvoids(first, Text.IsPySpace, ',');
      Text.StripPy(first)
    else if Given(realIp) then realIp.value
    else if peerHost.Some? then peerHost.value
    else "unknown"
  }

  /** The forwarded chain wins: the answer is the stripped first hop (see Text.StripPy), a piece of the header with no comma, whatever else the request carries. */
  lemma ForwardedWins(forwardedFor: string, realIp: Option<string>, peerHost: Option<string>)
    requires forwardedFor != ""
    ensures var ip := ClientIp(Some(forwardedFor), realIp, peerHost);
      ip == Text.StripPy(Text.FirstField(forwardedFor, ','))
      && (forall i :: 0 <= i < |ip| ==> ip[i] != ',')
      && exists k :: 0 <= k <= |forwardedFor| - |ip| && ip <= forwardedFor[k..]
  {
    Text.StrippedFieldPiece(forwardedFor, ',');
  }

  /** Without a usable forwarded chain, `X-Real-IP` is used as it is; without either, the peer or `unknown`. */
  lemma FallbackOrder(forwardedFor: Option<string>, realIp: Option<string>, peerHost: Option<string>)
    requires !Given(forwardedFor)
    ensures Given(realIp) ==> ClientIp(forwardedFor, realIp, peerHost) == realIp.value
    ensures !Given(realIp) && peerHost.Some? ==> ClientIp(forwardedFor, realIp, peerHost) == peerHost.value
    ensures !Given(realIp) && peerHost.None? ==> ClientIp(forwardedFor, realIp, peerHost) == "unknown"
  {
  }

  /** The addresses for which `get_ip_geolocation` answers "local" without asking the geolocation service. */
  predicate IsLocalAddress(ip: string): (b: bool)
    ensures ip == "unknown" ==> b
    ensures |ip| > 0 && ip[0] != '1' && ip[0] != ':' && ip[0] != 'u' ==> !b
  {
    ip == "unknown" || "127." <= ip || "::1" <= ip
  }

  /** A request that names no address at all is treated as local. */
  lemma NoAddressIsLocal(forwardedFor: Option<string>, realIp: Option<string>)
    requires !Given(forwardedFor) && !Given(realIp)
    ensures IsLocalAddress(ClientIp(forwardedFor, realIp, None))
  {
  }
}
