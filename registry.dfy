/**
 * The server's registry of live WebSocket connections: a map from a client
 * token to the set of sockets open for it. Sending to a token fans the
 * message out to every socket of its set; the sockets whose send fails are
 * collected during that loop and unregistered only after it.
 */
module Registry {

  /** A client token, the key clients connect under. */
  type Token = string

  /** The identity of one accepted WebSocket. */
  type Socket = nat

  /** The registry's state. */
  type Connections = map<Token, set<Socket>>

  /** The registry never keeps a token whose set of sockets is empty. */
  predicate NoEmptySets(m: Connections) {
    forall t :: t in m ==> m[t] != {}
  }

  /** The registry after `ws` joined `t`'s set, which is created when `t` had none. */
  function Added(m: Connections, t: Token, ws: Socket): (r: Connections)
    ensures t in r && ws in r[t]
    ensures r.Keys == m.Keys + {t}
    ensures t in m ==> r[t] == m[t] + {ws}
    ensures t !in m ==> r[t] == {ws}
    ensures forall u :: u in m && u != t ==> r[u] == m[u]
  {
    m[t := (if t in m then m[t] else {}) + {ws}]
  }

  /** The registry after the sockets `xs` left `t`'s set; the token is dropped once nothing remains. */
  function RemovedAll(m: Connections, t: Token, xs: set<Socket>): (r: Connections)
    ensures r.Keys <= m.Keys
    ensures t in r <==> t in m && m[t] - xs != {}
    ensures t in r ==> r[t] == m[t] - xs
    ensures forall u :: u in m && u != t ==> u in r && r[u] == m[u]
  {
    if t !in m then m
    else if m[t] - xs == {} then m - {t}
    else m[t := m[t] - xs]
  }

  /** The registry after the socket `ws` left `t`'s set. */
  function Removed(m: Connections, t: Token, ws: Socket): (r: Connections)
    ensures r.Keys <= m.Keys
    ensures t !in r || ws !in r[t]
    ensures forall u :: u in m && u != t ==> u in r && r[u] == m[u]
  {
    RemovedAll(m, t, {ws})
  }

  /** The sockets of `t` whose send fails under the oracle `ok`. */
  function Failed(m: Connections, t: Token, ok: Socket -> bool): (r: set<Socket>)
    ensures t in m ==> r <= m[t] && forall ws :: ws in m[t] ==> (ws in r <==> !ok(ws))
    ensures t !in m ==> r == {}
  {
    if t in m then set ws | ws in m[t] && !ok(ws) else {}
  }

  /** Adding and removing keep the registry free of empty sets. */
  lemma NoEmptySetsKept(m: Connections, t: Token, ws: Socket, xs: set<Socket>)
    requires NoEmptySets(m)
    ensures NoEmptySets(Added(m, t, ws)) && NoEmptySets(RemovedAll(m, t, xs))
  {
  }

  /** Removing no socket changes nothing. */
  lemma RemovedNone(m: Connections, t: Token)
    requires NoEmptySets(m)
    ensures RemovedAll(m, t, {}) == m
  {
    if t in m {
      assert m[t] - {} == m[t];
      assert m[t := m[t]] == m;
    }
  }

  /** The sockets of `conns` whose send fails, found by trying each one once. */
  method CollectFailed(conns: set<Socket>, ok: Socket -> bool) returns (failed: set<Socket>)
    ensures failed <= conns
    ensures forall ws :: ws in conns ==> (ws in failed <==> !ok(ws))
  {
    failed := {};
    var pending := conns;
    while pending != {}
      invariant pending <= conns && failed <= conns - pending
      invariant forall ws :: ws in conns - pending ==> (ws in failed <==> !ok(ws))
      decreases |pending|
    {
      var ws :| ws in pending;
      if !ok(ws) {
        failed := failed + {ws};
      }
      pending := pending - {ws};
    }
  }

  /** Removing one more socket after a group is the same as removing the group with it. */
  lemma RemovedOneMore(m: Connections, t: Token, xs: set<Socket>, ws: Socket)
    ensures Removed(RemovedAll(m, t, xs), t, ws) == RemovedAll(m, t, xs + {ws})
  {
    if t in m && m[t] - xs != {} {
      assert m[t] - xs - {ws} == m[t] - (xs + {ws});
    }
  }

  /** Removing an absent socket, or from an absent token, changes nothing. */
  lemma RemovedAbsent(m: Connections, t: Token, ws: Socket)
    requires NoEmptySets(m)
    requires t !in m || ws !in m[t]
    ensures Removed(m, t, ws) == m
  {
    if t in m {
      assert m[t] - {ws} == m[t];
      assert m[t := m[t]] == m;
    }
  }

  /** Connecting a new socket and disconnecting it again restores the registry. */
  lemma ConnectThenDisconnect(m: Connections, t: Token, ws: Socket)
    requires NoEmptySets(m)
    requires t !in m || ws !in m[t]
    ensures Removed(Added(m, t, ws), t, ws) == m
  {
    var a := Added(m, t, ws);
    if t in m {
      assert a[t] - {ws} == m[t];
      assert a[t := m[t]] == m;
    } else {
      assert a[t] - {ws} == {};
      assert a - {t} == m;
    }
  }

  /** After a fan-out with oracle `ok`, a socket of `t` stays registered exactly when its send succeeded, and other tokens are untouched. */
  lemma SiblingsSurvive(m: Connections, t: Token, ok: Socket -> bool)
    requires t in m
    ensures var r := RemovedAll(m, t, Failed(m, t, ok));
      (forall ws :: ws in m[t] ==> ((t in r && ws in r[t]) <==> ok(ws)))
      && (t in r ==> r[t] <= m[t])
      && (forall u :: u in m && u != t ==> u in r && r[u] == m[u])
  {
    var f := Failed(m, t, ok);
    forall ws | ws in m[t] && ok(ws)
      ensures ws in m[t] - f
    {
    }
  }

  /** The number of sockets over all tokens (the health check's `total_connections`). */
  ghost function SizeSum(m: Connections): (n: nat)
    ensures m == map[] ==> n == 0
    ensures NoEmptySets(m) && m != map[] ==> n > 0
    decreases |m|
  {
    if m == map[] then 0
    else
      var t :| t in m;
      assert |m - {t}| < |m| by { assert (m - {t}).Keys == m.Keys - {t}; }
      |m[t]| + SizeSum(m - {t})
  }

  /** The total splits into any one token's sockets and the rest. */
  lemma {:induction false} SizeSumRemove(m: Connections, t: Token)
    requires t in m
    ensures SizeSum(m) == |m[t]| + SizeSum(m - {t})
    decreases |m|
  {
    var u :| u in m && SizeSum(m) == |m[u]| + SizeSum(m - {u});
    if u != t {
      var mu, mt := m - {u}, m - {t};
      assert (mu - {t}).Keys == mu.Keys - {t} && (mt - {u}).Keys == mt.Keys - {u};
      assert |mu| < |m| && |mt| < |m| by { assert mu.Keys == m.Keys - {u} && mt.Keys == m.Keys - {t}; }
      SizeSumRemove(mu, t);
      SizeSumRemove(mt, u);
      assert mu - {t} == mt - {u};
    }
  }

  /** The total after replacing `t`'s set. */
  lemma SizeSumUpdate(m: Connections, t: Token, v: set<Socket>)
    ensures SizeSum(m[t := v]) == |v| + SizeSum(m - {t})
    ensures t in m ==> SizeSum(m[t := v]) == SizeSum(m) - |m[t]| + |v|
  {
    SizeSumRemove(m[t := v], t);
    assert m[t := v] - {t} == m - {t};
    if t in m {
      SizeSumRemove(m, t);
    }
  }

  /** Without empty sets, there are at least as many sockets as tokens. */
  lemma {:induction false} TotalAtLeastClients(m: Connections)
    requires NoEmptySets(m)
    ensures SizeSum(m) >= |m|
    decreases |m|
  {
    if m != map[] {
      var t :| t in m;
      SizeSumRemove(m, t);
      assert (m - {t}).Keys == m.Keys - {t};
      TotalAtLeastClients(m - {t});
    }
  }

  /** Connecting a socket adds one to the total unless it was already registered under that token. */
  lemma TotalAfterConnect(m: Connections, t: Token, ws: Socket)
    ensures SizeSum(Added(m, t, ws)) == SizeSum(m) + (if t in m && ws in m[t] then 0 else 1)
  {
    var v := (if t in m then m[t] else {}) + {ws};
    SizeSumUpdate(m, t, v);
    if t !in m {
      assert m - {t} == m;
    }
  }

  /** Removing sockets lowers the total by the number of them that were registered under that token. */
  lemma TotalAfterRemove(m: Connections, t: Token, xs: set<Socket>)
    requires t in m
    ensures SizeSum(RemovedAll(m, t, xs)) == SizeSum(m) - |m[t] * xs|
  {
    SizeSumRemove(m, t);
    assert |m[t] - xs| == |m[t]| - |m[t] * xs| by {
      assert m[t] == (m[t] - xs) + (m[t] * xs);
      assert (m[t] - xs) * (m[t] * xs) == {};
    }
    if m[t] - xs != {} {
      SizeSumUpdate(m, t, m[t] - xs);
    }
  }

  /** `ConnectionManager.active_connections` with its three operations. */
  class ConnectionManager {
    var active: Connections

    ghost predicate Valid()
      reads this
    {
      NoEmptySets(active)
    }

    constructor ()
      ensures Valid() && active == map[]
    {
      active := map[];
    }

    /**
     * `connect`: once the socket has been accepted it joins its token's set.
     * A socket whose accept fails (`accepted` false) raises before anything
     * is registered.
     */
    method Connect(t: Token, ws: Socket, accepted: bool)
      requires Valid()
      modifies this
      ensures Valid()
      ensures active == if accepted then Added(old(active), t, ws) else old(active)
    {
      if accepted {
        if t !in active {
          active := active[t := {}];
        }
        active := active[t := active[t] + {ws}];
      }
    }

    /** `disconnect`: the socket leaves its token's set, and an emptied set is deleted. */
    method Disconnect(t: Token, ws: Socket)
      requires Valid()
      modifies this
      ensures Valid()
      ensures active == Removed(old(active), t, ws)
    {
      if t in active {
        active := active[t := active[t] - {ws}];
        if active[t] == {} {
          active := active - {t};
        }
      }
    }

    /** The cleanup loop of `send_message`: each socket of `xs` is disconnected from `t` in turn. */
    method DisconnectAll(t: Token, xs: set<Socket>)
      requires Valid()
      modifies this
      ensures Valid()
      ensures active == RemovedAll(old(active), t, xs)
    {
      RemovedNone(active, t);
      var rest := xs;
      assert xs - rest == {};
      while rest != {}
        invariant rest <= xs
        invariant Valid()
        invariant active == RemovedAll(old(active), t, xs - rest)
        decreases |rest|
      {
        var ws :| ws in rest;
        RemovedOneMore(old(active), t, xs - rest, ws);
        assert (xs - rest) + {ws} == xs - (rest - {ws});
        Disconnect(t, ws);
        rest := rest - {ws};
      }
      assert xs - rest == xs;
    }

    /**
     * `send_message`: one send per socket of `t`, each succeeding or failing
     * as `ok` says; the failed sockets are gathered while the set is left as
     * it is, then disconnected one at a time. Returns the sockets that failed.
     */
    method SendMessage(t: Token, ok: Socket -> bool) returns (failed: set<Socket>)
      requires Valid()
      modifies this
      ensures Valid()
      ensures failed == Failed(old(active), t, ok)
      ensures active == RemovedAll(old(active), t, failed)
    {
      failed := {};
      if t in active {
        failed := CollectFailed(active[t], ok);
        DisconnectAll(t, failed);
      }
    }
  }
}
