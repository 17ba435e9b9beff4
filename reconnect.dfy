/**
 * The browser script's reconnection policy for the webhook WebSocket. The
 * globals are the socket, the pending reconnection timer, the attempt counter
 * (at most 10 attempts), whether reconnecting is enabled and the
 * `url|token` key of the configuration in use. A socket's `onerror` and
 * `onclose` each schedule a reconnection while attempts remain; setting the
 * listener up again resets the counter.
 */
module Reconnect {

  /** `webhook_MAX_RECONNECT_ATTEMPTS`. */
  const MaxAttempts: nat := 10

  /**
   * `webhookReconnectTimer`: null, a scheduled call of
   * `connectwebhookWebSocket(url, token)`, or the handle of a timer that was
   * cancelled or already fired but is still stored (it is truthy all the same).
   */
  datatype Timer = NoTimer | Pending(url: string, token: string) | Stale

  /**
   * The globals. `live` stands for `webhookWS` being a socket that is
   * connecting or open; after `onerror` or `onclose` the script drops it.
   */
  datatype ReconnectState = ReconnectState(live: bool, timer: Timer, attempts: nat, enabled: bool, configKey: string)

  /** `${webhookUrl}|${webhookToken}`. */
  function ConfigKey(url: string, token: string): string {
    url + "|" + token
  }

  /**
   * `connectwebhookWebSocket(url, token)`; `urlOk` is whether the WebSocket
   * address can be built from `url`. A stored timer is cancelled and
   * dropped; a missing URL or token disables reconnecting and closes the
   * socket; a live socket for the same configuration is kept; otherwise the
   * old socket is closed and a new one opened.
   */
  function Connect(st: ReconnectState, url: string, token: string, urlOk: bool): (r: ReconnectState)
    ensures r.attempts == st.attempts && r.timer == NoTimer
  {
    var st1 := st.(timer := NoTimer);
    if url == "" || token == "" then st1.(enabled := false, live := false)
    else if st1.live && st1.configKey == ConfigKey(url, token) then st1
    else st1.(enabled := true, configKey := ConfigKey(url, token), live := urlOk)
  }

  /** The socket's `onerror`: one reconnection is scheduled when enabled, none is stored and attempts remain. */
  function OnError(st: ReconnectState, url: string, token: string): (r: ReconnectState)
    ensures !r.live && st.attempts <= r.attempts <= st.attempts + 1
    ensures r.attempts <= MaxAttempts || r.attempts == st.attempts
  {
    var st1 := st.(live := false);
    if st1.enabled && st1.timer == NoTimer && st1.attempts < MaxAttempts then
      st1.(attempts := st1.attempts + 1, timer := Pending(url, token))
    else st1
  }

  /** The socket's `onclose`: when enabled, a stored timer is cancelled and, while attempts remain, a reconnection is scheduled. */
  function OnClose(st: ReconnectState, url: string, token: string): (r: ReconnectState)
    ensures !r.live && st.attempts <= r.attempts <= st.attempts + 1
    ensures r.attempts <= MaxAttempts || r.attempts == st.attempts
  {
    var st1 := st.(live := false);
    if !st1.enabled then st1
    else
      var st2 := if st1.timer != NoTimer then st1.(timer := Stale) else st1;
      if st2.attempts < MaxAttempts then st2.(attempts := st2.attempts + 1, timer := Pending(url, token))
      else st2
  }

  /** A scheduled reconnection fires: the stored call runs. */
  function Fire(st: ReconnectState, urlOk: bool): (r: ReconnectState)
    ensures r.attempts == st.attempts
    ensures st.timer.Pending? ==> r.timer == NoTimer
  {
    if st.timer.Pending? then Connect(st, st.timer.url, st.timer.token, urlOk) else st
  }

  /** The resets of `initwebhookCatDevice` when disabled or unconfigured. */
  function Stop(st: ReconnectState): (r: ReconnectState)
    ensures r == Initial
  {
    ReconnectState(false, NoTimer, 0, false, "")
  }

  /** `initwebhookCatDevice(enabled, url, token)`. */
  function Init(st: ReconnectState, enabled: bool, url: string, token: string, urlOk: bool): (r: ReconnectState)
    ensures Inv(st) ==> Inv(r)
    ensures Inv(st) && enabled && url != "" && token != "" ==> r.enabled && r.configKey == ConfigKey(url, token)
  {
    if !enabled || url == "" || token == "" then Stop(st)
    else Connect(st.(attempts := 0), url, token, urlOk)
  }

  /** The starting globals. */
  const Initial := ReconnectState(false, NoTimer, 0, false, "")

  /** The counter never exceeds the maximum, and a live socket only exists while reconnecting is enabled. */
  predicate Inv(st: ReconnectState) {
    st.attempts <= MaxAttempts && (st.live ==> st.enabled)
  }

  lemma InitialInv()
    ensures Inv(Initial)
  {
  }

  /** Every event keeps the invariant. */
  lemma EventsKeepInv(st: ReconnectState, url: string, token: string, urlOk: bool, enabled: bool)
    requires Inv(st)
    ensures Inv(Connect(st, url, token, urlOk)) && Inv(OnError(st, url, token)) && Inv(OnClose(st, url, token))
    ensures Inv(Fire(st, urlOk)) && Inv(Init(st, enabled, url, token, urlOk))
  {
  }

  /** `onerror` schedules exactly when enabled, no timer is stored and attempts remain; a scheduled reconnection counts one attempt, and otherwise the counter stays. */
  lemma ErrorCountsOne(st: ReconnectState, url: string, token: string)
    ensures var r := OnError(st, url, token);
      (r.timer == Pending(url, token) && st.timer == NoTimer && r.attempts == st.attempts + 1)
      <==> (st.enabled && st.timer == NoTimer && st.attempts < MaxAttempts)
    ensures var r := OnError(st, url, token);
      !(st.enabled && st.timer == NoTimer && st.attempts < MaxAttempts) ==> r.attempts == st.attempts && r.timer == st.timer
  {
  }

  /** `onclose` schedules exactly when enabled and attempts remain, counting one attempt; otherwise nothing new is scheduled and the counter stays. */
  lemma CloseCountsOne(st: ReconnectState, url: string, token: string)
    ensures var r := OnClose(st, url, token);
      st.enabled && st.attempts < MaxAttempts ==> r.timer == Pending(url, token) && r.attempts == st.attempts + 1
    ensures var r := OnClose(st, url, token);
      !(st.enabled && st.attempts < MaxAttempts) ==> r.attempts == st.attempts && (r.timer == st.timer || r.timer == Stale)
  {
  }

  /** At the maximum, no handler schedules anything (`onclose` only cancels a stored timer) and the counter stays at the maximum. */
  lemma ExhaustedStaysExhausted(st: ReconnectState, url: string, token: string)
    requires st.attempts == MaxAttempts
    ensures var e, c := OnError(st, url, token), OnClose(st, url, token);
      e.attempts == MaxAttempts && e.timer == st.timer && c.attempts == MaxAttempts && (c.timer == st.timer || c.timer == Stale)
  {
  }

  /** Setting up again, or disabling, resets the counter, and disabling leaves nothing scheduled. */
  lemma InitResets(st: ReconnectState, enabled: bool, url: string, token: string, urlOk: bool)
    ensures Init(st, enabled, url, token, urlOk).attempts == 0
    ensures Init(st, enabled, url, token, urlOk).timer == NoTimer
    ensures !enabled ==> !Init(st, enabled, url, token, urlOk).enabled && !Init(st, enabled, url, token, urlOk).live
  {
  }

  /**
   * A socket that fails reports `onerror` and then `onclose`; each schedules
   * a reconnection (the second cancels the first), so one failure uses two
   * of the ten attempts.
   */
  lemma ErrorThenCloseCountsTwo(st: ReconnectState, url: string, token: string)
    requires st.enabled && st.timer == NoTimer && st.attempts + 2 <= MaxAttempts
    ensures var r := OnClose(OnError(st, url, token), url, token);
      r.attempts == st.attempts + 2 && r.timer == Pending(url, token) && !r.live
  {
  }

  /** A socket already connecting or open for the same `url|token` is kept: only the stored timer is dropped, so the connection does not flap. */
  lemma SameConfigKept(st: ReconnectState, url: string, token: string, urlOk: bool)
    requires st.live && url != "" && token != "" && st.configKey == ConfigKey(url, token)
    ensures Connect(st, url, token, urlOk) == st.(timer := NoTimer)
  {
  }

  /** Otherwise, with both values given, reconnecting is enabled for the new configuration and the socket is live exactly when its address could be built. */
  lemma NewConfigOpens(st: ReconnectState, url: string, token: string, urlOk: bool)
    requires url != "" && token != "" && !(st.live && st.configKey == ConfigKey(url, token))
    ensures var r := Connect(st, url, token, urlOk);
      r.enabled && r.configKey == ConfigKey(url, token) && r.live == urlOk
  {
  }

  /** A fired reconnection with a usable address opens a live socket for its configuration, and the counter is not touched. */
  lemma FireReconnects(st: ReconnectState, url: string, token: string)
    requires Inv(st) && st.timer == Pending(url, token) && url != "" && token != ""
    ensures var r := Fire(st, true);
      r.live && r.configKey == ConfigKey(url, token) && r.enabled && r.attempts == st.attempts && r.timer == NoTimer
  {
  }

  /** Without a URL or a token, connecting disables reconnecting: no later `onclose` or `onerror` schedules anything. */
  lemma MissingConfigDisables(st: ReconnectState, url: string, token: string, urlOk: bool, u2: string, t2: string)
    requires url == "" || token == ""
    ensures var r := Connect(st, url, token, urlOk);
      !r.enabled && OnClose(r, u2, t2).timer == NoTimer && OnError(r, u2, t2).timer == NoTimer
  {
  }

  /** The globals as the script keeps them. */
  class Reconnector {
    var live: bool
    var timer: Timer
    var attempts: nat
    var enabled: bool
    var configKey: string

    function State(): ReconnectState
      reads this
    {
      ReconnectState(live, timer, attempts, enabled, configKey)
    }

    constructor ()
      ensures State() == Initial
    {
      live, timer, attempts, enabled, configKey := false, NoTimer, 0, false, "";
    }

    method ConnectSocket(url: string, token: string, urlOk: bool)
      modifies this
      ensures State() == Connect(old(State()), url, token, urlOk)
    {
      if timer != NoTimer {
        timer := NoTimer;
      }
      if url == "" || token == "" {
        enabled := false;
        live := false;
        return;
      }
      var key := ConfigKey(url, token);
      if live && configKey == key {
        return;
      }
      enabled := true;
      configKey := key;
      live := false;
      if urlOk {
        live := true;
      }
    }

    method HandleError(url: string, token: string)
      modifies this
      ensures State() == OnError(old(State()), url, token)
    {
      live := false;
      if enabled && timer == NoTimer && attempts < MaxAttempts {
        attempts := attempts + 1;
        timer := Pending(url, token);
      }
    }

    method HandleClose(url: string, token: string)
      modifies this
      ensures State() == OnClose(old(State()), url, token)
    {
      live := false;
      if !enabled {
        return;
      }
      if timer != NoTimer {
        timer := Stale;
      }
      if attempts < MaxAttempts {
        attempts := attempts + 1;
        timer := Pending(url, token);
      }
    }

    method FireTimer(urlOk: bool)
      modifies this
      ensures State() == Fire(old(State()), urlOk)
    {
      if timer.Pending? {
        ConnectSocket(timer.url, timer.token, urlOk);
      }
    }

    method Setup(enable: bool, url: string, token: string, urlOk: bool)
      modifies this
      ensures State() == Init(old(State()), enable, url, token, urlOk)
    {
      if !enable || url == "" || token == "" {
        enabled := false;
        configKey := "";
        attempts := 0;
        live := false;
        timer := NoTimer;
        return;
      }
      attempts := 0;
      ConnectSocket(url, token, urlOk);
    }
  }
}
