/**
 * The administrator session cache of the server: a map from a session ticket
 * to the moment it expires. Logging in with the administrator password stores
 * a new ticket valid for 24 hours; a ticket is checked lazily, and an expired
 * one is deleted when it is next presented; logging out deletes it.
 * Time is an integer count of seconds supplied by the caller.
 */
module Sessions {
  import opened Common

  /** A session lasts 24 hours. */
  const DAY: int := 86400

  /** The administrator password when the environment does not set one. */
  const DefaultAdminPassword: string := "admin123"

  /** `os.getenv("ADMIN_PASSWORD", "admin123")`. */
  function AdminPassword(env: Option<string>): (p: string)
    ensures env.None? ==> p == DefaultAdminPassword
    ensures env.Some? ==> p == env.value
  {
    match env
    case None => DefaultAdminPassword
    case Some(v) => v
  }

  /** The cookie carried a ticket, and a non-empty one. */
  predicate Presented(ticket: Option<string>) {
    ticket.Some? && ticket.value != ""
  }

  /** Whether `verify_session` accepts the ticket at time `now`. */
  predicate Live(m: map<string, int>, ticket: Option<string>, now: int): (b: bool)
    ensures Presented(ticket) ==> (b <==> ticket.value in AfterVerify(m, ticket, now))
  {
    Presented(ticket) && ticket.value in m && now <= m[ticket.value]
  }

  /** The cache after `verify_session`: an expired ticket that was presented is evicted. */
  function AfterVerify(m: map<string, int>, ticket: Option<string>, now: int): (r: map<string, int>)
    ensures r.Keys <= m.Keys && forall k :: k in r ==> r[k] == m[k]
    ensures Presented(ticket) && ticket.value in m && now > m[ticket.value] ==> r == m - {ticket.value}
    ensures !(Presented(ticket) && ticket.value in m && now > m[ticket.value]) ==> r == m
  {
    if Presented(ticket) && ticket.value in m && now > m[ticket.value] then m - {ticket.value} else m
  }

  /** The cache after `api_logout`. */
  function AfterLogout(m: map<string, int>, ticket: Option<string>): (r: map<string, int>)
    ensures Presented(ticket) ==> r == m - {ticket.value}
    ensures !Presented(ticket) ==> r == m
  {
    if Presented(ticket) && ticket.value in m then m - {ticket.value} else m
  }

  /** A ticket issued at `issued` is accepted exactly up to and including `issued + DAY`. */
  lemma IssuedTicketLifetime(m: map<string, int>, ticket: string, issued: int, now: int)
    requires ticket != ""
    ensures Live(m[ticket := issued + DAY], Some(ticket), now) <==> now <= issued + DAY
    ensures now > issued + DAY ==> ticket !in AfterVerify(m[ticket := issued + DAY], Some(ticket), now)
  {
  }

  /** Checking never extends a ticket's lifetime and an accepted ticket is kept as it was. */
  lemma VerifyKeepsAccepted(m: map<string, int>, ticket: Option<string>, now: int)
    requires Live(m, ticket, now)
    ensures AfterVerify(m, ticket, now) == m
  {
  }

  /** Once a ticket is refused it stays refused, at the same time and at every later one. */
  lemma RefusedStaysRefused(m: map<string, int>, ticket: Option<string>, now: int, later: int)
    requires !Live(m, ticket, now) && now <= later
    ensures !Live(AfterVerify(m, ticket, now), ticket, later)
  {
  }

  /** Checking twice at the same time answers the same and changes nothing more. */
  lemma VerifyIdempotent(m: map<string, int>, ticket: Option<string>, now: int)
    ensures var m1 := AfterVerify(m, ticket, now);
      Live(m1, ticket, now) == Live(m, ticket, now) && AfterVerify(m1, ticket, now) == m1
  {
  }

  /** After logging out, the ticket is refused at any time, and other tickets keep their expiry. */
  lemma LogoutRevokes(m: map<string, int>, ticket: Option<string>, now: int)
    ensures !Live(AfterLogout(m, ticket), ticket, now)
    ensures forall k :: k in m && (ticket.None? || k != ticket.value) ==> k in AfterLogout(m, ticket) && AfterLogout(m, ticket)[k] == m[k]
  {
  }

  /** `active_sessions` with the three operations that touch it. */
  class SessionCache {
    var sessions: map<string, int>
    const adminPassword: string

    constructor (env: Option<string>)
      ensures sessions == map[] && adminPassword == AdminPassword(env)
    {
      sessions := map[];
      adminPassword := AdminPassword(env);
    }

    /** `verify_session(ticket)` at time `now`. */
    method Verify(ticket: Option<string>, now: int) returns (ok: bool)
      modifies this
      ensures ok == Live(old(sessions), ticket, now)
      ensures sessions == AfterVerify(old(sessions), ticket, now)
    {
      if ticket.None? || ticket.value == "" || ticket.value !in sessions {
        return false;
      }
      if now > sessions[ticket.value] {
        sessions := sessions - {ticket.value};
        return false;
      }
      return true;
    }

    /**
     * `api_login`: the right password stores `ticket`, newly drawn,
     * with expiry `now + DAY`; a wrong one stores nothing.
     */
    method Login(password: string, ticket: string, now: int) returns (ok: bool)
      modifies this
      ensures ok == (password == adminPassword)
      ensures sessions == if ok then old(sessions)[ticket := now + DAY] else old(sessions)
    {
      ok := password == adminPassword;
      if ok {
        sessions := sessions[ticket := now + DAY];
      }
    }

    /** `api_logout`: deletes the presented ticket if it is stored. */
    method Logout(ticket: Option<string>)
      modifies this
      ensures sessions == AfterLogout(old(sessions), ticket)
    {
      if ticket.Some? && ticket.value != "" && ticket.value in sessions {
        sessions := sessions - {ticket.value};
      }
    }
  }
}
