// User sessions and the store that keeps them: lookup, refresh, and throttled expiry.
module Sessions {

  /** Times are in nanoseconds of the steady clock. */
  const SECOND := 1_000_000_000

  const SESSION_TOKEN_SIZE := 20

  const DEFAULT_TIMEOUT := 3600

  datatype Persistence = Timeout | SingleRequest

  datatype Storage = LongTerm | CurrentBmc | CurrentService

  datatype Auth = Auth(xtoken: bool, cookie: bool, sessionToken: bool, basic: bool, tls: bool)

  const DEFAULT_AUTH := Auth(true, true, true, true, false)

  /** What a session holds besides its token. */
  datatype Record = Record(uniqueId: string, username: string, csrfToken: string, clientId: string, clientIp: string,
                           persistence: Persistence, isConfigureSelfOnly: bool, lastUpdated: int, storage: Storage)

  datatype View = View(sessions: map<string, Record>, lastSweep: int, timeout: int, auth: Auth)

  // ---------------------------------------------------------------------------------------------
  // The operations of the store, as functions of what it holds.

  predicate Expired(r: Record, now: int, timeout: int) { now - r.lastUpdated >= timeout * SECOND }

  /** Sessions are expired at most once a second. */
  function Sweep(v: View, now: int): View {
    if now - v.lastSweep > SECOND then
      v.(lastSweep := now,
         sessions := map k | k in v.sessions && !Expired(v.sessions[k], now, v.timeout) :: v.sessions[k])
    else v
  }

  predicate Found(v: View, token: string, now: int) {
    |token| == SESSION_TOKEN_SIZE && token in Sweep(v, now).sessions
  }

  function Login(v: View, token: string, now: int): View {
    var swept := Sweep(v, now);
    if Found(v, token, now) then
      swept.(sessions := swept.sessions[token := swept.sessions[token].(lastUpdated := now)])
    else swept
  }

  /** A token that is there already keeps its session. */
  function Emplace(sessions: map<string, Record>, token: string, r: Record): map<string, Record> {
    if token in sessions then sessions else sessions[token := r]
  }

  class UserSession {
    const uniqueId: string
    const sessionToken: string
    const username: string
    const csrfToken: string
    const clientId: string
    const clientIp: string
    const persistence: Persistence
    const isConfigureSelfOnly: bool
    var lastUpdated: int
    var storageType: Storage

    constructor (sessionToken: string, r: Record)
      ensures this.sessionToken == sessionToken && Contents() == r
    {
      this.sessionToken := sessionToken;
      uniqueId, username, csrfToken := r.uniqueId, r.username, r.csrfToken;
      clientId, clientIp, persistence := r.clientId, r.clientIp, r.persistence;
      isConfigureSelfOnly, lastUpdated, storageType := r.isConfigureSelfOnly, r.lastUpdated, r.storage;
    }

    function Contents(): Record
      reads this
    {
      Record(uniqueId, username, csrfToken, clientId, clientIp, persistence, isConfigureSelfOnly, lastUpdated, storageType)
    }
  }

  class SessionStore {
    var authTokens: map<string, UserSession>
    var lastTimeoutUpdate: int
    var timeoutInSeconds: int
    var authMethodsConfig: Auth

    /** Every key is the token of its session; so no session stands under two keys. */
    ghost predicate Valid()
      reads this
    {
      forall k | k in authTokens :: authTokens[k].sessionToken == k
    }

    ghost function Contents(): View
      reads this, authTokens.Values
    {
      View(map k | k in authTokens :: authTokens[k].Contents(), lastTimeoutUpdate, timeoutInSeconds, authMethodsConfig)
    }

    constructor ()
      ensures Valid() && Contents() == View(map[], 0, DEFAULT_TIMEOUT, DEFAULT_AUTH)
      ensures authTokens == map[]
    {
      authTokens, lastTimeoutUpdate, timeoutInSeconds, authMethodsConfig := map[], 0, DEFAULT_TIMEOUT, DEFAULT_AUTH;
    }

    method ApplySessionTimeouts(timeNow: int)
      requires Valid()
      modifies this
      ensures Valid() && authTokens.Values <= old(authTokens.Values)
      ensures Contents() == Sweep(old(Contents()), timeNow)
    {
      if timeNow - lastTimeoutUpdate > SECOND {
        lastTimeoutUpdate := timeNow;
        EraseExpired(timeNow);
      }
    }

    method EraseExpired(timeNow: int)
      modifies this`authTokens
      ensures authTokens.Keys <= old(authTokens).Keys
      ensures forall k | k in authTokens :: authTokens[k] == old(authTokens)[k]
      ensures forall k | k in old(authTokens) ::
                k in authTokens <==> timeNow - old(authTokens)[k].lastUpdated < timeoutInSeconds * SECOND
    {
      var rest := authTokens.Keys;
      while rest != {}
        invariant rest <= authTokens.Keys <= old(authTokens).Keys
        invariant forall k | k in authTokens :: authTokens[k] == old(authTokens)[k]
        invariant forall k | k in old(authTokens) && k !in rest ::
                    k in authTokens <==> timeNow - old(authTokens)[k].lastUpdated < timeoutInSeconds * SECOND
        decreases |rest|
      {
        var k :| k in rest;
        if timeNow - authTokens[k].lastUpdated >= timeoutInSeconds * SECOND {
          authTokens := authTokens - {k};
        }
        rest := rest - {k};
      }
    }

    method GetSessionByUid(uid: string, timeNow: int) returns (session: UserSession?)
      requires Valid()
      modifies this
      ensures Valid() && Contents() == Sweep(old(Contents()), timeNow)
      ensures session == null ==> forall k | k in authTokens :: authTokens[k].uniqueId != uid
      ensures session != null ==> session in authTokens.Values && session.uniqueId == uid
    {
      ApplySessionTimeouts(timeNow);
      var rest := authTokens.Keys;
      while rest != {}
        invariant rest <= authTokens.Keys
        invariant forall k | k in authTokens && k !in rest :: authTokens[k].uniqueId != uid
        decreases |rest|
      {
        var k :| k in rest;
        if authTokens[k].uniqueId == uid {
          return authTokens[k];
        }
        rest := rest - {k};
      }
      return null;
    }

    method LoginSessionByToken(token: string, timeNow: int) returns (session: UserSession?)
      requires Valid()
      modifies this, authTokens.Values
      ensures Valid() && authTokens.Values <= old(authTokens.Values)
      ensures session != null <==> Found(old(Contents()), token, timeNow)
      ensures session != null ==> token in authTokens && authTokens[token] == session && session.lastUpdated == timeNow
      ensures Contents() == Login(old(Contents()), token, timeNow)
    {
      ApplySessionTimeouts(timeNow);
      if |token| != SESSION_TOKEN_SIZE {
        return null;
      }
      if token !in authTokens {
        return null;
      }
      session := authTokens[token];
      session.lastUpdated := timeNow;
    }

    /** A new session, its random parts given. A token already in use keeps its old session, which
        is the one returned. */
    method GenerateUserSession(sessionToken: string, r: Record) returns (session: UserSession)
      requires Valid()
      modifies this
      ensures Valid() && sessionToken in authTokens && session == authTokens[sessionToken]
      ensures Contents() == old(Contents()).(sessions := Emplace(old(Contents()).sessions, sessionToken, r))
    {
      var created := new UserSession(sessionToken, r);
      Restore(created);
      session := authTokens[sessionToken];
    }

    method Restore(session: UserSession)
      requires Valid()
      modifies this
      ensures Valid()
      ensures authTokens == if session.sessionToken in old(authTokens) then old(authTokens)
                            else old(authTokens)[session.sessionToken := session]
      ensures Contents() ==
              old(Contents()).(sessions := Emplace(old(Contents()).sessions, session.sessionToken, session.Contents()))
    {
      if session.sessionToken !in authTokens {
        authTokens := authTokens[session.sessionToken := session];
      }
    }

    method RemoveSession(session: UserSession)
      requires Valid()
      modifies this
      ensures Valid()
      ensures Contents() == old(Contents()).(sessions := old(Contents()).sessions - {session.sessionToken})
    {
      authTokens := authTokens - {session.sessionToken};
    }

    method UpdateSessionTimeout(newTimeoutInSeconds: int)
      requires Valid()
      modifies this`timeoutInSeconds
      ensures Valid() && Contents() == old(Contents()).(timeout := newTimeoutInSeconds)
    {
      timeoutInSeconds := newTimeoutInSeconds;
    }
  }

  // ---------------------------------------------------------------------------------------------
  // Runs.

  datatype Event =
    | LoginByToken(token: string)
    | LookUp                                 // any other query that expires sessions first
    | Add(token: string, r: Record)          // a new or restored session
    | Remove(token: string)
    | SetTimeout(timeout: int)

  /** The store, and the timeout that was in force when it last expired sessions. */
  datatype Moment = Moment(store: View, sweptWith: int)

  function SweptWith(m: Moment, now: int): int {
    if now - m.store.lastSweep > SECOND then m.store.timeout else m.sweptWith
  }

  function Next(m: Moment, now: int, e: Event): Moment {
    match e
    case LoginByToken(token) => Moment(Login(m.store, token, now), SweptWith(m, now))
    case LookUp => Moment(Sweep(m.store, now), SweptWith(m, now))
    case Add(token, r) =>
      m.(store := m.store.(sessions := Emplace(m.store.sessions, token, r.(lastUpdated := now))))
    case Remove(token) => m.(store := m.store.(sessions := m.store.sessions - {token}))
    case SetTimeout(timeout) => m.(store := m.store.(timeout := timeout))
  }

  datatype Timed = Timed(now: int, event: Event)

  predicate IsRun(moments: seq<Moment>, events: seq<Timed>) {
    && |moments| == |events| + 1
    && moments[0] == Moment(View(map[], 0, DEFAULT_TIMEOUT, DEFAULT_AUTH), DEFAULT_TIMEOUT)
    && (forall i | 0 <= i < |events| :: moments[i + 1] == Next(moments[i], events[i].now, events[i].event))
    && (forall i | 0 <= i < |events| :: 0 <= events[i].now)
    && (forall i, j | 0 <= i < j < |events| :: events[i].now <= events[j].now)
  }

  /** Each session was updated after the last sweep, or passed it. */
  predicate Kept(m: Moment, now: int) {
    && m.store.lastSweep <= now
    && forall k | k in m.store.sessions ::
         var r := m.store.sessions[k];
         r.lastUpdated <= now &&
         (m.store.lastSweep <= r.lastUpdated || m.store.lastSweep - r.lastUpdated < m.sweptWith * SECOND)
  }

  lemma NextKeeps(m: Moment, before: int, now: int, e: Event)
    requires Kept(m, before) && before <= now
    ensures Kept(Next(m, now, e), now)
  {
  }

  lemma {:induction false} RunKeeps(moments: seq<Moment>, events: seq<Timed>, n: nat)
    requires IsRun(moments, events) && n <= |events|
    ensures Kept(moments[n], if n == 0 then 0 else events[n - 1].now)
    decreases n
  {
    if n > 0 {
      RunKeeps(moments, events, n - 1);
      NextKeeps(moments[n - 1], if n == 1 then 0 else events[n - 2].now, events[n - 1].now, events[n - 1].event);
    }
  }

  /** In any run, a session found by its token had been idle for less than the timeout in force at the
      last sweep and one second more, or for no more than that second. */
  lemma IdleIsBounded(moments: seq<Moment>, events: seq<Timed>, n: nat)
    requires IsRun(moments, events) && n < |events| && events[n].event.LoginByToken?
    requires Found(moments[n].store, events[n].event.token, events[n].now)
    ensures var idle := events[n].now - moments[n].store.sessions[events[n].event.token].lastUpdated;
            var timeout := moments[n + 1].sweptWith;
            && (idle < timeout * SECOND + SECOND || idle <= SECOND)
            && (timeout > 0 ==> idle < timeout * SECOND + SECOND)
  {
    RunKeeps(moments, events, n);
  }

  /** The bound is sharp: one nanosecond less is reached, for any timeout above a second. */
  lemma BoundIsSharp(timeout: int, token: string, r: Record) returns (moments: seq<Moment>, events: seq<Timed>)
    requires timeout > 1 && |token| == SESSION_TOKEN_SIZE
    ensures IsRun(moments, events) && |events| == 4 && events[3].event == LoginByToken(token)
    ensures Found(moments[3].store, token, events[3].now)
    ensures moments[4].sweptWith == timeout
    ensures events[3].now - moments[3].store.sessions[token].lastUpdated == timeout * SECOND + SECOND - 1
  {
    events := [Timed(0, SetTimeout(timeout)), Timed(0, Add(token, r)),
               Timed(timeout * SECOND - 1, LookUp), Timed(timeout * SECOND + SECOND - 1, LoginByToken(token))];
    var m0 := Moment(View(map[], 0, DEFAULT_TIMEOUT, DEFAULT_AUTH), DEFAULT_TIMEOUT);
    var m1 := Next(m0, events[0].now, events[0].event);
    var m2 := Next(m1, events[1].now, events[1].event);
    var m3 := Next(m2, events[2].now, events[2].event);
    moments := [m0, m1, m2, m3, Next(m3, events[3].now, events[3].event)];
  }

  /** A session is never expired early: one that a run drops without being told to had been idle for
      the whole timeout. */
  lemma OnlyIdleSessionsExpire(moments: seq<Moment>, events: seq<Timed>, n: nat, token: string)
    requires IsRun(moments, events) && n < |events|
    requires token in moments[n].store.sessions && token !in moments[n + 1].store.sessions
    ensures events[n].event == Remove(token) ||
            Expired(moments[n].store.sessions[token], events[n].now, moments[n].store.timeout)
  {
    assert moments[n + 1] == Next(moments[n], events[n].now, events[n].event);
  }

  // ---------------------------------------------------------------------------------------------
  // Active sessions stay.

  /** A login that finds the token makes now the time of its session's last update, and leaves the rest of that
      session, and what the sweep leaves of the others, as they were. */
  lemma LoginRefreshes(v: View, token: string, now: int)
    requires |token| == 20 && token in Sweep(v, now).sessions
    ensures var before, after := Sweep(v, now).sessions, Login(v, token, now).sessions;
            && after.Keys == before.Keys
            && after[token].lastUpdated == now
            && after[token] == before[token].(lastUpdated := now)
            && forall k | k in before && k != token :: after[k] == before[k]
  {
  }

  /** A session that is there is updated no earlier than some time. */
  predicate UpdatedSince(v: View, token: string, since: int) {
    token in v.sessions && v.sessions[token].lastUpdated >= since
  }

  /** Leaves a session and the timeout as they are. */
  predicate Spares(e: Event, token: string) { e != Remove(token) && !e.SetTimeout? }

  lemma SparedStays(m: Moment, now: int, e: Event, token: string, since: int)
    requires UpdatedSince(m.store, token, since) && Spares(e, token) && since <= now
    requires now - since < m.store.timeout * 1_000_000_000
    ensures UpdatedSince(Next(m, now, e).store, token, since) && Next(m, now, e).store.timeout == m.store.timeout
  {
  }

  lemma {:induction false} SparedUpTo(moments: seq<Moment>, events: seq<Timed>, from: nat, n: nat, token: string, since: int)
    requires IsRun(moments, events) && from <= n <= |events|
    requires UpdatedSince(moments[from].store, token, since)
    requires forall i | from <= i < n :: Spares(events[i].event, token)
    requires forall i | from <= i < n :: since <= events[i].now < since + moments[from].store.timeout * 1_000_000_000
    ensures UpdatedSince(moments[n].store, token, since) && moments[n].store.timeout == moments[from].store.timeout
    decreases n
  {
    if n > from {
      SparedUpTo(moments, events, from, n - 1, token, since);
      assert moments[n] == Next(moments[n - 1], events[n - 1].now, events[n - 1].event);
      SparedStays(moments[n - 1], events[n - 1].now, events[n - 1].event, token, since);
    }
  }

  /** A new session under a free token, or a login that finds one. */
  predicate Starts(m: Moment, t: Timed, token: string) {
    match t.event
    case LoginByToken(other) => other == token && Found(m.store, token, t.now)
    case Add(other, _) => other == token && token !in m.store.sessions
    case _ => false
  }

  /** In any run, a session that was just added or found is found at a later login if less than the timeout has
      passed, it has not been removed, and the timeout has not been changed in between. */
  lemma ActiveIsFound(moments: seq<Moment>, events: seq<Timed>, n: nat, m: nat, token: string)
    requires IsRun(moments, events) && n < m < |events| && |token| == 20
    requires Starts(moments[n], events[n], token) && events[m].event == LoginByToken(token)
    requires forall i | n < i < m :: Spares(events[i].event, token)
    requires events[m].now - events[n].now < moments[n].store.timeout * 1_000_000_000
    ensures Found(moments[m].store, token, events[m].now)
  {
    assert moments[n + 1] == Next(moments[n], events[n].now, events[n].event);
    SparedUpTo(moments, events, n + 1, m, token, events[n].now);
  }

  /** With the timeout that a store starts with that is an hour. */
  lemma ActiveIsFoundWithinAnHour(moments: seq<Moment>, events: seq<Timed>, n: nat, m: nat, token: string)
    requires IsRun(moments, events) && n < m < |events| && |token| == 20
    requires Starts(moments[n], events[n], token) && events[m].event == LoginByToken(token)
    requires (forall i | n < i < m :: Spares(events[i].event, token)) && forall i | 0 <= i < n :: !events[i].event.SetTimeout?
    requires events[m].now - events[n].now < 3600 * 1_000_000_000
    ensures Found(moments[m].store, token, events[m].now)
  {
    TimeoutStays(moments, events, n);
    ActiveIsFound(moments, events, n, m, token);
  }

  lemma {:induction false} TimeoutStays(moments: seq<Moment>, events: seq<Timed>, n: nat)
    requires IsRun(moments, events) && n <= |events| && forall i | 0 <= i < n :: !events[i].event.SetTimeout?
    ensures moments[n].store.timeout == 3600
    decreases n
  {
    if n > 0 {
      TimeoutStays(moments, events, n - 1);
      assert moments[n] == Next(moments[n - 1], events[n - 1].now, events[n - 1].event);
    }
  }
}
