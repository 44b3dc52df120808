/** The identity service's rows (platform/ithute-auth/app/models.py), and what its flush hook does to them before they
    are written. Times are in seconds. */
module AuthTables {
  import opened Collections

  type UserId = nat
  type ClientId = string
  type SessionId = nat
  type Token = string

  datatype User = User(isActive: bool)

  datatype Application = Application(isActive: bool, redirects: set<string>)

  datatype AuthMethod = Password | Passkey

  /** Refresh tokens and codes are stored as digests; digests are taken to be injective, so rows show the token. */
  datatype AuthSession = AuthSession(user: UserId, client: ClientId, token: Token, expiresAt: nat, authMethod: AuthMethod,
                                     device: Option<nat>, lastSeenAt: nat, revokedAt: Option<nat>, reason: Option<string>)

  datatype Code = Code(user: UserId, client: ClientId, redirect: string, challenge: string, authMethod: AuthMethod,
                       expiresAt: nat, consumedAt: Option<nat>)

  datatype Event =
    | AccountSwitched(user: UserId, active: bool)
    | ApplicationSwitched(client: ClientId, active: bool)
    | SessionRevoked(session: SessionId, owner: UserId, relyingParty: ClientId, at: nat, reason: string)

  /** `issued` collects every refresh token ever handed out. */
  datatype Tables = Tables(users: map<UserId, User>, applications: map<ClientId, Application>,
                           sessions: map<SessionId, AuthSession>, codes: map<string, Code>, outbox: multiset<Event>,
                           issued: set<Token>)

  /** A row the ORM may list as dirty. */
  datatype Object = UserObject(user: UserId) | ApplicationObject(client: ClientId) | SessionObject(session: SessionId)

  predicate IsLive(t: Tables, s: SessionId) {
    s in t.sessions && t.sessions[s].revokedAt.None?
  }

  predicate IsRevoked(t: Tables, s: SessionId) {
    s in t.sessions && t.sessions[s].revokedAt.Some?
  }

  function Revoked(row: AuthSession, at: nat, reason: Option<string>): AuthSession {
    row.(revokedAt := Some(at), reason := reason)
  }

  /** The session.revoked event that describes a revoked row. */
  function EventOf(s: SessionId, row: AuthSession): Event
    requires row.revokedAt.Some?
  {
    SessionRevoked(s, row.user, row.client, row.revokedAt.value, if row.reason.None? then "revoked" else row.reason.value)
  }

  // ----- The hook -----

  predicate InScope(row: AuthSession, scope: Object) {
    match scope
    case UserObject(u) => row.user == u
    case ApplicationObject(c) => row.client == c
    case SessionObject(_) => false
  }

  /** The unrevoked sessions of a user or an application, as stored. */
  function Query(stored: Tables, scope: Object): set<SessionId> {
    set s | s in stored.sessions && stored.sessions[s].revokedAt.None? && InScope(stored.sessions[s], scope)
  }

  /** Revoking, in memory, those of `ids` that are not revoked yet. */
  function RevokeRows(sessions: map<SessionId, AuthSession>, ids: set<SessionId>, at: nat, reason: Option<string>)
      : map<SessionId, AuthSession> {
    map s | s in sessions ::
      if s in ids && sessions[s].revokedAt.None? then Revoked(sessions[s], at, reason) else sessions[s]
  }

  function Announcements(sessions: map<SessionId, AuthSession>, ids: set<SessionId>, at: nat, reason: Option<string>)
      : set<Event> {
    set s | s in ids && s in sessions && sessions[s].revokedAt.None? :: EventOf(s, Revoked(sessions[s], at, reason))
  }

  /** _revoke_scope_sessions. */
  function Sweep(rows: Tables, ids: set<SessionId>, at: nat, reason: string): Tables {
    rows.(sessions := RevokeRows(rows.sessions, ids, at, Some(reason)),
          outbox := rows.outbox + multiset(Announcements(rows.sessions, ids, at, Some(reason))))
  }

  predicate IsActive(t: Tables, scope: Object) {
    match scope
    case UserObject(u) => u in t.users && t.users[u].isActive
    case ApplicationObject(c) => c in t.applications && t.applications[c].isActive
    case SessionObject(_) => false
  }

  predicate Exists(t: Tables, o: Object) {
    match o
    case UserObject(u) => u in t.users
    case ApplicationObject(c) => c in t.applications
    case SessionObject(s) => s in t.sessions
  }

  /** The row exists already and its activity changed. */
  predicate IsSwitched(stored: Tables, rows: Tables, scope: Object) {
    Exists(stored, scope) && Exists(rows, scope) && IsActive(stored, scope) != IsActive(rows, scope)
  }

  function SwitchEvent(rows: Tables, scope: Object): Event
    requires !scope.SessionObject?
  {
    match scope
    case UserObject(u) => AccountSwitched(u, IsActive(rows, scope))
    case ApplicationObject(c) => ApplicationSwitched(c, IsActive(rows, scope))
  }

  function DisabledReason(scope: Object): string {
    if scope.UserObject? then "account disabled" else "application disabled"
  }

  predicate IsNewlyRevoked(stored: Tables, rows: Tables, s: SessionId) {
    IsRevoked(rows, s) && s in stored.sessions && stored.sessions[s].revokedAt != rows.sessions[s].revokedAt
  }

  /** One round of the hook's loop. */
  function Visit(stored: Tables, rows: Tables, o: Object, now: nat): Tables {
    if o.SessionObject? then
      if IsNewlyRevoked(stored, rows, o.session) then
        rows.(outbox := rows.outbox + multiset{EventOf(o.session, rows.sessions[o.session])})
      else rows
    else if !IsSwitched(stored, rows, o) then rows
    else
      var told := rows.(outbox := rows.outbox + multiset{SwitchEvent(rows, o)});
      if IsActive(rows, o) then told else Sweep(told, Query(stored, o), now, DisabledReason(o))
  }

  /** The rows after the hook went through a list of dirty objects. */
  function Hook(stored: Tables, rows: Tables, dirty: seq<Object>, now: nat): Tables {
    if dirty == [] then rows
    else Visit(stored, Hook(stored, rows, dirty[..|dirty| - 1], now), dirty[|dirty| - 1], now)
  }

  /** The hook disables the owner of `s` when it comes to `o`. */
  predicate Disables(stored: Tables, rows: Tables, o: Object, s: SessionId) {
    IsSwitched(stored, rows, o) && !IsActive(rows, o) && s in stored.sessions && InScope(stored.sessions[s], o)
  }

  /** The hook itself revokes `s`. */
  predicate IsSwept(stored: Tables, rows: Tables, dirty: seq<Object>, s: SessionId) {
    IsLive(stored, s) && IsLive(rows, s) && exists o :: o in dirty && Disables(stored, rows, o, s)
  }

  /** How often the loop reaches `s` itself and finds it newly revoked. */
  function Reports(stored: Tables, rows: Tables, dirty: seq<Object>, s: SessionId): nat {
    if dirty == [] then 0
    else
      var front := dirty[..|dirty| - 1];
      var found := dirty[|dirty| - 1] == SessionObject(s) && (IsNewlyRevoked(stored, rows, s) || IsSwept(stored, rows, front, s));
      Reports(stored, rows, front, s) + if found then 1 else 0
  }

  predicate IsSweptRow(row: AuthSession, row': AuthSession, now: nat) {
    row' == Revoked(row, now, Some("account disabled")) || row' == Revoked(row, now, Some("application disabled"))
  }

  /** How the rows stand after the hook went through `dirty`. */
  ghost predicate IsOutcome(stored: Tables, rows: Tables, dirty: seq<Object>, now: nat, after: Tables) {
    && after == rows.(sessions := after.sessions, outbox := after.outbox)
    && after.sessions.Keys == rows.sessions.Keys
    && (forall s :: s in rows.sessions ==>
          if IsSwept(stored, rows, dirty, s) then IsSweptRow(rows.sessions[s], after.sessions[s], now)
          else after.sessions[s] == rows.sessions[s])
    && (forall e: Event :: e.SessionRevoked? ==>
          after.outbox[e] == rows.outbox[e] + Repetitions(stored, rows, dirty, after, e))
  }

  /** How many copies of a session.revoked event the hook adds. */
  function Repetitions(stored: Tables, rows: Tables, dirty: seq<Object>, after: Tables, e: Event): nat
    requires e.SessionRevoked?
  {
    if IsRevoked(after, e.session) && e == EventOf(e.session, after.sessions[e.session]) then
      (if IsSwept(stored, rows, dirty, e.session) then 1 else 0) + Reports(stored, rows, dirty, e.session)
    else 0
  }

  lemma {:induction false} HookOutcome(stored: Tables, rows: Tables, dirty: seq<Object>, now: nat)
    ensures IsOutcome(stored, rows, dirty, now, Hook(stored, rows, dirty, now))
  {
    if dirty != [] {
      var front, o := dirty[..|dirty| - 1], dirty[|dirty| - 1];
      var before := Hook(stored, rows, front, now);
      HookOutcome(stored, rows, front, now);
      assert IsOutcome(stored, rows, dirty, now, Visit(stored, before, o, now)) by {
        VisitOutcome(stored, rows, front, o, now, before);
        assert dirty == front + [o];
      }
    }
  }

  /** Adding an object to the list sweeps the sessions it disables, and no others. */
  lemma SweptByNext(stored: Tables, rows: Tables, front: seq<Object>, o: Object, s: SessionId)
    ensures IsSwept(stored, rows, front + [o], s) <==>
      IsSwept(stored, rows, front, s) || (IsLive(stored, s) && IsLive(rows, s) && Disables(stored, rows, o, s))
  {
    var dirty := front + [o];
    if IsLive(rows, s) && IsLive(stored, s) && Disables(stored, rows, o, s) {
      assert o in dirty;
    }
    if IsSwept(stored, rows, front, s) {
      var p :| p in front && Disables(stored, rows, p, s);
      assert p in dirty;
    }
  }

  lemma VisitOutcome(stored: Tables, rows: Tables, front: seq<Object>, o: Object, now: nat, before: Tables)
    requires IsOutcome(stored, rows, front, now, before)
    ensures IsOutcome(stored, rows, front + [o], now, Visit(stored, before, o, now))
  {
    if o.SessionObject? || !IsSwitched(stored, rows, o) || IsActive(rows, o) {
      ListOutcome(stored, rows, front, o, now, before);
    } else {
      SweepOutcome(stored, rows, front, o, now, before);
    }
  }

  lemma ListOutcome(stored: Tables, rows: Tables, front: seq<Object>, o: Object, now: nat, before: Tables)
    requires IsOutcome(stored, rows, front, now, before)
    requires o.SessionObject? || !IsSwitched(stored, rows, o) || IsActive(rows, o)
    ensures IsOutcome(stored, rows, front + [o], now, Visit(stored, before, o, now))
  {
    var dirty := front + [o];
    var after := Visit(stored, before, o, now);
    assert IsSwitched(stored, before, o) == IsSwitched(stored, rows, o) && IsActive(before, o) == IsActive(rows, o);
    assert after == before.(outbox := after.outbox);
    forall s | s in rows.sessions
      ensures IsSwept(stored, rows, dirty, s) == IsSwept(stored, rows, front, s)
    {
      SweptByNext(stored, rows, front, o, s);
    }
    forall e: Event | e.SessionRevoked?
      ensures after.outbox[e] == rows.outbox[e] + Repetitions(stored, rows, dirty, after, e)
    {
      ListEvent(stored, rows, front, o, now, before, e);
    }
  }

  lemma ListEvent(stored: Tables, rows: Tables, front: seq<Object>, o: Object, now: nat, before: Tables, e: Event)
    requires IsOutcome(stored, rows, front, now, before) && e.SessionRevoked?
    requires o.SessionObject? || !IsSwitched(stored, rows, o) || IsActive(rows, o)
    requires e.session in rows.sessions ==> IsSwept(stored, rows, front + [o], e.session) == IsSwept(stored, rows, front, e.session)
    ensures var after := Visit(stored, before, o, now);
      after.outbox[e] == rows.outbox[e] + Repetitions(stored, rows, front + [o], after, e)
  {
    var dirty := front + [o];
    assert dirty[..|dirty| - 1] == front && dirty[|dirty| - 1] == o;
    assert IsSwitched(stored, before, o) == IsSwitched(stored, rows, o) && IsActive(before, o) == IsActive(rows, o);
    assert Reports(stored, rows, dirty, e.session) == Reports(stored, rows, front, e.session) +
      if o == SessionObject(e.session) && IsNewlyRevoked(stored, before, e.session) then 1 else 0;
  }

  /** A sweep announces each session it revokes once, and nothing else about sessions. */
  lemma SweepAnnouncesOnce(rows: Tables, ids: set<SessionId>, at: nat, reason: string, e: Event)
    requires e.SessionRevoked?
    ensures Sweep(rows, ids, at, reason).outbox[e] == rows.outbox[e] +
      if e.session in ids && IsLive(rows, e.session) && e == EventOf(e.session, Revoked(rows.sessions[e.session], at, Some(reason)))
      then 1 else 0
  {
  }

  lemma {:induction false} NothingToReport(stored: Tables, rows: Tables, dirty: seq<Object>, s: SessionId)
    requires !IsNewlyRevoked(stored, rows, s) && !IsSwept(stored, rows, dirty, s)
    ensures Reports(stored, rows, dirty, s) == 0
  {
    if dirty != [] {
      var front, o := dirty[..|dirty| - 1], dirty[|dirty| - 1];
      assert dirty == front + [o];
      SweptByNext(stored, rows, front, o, s);
      NothingToReport(stored, rows, front, s);
    }
  }

  lemma SweepRepetitions(stored: Tables, rows: Tables, front: seq<Object>, o: Object, before: Tables, after: Tables, e: Event)
    requires e.SessionRevoked? && !o.SessionObject?
    requires var s := e.session;
      && before.sessions.Keys == rows.sessions.Keys == after.sessions.Keys
      && (s in rows.sessions && !IsSwept(stored, rows, front, s) ==> before.sessions[s] == rows.sessions[s])
      && (IsSwept(stored, rows, front, s) ==> IsRevoked(before, s))
    requires var s := e.session;
      if s in before.sessions && IsLive(before, s) && IsLive(stored, s) && Disables(stored, rows, o, s)
      then IsRevoked(after, s) && !IsSwept(stored, rows, front, s) && IsSwept(stored, rows, front + [o], s)
      else s in before.sessions ==>
        after.sessions[s] == before.sessions[s] && IsSwept(stored, rows, front + [o], s) == IsSwept(stored, rows, front, s)
    ensures Repetitions(stored, rows, front + [o], after, e) == Repetitions(stored, rows, front, before, e) +
      if IsLive(before, e.session) && IsRevoked(after, e.session) && e == EventOf(e.session, after.sessions[e.session])
      then 1 else 0
  {
    var s, dirty := e.session, front + [o];
    assert dirty[..|dirty| - 1] == front && dirty[|dirty| - 1] == o;
    if IsLive(before, s) && IsLive(stored, s) && Disables(stored, rows, o, s) {
      NothingToReport(stored, rows, front, s);
    }
  }

  /** What sweeping the scope of `o` does to one row. */
  lemma SweepRow(stored: Tables, rows: Tables, front: seq<Object>, o: Object, now: nat, before: Tables, s: SessionId)
    requires IsOutcome(stored, rows, front, now, before) && s in rows.sessions
    requires !o.SessionObject? && IsSwitched(stored, rows, o) && !IsActive(rows, o)
    ensures var row, dirty := RevokeRows(before.sessions, Query(stored, o), now, Some(DisabledReason(o)))[s], front + [o];
      if IsLive(before, s) && IsLive(stored, s) && Disables(stored, rows, o, s)
      then IsSweptRow(rows.sessions[s], row, now) && !IsSwept(stored, rows, front, s) && IsSwept(stored, rows, dirty, s)
      else row == before.sessions[s] && IsSwept(stored, rows, dirty, s) == IsSwept(stored, rows, front, s)
  {
    SweptByNext(stored, rows, front, o, s);
  }

  lemma SweepOutcome(stored: Tables, rows: Tables, front: seq<Object>, o: Object, now: nat, before: Tables)
    requires IsOutcome(stored, rows, front, now, before)
    requires !o.SessionObject? && IsSwitched(stored, rows, o) && !IsActive(rows, o)
    ensures IsOutcome(stored, rows, front + [o], now, Visit(stored, before, o, now))
  {
    var dirty, ids, reason := front + [o], Query(stored, o), DisabledReason(o);
    assert IsSwitched(stored, before, o) && !IsActive(before, o);
    var told := before.(outbox := before.outbox + multiset{SwitchEvent(before, o)});
    var after := Sweep(told, ids, now, reason);
    assert after == Visit(stored, before, o, now);
    forall s | s in rows.sessions
      ensures if IsSwept(stored, rows, dirty, s) then IsSweptRow(rows.sessions[s], after.sessions[s], now)
        else after.sessions[s] == rows.sessions[s]
    {
      SweepRow(stored, rows, front, o, now, before, s);
    }
    forall e: Event | e.SessionRevoked?
      ensures after.outbox[e] == rows.outbox[e] + Repetitions(stored, rows, dirty, after, e)
    {
      SweepEvent(stored, rows, front, o, now, before, e);
    }
  }

  lemma SweepEvent(stored: Tables, rows: Tables, front: seq<Object>, o: Object, now: nat, before: Tables, e: Event)
    requires IsOutcome(stored, rows, front, now, before) && e.SessionRevoked?
    requires !o.SessionObject? && IsSwitched(stored, rows, o) && !IsActive(rows, o)
    ensures var told := before.(outbox := before.outbox + multiset{SwitchEvent(before, o)});
      var after := Sweep(told, Query(stored, o), now, DisabledReason(o));
      after.outbox[e] == rows.outbox[e] + Repetitions(stored, rows, front + [o], after, e)
  {
    var told := before.(outbox := before.outbox + multiset{SwitchEvent(before, o)});
    var after := Sweep(told, Query(stored, o), now, DisabledReason(o));
    if e.session in rows.sessions {
      SweepRow(stored, rows, front, o, now, before, e.session);
    }
    SweepAnnouncesOnce(told, Query(stored, o), now, DisabledReason(o), e);
    SweepRepetitions(stored, rows, front, o, before, after, e);
  }

  // ----- Reasons, and the other events -----

  /** What one round of the loop does to one row. */
  lemma VisitRow(stored: Tables, rows: Tables, before: Tables, o: Object, now: nat, s: SessionId)
    requires s in before.sessions && before.users == rows.users && before.applications == rows.applications
    ensures var after := Visit(stored, before, o, now);
      s in after.sessions && after.sessions[s] ==
        if !o.SessionObject? && Disables(stored, rows, o, s) && IsLive(stored, s) && IsLive(before, s)
        then before.sessions[s].(revokedAt := Some(now), reason := Some(DisabledReason(o))) else before.sessions[s]
  {
    if !o.SessionObject? {
      assert IsSwitched(stored, before, o) == IsSwitched(stored, rows, o) && IsActive(before, o) == IsActive(rows, o);
    }
  }

  /** A session the hook revokes carries the reason of the first of its owners that the list disables. */
  lemma {:induction false} SweptByFirst(stored: Tables, rows: Tables, dirty: seq<Object>, now: nat, s: SessionId)
      returns (i: nat)
    requires IsSwept(stored, rows, dirty, s)
    ensures i < |dirty| && Disables(stored, rows, dirty[i], s) && !dirty[i].SessionObject?
    ensures forall j :: 0 <= j < i ==> !Disables(stored, rows, dirty[j], s)
    ensures s in Hook(stored, rows, dirty, now).sessions
    ensures Hook(stored, rows, dirty, now).sessions[s] == rows.sessions[s].(revokedAt := Some(now),
      reason := Some(if dirty[i].UserObject? then "account disabled" else "application disabled"))
  {
    var front, o := dirty[..|dirty| - 1], dirty[|dirty| - 1];
    assert dirty == front + [o];
    SweptByNext(stored, rows, front, o, s);
    var before := Hook(stored, rows, front, now);
    HookOutcome(stored, rows, front, now);
    VisitRow(stored, rows, before, o, now, s);
    if IsSwept(stored, rows, front, s) {
      i := SweptByFirst(stored, rows, front, now, s);
    } else {
      i := |front|;
      forall j | 0 <= j < i ensures !Disables(stored, rows, dirty[j], s) {
        assert dirty[j] in front;
      }
    }
  }

  /** The account or application whose switch the event announces. */
  function Subject(e: Event): Object
    requires !e.SessionRevoked?
  {
    if e.AccountSwitched? then UserObject(e.user) else ApplicationObject(e.client)
  }

  /** The event tells of a switch that the rows in memory make. */
  predicate IsSwitchOf(stored: Tables, rows: Tables, e: Event) {
    match e
    case AccountSwitched(u, active) =>
      u in stored.users && u in rows.users && stored.users[u].isActive != rows.users[u].isActive == active
    case ApplicationSwitched(c, active) =>
      && c in stored.applications && c in rows.applications
      && stored.applications[c].isActive != rows.applications[c].isActive == active
    case SessionRevoked(_, _, _, _, _) => false
  }

  lemma {:induction false} HookAnnouncesSwitches(stored: Tables, rows: Tables, dirty: seq<Object>, now: nat, e: Event)
    requires Distinct(dirty) && !e.SessionRevoked?
    ensures Hook(stored, rows, dirty, now).outbox[e] ==
      rows.outbox[e] + if Subject(e) in dirty && IsSwitchOf(stored, rows, e) then 1 else 0
  {
    if dirty != [] {
      var front, o := dirty[..|dirty| - 1], dirty[|dirty| - 1];
      var before := Hook(stored, rows, front, now);
      HookAnnouncesSwitches(stored, rows, front, now, e);
      HookOutcome(stored, rows, front, now);
      VisitAnnouncesSwitch(stored, before, o, now, e);
      assert IsSwitchOf(stored, before, e) == IsSwitchOf(stored, rows, e);
      assert Subject(e) in dirty <==> Subject(e) in front || Subject(e) == o;
      assert o !in front;
    }
  }

  lemma VisitAnnouncesSwitch(stored: Tables, rows: Tables, o: Object, now: nat, e: Event)
    requires !e.SessionRevoked?
    ensures Visit(stored, rows, o, now).outbox[e] ==
      rows.outbox[e] + if Subject(e) == o && IsSwitchOf(stored, rows, e) then 1 else 0
  {
  }

  // ----- One flush -----

  /** A row that existed and was changed in memory. */
  predicate IsChanged(stored: Tables, rows: Tables, o: Object) {
    match o
    case UserObject(u) => u in stored.users && u in rows.users && stored.users[u] != rows.users[u]
    case ApplicationObject(c) =>
      c in stored.applications && c in rows.applications && stored.applications[c] != rows.applications[c]
    case SessionObject(s) => s in stored.sessions && s in rows.sessions && stored.sessions[s] != rows.sessions[s]
  }

  /** What list(session.dirty) may be: every changed row, in any order, and perhaps rows assigned to without change. */
  ghost predicate IsSnapshot(stored: Tables, rows: Tables, dirty: seq<Object>) {
    Distinct(dirty) && forall o :: IsChanged(stored, rows, o) ==> o in dirty
  }

  /** The list holds a still unrevoked session after the user or application that is being disabled. */
  ghost predicate IsToldTwice(stored: Tables, rows: Tables, dirty: seq<Object>, s: SessionId) {
    && IsLive(stored, s) && IsLive(rows, s)
    && exists j, k :: 0 <= j < k < |dirty| && Disables(stored, rows, dirty[j], s) && dirty[k] == SessionObject(s)
  }

  lemma {:induction false} ReportsAtMostOnce(stored: Tables, rows: Tables, dirty: seq<Object>, s: SessionId)
    requires Distinct(dirty)
    ensures Reports(stored, rows, dirty, s) ==
      if (SessionObject(s) in dirty && IsNewlyRevoked(stored, rows, s)) || IsToldTwice(stored, rows, dirty, s) then 1 else 0
  {
    if dirty != [] {
      var front, o := dirty[..|dirty| - 1], dirty[|dirty| - 1];
      ReportsAtMostOnce(stored, rows, front, s);
      if o == SessionObject(s) {
        assert o !in front;
        if IsSwept(stored, rows, front, s) {
          var p :| p in front && Disables(stored, rows, p, s);
          var j :| 0 <= j < |front| && front[j] == p;
          assert Disables(stored, rows, dirty[j], s) && dirty[|front|] == SessionObject(s);
        }
      }
    }
  }

  /** A flush that revokes a session announces it: once if a route revoked it, once if the hook did, and a second time
      exactly when the hook had disabled its owner before it came to the session's own dirty row. */
  lemma FlushAnnouncesRevocation(stored: Tables, rows: Tables, dirty: seq<Object>, now: nat, s: SessionId)
    requires IsSnapshot(stored, rows, dirty)
    requires IsLive(stored, s) && IsRevoked(Hook(stored, rows, dirty, now), s)
    ensures var after := Hook(stored, rows, dirty, now);
      var e := EventOf(s, after.sessions[s]);
      after.outbox[e] == rows.outbox[e] + if IsToldTwice(stored, rows, dirty, s) then 2 else 1
  {
    HookOutcome(stored, rows, dirty, now);
    ReportsAtMostOnce(stored, rows, dirty, s);
    if IsToldTwice(stored, rows, dirty, s) {
      var j, k :| 0 <= j < k < |dirty| && Disables(stored, rows, dirty[j], s) && dirty[k] == SessionObject(s);
      assert dirty[j] in dirty;
    } else if IsNewlyRevoked(stored, rows, s) {
      assert IsChanged(stored, rows, SessionObject(s));
    }
  }

  /** A flush announces exactly the accounts and applications it switches, once each and with their new state. */
  lemma FlushAnnouncesSwitches(stored: Tables, rows: Tables, dirty: seq<Object>, now: nat, e: Event)
    requires IsSnapshot(stored, rows, dirty) && !e.SessionRevoked?
    ensures Hook(stored, rows, dirty, now).outbox[e] == rows.outbox[e] + if IsSwitchOf(stored, rows, e) then 1 else 0
  {
    HookAnnouncesSwitches(stored, rows, dirty, now, e);
    assert IsSwitchOf(stored, rows, e) ==> IsChanged(stored, rows, Subject(e));
  }

  lemma ToldTwiceIsAnnouncedTwice(stored: Tables, rows: Tables, dirty: seq<Object>, now: nat, s: SessionId)
    requires IsSnapshot(stored, rows, dirty) && IsToldTwice(stored, rows, dirty, s)
    ensures var after := Hook(stored, rows, dirty, now);
      IsRevoked(after, s) && after.outbox[EventOf(s, after.sessions[s])] == rows.outbox[EventOf(s, after.sessions[s])] + 2
  {
    var j, k :| 0 <= j < k < |dirty| && Disables(stored, rows, dirty[j], s) && dirty[k] == SessionObject(s);
    assert dirty[j] in dirty;
    HookOutcome(stored, rows, dirty, now);
    FlushAnnouncesRevocation(stored, rows, dirty, now, s);
  }

  /** Double announcements do happen: let the application be switched off and a session of it merely be touched. */
  lemma TouchedSessionIsToldTwice(stored: Tables, rows: Tables, s: SessionId, dirty: seq<Object>, now: nat)
    requires IsLive(stored, s) && stored.sessions[s].client in stored.applications
    requires var row := stored.sessions[s];
      && stored.applications[row.client].isActive
      && rows == stored.(applications := stored.applications[row.client := Application(false, {})],
                         sessions := stored.sessions[s := row.(lastSeenAt := now)])
      && dirty == [ApplicationObject(row.client), SessionObject(s)]
    ensures IsSnapshot(stored, rows, dirty)
    ensures var after := Hook(stored, rows, dirty, now);
      IsRevoked(after, s) && after.outbox[EventOf(s, after.sessions[s])] == rows.outbox[EventOf(s, after.sessions[s])] + 2
  {
    assert dirty[0] in dirty && dirty[1] in dirty;
    assert Disables(stored, rows, dirty[0], s) && dirty[1] == SessionObject(s);
    ToldTwiceIsAnnouncedTwice(stored, rows, dirty, now, s);
  }
}
