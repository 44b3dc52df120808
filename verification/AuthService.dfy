/** The unit of work behind the identity service's routes: queries see the stored rows, assignments change the rows in
    memory, and a commit runs the flush hook before it writes them (platform/ithute-auth/app: models.py, db.py and the
    route modules). */
module AuthService {
  import opened Collections
  import opened AuthTables
  import opened AuthRequests
  import opened AuthRuns

  lemma MultisetOfNext<T>(s: set<T>, x: T)
    requires x !in s
    ensures multiset(s + {x}) == multiset(s) + multiset{x}
  {
  }

  lemma AnnouncementsNext(sessions: map<SessionId, AuthSession>, ids: set<SessionId>, s: SessionId, at: nat, reason: Option<string>)
    requires s !in ids && s in sessions
    ensures multiset(Announcements(sessions, ids + {s}, at, reason)) == multiset(Announcements(sessions, ids, at, reason)) +
      if sessions[s].revokedAt.Some? then multiset{} else multiset{EventOf(s, Revoked(sessions[s], at, reason))}
  {
    var told, told' := Announcements(sessions, ids, at, reason), Announcements(sessions, ids + {s}, at, reason);
    if sessions[s].revokedAt.Some? {
      assert told' == told;
    } else {
      var e := EventOf(s, Revoked(sessions[s], at, reason));
      assert e !in told && told' == told + {e};
      MultisetOfNext(told, e);
    }
  }

  lemma RevokeNext(sessions: map<SessionId, AuthSession>, ids: set<SessionId>, s: SessionId, at: nat, reason: Option<string>)
    requires s !in ids && s in sessions
    ensures RevokeRows(sessions, ids, at, reason)[s] == sessions[s]
    ensures RevokeRows(sessions, ids + {s}, at, reason) ==
      if sessions[s].revokedAt.Some? then RevokeRows(sessions, ids, at, reason)
      else RevokeRows(sessions, ids, at, reason)[s := Revoked(sessions[s], at, reason)]
  {
  }

  /** A flush without changes writes nothing. */
  lemma {:induction false} IdleHook(t: Tables, dirty: seq<Object>, now: nat)
    ensures Hook(t, t, dirty, now) == t
  {
    if dirty != [] {
      IdleHook(t, dirty[..|dirty| - 1], now);
    }
  }

  class Service {
    const config: Config
    var stored: Tables
    var rows: Tables

    constructor (config: Config, stored: Tables)
      ensures this.config == config && this.stored == rows == stored
    {
      this.config := config;
      this.stored, rows := stored, stored;
    }

    // ----- The flush -----

    /** _revoke_scope_sessions. */
    method RevokeScopeSessions(ids: set<SessionId>, reason: string, now: nat)
      requires ids <= rows.sessions.Keys
      modifies `rows
      ensures rows == Sweep(old(rows), ids, now, reason)
    {
      var unread := ids;
      ghost var done: set<SessionId> := {};
      ghost var sessions, why := rows.sessions, Some(reason);
      assert RevokeRows(sessions, {}, now, why) == sessions && Announcements(sessions, {}, now, why) == {};
      while unread != {}
        invariant unread <= ids && done == ids - unread
        invariant rows == old(rows).(sessions := rows.sessions, outbox := rows.outbox)
        invariant rows.sessions == RevokeRows(sessions, done, now, why)
        invariant rows.outbox == old(rows).outbox + multiset(Announcements(sessions, done, now, why))
      {
        var s :| s in unread;
        RevokeNext(sessions, done, s, now, why);
        AnnouncementsNext(sessions, done, s, now, why);
        unread, done := unread - {s}, done + {s};
        var row := rows.sessions[s];
        if row.revokedAt.Some? {
          continue;
        }
        row := row.(revokedAt := Some(now), reason := Some(reason));
        rows := rows.(sessions := rows.sessions[s := row]);
        rows := rows.(outbox := rows.outbox + multiset{SessionRevoked(s, row.user, row.client, now, reason)});
      }
      assert done == ids;
    }

    /** The user and the application branch of the hook. */
    method VisitScope(o: Object, now: nat)
      requires !o.SessionObject? && stored.sessions.Keys <= rows.sessions.Keys
      modifies `rows
      ensures rows == Visit(stored, old(rows), o, now) && rows.sessions.Keys == old(rows).sessions.Keys
    {
      if IsSwitched(stored, rows, o) {
        rows := rows.(outbox := rows.outbox + multiset{SwitchEvent(rows, o)});
        if !IsActive(rows, o) {
          var ids := Query(stored, o);
          RevokeScopeSessions(ids, DisabledReason(o), now);
        }
      }
    }

    /** The session branch. */
    method VisitSession(s: SessionId)
      modifies `rows
      ensures forall now: nat :: rows == Visit(stored, old(rows), SessionObject(s), now)
      ensures rows.sessions == old(rows).sessions
    {
      if s in stored.sessions && s in rows.sessions {
        var row := rows.sessions[s];
        if stored.sessions[s].revokedAt != row.revokedAt && row.revokedAt.Some? {
          var reason := if row.reason.None? then "revoked" else row.reason.value;
          rows := rows.(outbox := rows.outbox + multiset{SessionRevoked(s, row.user, row.client, row.revokedAt.value, reason)});
        }
      }
    }

    /** _queue_identity_status_events. */
    method BeforeFlush(dirty: seq<Object>, now: nat)
      requires stored.sessions.Keys <= rows.sessions.Keys
      modifies `rows
      ensures rows == Hook(stored, old(rows), dirty, now)
    {
      for i := 0 to |dirty|
        invariant stored.sessions.Keys <= rows.sessions.Keys
        invariant rows == Hook(stored, old(rows), dirty[..i], now)
      {
        assert dirty[..i + 1][..i] == dirty[..i];
        if dirty[i].SessionObject? {
          VisitSession(dirty[i].session);
        } else {
          VisitScope(dirty[i], now);
        }
      }
      assert dirty[..|dirty|] == dirty;
    }

    method Commit(dirty: seq<Object>, now: nat)
      requires stored.sessions.Keys <= rows.sessions.Keys
      modifies this
      ensures stored == rows == Hook(old(stored), old(rows), dirty, now)
    {
      BeforeFlush(dirty, now);
      stored := rows;
    }

    // ----- Shared steps -----

    /** The query by refresh token. */
    method FindSession(presented: Token) returns (holder: Option<SessionId>)
      requires HasUniqueTokens(stored)
      ensures holder == Holder(stored, presented)
    {
      var unread := stored.sessions.Keys;
      while unread != {}
        invariant unread <= stored.sessions.Keys
        invariant forall s :: s in stored.sessions && s !in unread ==> stored.sessions[s].token != presented
      {
        var s :| s in unread;
        if stored.sessions[s].token == presented {
          return Some(s);
        }
        unread := unread - {s};
      }
      holder := None;
    }

    /** The loop of revoke_sessions and of the routes that revoke what a query found. */
    method RevokeEach(ids: set<SessionId>, reason: Option<string>, except: Option<SessionId>, now: nat) returns (count: nat)
      requires forall s :: s in ids ==> IsLive(rows, s)
      modifies `rows
      ensures rows == Revoke(old(rows), AllBut(ids, except), now, reason)
      ensures count == |AllBut(ids, except)|
    {
      var unread := ids;
      ghost var done: set<SessionId> := {};
      ghost var sessions := rows.sessions;
      count := 0;
      assert RevokeRows(sessions, {}, now, reason) == sessions;
      while unread != {}
        invariant unread <= ids && done == AllBut(ids - unread, except)
        invariant rows == old(rows).(sessions := rows.sessions) && rows.sessions == RevokeRows(sessions, done, now, reason)
        invariant count == |done|
      {
        var s :| s in unread;
        unread := unread - {s};
        if except == Some(s) {
          continue;
        }
        RevokeNext(sessions, done, s, now, reason);
        rows := rows.(sessions := rows.sessions[s := rows.sessions[s].(revokedAt := Some(now), reason := reason)]);
        done := done + {s};
        count := count + 1;
      }
      assert done == AllBut(ids, except);
    }

    /** revoke_sessions. */
    method RevokeSessions(user: UserId, reason: Option<string>, except: Option<SessionId>, now: nat) returns (count: nat)
      requires rows.sessions == stored.sessions
      modifies `rows
      ensures rows == Revoke(old(rows), Revocable(stored, user, except), now, reason)
      ensures count == |Revocable(stored, user, except)|
    {
      count := RevokeEach(Query(stored, UserObject(user)), reason, except, now);
    }

    /** What a route may rely on and must deliver: the request's effect, flushed, and its answer. */
    ghost predicate IsReady(request: Request, dirty: seq<Object>)
      reads this
    {
      && rows == stored && HasUniqueTokens(stored)
      && IsEnabled(stored, request) && IsFlush(config, stored, Transaction(request, dirty))
    }

    twostate predicate IsHandled(request: Request, dirty: seq<Object>, answer: Answer)
      reads this
    {
      && answer == Handle(config, old(stored), request).1
      && stored == rows == Committed(config, old(stored), Transaction(request, dirty))
    }

    // ----- Routes -----

    /** token, for an authorization code. */
    method ExchangeCode(now: nat, client: ClientId, code: string, redirect: string, verifier: string, session: SessionId,
                        refresh: Token, device: Option<nat>, dirty: seq<Object>) returns (answer: Answer)
      requires IsReady(Exchange(now, client, code, redirect, verifier, session, refresh, device), dirty)
      modifies this
      ensures IsHandled(Exchange(now, client, code, redirect, verifier, session, refresh, device), dirty, answer)
    {
      IdleHook(stored, dirty, now);
      if !IsActiveClient(stored, client) || code == "" || redirect == "" || verifier == "" {
        return Refused(400);
      }
      if redirect !in ApprovedRedirects(config, stored, client) || !IsPkceValue(verifier) || code !in stored.codes {
        return Refused(400);
      }
      var row := stored.codes[code];
      if row.client != client || row.redirect != redirect || row.consumedAt.Some? || row.expiresAt <= now {
        return Refused(400);
      }
      if config.s256(verifier) != row.challenge {
        return Refused(400);
      }
      if row.user !in stored.users || !stored.users[row.user].isActive {
        return Refused(400);
      }
      rows := rows.(codes := rows.codes[code := row.(consumedAt := Some(now))]);
      var granted := AuthSession(row.user, client, refresh, now + config.sessionLifetime, row.authMethod, device, now, None, None);
      rows := rows.(sessions := rows.sessions[session := granted], issued := rows.issued + {refresh});
      Commit(dirty, now);
      answer := Tokens(session, refresh);
    }

    /** token and refresh, for a refresh token. */
    method RefreshTokens(now: nat, client: ClientId, presented: Token, endpoint: RefreshEndpoint, refresh: Token,
                         dirty: seq<Object>) returns (answer: Answer)
      requires IsReady(Refresh(now, client, presented, endpoint, refresh), dirty)
      modifies this
      ensures IsHandled(Refresh(now, client, presented, endpoint, refresh), dirty, answer)
    {
      IdleHook(stored, dirty, now);
      if !IsActiveClient(stored, client) {
        return Refused(400);
      }
      var invalid := if endpoint == DirectRefresh then 401 else 400;
      var holder := FindSession(presented);
      if holder.None? {
        return Refused(invalid);
      }
      var s := holder.value;
      var row := rows.sessions[s];
      if row.client != client || row.revokedAt.Some? || row.expiresAt <= now {
        return Refused(invalid);
      }
      if row.user !in stored.users || !stored.users[row.user].isActive {
        return Refused(invalid);
      }
      row := row.(token := refresh);
      row := row.(lastSeenAt := now);
      rows := rows.(sessions := rows.sessions[s := row], issued := rows.issued + {refresh});
      Commit(dirty, now);
      answer := Tokens(s, refresh);
    }

    /** login and passkey_authentication_verify, once the credentials were looked at. */
    method LogIn(now: nat, client: ClientId, user: UserId, authMethod: AuthMethod, proved: bool, session: SessionId,
                 refresh: Token, device: Option<nat>, dirty: seq<Object>) returns (answer: Answer)
      requires IsReady(Login(now, client, user, authMethod, proved, session, refresh, device), dirty)
      modifies this
      ensures IsHandled(Login(now, client, user, authMethod, proved, session, refresh, device), dirty, answer)
      ensures answer.Tokens? <==> (proved
        && client in old(stored).applications && old(stored).applications[client].isActive
        && user in old(stored).users && old(stored).users[user].isActive)
      ensures answer == Refused(400) <==>
        !(client in old(stored).applications && old(stored).applications[client].isActive)
      ensures answer.Refused? ==> stored == old(stored)
    {
      IdleHook(stored, dirty, now);
      if !IsActiveClient(stored, client) {
        return Refused(400);
      }
      if user !in stored.users || !stored.users[user].isActive || !proved {
        return Refused(401);
      }
      var row := AuthSession(user, client, refresh, now + config.sessionLifetime, authMethod, device, now, None, None);
      rows := rows.(sessions := rows.sessions[session := row], issued := rows.issued + {refresh});
      Commit(dirty, now);
      answer := Tokens(session, refresh);
    }

    /** _product_session and authenticated_context. */
    method AcceptBearer(now: nat, check: BearerCheck, user: UserId, session: SessionId, client: ClientId, dirty: seq<Object>)
        returns (answer: Answer)
      requires IsReady(Bear(now, check, user, session, client), dirty)
      modifies this
      ensures IsHandled(Bear(now, check, user, session, client), dirty, answer)
    {
      IdleHook(stored, dirty, now);
      if session !in stored.sessions {
        return Refused(401);
      }
      var row := stored.sessions[session];
      if row.user != user || row.client != client || row.revokedAt.Some? || row.expiresAt <= now {
        return Refused(401);
      }
      if check == ProductSession && !IsActiveClient(stored, client) {
        return Refused(400);
      }
      if user !in stored.users || !stored.users[user].isActive {
        return Refused(401);
      }
      rows := rows.(sessions := rows.sessions[session := row.(lastSeenAt := now)]);
      Commit(dirty, now);
      answer := Done;
    }

    /** logout. */
    method LogOut(now: nat, presented: Token, dirty: seq<Object>) returns (answer: Answer)
      requires IsReady(Logout(now, presented), dirty)
      modifies this
      ensures IsHandled(Logout(now, presented), dirty, answer)
    {
      IdleHook(stored, dirty, now);
      answer := Done;
      var holder := FindSession(presented);
      if holder.None? {
        return;
      }
      var s := holder.value;
      if rows.sessions[s].revokedAt.None? {
        rows := rows.(sessions := rows.sessions[s := rows.sessions[s].(revokedAt := Some(now), reason := Some("logout"))]);
        assert rows.sessions == RevokeRows(old(stored).sessions, {s}, now, Some("logout"));
        Commit(dirty, now);
      } else {
        assert stored.sessions == RevokeRows(stored.sessions, {s}, now, Some("logout"));
      }
    }

    /** Password changes and resets, MFA changes, and the routes that sign other sessions out. */
    method RevokeAllSessions(now: nat, user: UserId, except: Option<SessionId>, reason: Option<string>, dirty: seq<Object>)
        returns (answer: Answer)
      requires IsReady(RevokeAll(now, user, except, reason), dirty)
      modifies this
      ensures IsHandled(RevokeAll(now, user, except, reason), dirty, answer)
    {
      var count := RevokeSessions(user, reason, except, now);
      Commit(dirty, now);
      answer := Done;
    }

    /** revoke_session, its portal twin, and revoke_current_session, which gives no reason. */
    method RevokeOneSession(now: nat, user: UserId, session: SessionId, reason: Option<string>, dirty: seq<Object>)
        returns (answer: Answer)
      requires IsReady(RevokeOne(now, user, session, reason), dirty)
      modifies this
      ensures IsHandled(RevokeOne(now, user, session, reason), dirty, answer)
    {
      IdleHook(stored, dirty, now);
      if session !in stored.sessions || stored.sessions[session].user != user {
        return Refused(404);
      }
      if rows.sessions[session].revokedAt.None? {
        rows := rows.(sessions := rows.sessions[session := rows.sessions[session].(revokedAt := Some(now), reason := reason)]);
      }
      assert rows.sessions == RevokeRows(old(stored).sessions, {session}, now, reason);
      Commit(dirty, now);
      answer := Done;
    }

    /** revoke_trusted_device, for the sessions. */
    method RevokeTrustedDevice(now: nat, user: UserId, trusted: nat, session: SessionId, dirty: seq<Object>)
        returns (answer: Answer)
      requires IsReady(RevokeDevice(now, user, trusted, session), dirty)
      modifies this
      ensures IsHandled(RevokeDevice(now, user, trusted, session), dirty, answer)
    {
      var count := RevokeEach(DeviceSessions(stored, user, trusted), Some("trusted device revoked"), Some(session), now);
      Commit(dirty, now);
      answer := Done;
    }

    /** admin_user_action and update_user_security, for enabling and disabling. */
    method SwitchUserActive(now: nat, admin: UserId, user: UserId, active: bool, dirty: seq<Object>) returns (answer: Answer)
      requires IsReady(SetUserActive(now, admin, user, active), dirty)
      modifies this
      ensures IsHandled(SetUserActive(now, admin, user, active), dirty, answer)
    {
      IdleHook(stored, dirty, now);
      if user !in stored.users {
        return Refused(404);
      }
      if !active && user == admin {
        return Refused(400);
      }
      rows := rows.(users := rows.users[user := User(active)]);
      if !active {
        var count := RevokeSessions(user, Some("account disabled by platform admin"), None, now);
      }
      Commit(dirty, now);
      answer := Done;
    }

    /** admin_app_toggle: no session is written here. */
    method ToggleApplicationActive(now: nat, client: ClientId, dirty: seq<Object>) returns (answer: Answer)
      requires IsReady(ToggleApplication(now, client), dirty)
      modifies this
      ensures IsHandled(ToggleApplication(now, client), dirty, answer)
    {
      IdleHook(stored, dirty, now);
      if client !in stored.applications {
        return Refused(404);
      }
      var app := rows.applications[client];
      rows := rows.(applications := rows.applications[client := app.(isActive := !app.isActive)]);
      Commit(dirty, now);
      answer := Done;
    }

    /** update_application, for the status. */
    method UpdateApplicationActive(now: nat, client: ClientId, active: bool, dirty: seq<Object>) returns (answer: Answer)
      requires IsReady(UpdateApplication(now, client, active), dirty)
      modifies this
      ensures IsHandled(UpdateApplication(now, client, active), dirty, answer)
    {
      IdleHook(stored, dirty, now);
      if client !in stored.applications {
        return Refused(404);
      }
      if active && ApprovedRedirects(config, stored, client) == {} {
        return Refused(409);
      }
      var app := rows.applications[client];
      if active != app.isActive {
        rows := rows.(applications := rows.applications[client := app.(isActive := active)]);
        if !active {
          var found := Query(stored, ApplicationObject(client));
          assert AllBut(found, None) == found;
          var count := RevokeEach(found, Some("application disabled"), None, now);
        }
      }
      Commit(dirty, now);
      answer := Done;
    }

    /** synchronize_system_owner, and the script that provisions the NBros administrator. */
    method ProvisionAccount(now: nat, provisioner: Provisioner, user: UserId, rotated: bool, dirty: seq<Object>)
        returns (answer: Answer)
      requires IsReady(Provision(now, provisioner, user, rotated), dirty)
      modifies this
      ensures IsHandled(Provision(now, provisioner, user, rotated), dirty, answer)
    {
      var created := user !in stored.users;
      var passwordChanged := created || rotated;
      if passwordChanged && (provisioner == NbrosAdministrator || !created) {
        // The bulk UPDATE changes the stored rows directly.
        stored := Revoke(stored, Query(stored, UserObject(user)), now, Some(BulkReason(provisioner)));
        rows := stored;
      }
      rows := rows.(users := rows.users[user := User(true)]);
      Commit(dirty, now);
      answer := Done;
    }
  }
}
