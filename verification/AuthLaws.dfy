/** What the identity service's requests promise, said of the rows alone: who gets a session, which sessions end, and who
    is active afterwards. */
module AuthLaws {
  import opened Collections
  import opened AuthTables
  import opened AuthRequests
  import opened AuthRuns

  // ----- Where sessions come from -----

  /** The session was made by a login that proved its credentials, for that user, client and method. */
  predicate IsProvedLogin(config: Config, t: Tables, r: Request, s: SessionId, row: AuthSession) {
    && r.Login? && r.session == s && r.proved
    && row.user == r.user && row.client == r.client && row.authMethod == r.authMethod
    && row.expiresAt == r.now + config.sessionLifetime
    && r.user in t.users && t.users[r.user].isActive && r.client in t.applications && t.applications[r.client].isActive
  }

  /** Or it was bought with a code of that user, client and method, by a verifier that meets the code's challenge. */
  predicate IsRedemption(config: Config, t: Tables, r: Request, s: SessionId, row: AuthSession) {
    && r.Exchange? && r.session == s && r.code in t.codes
    && var code := t.codes[r.code];
       && row.user == code.user && row.client == code.client && row.authMethod == code.authMethod
       && row.expiresAt == r.now + config.sessionLifetime
       && code.consumedAt.None? && r.now < code.expiresAt && config.s256(r.verifier) == code.challenge
  }

  lemma RowsCreated(config: Config, t: Tables, r: Request, s: SessionId)
    requires s in Handle(config, t, r).0.sessions && s !in t.sessions
    ensures var row := Handle(config, t, r).0.sessions[s];
      row.revokedAt.None? && (IsProvedLogin(config, t, r, s, row) || IsRedemption(config, t, r, s, row))
  {
    assert Written(t, r).sessions.Keys == t.sessions.Keys;
  }

  lemma OnlyGrantsCreate(config: Config, t: Tables, tx: Transaction, s: SessionId)
    requires s in Committed(config, t, tx).sessions && s !in t.sessions
    ensures var row := Committed(config, t, tx).sessions[s];
      IsProvedLogin(config, t, tx.request, s, row) || IsRedemption(config, t, tx.request, s, row)
  {
    var written, rows := Written(t, tx.request), Handle(config, t, tx.request).0;
    assert IsOutcome(written, rows, tx.dirty, tx.request.now, Committed(config, t, tx)) by {
      HookOutcome(written, rows, tx.dirty, tx.request.now);
    }
    RowsCreated(config, t, tx.request, s);
    assert written.sessions.Keys == t.sessions.Keys;
  }

  /** Every session of every reachable state goes back to such a request. */
  lemma {:induction false} SessionWasGranted(config: Config, txs: seq<Transaction>, states: seq<Tables>, i: nat, s: SessionId)
      returns (k: nat)
    requires IsRun(config, txs, states) && i < |states| && s in states[i].sessions
    ensures k < i && var row := states[i].sessions[s];
      IsProvedLogin(config, states[k], txs[k].request, s, row) || IsRedemption(config, states[k], txs[k].request, s, row)
  {
    k := i - 1;
    if s in states[k].sessions {
      RunKeepsInvariant(config, txs, states, k);
      TransactionKeepsInvariant(config, states[k], txs[k]);
      assert IsLaterRow(states[k].sessions[s], states[i].sessions[s], states[k].issued);
      k := SessionWasGranted(config, txs, states, i - 1, s);
    } else {
      OnlyGrantsCreate(config, states[k], txs[k], s);
    }
  }

  // ----- Who is given a session -----

  /** A login is granted exactly when client and user are active and the credentials were right. */
  lemma LoginIsGrantedExactly(config: Config, t: Tables, r: Request)
    requires r.Login?
    ensures var client := r.client in t.applications && t.applications[r.client].isActive;
      var user := r.user in t.users && t.users[r.user].isActive;
      Handle(config, t, r).1 ==
        if !client then Refused(400) else if user && r.proved then Tokens(r.session, r.refresh) else Refused(401)
    ensures Handle(config, t, r).1.Refused? ==> Handle(config, t, r).0 == t
  {
  }

  /** The redirects an application may use: its stored ones, or if it has none, those configured for it. */
  predicate MayRedirect(config: Config, t: Tables, client: ClientId, redirect: string) {
    && client in t.applications && t.applications[client].isActive
    && (redirect in t.applications[client].redirects
        || (t.applications[client].redirects == {} && client in config.redirectUris && redirect in config.redirectUris[client]))
  }

  /** 43 to 128 letters, digits and "-._~" (section 4.1 of RFC 7636). */
  predicate IsUnreserved(value: string) {
    && 43 <= |value| <= 128
    && forall i :: 0 <= i < |value| ==>
         || 'a' <= value[i] <= 'z' || 'A' <= value[i] <= 'Z' || '0' <= value[i] <= '9'
         || value[i] == '-' || value[i] == '.' || value[i] == '_' || value[i] == '~'
  }

  lemma PkceValueIsUnreserved(value: string)
    ensures IsPkceValue(value) <==> IsUnreserved(value)
  {
    assert forall c :: c in "-._~" <==> c == '-' || c == '.' || c == '_' || c == '~';
    assert forall i :: 0 <= i < |value| ==> value[i] in value;
  }

  /** A code is redeemed exactly when it is there, unspent and in time, by its own client at its own redirect, which must
      still be allowed, with a well-formed verifier that meets the challenge, and for a user who is still active. */
  lemma ExchangeIsGrantedExactly(config: Config, t: Tables, r: Request)
    requires r.Exchange?
    ensures Handle(config, t, r).1 ==
      if MayRedirect(config, t, r.client, r.redirect) && r.code != "" && r.redirect != "" && IsUnreserved(r.verifier)
         && r.code in t.codes && t.codes[r.code].client == r.client && t.codes[r.code].redirect == r.redirect
         && t.codes[r.code].consumedAt.None? && r.now < t.codes[r.code].expiresAt
         && config.s256(r.verifier) == t.codes[r.code].challenge
         && t.codes[r.code].user in t.users && t.users[t.codes[r.code].user].isActive
      then Tokens(r.session, r.refresh) else Refused(400)
    ensures Handle(config, t, r).1.Refused? ==> Handle(config, t, r).0 == t
  {
    PkceValueIsUnreserved(r.verifier);
  }

  /** A code is issued exactly to an active user, for an allowed redirect and a well-formed challenge. */
  lemma AuthorizationIsGrantedExactly(config: Config, t: Tables, r: Request)
    requires r.Authorize?
    ensures Handle(config, t, r).1 ==
      if !MayRedirect(config, t, r.client, r.redirect) || !IsUnreserved(r.challenge) then Refused(400)
      else if r.user in t.users && t.users[r.user].isActive then Done else Refused(401)
    ensures Handle(config, t, r).1.Refused? ==> Handle(config, t, r).0 == t
  {
    PkceValueIsUnreserved(r.challenge);
  }

  /** In a reachable state a refresh is granted exactly to the client whose live, unexpired session holds the presented
      token: the questions about user and application decide only the status of a refusal. */
  lemma RefreshIsGrantedExactly(config: Config, t: Tables, r: Request)
    requires Invariant(t) && r.Refresh?
    ensures Handle(config, t, r).1.Tokens? <==> exists s :: IsRefreshable(t, r, s)
    ensures forall s :: IsRefreshable(t, r, s) ==> Handle(config, t, r).1 == Tokens(s, r.refresh)
    ensures Handle(config, t, r).1.Refused? ==> Handle(config, t, r).0 == t
    ensures Handle(config, t, r).1.Refused? ==> (Handle(config, t, r).1.status ==
      if r.endpoint == DirectRefresh && r.client in t.applications && t.applications[r.client].isActive then 401 else 400)
  {
    forall s: SessionId | IsRefreshable(t, r, s) ensures Handle(config, t, r).1 == Tokens(s, r.refresh) {
      assert IsLive(t, s) && HasActiveOwners(t, s);
      assert Holder(t, r.presented) == Some(s);
    }
    if CanRefresh(t, r.client, r.presented, r.now) {
      assert IsRefreshable(t, r, Holder(t, r.presented).value);
    }
  }

  predicate IsRefreshable(t: Tables, r: Request, s: SessionId)
    requires r.Refresh?
  {
    && s in t.sessions && t.sessions[s].token == r.presented && t.sessions[s].client == r.client
    && t.sessions[s].revokedAt.None? && r.now < t.sessions[s].expiresAt
  }

  // ----- Which sessions end -----

  /** The live sessions a request is meant to end. */
  predicate IsMeantToEnd(t: Tables, r: Request, s: SessionId)
    requires s in t.sessions
  {
    var row := t.sessions[s];
    match r
    case Logout(_, presented) => row.token == presented
    case RevokeOne(_, user, session, _) => s == session && row.user == user
    case RevokeAll(_, user, except, _) => row.user == user && except != Some(s)
    case RevokeDevice(_, user, trusted, session) => row.user == user && row.device == Some(trusted) && s != session
    case SetUserActive(_, admin, user, active) => row.user == user && !active && user != admin
    case ToggleApplication(_, client) => row.client == client
    case UpdateApplication(_, client, active) => row.client == client && !active
    case Provision(_, provisioner, user, rotated) => row.user == user && rotated
    case _ => false
  }

  lemma RevokeEnds(t: Tables, ids: set<SessionId>, now: nat, reason: Option<string>, s: SessionId)
    requires IsLive(t, s)
    ensures s in Revoke(t, ids, now, reason).sessions
    ensures Revoke(t, ids, now, reason).sessions[s].revokedAt == if s in ids then Some(now) else None
  {
  }

  lemma LogoutEnds(config: Config, t: Tables, r: Request, s: SessionId)
    requires HasUniqueTokens(t) && IsLive(t, s) && r.Logout?
    ensures s in Handle(config, t, r).0.sessions
    ensures Handle(config, t, r).0.sessions[s].revokedAt == if t.sessions[s].token == r.presented then Some(r.now) else None
  {
    var holder := Holder(t, r.presented);
    if t.sessions[s].token == r.presented {
      assert holder == Some(s);
    }
    if holder.Some? {
      RevokeEnds(t, {holder.value}, r.now, Some("logout"), s);
    }
  }

  /** The routes that revoke what a query found. */
  lemma RevocationEnds(config: Config, t: Tables, r: Request, s: SessionId)
    requires IsLive(t, s) && HasActiveOwners(t, s) && Revokes(r) && !r.Logout?
    ensures s in Handle(config, t, r).0.sessions
    ensures Handle(config, t, r).0.sessions[s].revokedAt == if IsMeantToEnd(t, r, s) then Some(r.now) else None
  {
    assert forall o :: s in Query(t, o) <==> InScope(t.sessions[s], o);
    match r
    case RevokeOne(now, _, session, reason) =>
      RevokeEnds(t, {session}, now, reason, s);
    case RevokeAll(now, user, except, reason) =>
      RevokeEnds(t, Revocable(t, user, except), now, reason, s);
    case RevokeDevice(now, user, trusted, session) =>
      RevokeEnds(t, AllBut(DeviceSessions(t, user, trusted), Some(session)), now, Some("trusted device revoked"), s);
    case SetUserActive(now, _, user, _) =>
      RevokeEnds(SwitchUser(t, user, false), Revocable(t, user, None), now, Some("account disabled by platform admin"), s);
    case UpdateApplication(now, client, _) =>
      if client in t.applications {
        RevokeEnds(SwitchApplication(t, client, false), Query(t, ApplicationObject(client)), now, Some("application disabled"), s);
      }
  }

  /** What the request itself writes: everything but the sessions of a toggled application, which it leaves to the hook. */
  lemma HandleEnds(config: Config, t: Tables, r: Request, s: SessionId)
    requires HasUniqueTokens(t) && IsEnabled(t, r) && IsLive(t, s) && HasActiveOwners(t, s)
    ensures s in Handle(config, t, r).0.sessions
    ensures Handle(config, t, r).0.sessions[s].revokedAt ==
      if IsMeantToEnd(t, r, s) && !r.ToggleApplication? then Some(r.now) else None
  {
    if r.Logout? {
      LogoutEnds(config, t, r, s);
    } else if Revokes(r) {
      RevocationEnds(config, t, r, s);
    } else if r.Provision? {
      RevokeEnds(t, Query(t, UserObject(r.user)), r.now, Some(BulkReason(r.provisioner)), s);
    }
  }

  lemma OnlyMeantAreDisabled(config: Config, t: Tables, r: Request, o: Object, s: SessionId)
    requires IsLive(t, s) && Disables(Written(t, r), Handle(config, t, r).0, o, s)
    ensures IsMeantToEnd(t, r, s)
  {
  }

  lemma ToggledIsSwept(config: Config, t: Tables, tx: Transaction, s: SessionId)
    requires IsFlush(config, t, tx) && IsLive(t, s) && HasActiveOwners(t, s)
    requires tx.request.ToggleApplication? && t.sessions[s].client == tx.request.client
    ensures IsSwept(t, Handle(config, t, tx.request).0, tx.dirty, s)
  {
    var rows, app := Handle(config, t, tx.request).0, ApplicationObject(tx.request.client);
    assert IsChanged(t, rows, app) && Disables(t, rows, app, s);
  }

  /** In a reachable state, a request ends the live sessions it is meant to end, at its own time, and no others. */
  lemma RequestEndsExactly(config: Config, t: Tables, tx: Transaction, s: SessionId)
    requires Invariant(t) && IsEnabled(t, tx.request) && IsFlush(config, t, tx) && IsLive(t, s)
    ensures var after := Committed(config, t, tx);
      && s in after.sessions
      && after.sessions[s].revokedAt == if IsMeantToEnd(t, tx.request, s) then Some(tx.request.now) else None
  {
    var written, rows := Written(t, tx.request), Handle(config, t, tx.request).0;
    assert HasActiveOwners(t, s);
    HandleEnds(config, t, tx.request, s);
    if tx.request.ToggleApplication? && IsMeantToEnd(t, tx.request, s) {
      ToggledIsSwept(config, t, tx, s);
    }
    if IsSwept(written, rows, tx.dirty, s) {
      var o :| o in tx.dirty && Disables(written, rows, o, s);
      OnlyMeantAreDisabled(config, t, tx.request, o, s);
    }
    assert IsOutcome(written, rows, tx.dirty, tx.request.now, Committed(config, t, tx)) by {
      HookOutcome(written, rows, tx.dirty, tx.request.now);
    }
  }

  // ----- Who is active afterwards -----

  predicate IsActiveAfter(t: Tables, r: Request, user: UserId) {
    var before := user in t.users && t.users[user].isActive;
    match r
    case AddUser(_, added) => before || (user == added && user !in t.users)
    case SetUserActive(_, admin, target, active) =>
      if user == target && user in t.users && (active || user != admin) then active else before
    case Provision(_, _, provisioned, _) => before || user == provisioned
    case _ => before
  }

  predicate HasRedirects(config: Config, t: Tables, client: ClientId)
    requires client in t.applications
  {
    t.applications[client].redirects != {} || (client in config.redirectUris && config.redirectUris[client] != {})
  }

  predicate IsServedAfter(config: Config, t: Tables, r: Request, client: ClientId) {
    var before := client in t.applications && t.applications[client].isActive;
    match r
    case AddApplication(_, added, application) =>
      if client == added && client !in t.applications then application.isActive else before
    case ToggleApplication(_, toggled) => if client == toggled && client in t.applications then !before else before
    case UpdateApplication(_, updated, active) =>
      if client == updated && client in t.applications && (!active || HasRedirects(config, t, client)) then active else before
    case _ => before
  }

  predicate SwitchesUsers(r: Request) {
    r.AddUser? || r.SetUserActive? || r.Provision?
  }

  predicate WritesApplications(r: Request) {
    r.AddApplication? || r.SetRedirects? || r.ToggleApplication? || r.UpdateApplication?
  }

  lemma OthersSwitchNoUser(config: Config, t: Tables, r: Request)
    requires !SwitchesUsers(r)
    ensures Handle(config, t, r).0.users == t.users
  {
  }

  lemma OthersWriteNoApplication(config: Config, t: Tables, r: Request)
    requires !WritesApplications(r)
    ensures Handle(config, t, r).0.applications == t.applications
  {
  }

  lemma HandleSwitchesUser(config: Config, t: Tables, r: Request, user: UserId)
    requires SwitchesUsers(r)
    ensures var users := Handle(config, t, r).0.users;
      (user in users && users[user].isActive) <==> IsActiveAfter(t, r, user)
  {
    if r.Provision? {
      assert Written(t, r).users == t.users;
    }
  }

  lemma HandleSwitchesClient(config: Config, t: Tables, r: Request, client: ClientId)
    requires WritesApplications(r)
    ensures var applications := Handle(config, t, r).0.applications;
      (client in applications && applications[client].isActive) <==> IsServedAfter(config, t, r, client)
  {
  }

  /** Activity changes exactly as requested: an administrator cannot switch themselves off, and no application is
      switched on by an update without a callback. */
  lemma RequestSwitchesExactly(config: Config, t: Tables, tx: Transaction, user: UserId, client: ClientId)
    ensures var after := Committed(config, t, tx);
      && ((user in after.users && after.users[user].isActive) <==> IsActiveAfter(t, tx.request, user))
      && ((client in after.applications && after.applications[client].isActive) <==> IsServedAfter(config, t, tx.request, client))
  {
    if SwitchesUsers(tx.request) {
      HandleSwitchesUser(config, t, tx.request, user);
    } else {
      OthersSwitchNoUser(config, t, tx.request);
    }
    if WritesApplications(tx.request) {
      HandleSwitchesClient(config, t, tx.request, client);
    } else {
      OthersWriteNoApplication(config, t, tx.request);
    }
    HookOutcome(Written(t, tx.request), Handle(config, t, tx.request).0, tx.dirty, tx.request.now);
  }

  /** The answers of the administrative routes. */
  lemma RefusalsOfSwitches(config: Config, t: Tables, r: Request)
    ensures r.SetUserActive? ==> (Handle(config, t, r).1 ==
      if r.user !in t.users then Refused(404) else if r.user == r.admin && !r.active then Refused(400) else Done)
    ensures r.ToggleApplication? ==> (Handle(config, t, r).1 == if r.client in t.applications then Done else Refused(404))
    ensures r.UpdateApplication? ==> (Handle(config, t, r).1 ==
      if r.client !in t.applications then Refused(404)
      else if r.active && !HasRedirects(config, t, r.client) then Refused(409) else Done)
    ensures r.RevokeOne? ==> (Handle(config, t, r).1 ==
      if r.session in t.sessions && t.sessions[r.session].user == r.user then Done else Refused(404))
  {
  }
}
