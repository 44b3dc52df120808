/** Runs of the identity service: requests one after another, each committed by one flush whose hook sees the dirty rows
    in an arbitrary order. */
module AuthRuns {
  import opened Collections
  import opened AuthTables
  import opened AuthRequests

  datatype Transaction = Transaction(request: Request, dirty: seq<Object>)

  /** What list(session.dirty) may be in a request's flush. */
  ghost predicate IsFlush(config: Config, t: Tables, tx: Transaction) {
    IsSnapshot(Written(t, tx.request), Handle(config, t, tx.request).0, tx.dirty)
  }

  ghost function Committed(config: Config, t: Tables, tx: Transaction): Tables {
    Hook(Written(t, tx.request), Handle(config, t, tx.request).0, tx.dirty, tx.request.now)
  }

  ghost predicate IsRun(config: Config, txs: seq<Transaction>, states: seq<Tables>) {
    && |states| == |txs| + 1
    && states[0] == states[0].(sessions := map[], codes := map[], outbox := multiset{}, issued := {})
    && forall i :: 0 <= i < |txs| ==>
         IsEnabled(states[i], txs[i].request) && IsFlush(config, states[i], txs[i])
         && states[i + 1] == Committed(config, states[i], txs[i])
  }

  // ----- The invariant -----

  predicate HasActiveOwners(t: Tables, s: SessionId)
    requires s in t.sessions
  {
    && t.sessions[s].user in t.users && t.users[t.sessions[s].user].isActive
    && t.sessions[s].client in t.applications && t.applications[t.sessions[s].client].isActive
  }

  ghost predicate LiveMeansActive(t: Tables) {
    forall s :: IsLive(t, s) ==> HasActiveOwners(t, s)
  }

  /** Revoked by the bulk UPDATE of a provisioning script, which runs past the hook. */
  predicate IsBypassed(row: AuthSession) {
    IsBulkReason(row.reason)
  }

  /** Every session.revoked event describes a revoked session as it stands. */
  ghost predicate EventsAreTrue(t: Tables) {
    forall e :: e in t.outbox && e.SessionRevoked? ==>
      IsRevoked(t, e.session) && e == EventOf(e.session, t.sessions[e.session]) && !IsBypassed(t.sessions[e.session])
  }

  ghost predicate RevocationsAreTold(t: Tables) {
    forall s :: IsRevoked(t, s) && !IsBypassed(t.sessions[s]) ==> t.outbox[EventOf(s, t.sessions[s])] >= 1
  }

  ghost predicate RevocationsAreToldOnce(t: Tables) {
    forall s :: IsRevoked(t, s) && !IsBypassed(t.sessions[s]) ==> t.outbox[EventOf(s, t.sessions[s])] == 1
  }

  ghost predicate Invariant(t: Tables) {
    LiveMeansActive(t) && HasUniqueTokens(t) && EventsAreTrue(t) && RevocationsAreTold(t)
  }

  lemma BulkUpdateKeepsInvariant(t: Tables, request: Request)
    requires Invariant(t)
    ensures Invariant(Written(t, request)) && IsLater(t, Written(t, request))
    ensures RevocationsAreToldOnce(t) ==> RevocationsAreToldOnce(Written(t, request))
  {
    var written := Written(t, request);
    if written != t {
      forall s | s in t.sessions
        ensures s in written.sessions && written.sessions[s].token == t.sessions[s].token
        ensures if IsRevoked(t, s) then written.sessions[s] == t.sessions[s]
          else written.sessions[s] in {t.sessions[s], Revoked(t.sessions[s], request.now, Some(BulkReason(request.provisioner)))}
      {
      }
      assert HasUniqueTokens(written);
      forall s | IsLive(written, s) ensures HasActiveOwners(written, s) {
        assert s in t.sessions && IsLive(t, s) && HasActiveOwners(t, s);
      }
    }
  }

  /** The hook closes what the edit left open: whoever was switched off has no live session afterwards. */
  lemma FlushKeepsLiveActive(t: Tables, rows: Tables, dirty: seq<Object>, now: nat)
    requires LiveMeansActive(t) && IsEdit(t, rows) && IsSnapshot(t, rows, dirty)
    ensures LiveMeansActive(Hook(t, rows, dirty, now))
  {
    var after := Hook(t, rows, dirty, now);
    HookOutcome(t, rows, dirty, now);
    forall s | IsLive(after, s) ensures HasActiveOwners(after, s) {
      assert IsLive(rows, s) && !IsSwept(t, rows, dirty, s);
      if s in t.sessions {
        assert IsLaterRow(t.sessions[s], rows.sessions[s], t.issued) && HasActiveOwners(t, s);
        var user, client := UserObject(t.sessions[s].user), ApplicationObject(t.sessions[s].client);
        if !IsActive(rows, user) {
          assert IsChanged(t, rows, user) && Disables(t, rows, user, s);
        } else if !IsActive(rows, client) {
          assert IsChanged(t, rows, client) && Disables(t, rows, client, s);
        }
      }
    }
  }

  lemma FlushKeepsTokens(t: Tables, rows: Tables, dirty: seq<Object>, now: nat)
    requires HasUniqueTokens(rows)
    ensures HasUniqueTokens(Hook(t, rows, dirty, now))
  {
    var after := Hook(t, rows, dirty, now);
    HookOutcome(t, rows, dirty, now);
    forall s | s in rows.sessions ensures after.sessions[s].token == rows.sessions[s].token {
      assert IsSwept(t, rows, dirty, s) ==> IsSweptRow(rows.sessions[s], after.sessions[s], now);
    }
  }

  lemma FlushMovesForward(t: Tables, rows: Tables, dirty: seq<Object>, now: nat)
    requires IsEdit(t, rows)
    ensures IsLater(t, Hook(t, rows, dirty, now))
  {
    var after := Hook(t, rows, dirty, now);
    HookOutcome(t, rows, dirty, now);
    forall s | s in t.sessions ensures IsLaterRow(t.sessions[s], after.sessions[s], t.issued) {
      assert IsLaterRow(t.sessions[s], rows.sessions[s], t.issued);
    }
  }

  /** A session revoked before the flush keeps its events, one revoked by it gets its first, one still live has none. */
  lemma FlushCountsEvents(t: Tables, rows: Tables, dirty: seq<Object>, now: nat, s: SessionId)
    requires EventsAreTrue(t) && IsEdit(t, rows) && IsSnapshot(t, rows, dirty)
    requires IsRevoked(Hook(t, rows, dirty, now), s)
    ensures var after := Hook(t, rows, dirty, now);
      after.outbox[EventOf(s, after.sessions[s])] ==
        if IsRevoked(t, s) then t.outbox[EventOf(s, t.sessions[s])]
        else if IsToldTwice(t, rows, dirty, s) then 2 else 1
    ensures IsRevoked(t, s) ==> Hook(t, rows, dirty, now).sessions[s] == t.sessions[s]
    ensures IsLive(t, s) ==> !IsBypassed(Hook(t, rows, dirty, now).sessions[s])
    ensures s in t.sessions
  {
    HookOutcome(t, rows, dirty, now);
    assert s in rows.sessions;
    if IsLive(t, s) {
      FlushAnnouncesRevocation(t, rows, dirty, now, s);
    } else {
      ReportsAtMostOnce(t, rows, dirty, s);
    }
  }

  lemma FlushKeepsEventsTrue(t: Tables, rows: Tables, dirty: seq<Object>, now: nat)
    requires EventsAreTrue(t) && IsEdit(t, rows) && IsSnapshot(t, rows, dirty)
    ensures EventsAreTrue(Hook(t, rows, dirty, now))
  {
    var after := Hook(t, rows, dirty, now);
    HookOutcome(t, rows, dirty, now);
    forall e | e in after.outbox && e.SessionRevoked?
      ensures IsRevoked(after, e.session) && e == EventOf(e.session, after.sessions[e.session]) && !IsBypassed(after.sessions[e.session])
    {
      if e in t.outbox {
        assert IsLaterRow(t.sessions[e.session], rows.sessions[e.session], t.issued);
      } else {
        FlushCountsEvents(t, rows, dirty, now, e.session);
      }
    }
  }

  lemma FlushKeepsEventsTold(t: Tables, rows: Tables, dirty: seq<Object>, now: nat)
    requires EventsAreTrue(t) && RevocationsAreTold(t) && IsEdit(t, rows) && IsSnapshot(t, rows, dirty)
    ensures RevocationsAreTold(Hook(t, rows, dirty, now))
    ensures RevocationsAreToldOnce(t) && (forall s :: !IsToldTwice(t, rows, dirty, s)) ==>
      RevocationsAreToldOnce(Hook(t, rows, dirty, now))
  {
    var after := Hook(t, rows, dirty, now);
    forall s | IsRevoked(after, s) && !IsBypassed(after.sessions[s])
      ensures after.outbox[EventOf(s, after.sessions[s])] >= 1
      ensures RevocationsAreToldOnce(t) && !IsToldTwice(t, rows, dirty, s) ==> after.outbox[EventOf(s, after.sessions[s])] == 1
    {
      FlushCountsEvents(t, rows, dirty, now, s);
    }
  }

  lemma TransactionKeepsInvariant(config: Config, t: Tables, tx: Transaction)
    requires Invariant(t) && IsEnabled(t, tx.request) && IsFlush(config, t, tx)
    ensures Invariant(Committed(config, t, tx)) && IsLater(t, Committed(config, t, tx))
    ensures RevocationsAreToldOnce(t) && IsTidy(config, t, tx) ==> RevocationsAreToldOnce(Committed(config, t, tx))
  {
    var written, rows := Written(t, tx.request), Handle(config, t, tx.request).0;
    BulkUpdateKeepsInvariant(t, tx.request);
    HandleIsEdit(config, t, tx.request);
    FlushKeepsLiveActive(written, rows, tx.dirty, tx.request.now);
    FlushMovesForward(written, rows, tx.dirty, tx.request.now);
    FlushKeepsTokens(written, rows, tx.dirty, tx.request.now);
    FlushKeepsEventsTrue(written, rows, tx.dirty, tx.request.now);
    FlushKeepsEventsTold(written, rows, tx.dirty, tx.request.now);
    LaterIsTransitive(t, written, Committed(config, t, tx));
  }

  lemma LaterIsTransitive(t: Tables, t': Tables, t'': Tables)
    requires IsLater(t, t') && IsLater(t', t'')
    ensures IsLater(t, t'')
  {
  }

  /** No unrevoked session in the dirty list follows the owner this flush disables. */
  ghost predicate IsTidy(config: Config, t: Tables, tx: Transaction) {
    forall s :: !IsToldTwice(Written(t, tx.request), Handle(config, t, tx.request).0, tx.dirty, s)
  }

  // ----- What every run keeps -----

  /** In every reachable state each live session belongs to an active user and an active application, although the
      portal toggle revokes nothing itself; and every revocation but the bulk ones has been announced. */
  lemma {:induction false} RunKeepsInvariant(config: Config, txs: seq<Transaction>, states: seq<Tables>, i: nat)
    requires IsRun(config, txs, states) && i < |states|
    ensures Invariant(states[i])
  {
    if i > 0 {
      RunKeepsInvariant(config, txs, states, i - 1);
      TransactionKeepsInvariant(config, states[i - 1], txs[i - 1]);
    }
  }

  /** Revocation is never undone, and a session's user, client, expiry, method and device never change. */
  lemma {:induction false} RowsOnlyMoveForward(config: Config, txs: seq<Transaction>, states: seq<Tables>, i: nat, j: nat)
    requires IsRun(config, txs, states) && i <= j < |states|
    ensures IsLater(states[i], states[j])
    decreases j
  {
    if i < j {
      RowsOnlyMoveForward(config, txs, states, i, j - 1);
      RunKeepsInvariant(config, txs, states, j - 1);
      TransactionKeepsInvariant(config, states[j - 1], txs[j - 1]);
      LaterIsTransitive(states[i], states[j - 1], states[j]);
    }
  }

  /** If no flush lists an unrevoked session after the owner it disables, each revocation is announced exactly once,
      except that the provisioning scripts' bulk revocations are never announced. */
  lemma {:induction false} TidyRunAnnouncesOnce(config: Config, txs: seq<Transaction>, states: seq<Tables>, i: nat)
    requires IsRun(config, txs, states) && i < |states|
    requires forall k :: 0 <= k < |txs| ==> IsTidy(config, states[k], txs[k])
    ensures RevocationsAreToldOnce(states[i])
    ensures forall s :: IsRevoked(states[i], s) && IsBypassed(states[i].sessions[s]) ==>
      states[i].outbox[EventOf(s, states[i].sessions[s])] == 0
  {
    RunKeepsInvariant(config, txs, states, i);
    if i > 0 {
      TidyRunAnnouncesOnce(config, txs, states, i - 1);
      RunKeepsInvariant(config, txs, states, i - 1);
      TransactionKeepsInvariant(config, states[i - 1], txs[i - 1]);
    }
  }

  /** The flush lists a session only if the request changed its row, or assigned to it as bearers and refreshes do. */
  ghost predicate ListsOnlyAssigned(config: Config, t: Tables, tx: Transaction) {
    forall s :: SessionObject(s) in tx.dirty ==>
      tx.request.Bear? || tx.request.Refresh? || IsChanged(Written(t, tx.request), Handle(config, t, tx.request).0, SessionObject(s))
  }

  /** Then every flush is tidy: the routes that disable somebody revoke the sessions themselves or touch none. */
  lemma RequestsAreTidy(config: Config, t: Tables, tx: Transaction)
    requires IsFlush(config, t, tx) && ListsOnlyAssigned(config, t, tx)
    ensures IsTidy(config, t, tx)
  {
    var written, rows := Written(t, tx.request), Handle(config, t, tx.request).0;
    forall s | IsToldTwice(written, rows, tx.dirty, s) ensures false {
      var j, k :| 0 <= j < k < |tx.dirty| && Disables(written, rows, tx.dirty[j], s) && tx.dirty[k] == SessionObject(s);
      assert SessionObject(s) in tx.dirty;
      DisablingLeavesNoneChanged(config, t, tx.request, tx.dirty[j], s);
    }
  }

  lemma DisablingLeavesNoneChanged(config: Config, t: Tables, request: Request, o: Object, s: SessionId)
    requires Disables(Written(t, request), Handle(config, t, request).0, o, s) && IsLive(t, s)
    ensures !request.Bear? && !request.Refresh?
    ensures IsRevoked(Handle(config, t, request).0, s) || Handle(config, t, request).0.sessions[s] == Written(t, request).sessions[s]
  {
  }

  /** The hook's claim that no caller can bypass it has exactly these exceptions: a revocation goes unannounced if and
      only if the bulk UPDATE of a provisioning script made it. */
  lemma OnlyBulkUpdatesAreSilent(config: Config, t: Tables, tx: Transaction, s: SessionId)
    requires Invariant(t) && IsEnabled(t, tx.request) && IsFlush(config, t, tx)
    requires IsLive(t, s) && IsRevoked(Committed(config, t, tx), s)
    ensures var after := Committed(config, t, tx);
      after.outbox[EventOf(s, after.sessions[s])] == 0 <==>
        IssuesBulkUpdate(t, tx.request) && t.sessions[s].user == tx.request.user
  {
    var written, rows := Written(t, tx.request), Handle(config, t, tx.request).0;
    assert EventsAreTrue(Committed(config, t, tx)) by {
      TransactionKeepsInvariant(config, t, tx);
    }
    assert EventsAreTrue(written) by {
      BulkUpdateKeepsInvariant(t, tx.request);
    }
    HandleIsEdit(config, t, tx.request);
    BulkUpdateRevokes(t, tx.request, s);
    FlushCountsEvents(written, rows, tx.dirty, tx.request.now, s);
  }

  lemma BulkUpdateRevokes(t: Tables, request: Request, s: SessionId)
    requires IsLive(t, s)
    ensures IsRevoked(Written(t, request), s) <==> IssuesBulkUpdate(t, request) && t.sessions[s].user == request.user
    ensures IsLive(Written(t, request), s) || IsRevoked(Written(t, request), s)
  {
    if IssuesBulkUpdate(t, request) {
      assert s in Query(t, UserObject(request.user)) <==> t.sessions[s].user == request.user;
    }
  }

  /** And such an UPDATE does end every live session of its account, without a word. */
  lemma ProvisioningIsSilent(config: Config, t: Tables, tx: Transaction, s: SessionId)
    requires Invariant(t) && IsEnabled(t, tx.request) && IsFlush(config, t, tx) && IsLive(t, s)
    requires IssuesBulkUpdate(t, tx.request) && t.sessions[s].user == tx.request.user
    ensures var after := Committed(config, t, tx);
      && IsRevoked(after, s) && IsBypassed(after.sessions[s]) && after.sessions[s].revokedAt == Some(tx.request.now)
      && after.outbox[EventOf(s, after.sessions[s])] == 0
  {
    assert s in Query(t, UserObject(tx.request.user));
    HookOutcome(Written(t, tx.request), Handle(config, t, tx.request).0, tx.dirty, tx.request.now);
    OnlyBulkUpdatesAreSilent(config, t, tx, s);
  }

  /** Switching an application off in the portal ends its sessions, each with an announcement, although the route
      itself writes no session. */
  lemma ToggleEndsSessions(config: Config, t: Tables, tx: Transaction, s: SessionId)
    requires Invariant(t) && IsFlush(config, t, tx) && IsLive(t, s)
    requires tx.request.ToggleApplication? && t.sessions[s].client == tx.request.client
    ensures Handle(config, t, tx.request).0.sessions == t.sessions
    ensures var after := Committed(config, t, tx);
      IsRevoked(after, s) && after.sessions[s].revokedAt == Some(tx.request.now) && after.outbox[EventOf(s, after.sessions[s])] >= 1
  {
    var rows, app := Handle(config, t, tx.request).0, ApplicationObject(tx.request.client);
    assert HasActiveOwners(t, s);
    assert IsChanged(t, rows, app) && Disables(t, rows, app, s);
    HookOutcome(t, rows, tx.dirty, tx.request.now);
    FlushAnnouncesRevocation(t, rows, tx.dirty, tx.request.now, s);
  }

  // ----- Codes -----

  /** The transaction buys a session with `code`. */
  ghost predicate Redeems(config: Config, t: Tables, tx: Transaction, code: string) {
    tx.request.Exchange? && tx.request.code == code && Handle(config, t, tx.request).1.Tokens?
  }

  /** A code buys a session of its own user, client and method, and only for a verifier that matches its challenge. */
  lemma RedemptionMatchesCode(config: Config, txs: seq<Transaction>, states: seq<Tables>, i: nat, code: string)
    requires IsRun(config, txs, states) && i < |txs| && Redeems(config, states[i], txs[i], code)
    ensures code in states[i].codes && var row, r := states[i].codes[code], txs[i].request;
      && config.s256(r.verifier) == row.challenge && r.client == row.client && r.redirect == row.redirect
      && r.session !in states[i].sessions && r.session in states[i + 1].sessions
      && var session := states[i + 1].sessions[r.session];
         && session.user == row.user && session.client == row.client && session.authMethod == row.authMethod
         && session.token == r.refresh && session.expiresAt == r.now + config.sessionLifetime && session.revokedAt.None?
    ensures code in states[i + 1].codes && states[i + 1].codes[code].consumedAt.Some?
  {
    HookOutcome(states[i], Handle(config, states[i], txs[i].request).0, txs[i].dirty, txs[i].request.now);
  }

  /** And it buys at most one. */
  lemma CodeIsRedeemedOnce(config: Config, txs: seq<Transaction>, states: seq<Tables>, i: nat, j: nat, code: string)
    requires IsRun(config, txs, states) && i < j < |txs| && Redeems(config, states[i], txs[i], code)
    ensures !Redeems(config, states[j], txs[j], code)
  {
    RedemptionMatchesCode(config, txs, states, i, code);
    RowsOnlyMoveForward(config, txs, states, i + 1, j);
  }

  /** Every code in the table was issued by an authorization with these very values. */
  lemma {:induction false} CodeWasIssued(config: Config, txs: seq<Transaction>, states: seq<Tables>, i: nat, code: string)
      returns (k: nat)
    requires IsRun(config, txs, states) && i < |states| && code in states[i].codes
    ensures k < i && txs[k].request.Authorize? && txs[k].request.code == code
    ensures Handle(config, states[k], txs[k].request).1 == Done
    ensures var row, r := states[i].codes[code], txs[k].request;
      row == Code(r.user, r.client, r.redirect, r.challenge, r.authMethod, r.now + config.codeLifetime, row.consumedAt)
  {
    k := i - 1;
    HookOutcome(Written(states[k], txs[k].request), Handle(config, states[k], txs[k].request).0, txs[k].dirty, txs[k].request.now);
    OnlyAuthorizationsIssue(config, states[k], txs[k].request, code);
    if code in states[k].codes {
      k := CodeWasIssued(config, txs, states, i - 1, code);
    }
  }

  lemma OnlyAuthorizationsIssue(config: Config, t: Tables, r: Request, code: string)
    requires IsEnabled(t, r) && code in Handle(config, t, r).0.codes
    ensures code !in t.codes ==> r.Authorize? && r.code == code && Handle(config, t, r).1 == Done
    ensures var row := Handle(config, t, r).0.codes[code];
      row == if code in t.codes then t.codes[code].(consumedAt := row.consumedAt)
             else Code(r.user, r.client, r.redirect, r.challenge, r.authMethod, r.now + config.codeLifetime, None)
  {
  }

  /** So a session bought with a code goes back to an authorization by its user, for its client and redirect, whose
      challenge the verifier meets, made less than the code's lifetime before. */
  lemma RedemptionFollowsAuthorization(config: Config, txs: seq<Transaction>, states: seq<Tables>, j: nat, code: string)
      returns (k: nat)
    requires IsRun(config, txs, states) && j < |txs| && Redeems(config, states[j], txs[j], code)
    ensures k < j && txs[k].request.Authorize? && Handle(config, states[k], txs[k].request).1 == Done
    ensures var asked, got := txs[k].request, txs[j].request;
      && got.session in states[j + 1].sessions && states[j + 1].sessions[got.session].user == asked.user
      && states[j + 1].sessions[got.session].authMethod == asked.authMethod
      && got.client == asked.client && got.redirect == asked.redirect && config.s256(got.verifier) == asked.challenge
      && got.now < asked.now + config.codeLifetime
  {
    RedemptionMatchesCode(config, txs, states, j, code);
    k := CodeWasIssued(config, txs, states, j, code);
  }

  // ----- Refresh tokens -----

  /** Handed out, and held by no session any more. */
  ghost predicate IsSuperseded(t: Tables, token: Token) {
    token in t.issued && forall s :: s in t.sessions ==> t.sessions[s].token != token
  }

  lemma SupersededStays(t: Tables, t': Tables, token: Token)
    requires IsSuperseded(t, token) && IsLater(t, t')
    ensures IsSuperseded(t', token)
  {
  }

  /** A refresh hands the session a fresh token and supersedes the presented one. */
  lemma RefreshSupersedes(config: Config, txs: seq<Transaction>, states: seq<Tables>, i: nat)
    requires IsRun(config, txs, states) && i < |txs|
    requires txs[i].request.Refresh? && Handle(config, states[i], txs[i].request).1.Tokens?
    ensures IsSuperseded(states[i + 1], txs[i].request.presented)
    ensures Holder(states[i], txs[i].request.presented).Some?
    ensures var s := Holder(states[i], txs[i].request.presented).value;
      s in states[i + 1].sessions && states[i + 1].sessions[s].token == txs[i].request.refresh
  {
    RunKeepsInvariant(config, txs, states, i);
    HookOutcome(states[i], Handle(config, states[i], txs[i].request).0, txs[i].dirty, txs[i].request.now);
  }

  /** Once replaced, a refresh token is never accepted again, and never ends a session at logout either. */
  lemma SupersededTokenIsRefused(config: Config, txs: seq<Transaction>, states: seq<Tables>, i: nat, j: nat)
    requires IsRun(config, txs, states) && i < j < |txs|
    requires txs[i].request.Refresh? && Handle(config, states[i], txs[i].request).1.Tokens?
    ensures txs[j].request.Refresh? && txs[j].request.presented == txs[i].request.presented ==>
      Handle(config, states[j], txs[j].request).1.Refused?
    ensures txs[j].request.Logout? && txs[j].request.presented == txs[i].request.presented ==>
      Handle(config, states[j], txs[j].request).0 == states[j]
  {
    RefreshSupersedes(config, txs, states, i);
    RowsOnlyMoveForward(config, txs, states, i + 1, j);
    SupersededStays(states[i + 1], states[j], txs[i].request.presented);
  }

  // ----- Bearers -----

  /** authenticated_context does not ask whether the application is active, and needs not: in every reachable state both
      checks accept exactly the bearers of a live, unexpired session that is theirs, and refuse all others alike. */
  lemma BearerChecksAgree(config: Config, txs: seq<Transaction>, states: seq<Tables>, i: nat, check: BearerCheck,
                          user: UserId, session: SessionId, client: ClientId, now: nat)
    requires IsRun(config, txs, states) && i < |states|
    ensures var t := states[i];
      BearerRefusal(t, check, user, session, client, now) ==
        if session in t.sessions && t.sessions[session].user == user && t.sessions[session].client == client
           && t.sessions[session].revokedAt.None? && now < t.sessions[session].expiresAt then None else Some(401)
  {
    RunKeepsInvariant(config, txs, states, i);
    if IsLive(states[i], session) {
      assert HasActiveOwners(states[i], session);
    }
  }
}
