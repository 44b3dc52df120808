/** The requests that create, rotate and revoke sessions, and switch users and applications (platform/ithute-auth/app:
    oauth.py, main.py, passkeys.py, account.py, admin.py, portal.py, system_owner.py): what each does to the rows in
    memory before its flush. */
module AuthRequests {
  import opened Collections
  import opened AuthTables

  /** `s256` is the PKCE transformation of section 4.2 of RFC 7636. */
  datatype Config = Config(redirectUris: map<ClientId, set<string>>, codeLifetime: nat, sessionLifetime: nat,
                           s256: string -> string)

  /** What the caller learns. */
  datatype Answer = Done | Tokens(session: SessionId, refresh: Token) | Refused(status: nat)

  /** Which of the two refresh endpoints is used, and which of the two bearer checks. */
  datatype RefreshEndpoint = OAuthToken | DirectRefresh
  datatype BearerCheck = ProductSession | AuthenticatedContext

  /** The two scripts that make an account from configured secrets, or bring it in line with them. */
  datatype Provisioner = SystemOwner | NbrosAdministrator

  /** Session ids, refresh tokens and codes are drawn by the caller of the model and fresh. `proved` says whether the
      credentials of a login were right. */
  datatype Request =
    | AddUser(now: nat, user: UserId)
    | AddApplication(now: nat, client: ClientId, application: Application)
    | SetRedirects(now: nat, client: ClientId, redirects: set<string>)
    | Authorize(now: nat, client: ClientId, redirect: string, challenge: string, user: UserId, authMethod: AuthMethod,
                code: string)
    | Exchange(now: nat, client: ClientId, code: string, redirect: string, verifier: string, session: SessionId,
               refresh: Token, device: Option<nat>)
    | Login(now: nat, client: ClientId, user: UserId, authMethod: AuthMethod, proved: bool, session: SessionId,
            refresh: Token, device: Option<nat>)
    | Refresh(now: nat, client: ClientId, presented: Token, endpoint: RefreshEndpoint, refresh: Token)
    | Bear(now: nat, check: BearerCheck, user: UserId, session: SessionId, client: ClientId)
    | Logout(now: nat, presented: Token)
    | RevokeOne(now: nat, user: UserId, session: SessionId, reason: Option<string>)
    | RevokeAll(now: nat, user: UserId, except: Option<SessionId>, reason: Option<string>)
    | RevokeDevice(now: nat, user: UserId, trusted: nat, session: SessionId)
    | SetUserActive(now: nat, admin: UserId, user: UserId, active: bool)
    | ToggleApplication(now: nat, client: ClientId)
    | UpdateApplication(now: nat, client: ClientId, active: bool)
    | Provision(now: nat, provisioner: Provisioner, user: UserId, rotated: bool)

  /** The reasons the provisioning scripts write, and no route. */
  const BULK_REASONS := {"system_owner_password_rotated", "nbros_admin_password_provisioned"}

  predicate IsBulkReason(reason: Option<string>) {
    reason.Some? && reason.value in BULK_REASONS
  }

  function BulkReason(provisioner: Provisioner): (reason: string)
    ensures reason in BULK_REASONS
  {
    if provisioner == SystemOwner then "system_owner_password_rotated" else "nbros_admin_password_provisioned"
  }

  // ----- Checks -----

  predicate IsActiveUser(t: Tables, user: UserId) { user in t.users && t.users[user].isActive }

  predicate IsActiveClient(t: Tables, client: ClientId) { client in t.applications && t.applications[client].isActive }

  /** Stored callbacks are authoritative; configured ones serve only applications that have none. */
  function ApprovedRedirects(config: Config, t: Tables, client: ClientId): set<string>
    requires client in t.applications
  {
    if t.applications[client].redirects != {} then t.applications[client].redirects
    else if client in config.redirectUris then config.redirectUris[client]
    else {}
  }

  /** _require_client_redirect. */
  predicate IsClientRedirect(config: Config, t: Tables, client: ClientId, redirect: string) {
    IsActiveClient(t, client) && redirect in ApprovedRedirects(config, t, client)
  }

  predicate IsPkceChar(c: char) {
    'a' <= c <= 'z' || 'A' <= c <= 'Z' || '0' <= c <= '9' || c in "-._~"
  }

  /** _valid_pkce_value. */
  predicate IsPkceValue(value: string) {
    43 <= |value| <= 128 && forall c :: c in value ==> IsPkceChar(c)
  }

  /** The conditions under which a code buys a session. */
  predicate CanRedeem(config: Config, t: Tables, client: ClientId, code: string, redirect: string, verifier: string, now: nat) {
    && IsClientRedirect(config, t, client, redirect)
    && code != "" && redirect != "" && IsPkceValue(verifier)
    && code in t.codes
    && var row := t.codes[code];
       && row.client == client && row.redirect == redirect && row.consumedAt.None? && now < row.expiresAt
       && config.s256(verifier) == row.challenge
       && IsActiveUser(t, row.user)
  }

  /** The session that holds a refresh token: the column is unique. */
  ghost function Holder(t: Tables, presented: Token): Option<SessionId> {
    if s :| s in t.sessions && t.sessions[s].token == presented then Some(s) else None
  }

  ghost predicate CanRefresh(t: Tables, client: ClientId, presented: Token, now: nat) {
    && IsActiveClient(t, client)
    && Holder(t, presented).Some?
    && var row := t.sessions[Holder(t, presented).value];
       && row.client == client && row.revokedAt.None? && now < row.expiresAt
       && IsActiveUser(t, row.user)
  }

  /** The part the two bearer checks share. */
  predicate IsBearable(t: Tables, user: UserId, session: SessionId, client: ClientId, now: nat) {
    && IsLive(t, session)
    && t.sessions[session].user == user && t.sessions[session].client == client && now < t.sessions[session].expiresAt
  }

  /** The status a bearer is refused with, if any. authenticated_context does not look at the application. */
  function BearerRefusal(t: Tables, check: BearerCheck, user: UserId, session: SessionId, client: ClientId, now: nat): Option<nat> {
    if !IsBearable(t, user, session, client, now) then Some(401)
    else if check == ProductSession && !IsActiveClient(t, client) then Some(400)
    else if !IsActiveUser(t, user) then Some(401)
    else None
  }

  // ----- Effects -----

  function NewSession(t: Tables, session: SessionId, row: AuthSession): Tables {
    t.(sessions := t.sessions[session := row], issued := t.issued + {row.token})
  }

  /** The session a code buys. */
  function GrantedByCode(config: Config, code: Code, refresh: Token, device: Option<nat>, now: nat): AuthSession {
    AuthSession(code.user, code.client, refresh, now + config.sessionLifetime, code.authMethod, device, now, None, None)
  }

  function Redeemed(t: Tables, code: string, now: nat, session: SessionId, row: AuthSession): Tables
    requires code in t.codes
  {
    NewSession(t.(codes := t.codes[code := t.codes[code].(consumedAt := Some(now))]), session, row)
  }

  function AllBut(ids: set<SessionId>, except: Option<SessionId>): set<SessionId> {
    set s | s in ids && except != Some(s)
  }

  /** revoke_sessions: the user's stored unrevoked sessions, but for one that may be kept. */
  function Revocable(t: Tables, user: UserId, except: Option<SessionId>): set<SessionId> {
    AllBut(Query(t, UserObject(user)), except)
  }

  function Revoke(t: Tables, ids: set<SessionId>, now: nat, reason: Option<string>): Tables {
    t.(sessions := RevokeRows(t.sessions, ids, now, reason))
  }

  function DeviceSessions(t: Tables, user: UserId, device: nat): set<SessionId> {
    set s | s in Query(t, UserObject(user)) && t.sessions[s].device == Some(device)
  }

  function SwitchUser(t: Tables, user: UserId, active: bool): Tables {
    t.(users := t.users[user := User(active)])
  }

  function SwitchApplication(t: Tables, client: ClientId, active: bool): Tables
    requires client in t.applications
  {
    t.(applications := t.applications[client := t.applications[client].(isActive := active)])
  }

  /** Whether a provisioning script issues its bulk UPDATE: when it sets the password of an account, which the owner's
      script, unlike the other, does not count for an account it has just made. */
  predicate IssuesBulkUpdate(t: Tables, request: Request) {
    request.Provision? && if request.user in t.users then request.rotated else request.provisioner == NbrosAdministrator
  }

  /** The rows the request has written past the ORM when its flush begins: only the provisioning scripts do so, with a
      bulk UPDATE that the hook never sees. */
  function Written(t: Tables, request: Request): Tables {
    if IssuesBulkUpdate(t, request) then
      Revoke(t, Query(t, UserObject(request.user)), request.now, Some(BulkReason(request.provisioner)))
    else t
  }

  ghost function Handle(config: Config, t: Tables, request: Request): (Tables, Answer) {
    match request
    case AddUser(_, user) =>
      if user in t.users then (t, Refused(409)) else (SwitchUser(t, user, true), Done)
    case AddApplication(_, client, application) =>
      if client in t.applications then (t, Refused(422))
      else (t.(applications := t.applications[client := application]), Done)
    case SetRedirects(_, client, redirects) =>
      if client !in t.applications then (t, Refused(404))
      else (t.(applications := t.applications[client := t.applications[client].(redirects := redirects)]), Done)
    case Authorize(now, client, redirect, challenge, user, authMethod, code) =>
      if !IsClientRedirect(config, t, client, redirect) || !IsPkceValue(challenge) then (t, Refused(400))
      else if !IsActiveUser(t, user) then (t, Refused(401))
      else (t.(codes := t.codes[code := Code(user, client, redirect, challenge, authMethod, now + config.codeLifetime, None)]), Done)
    case Exchange(now, client, code, redirect, verifier, session, refresh, device) =>
      if !CanRedeem(config, t, client, code, redirect, verifier, now) then (t, Refused(400))
      else
        (Redeemed(t, code, now, session, GrantedByCode(config, t.codes[code], refresh, device, now)), Tokens(session, refresh))
    case Login(now, client, user, authMethod, proved, session, refresh, device) =>
      if !IsActiveClient(t, client) then (t, Refused(400))
      else if !IsActiveUser(t, user) || !proved then (t, Refused(401))
      else (NewSession(t, session, AuthSession(user, client, refresh, now + config.sessionLifetime, authMethod, device,
                                               now, None, None)), Tokens(session, refresh))
    case Refresh(now, client, presented, endpoint, refresh) =>
      if !CanRefresh(t, client, presented, now) then
        (t, Refused(if endpoint == DirectRefresh && IsActiveClient(t, client) then 401 else 400))
      else
        var s := Holder(t, presented).value;
        (NewSession(t, s, t.sessions[s].(token := refresh, lastSeenAt := now)), Tokens(s, refresh))
    case Bear(now, check, user, session, client) =>
      var refusal := BearerRefusal(t, check, user, session, client, now);
      if refusal.Some? then (t, Refused(refusal.value))
      else (t.(sessions := t.sessions[session := t.sessions[session].(lastSeenAt := now)]), Done)
    case Logout(now, presented) =>
      var holder := Holder(t, presented);
      if holder.None? then (t, Done) else (Revoke(t, {holder.value}, now, Some("logout")), Done)
    case RevokeOne(now, user, session, reason) =>
      if session !in t.sessions || t.sessions[session].user != user then (t, Refused(404))
      else (Revoke(t, {session}, now, reason), Done)
    case RevokeAll(now, user, except, reason) =>
      (Revoke(t, Revocable(t, user, except), now, reason), Done)
    case RevokeDevice(now, user, trusted, session) =>
      (Revoke(t, AllBut(DeviceSessions(t, user, trusted), Some(session)), now, Some("trusted device revoked")), Done)
    case SetUserActive(now, admin, user, active) =>
      if user !in t.users then (t, Refused(404))
      else if user == admin && !active then (t, Refused(400))
      else if active then (SwitchUser(t, user, true), Done)
      else (Revoke(SwitchUser(t, user, false), Revocable(t, user, None), now, Some("account disabled by platform admin")), Done)
    case ToggleApplication(now, client) =>
      if client !in t.applications then (t, Refused(404))
      else (SwitchApplication(t, client, !t.applications[client].isActive), Done)
    case UpdateApplication(now, client, active) =>
      if client !in t.applications then (t, Refused(404))
      else if active && ApprovedRedirects(config, t, client) == {} then (t, Refused(409))
      else if active == t.applications[client].isActive then (t, Done)
      else if active then (SwitchApplication(t, client, true), Done)
      else (Revoke(SwitchApplication(t, client, false), Query(t, ApplicationObject(client)), now, Some("application disabled")), Done)
    case Provision(_, _, user, _) =>
      (SwitchUser(Written(t, request), user, true), Done)
  }

  /** What the environment guarantees: drawn values are fresh, and reasons are the routes' own. */
  predicate IsEnabled(t: Tables, request: Request) {
    && ((request.Exchange? || request.Login?) ==> request.session !in t.sessions && request.refresh !in t.issued)
    && (request.Refresh? ==> request.refresh !in t.issued)
    && (request.Authorize? ==> request.code !in t.codes)
    && ((request.RevokeOne? || request.RevokeAll?) ==> !IsBulkReason(request.reason))
  }

  // ----- What every request leaves alone -----

  /** A session's later form: its user, client, expiry, method and device never change, its token only to a fresh one,
      and nothing changes once it is revoked. */
  predicate IsLaterRow(row: AuthSession, row': AuthSession, issued: set<Token>) {
    && row' == row.(token := row'.token, lastSeenAt := row'.lastSeenAt, revokedAt := row'.revokedAt, reason := row'.reason)
    && (row'.token == row.token || row'.token !in issued)
    && (row.revokedAt.Some? ==> row' == row)
  }

  predicate IsLaterCode(row: Code, row': Code) {
    && row' == row.(consumedAt := row'.consumedAt)
    && (row.consumedAt.Some? ==> row' == row)
  }

  ghost predicate IsLater(t: Tables, t': Tables) {
    && t.users.Keys <= t'.users.Keys && t.applications.Keys <= t'.applications.Keys && t.issued <= t'.issued
    && (forall s :: s in t.sessions ==> s in t'.sessions && IsLaterRow(t.sessions[s], t'.sessions[s], t.issued))
    && (forall s :: s in t'.sessions && s !in t.sessions ==> t'.sessions[s].token !in t.issued)
    && (forall c :: c in t.codes ==> c in t'.codes && IsLaterCode(t.codes[c], t'.codes[c]))
  }

  ghost predicate HasUniqueTokens(t: Tables) {
    && (forall s :: s in t.sessions ==> t.sessions[s].token in t.issued)
    && (forall r, s :: r in t.sessions && s in t.sessions && t.sessions[r].token == t.sessions[s].token ==> r == s)
  }

  /** What may happen in memory before a flush. */
  ghost predicate IsEdit(t: Tables, rows: Tables) {
    && IsLater(t, rows) && HasUniqueTokens(rows)
    && rows.outbox == t.outbox
    && (forall s :: s in rows.sessions && s !in t.sessions ==>
          && rows.sessions[s].revokedAt.None?
          && IsActiveUser(rows, rows.sessions[s].user) && IsActiveClient(rows, rows.sessions[s].client))
    && (forall s :: IsLive(t, s) && IsRevoked(rows, s) ==> !IsBulkReason(rows.sessions[s].reason))
  }

  lemma RevokeIsEdit(t: Tables, switched: Tables, ids: set<SessionId>, now: nat, reason: Option<string>)
    requires HasUniqueTokens(t) && !IsBulkReason(reason)
    requires switched == t.(users := switched.users, applications := switched.applications)
    requires t.users.Keys <= switched.users.Keys && t.applications.Keys <= switched.applications.Keys
    ensures IsEdit(t, Revoke(switched, ids, now, reason))
  {
    var rows := Revoke(switched, ids, now, reason);
    assert rows.sessions.Keys == t.sessions.Keys && rows.codes == t.codes && rows.issued == t.issued;
    forall s | s in t.sessions
      ensures rows.sessions[s].token == t.sessions[s].token && IsLaterRow(t.sessions[s], rows.sessions[s], t.issued)
      ensures IsLive(t, s) && IsRevoked(rows, s) ==> rows.sessions[s].reason == reason
    {
    }
    assert HasUniqueTokens(rows);
    assert IsLater(t, rows);
  }

  lemma NewSessionIsEdit(t: Tables, codes: map<string, Code>, session: SessionId, row: AuthSession)
    requires HasUniqueTokens(t) && row.token !in t.issued
    requires forall c :: c in t.codes ==> c in codes && IsLaterCode(t.codes[c], codes[c])
    requires if session in t.sessions then IsLaterRow(t.sessions[session], row, t.issued) && row.revokedAt.None?
      else row.revokedAt.None? && IsActiveUser(t, row.user) && IsActiveClient(t, row.client)
    ensures IsEdit(t, NewSession(t.(codes := codes), session, row))
  {
  }

  /** Requests that leave the sessions alone, or only move one's last_seen_at. */
  lemma QuietIsEdit(t: Tables, rows: Tables)
    requires HasUniqueTokens(t)
    requires rows == t.(users := rows.users, applications := rows.applications, codes := rows.codes, sessions := rows.sessions)
    requires t.users.Keys <= rows.users.Keys && t.applications.Keys <= rows.applications.Keys
    requires forall c :: c in t.codes ==> c in rows.codes && rows.codes[c] == t.codes[c]
    requires t.sessions.Keys == rows.sessions.Keys
    requires forall s :: s in t.sessions ==> (
      || rows.sessions[s] == t.sessions[s]
      || (IsLive(t, s) && rows.sessions[s] == t.sessions[s].(lastSeenAt := rows.sessions[s].lastSeenAt)))
    ensures IsEdit(t, rows)
  {
    assert forall s :: s in t.sessions ==> rows.sessions[s].token == t.sessions[s].token;
    assert HasUniqueTokens(rows);
  }

  predicate Grants(request: Request) {
    request.Exchange? || request.Login? || request.Refresh?
  }

  predicate Revokes(request: Request) {
    || request.Logout? || request.RevokeOne? || request.RevokeAll? || request.RevokeDevice?
    || (request.SetUserActive? && !request.active) || (request.UpdateApplication? && !request.active)
  }

  lemma RedeemedIsEdit(t: Tables, code: string, now: nat, session: SessionId, row: AuthSession)
    requires HasUniqueTokens(t) && code in t.codes && t.codes[code].consumedAt.None?
    requires session !in t.sessions && row.token !in t.issued && row.revokedAt.None?
    requires IsActiveUser(t, row.user) && IsActiveClient(t, row.client)
    ensures IsEdit(t, Redeemed(t, code, now, session, row))
  {
    NewSessionIsEdit(t, t.codes[code := t.codes[code].(consumedAt := Some(now))], session, row);
  }

  lemma GrantIsEdit(config: Config, t: Tables, request: Request)
    requires HasUniqueTokens(t) && IsEnabled(t, request) && Grants(request)
    ensures IsEdit(t, Handle(config, t, request).0)
  {
    if Handle(config, t, request).1.Refused? {
      QuietIsEdit(t, t);
    } else if request.Exchange? {
      ExchangeIsEdit(config, t, request);
    } else if request.Login? {
      LoginIsEdit(config, t, request);
    } else {
      RefreshIsEdit(config, t, request);
    }
  }

  lemma LoginIsEdit(config: Config, t: Tables, request: Request)
    requires HasUniqueTokens(t) && IsEnabled(t, request) && request.Login?
    requires IsActiveClient(t, request.client) && IsActiveUser(t, request.user) && request.proved
    ensures IsEdit(t, Handle(config, t, request).0)
  {
    assert t.(codes := t.codes) == t;
    NewSessionIsEdit(t, t.codes, request.session, Handle(config, t, request).0.sessions[request.session]);
  }

  lemma ExchangeIsEdit(config: Config, t: Tables, request: Request)
    requires HasUniqueTokens(t) && IsEnabled(t, request) && request.Exchange?
    requires CanRedeem(config, t, request.client, request.code, request.redirect, request.verifier, request.now)
    ensures IsEdit(t, Handle(config, t, request).0)
  {
    RedeemedIsEdit(t, request.code, request.now, request.session,
      GrantedByCode(config, t.codes[request.code], request.refresh, request.device, request.now));
  }

  lemma RefreshIsEdit(config: Config, t: Tables, request: Request)
    requires HasUniqueTokens(t) && IsEnabled(t, request) && request.Refresh?
    requires CanRefresh(t, request.client, request.presented, request.now)
    ensures IsEdit(t, Handle(config, t, request).0)
  {
    var s := Holder(t, request.presented).value;
    assert t.(codes := t.codes) == t;
    NewSessionIsEdit(t, t.codes, s, t.sessions[s].(token := request.refresh, lastSeenAt := request.now));
  }

  lemma RevocationIsEdit(config: Config, t: Tables, request: Request)
    requires HasUniqueTokens(t) && IsEnabled(t, request) && Revokes(request)
    ensures IsEdit(t, Handle(config, t, request).0)
  {
    if Handle(config, t, request).0 == t {
      QuietIsEdit(t, t);
      return;
    }
    match request
    case Logout(now, presented) =>
      RevokeIsEdit(t, t, {Holder(t, presented).value}, now, Some("logout"));
    case RevokeOne(now, _, session, reason) =>
      RevokeIsEdit(t, t, {session}, now, reason);
    case RevokeAll(now, user, except, reason) =>
      RevokeIsEdit(t, t, Revocable(t, user, except), now, reason);
    case RevokeDevice(now, user, trusted, session) =>
      RevokeIsEdit(t, t, AllBut(DeviceSessions(t, user, trusted), Some(session)), now, Some("trusted device revoked"));
    case SetUserActive(now, _, user, _) =>
      RevokeIsEdit(t, SwitchUser(t, user, false), Revocable(t, user, None), now, Some("account disabled by platform admin"));
    case UpdateApplication(now, client, _) =>
      RevokeIsEdit(t, SwitchApplication(t, client, false), Query(t, ApplicationObject(client)), now, Some("application disabled"));
  }

  lemma ProvisionIsEdit(config: Config, t: Tables, request: Request)
    requires HasUniqueTokens(t) && request.Provision?
    ensures IsEdit(Written(t, request), Handle(config, t, request).0)
  {
    var written := Written(t, request);
    assert written.sessions.Keys == t.sessions.Keys && written.issued == t.issued;
    assert forall s :: s in t.sessions ==> written.sessions[s].token == t.sessions[s].token;
    QuietIsEdit(written, SwitchUser(written, request.user, true));
  }

  lemma BearIsEdit(config: Config, t: Tables, request: Request)
    requires HasUniqueTokens(t) && request.Bear?
    ensures IsEdit(t, Handle(config, t, request).0)
  {
    QuietIsEdit(t, Handle(config, t, request).0);
  }

  /** Every request is such an edit of what is written when its flush begins. */
  lemma HandleIsEdit(config: Config, t: Tables, request: Request)
    requires HasUniqueTokens(t) && IsEnabled(t, request)
    ensures IsEdit(Written(t, request), Handle(config, t, request).0)
  {
    if Grants(request) {
      GrantIsEdit(config, t, request);
    } else if Revokes(request) {
      RevocationIsEdit(config, t, request);
    } else if request.Provision? {
      ProvisionIsEdit(config, t, request);
    } else if request.Bear? {
      BearIsEdit(config, t, request);
    } else {
      var rows := Handle(config, t, request).0;
      assert Written(t, request) == t && rows.sessions == t.sessions;
      QuietIsEdit(t, rows);
    }
  }
}
