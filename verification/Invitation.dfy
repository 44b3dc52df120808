/** Trusted identity invitations (platform/ithute-auth/app/identity_invitations.py): a product invites a contact, the
    contact answers a challenge, and the invitation is tied to one identity for good. Times are in seconds. */
module Invitation {
  import opened Collections

  type UserId = nat

  datatype Contact = Email(address: string) | Phone(number: string)

  datatype User = User(email: Option<string>, phone: Option<string>, emailVerified: bool, phoneVerified: bool,
                       isActive: bool)

  /** The source service and its own reference to the person: unique together in the table. */
  datatype InvitationId = InvitationId(client: string, reference: string)

  /** Token and code are stored as digests; digests are taken to be injective, so the row shows what was digested. */
  datatype Challenge = Challenge(token: string, code: string)

  datatype Status = Pending | Expired | Locked | Cancelled | Activated

  datatype Delivery = Queued | Sent | Failed | Completed

  datatype Row = Row(contact: Contact, challenge: Challenge, status: Status, delivery: Delivery, attempts: nat,
                     expiresAt: nat, lastSentAt: Option<nat>, consumedAt: Option<nat>, cancelledAt: Option<nat>,
                     user: Option<UserId>)

  /** `announced` holds the identity.invitation_activated events in the outbox. */
  datatype Db = Db(users: map<UserId, User>, rows: map<InvitationId, Row>, announced: multiset<(InvitationId, UserId)>)

  datatype Guess = Guess(token: Option<string>, code: Option<string>)

  /** `now` is the clock, `drawn` a newly drawn challenge, `sent` whether the delivery adapter worked, `newUser` a fresh
      id, and `raced` whether another transaction registered the contact before this one's flush. Others stands for
      everything else the service does to identities. */
  datatype Request =
    | Create(id: InvitationId, contact: Contact, now: nat, drawn: Challenge, sent: bool)
    | Resend(id: InvitationId, client: string, now: nat, drawn: Challenge, sent: bool)
    | Cancel(id: InvitationId, client: string, now: nat)
    | Activate(id: InvitationId, now: nat, guess: Guess, password: bool, newUser: UserId, raced: bool)
    | Others(users: map<UserId, User>)

  /** The HTTP error, or the subject the answer reveals. */
  datatype Answer = Ok(sub: Option<UserId>) | Error(code: nat)

  const INVITATION_TTL := 24 * 60 * 60
  const RESEND_COOLDOWN := 60
  const MAX_ACTIVATION_ATTEMPTS := 8

  predicate Owns(user: User, contact: Contact) {
    match contact
    case Email(address) => user.email == Some(address)
    case Phone(number) => user.phone == Some(number)
  }

  /** The unique columns of the users table. */
  ghost predicate HasUniqueContacts(users: map<UserId, User>) {
    forall u, v, contact :: u in users && v in users && Owns(users[u], contact) && Owns(users[v], contact) ==> u == v
  }

  /** _resolve_existing_identity, for the one contact the request validator leaves. */
  ghost function Resolve(users: map<UserId, User>, contact: Contact): Option<UserId> {
    if u :| u in users && Owns(users[u], contact) then Some(u) else None
  }

  function Verified(user: User, contact: Contact): User {
    match contact
    case Email(_) => user.(emailVerified := true)
    case Phone(_) => user.(phoneVerified := true)
  }

  function NewIdentity(contact: Contact): User {
    match contact
    case Email(address) => User(Some(address), None, true, false, true)
    case Phone(number) => User(None, Some(number), false, true, true)
  }

  predicate Matches(guess: Guess, challenge: Challenge) {
    guess.token == Some(challenge.token) || guess.code == Some(challenge.code)
  }

  // ----- What each request does -----

  /** _refresh_challenge followed by _attempt_delivery. */
  function Refreshed(row: Row, now: nat, drawn: Challenge, sent: bool): Row {
    row.(challenge := drawn, expiresAt := now + INVITATION_TTL, attempts := 0, status := Pending, cancelledAt := None,
         delivery := if sent then Sent else Failed, lastSentAt := if sent then Some(now) else row.lastSentAt)
  }

  function NewRow(contact: Contact, now: nat, drawn: Challenge): Row {
    Row(contact, drawn, Pending, Queued, 0, now + INVITATION_TTL, None, None, None, None)
  }

  predicate IsConsumed(db: Db, id: InvitationId) {
    id in db.rows && db.rows[id].consumedAt.Some?
  }

  predicate IsCooling(row: Row, now: nat) {
    row.lastSentAt.Some? && now < row.lastSentAt.value + RESEND_COOLDOWN
  }

  /** The row can still be answered: not withdrawn, not locked, in time. */
  predicate IsOpen(row: Row, now: nat) {
    row.consumedAt.None? && row.cancelledAt.None? && row.status !in {Cancelled, Locked} && now < row.expiresAt
  }

  ghost function Refusal(db: Db, request: Request): (code: Option<nat>) {
    match request
    case Create(_, _, _, _, _) => None
    case Resend(id, client, now, _, _) =>
      if id !in db.rows || id.client != client then Some(404)
      else if IsConsumed(db, id) then Some(409)
      else if IsCooling(db.rows[id], now) then Some(429)
      else None
    case Cancel(id, client, _) =>
      if id !in db.rows || id.client != client then Some(404)
      else if IsConsumed(db, id) then Some(409)
      else None
    case Activate(id, now, guess, password, _, raced) =>
      if id !in db.rows then Some(404)
      else if IsConsumed(db, id) then (if db.rows[id].user.None? then Some(409) else None)
      else if !IsOpen(db.rows[id], now) || db.rows[id].attempts >= MAX_ACTIVATION_ATTEMPTS then Some(410)
      else if !Matches(guess, db.rows[id].challenge) then Some(401)
      else (
        match Resolve(db.users, db.rows[id].contact)
        case Some(u) => if db.users[u].isActive then None else Some(403)
        case None => if !password then Some(422) else if raced then Some(409) else None
      )
    case Others(_) => None
  }

  /** What a refused activation leaves in its row. */
  function Refused(row: Row, now: nat, guess: Guess): Row {
    if row.consumedAt.Some? || row.cancelledAt.Some? || row.status in {Cancelled, Locked} then row
    else if row.expiresAt <= now then row.(status := Expired)
    else if row.attempts >= MAX_ACTIVATION_ATTEMPTS then row.(status := Locked)
    else if Matches(guess, row.challenge) then row
    else row.(attempts := row.attempts + 1,
              status := if row.attempts + 1 >= MAX_ACTIVATION_ATTEMPTS then Locked else row.status)
  }

  ghost function Consumed(db: Db, request: Request): (Db, UserId)
    requires request.Activate? && request.id in db.rows
  {
    var row := db.rows[request.id];
    var found := Resolve(db.users, row.contact);
    var user := if found.Some? then found.value else request.newUser;
    var identity := if found.Some? then Verified(db.users[user], row.contact) else NewIdentity(row.contact);
    var row' := row.(user := Some(user), status := Activated, consumedAt := Some(request.now), delivery := Completed);
    (Db(db.users[user := identity], db.rows[request.id := row'], db.announced + multiset{(request.id, user)}), user)
  }

  ghost function Handle(db: Db, request: Request): (Db, Answer) {
    var refusal := Refusal(db, request);
    match request
    case Create(id, contact, now, drawn, sent) =>
      if IsConsumed(db, id) then (db, Ok(db.rows[id].user))
      else
        var row := if id in db.rows then db.rows[id].(contact := contact) else NewRow(contact, now, drawn);
        (db.(rows := db.rows[id := Refreshed(row, now, drawn, sent)]), Ok(None))
    case Resend(id, _, now, drawn, sent) =>
      if refusal.Some? then (db, Error(refusal.value))
      else (db.(rows := db.rows[id := Refreshed(db.rows[id], now, drawn, sent)]), Ok(None))
    case Cancel(id, _, now) =>
      if refusal.Some? then (db, Error(refusal.value))
      else (db.(rows := db.rows[id := db.rows[id].(status := Cancelled, cancelledAt := Some(now))]), Ok(None))
    case Activate(id, now, guess, _, _, _) =>
      if refusal.Some? then
        (if id in db.rows then db.(rows := db.rows[id := Refused(db.rows[id], now, guess)]) else db,
         Error(refusal.value))
      else if IsConsumed(db, id) then (db, Ok(db.rows[id].user))
      else var (after, user) := Consumed(db, request); (after, Ok(Some(user)))
    case Others(users) => (db.(users := users), Ok(None))
  }

  class Service {
    var users: map<UserId, User>
    var rows: map<InvitationId, Row>
    var announced: multiset<(InvitationId, UserId)>

    ghost function State(): Db
      reads this
    {
      Db(users, rows, announced)
    }

    method ResolveExistingIdentity(contact: Contact) returns (found: Option<UserId>)
      requires HasUniqueContacts(users)
      ensures found == Resolve(users, contact)
    {
      var unread := users.Keys;
      while unread != {}
        invariant unread <= users.Keys
        invariant forall u :: u in users && u !in unread ==> !Owns(users[u], contact)
      {
        var u :| u in unread;
        if Owns(users[u], contact) {
          return Some(u);
        }
        unread := unread - {u};
      }
      found := None;
    }

    method RefreshChallenge(id: InvitationId, now: nat, drawn: Challenge, sent: bool)
      requires id in rows
      modifies `rows
      ensures rows == old(rows)[id := Refreshed(old(rows)[id], now, drawn, sent)]
    {
      var row := rows[id];
      row := row.(challenge := drawn, expiresAt := now + INVITATION_TTL, attempts := 0);
      row := row.(status := Pending, cancelledAt := None, delivery := Queued);
      if !sent {
        row := row.(delivery := Failed);
      } else {
        row := row.(delivery := Sent, lastSentAt := Some(now));
      }
      rows := rows[id := row];
    }

    method CreateInvitation(id: InvitationId, contact: Contact, now: nat, drawn: Challenge, sent: bool)
        returns (answer: Answer)
      modifies this
      ensures (State(), answer) == Handle(old(State()), Create(id, contact, now, drawn, sent))
    {
      if id in rows && rows[id].consumedAt.Some? {
        return Ok(rows[id].user);
      }
      if id !in rows {
        rows := rows[id := NewRow(contact, now, drawn)];
      } else {
        rows := rows[id := rows[id].(contact := contact)];
      }
      ghost var row := rows[id];
      RefreshChallenge(id, now, drawn, sent);
      assert rows == old(rows)[id := Refreshed(row, now, drawn, sent)];
      answer := Ok(None);
    }

    method ResendInvitation(id: InvitationId, client: string, now: nat, drawn: Challenge, sent: bool)
        returns (answer: Answer)
      modifies this
      ensures (State(), answer) == Handle(old(State()), Resend(id, client, now, drawn, sent))
    {
      if id !in rows || id.client != client {
        return Error(404);
      }
      if rows[id].consumedAt.Some? {
        return Error(409);
      }
      if rows[id].lastSentAt.Some? && now - rows[id].lastSentAt.value < RESEND_COOLDOWN {
        return Error(429);
      }
      RefreshChallenge(id, now, drawn, sent);
      answer := Ok(None);
    }

    method CancelInvitation(id: InvitationId, client: string, now: nat) returns (answer: Answer)
      modifies this
      ensures (State(), answer) == Handle(old(State()), Cancel(id, client, now))
    {
      if id !in rows || id.client != client {
        return Error(404);
      }
      if rows[id].consumedAt.Some? {
        return Error(409);
      }
      rows := rows[id := rows[id].(status := Cancelled, cancelledAt := Some(now))];
      answer := Ok(None);
    }

    /** The checks before the challenge: an answer when the invitation is not open. */
    method CheckOpen(id: InvitationId, now: nat) returns (answer: Option<Answer>)
      requires id in rows
      modifies `rows
      ensures id in rows && rows == old(rows)[id := rows[id]]
      ensures answer.None? <==> IsOpen(old(rows)[id], now) && old(rows)[id].attempts < MAX_ACTIVATION_ATTEMPTS
      ensures answer.None? ==> rows == old(rows)
      ensures old(rows)[id].consumedAt.Some? ==> rows == old(rows)
      ensures old(rows)[id].consumedAt.Some? ==>
        answer == Some(if rows[id].user.None? then Error(409) else Ok(rows[id].user))
      ensures answer.Some? && old(rows)[id].consumedAt.None? ==> answer == Some(Error(410))
      ensures answer.Some? ==> forall guess :: rows[id] == Refused(old(rows)[id], now, guess)
    {
      var row := rows[id];
      if row.consumedAt.Some? {
        answer := Some(if row.user.None? then Error(409) else Ok(row.user));
      } else if row.cancelledAt.Some? || row.status in {Cancelled, Locked} {
        answer := Some(Error(410));
      } else if row.expiresAt <= now {
        rows := rows[id := row.(status := Expired)];
        answer := Some(Error(410));
      } else if row.attempts >= MAX_ACTIVATION_ATTEMPTS {
        rows := rows[id := row.(status := Locked)];
        answer := Some(Error(410));
      } else {
        answer := None;
      }
    }

    method CheckChallenge(id: InvitationId, guess: Guess) returns (valid: bool)
      requires id in rows
      modifies `rows
      ensures valid <==> Matches(guess, old(rows)[id].challenge)
      ensures valid ==> rows == old(rows)
      ensures !valid ==> forall now: nat :: IsOpen(old(rows)[id], now) && old(rows)[id].attempts < MAX_ACTIVATION_ATTEMPTS ==>
        rows == old(rows)[id := Refused(old(rows)[id], now, guess)]
    {
      var row := rows[id];
      valid := false;
      if guess.token.Some? {
        valid := guess.token.value == row.challenge.token;
      }
      if !valid && guess.code.Some? {
        valid := guess.code.value == row.challenge.code;
      }
      if !valid {
        row := row.(attempts := row.attempts + 1);
        if row.attempts >= MAX_ACTIVATION_ATTEMPTS {
          row := row.(status := Locked);
        }
        rows := rows[id := row];
      }
    }

    /** activate_identity_invitation. */
    method ActivateInvitation(id: InvitationId, now: nat, guess: Guess, password: bool, newUser: UserId, raced: bool)
        returns (answer: Answer)
      requires HasUniqueContacts(users) && newUser !in users
      modifies this
      ensures (State(), answer) == Handle(old(State()), Activate(id, now, guess, password, newUser, raced))
    {
      if id !in rows {
        return Error(404);
      }
      var closed := CheckOpen(id, now);
      if closed.Some? {
        return closed.value;
      }
      var valid := CheckChallenge(id, guess);
      if !valid {
        return Error(401);
      }
      var contact := rows[id].contact;
      var found := ResolveExistingIdentity(contact);
      if found.Some? && !users[found.value].isActive {
        assert rows[id := rows[id]] == rows;
        return Error(403);
      }
      var user := newUser;
      if found.None? {
        if !password || raced {
          assert rows[id := rows[id]] == rows;
          return Error(if !password then 422 else 409);
        }
        users := users[user := NewIdentity(contact)];
      } else {
        user := found.value;
        users := users[user := Verified(users[user], contact)];
      }
      rows := rows[id := rows[id].(user := Some(user), status := Activated, consumedAt := Some(now), delivery := Completed)];
      announced := announced + multiset{(id, user)};
      answer := Ok(Some(user));
    }
  }

  // ----- Runs -----

  /** Fresh ids are fresh, and no other transaction breaks the unique columns or deletes an identity. */
  ghost predicate IsEnabled(db: Db, request: Request) {
    && (request.Activate? ==> request.newUser !in db.users)
    && (request.Others? ==> HasUniqueContacts(request.users) && db.users.Keys <= request.users.Keys)
  }

  ghost predicate IsRun(requests: seq<Request>, dbs: seq<Db>) {
    && |dbs| == |requests| + 1
    && HasUniqueContacts(dbs[0].users) && dbs[0].rows == map[] && dbs[0].announced == multiset{}
    && forall i :: 0 <= i < |requests| ==>
         IsEnabled(dbs[i], requests[i]) && dbs[i + 1] == Handle(dbs[i], requests[i]).0
  }

  /** What the columns of a row say together. */
  predicate IsCoherent(row: Row) {
    && (row.status == Activated <==> row.consumedAt.Some?)
    && (row.status == Activated <==> row.user.Some?)
    && (row.status == Cancelled <==> row.cancelledAt.Some?)
    && (row.status == Locked ==> row.attempts == 8)
    && row.attempts <= 8
    && (row.attempts == 8 ==> row.status in {Locked, Cancelled})
  }

  predicate ActivatedAs(db: Db, id: InvitationId, user: UserId) {
    id in db.rows && db.rows[id].status == Activated && db.rows[id].user == Some(user)
  }

  ghost predicate Invariant(db: Db) {
    && HasUniqueContacts(db.users)
    && (forall id :: id in db.rows ==> IsCoherent(db.rows[id]))
    && (forall id, user :: db.announced[(id, user)] == if ActivatedAs(db, id, user) then 1 else 0)
    && (forall id, user :: ActivatedAs(db, id, user) ==> user in db.users)
  }

  lemma ActivationKeepsInvariant(db: Db, request: Request)
    requires Invariant(db) && IsEnabled(db, request)
    requires request.Activate? && request.id in db.rows && db.rows[request.id].status != Activated
    requires db.rows[request.id].attempts < MAX_ACTIVATION_ATTEMPTS && db.rows[request.id].cancelledAt.None?
    ensures Invariant(Consumed(db, request).0)
  {
    var (after, user) := Consumed(db, request);
    forall u, v, contact | u in after.users && v in after.users && Owns(after.users[u], contact) && Owns(after.users[v], contact)
      ensures u == v
    {
      var own := db.rows[request.id].contact;
      if user !in db.users {
        if u == user || v == user {
          assert contact == own;
        }
      }
    }
    forall id, other ensures after.announced[(id, other)] == if ActivatedAs(after, id, other) then 1 else 0 {
      assert ActivatedAs(db, id, other) ==> id != request.id;
    }
  }

  lemma RequestKeepsInvariant(db: Db, request: Request)
    requires Invariant(db) && IsEnabled(db, request)
    ensures Invariant(Handle(db, request).0)
  {
    var after := Handle(db, request).0;
    if request.Activate? && Refusal(db, request).None? && !IsConsumed(db, request.id) {
      ActivationKeepsInvariant(db, request);
    } else {
      forall id, user ensures ActivatedAs(after, id, user) == ActivatedAs(db, id, user) {
      }
    }
  }

  /** In every reachable state: activated, consumed and tied to an identity are one thing; cancelled and cancelled_at
      are one thing; attempts never exceed 8, and 8 attempts mean locked or cancelled; every activated invitation was
      announced exactly once, and no other was; and no two identities share a contact. */
  lemma {:induction false} RunKeepsInvariant(requests: seq<Request>, dbs: seq<Db>, i: nat)
    requires IsRun(requests, dbs) && i < |dbs|
    ensures Invariant(dbs[i])
  {
    if i > 0 {
      RunKeepsInvariant(requests, dbs, i - 1);
      RequestKeepsInvariant(dbs[i - 1], requests[i - 1]);
    }
  }

  /** So the attempt guard after the expiry check never fires: whatever is still open has guesses left. */
  lemma OpenMeansGuessesLeft(requests: seq<Request>, dbs: seq<Db>, i: nat, id: InvitationId, now: nat)
    requires IsRun(requests, dbs) && i < |dbs| && id in dbs[i].rows && IsOpen(dbs[i].rows[id], now)
    ensures dbs[i].rows[id].attempts < 8
  {
    RunKeepsInvariant(requests, dbs, i);
  }

  lemma ActivatedRowStays(db: Db, request: Request, id: InvitationId)
    requires id in db.rows && db.rows[id].status == Activated && IsCoherent(db.rows[id])
    ensures var after := Handle(db, request).0; id in after.rows && after.rows[id] == db.rows[id]
  {
  }

  /** Activation is final: no later request changes the row, so its identity is fixed for good. */
  lemma {:induction false} ActivationIsFinal(requests: seq<Request>, dbs: seq<Db>, i: nat, j: nat, id: InvitationId)
    requires IsRun(requests, dbs) && i <= j < |dbs| && id in dbs[i].rows && dbs[i].rows[id].status == Activated
    ensures id in dbs[j].rows && dbs[j].rows[id] == dbs[i].rows[id]
    decreases j
  {
    if i < j {
      ActivationIsFinal(requests, dbs, i, j - 1, id);
      assert IsCoherent(dbs[i].rows[id]) by {
        RunKeepsInvariant(requests, dbs, i);
      }
      ActivatedRowStays(dbs[j - 1], requests[j - 1], id);
    }
  }

  // ----- The service's promises, said of the rows alone -----

  /** Neither activated, withdrawn nor locked, and in time. */
  predicate IsAnswerable(row: Row, now: nat) {
    row.consumedAt.None? && row.cancelledAt.None? && row.status != Cancelled && row.status != Locked && now < row.expiresAt
  }

  /** The guess holds the right token or the right code. */
  predicate IsAnsweredBy(row: Row, guess: Guess) {
    || (guess.token.Some? && guess.token.value == row.challenge.token)
    || (guess.code.Some? && guess.code.value == row.challenge.code)
  }

  predicate HasContact(user: User, contact: Contact) {
    match contact
    case Email(address) => user.email.Some? && user.email.value == address
    case Phone(number) => user.phone.Some? && user.phone.value == number
  }

  predicate HasVerified(user: User, contact: Contact) {
    HasContact(user, contact) && if contact.Email? then user.emailVerified else user.phoneVerified
  }

  /** The status an activation is refused with, in the order in which the reasons count. */
  ghost function ActivationRefusal(db: Db, r: Request): (status: Option<nat>)
    requires r.Activate?
  {
    if r.id !in db.rows then Some(404)
    else
      var row := db.rows[r.id];
      if row.consumedAt.Some? then (if row.user.None? then Some(409) else None)
      else if !IsAnswerable(row, r.now) then Some(410)
      else if !IsAnsweredBy(row, r.guess) then Some(401)
      else if exists u :: u in db.users && HasContact(db.users[u], row.contact) && !db.users[u].isActive then Some(403)
      else if exists u :: u in db.users && HasContact(db.users[u], row.contact) then None
      else if !r.password then Some(422)
      else if r.raced then Some(409)
      else None
  }

  /** In a reachable state an activation is answered exactly so: with the status of its refusal, or with the subject the
      invitation is tied to from then on. */
  lemma ActivationIsAnsweredExactly(db: Db, r: Request)
    requires Invariant(db) && IsEnabled(db, r) && r.Activate?
    ensures var (after, answer) := Handle(db, r);
      if ActivationRefusal(db, r).Some? then answer == Error(ActivationRefusal(db, r).value)
      else r.id in after.rows && after.rows[r.id].user.Some? && answer == Ok(after.rows[r.id].user)
    ensures var (after, answer) := Handle(db, r);
      answer.Ok? && r.id in db.rows && db.rows[r.id].consumedAt.None? ==>
        && after.rows[r.id].status == Activated && after.rows[r.id].consumedAt == Some(r.now)
        && after.rows == db.rows[r.id := after.rows[r.id]]
        && forall u :: u in db.users && HasContact(db.users[u], db.rows[r.id].contact) ==> after.rows[r.id].user == Some(u)
  {
    if r.id in db.rows {
      var contact := db.rows[r.id].contact;
      forall u: UserId | u in db.users ensures HasContact(db.users[u], contact) == Owns(db.users[u], contact) {
      }
      forall u, v | u in db.users && v in db.users && Owns(db.users[u], contact) && Owns(db.users[v], contact) ensures u == v {
      }
    }
  }

  /** What a refused activation leaves behind: an expired row marked so, a wrong guess counted, and the row locked by the
      eighth; nothing else. */
  lemma RefusedActivationLeaves(db: Db, r: Request)
    requires Invariant(db) && r.Activate? && Handle(db, r).1.Error?
    ensures Handle(db, r).0.users == db.users && Handle(db, r).0.announced == db.announced
    ensures r.id !in db.rows ==> Handle(db, r).0.rows == db.rows
    ensures r.id in db.rows ==> (
      var row := db.rows[r.id];
      var isLate := row.consumedAt.None? && row.cancelledAt.None? && row.status != Locked && r.now >= row.expiresAt;
      Handle(db, r).0.rows == db.rows[r.id :=
        if isLate then row.(status := Expired)
        else if IsWrongGuess(db, r, r.id) then
          row.(attempts := row.attempts + 1, status := if row.attempts + 1 == 8 then Locked else row.status)
        else row])
  {
  }

  /** A resend is refused for an unknown or foreign invitation, an activated one, or within 60 seconds of the last
      delivery, and a cancellation for the first two; what they leave is said by OnlyRenewalsChangeChallenge. */
  lemma ServiceRefusals(db: Db, r: Request)
    ensures r.Resend? ==> (Handle(db, r).1 ==
      if r.id !in db.rows || r.id.client != r.client then Error(404)
      else if db.rows[r.id].consumedAt.Some? then Error(409)
      else if db.rows[r.id].lastSentAt.Some? && r.now < db.rows[r.id].lastSentAt.value + 60 then Error(429)
      else Ok(None))
    ensures r.Cancel? ==> (Handle(db, r).1 ==
      if r.id !in db.rows || r.id.client != r.client then Error(404)
      else if db.rows[r.id].consumedAt.Some? then Error(409)
      else Ok(None))
    ensures r.Cancel? && Handle(db, r).1.Ok? ==>
      Handle(db, r).0 == db.(rows := db.rows[r.id := db.rows[r.id].(status := Cancelled, cancelledAt := Some(r.now))])
    ensures r.Create? ==> (Handle(db, r).1 ==
      Ok(if r.id in db.rows && db.rows[r.id].consumedAt.Some? then db.rows[r.id].user else None))
    ensures (r.Resend? || r.Cancel?) && Handle(db, r).1.Error? ==> Handle(db, r).0 == db
  {
  }

  /** The only way to become activated: a guess that matches the current challenge, in time, on an invitation neither
      locked nor withdrawn, by the active owner of the invited contact, known before or made on the spot. */
  lemma ActivationNeedsChallenge(db: Db, request: Request, id: InvitationId)
    requires id in db.rows ==> db.rows[id].status != Activated
    requires var after := Handle(db, request).0; id in after.rows && after.rows[id].status == Activated
    ensures id in db.rows && request.Activate? && request.id == id
    ensures IsAnswerable(db.rows[id], request.now) && IsAnsweredBy(db.rows[id], request.guess)
    ensures Handle(db, request).0.rows[id].user.Some?
    ensures var after := Handle(db, request).0;
      var user := after.rows[id].user.value;
      && user in after.users && after.users[user].isActive && HasVerified(after.users[user], db.rows[id].contact)
      && (user in db.users || user == request.newUser)
  {
  }

  predicate Refreshes(request: Request, id: InvitationId) {
    (request.Create? || request.Resend?) && request.id == id
  }

  /** The request draws a new challenge for `id`, rather than being refused or finding it activated. */
  predicate Renews(db: Db, request: Request, id: InvitationId) {
    && Refreshes(request, id)
    && (id in db.rows ==> db.rows[id].consumedAt.None?)
    && (request.Resend? ==>
         && id in db.rows && request.client == id.client
         && (db.rows[id].lastSentAt.Some? ==> request.now >= db.rows[id].lastSentAt.value + 60))
  }

  /** A renewal sets up the row afresh: the drawn challenge, 24 hours from now, no attempts, not withdrawn. Nothing else
      touches challenge and expiry. */
  lemma OnlyRenewalsChangeChallenge(db: Db, request: Request, id: InvitationId)
    requires id in Handle(db, request).0.rows
    ensures var row := Handle(db, request).0.rows[id];
      if Renews(db, request, id) then
        && row.challenge == request.drawn && row.expiresAt == request.now + 86400
        && row.attempts == 0 && row.status == Pending && row.cancelledAt.None? && row.consumedAt.None?
        && (request.sent ==> row.lastSentAt == Some(request.now) && row.delivery == Sent)
        && (!request.sent ==> row.delivery == Failed)
        && row.contact == if request.Create? then request.contact else db.rows[id].contact
      else id in db.rows && row.challenge == db.rows[id].challenge && row.expiresAt == db.rows[id].expiresAt
  {
  }

  /** The challenge and the expiry of a row are those of the latest renewal. */
  lemma {:induction false} ChallengeIsLatest(requests: seq<Request>, dbs: seq<Db>, i: nat, id: InvitationId) returns (k: nat)
    requires IsRun(requests, dbs) && i < |dbs| && id in dbs[i].rows
    ensures k < i && Renews(dbs[k], requests[k], id)
    ensures forall j :: k < j < i ==> !Renews(dbs[j], requests[j], id)
    ensures dbs[i].rows[id].challenge == requests[k].drawn && dbs[i].rows[id].expiresAt == requests[k].now + 86400
  {
    k := i - 1;
    OnlyRenewalsChangeChallenge(dbs[k], requests[k], id);
    if !Renews(dbs[k], requests[k], id) {
      k := ChallengeIsLatest(requests, dbs, i - 1, id);
    }
  }

  /** So an invitation is activated by a guess at the challenge sent last, within 24 hours of its being drawn. */
  lemma ActivationAnswersLatestChallenge(requests: seq<Request>, dbs: seq<Db>, i: nat, id: InvitationId) returns (k: nat)
    requires IsRun(requests, dbs) && i < |requests| && id in dbs[i + 1].rows && dbs[i + 1].rows[id].status == Activated
    requires id in dbs[i].rows ==> dbs[i].rows[id].status != Activated
    ensures k < i && Renews(dbs[k], requests[k], id) && forall j :: k < j < i ==> !Renews(dbs[j], requests[j], id)
    ensures requests[i].Activate?
    ensures requests[i].guess.token == Some(requests[k].drawn.token) || requests[i].guess.code == Some(requests[k].drawn.code)
    ensures requests[i].now < requests[k].now + 24 * 60 * 60
  {
    ActivationNeedsChallenge(dbs[i], requests[i], id);
    k := ChallengeIsLatest(requests, dbs, i, id);
  }

  // ----- Guessing -----

  /** An activation of `id`, while it can be answered, with neither the right token nor the right code. */
  predicate IsWrongGuess(db: Db, request: Request, id: InvitationId) {
    && request.Activate? && request.id == id && id in db.rows
    && IsAnswerable(db.rows[id], request.now) && !IsAnsweredBy(db.rows[id], request.guess)
  }

  /** It is answered 401, and nothing else is. */
  lemma WrongGuessIsAnswered401(db: Db, request: Request, id: InvitationId)
    requires Invariant(db) && request.Activate? && request.id == id
    ensures IsWrongGuess(db, request, id) <==> Handle(db, request).1 == Error(401)
  {
  }

  ghost function WrongGuesses(requests: seq<Request>, dbs: seq<Db>, i: nat, j: nat, id: InvitationId): nat
    requires |dbs| == |requests| + 1 && i <= j <= |requests|
    decreases j
  {
    if i == j then 0
    else WrongGuesses(requests, dbs, i, j - 1, id) + if IsWrongGuess(dbs[j - 1], requests[j - 1], id) then 1 else 0
  }

  lemma StepCountsWrongGuess(db: Db, request: Request, id: InvitationId)
    requires id in db.rows && IsCoherent(db.rows[id]) && !Renews(db, request, id)
    ensures var after := Handle(db, request).0;
      && id in after.rows && after.rows[id].challenge == db.rows[id].challenge
      && after.rows[id].attempts == db.rows[id].attempts + if IsWrongGuess(db, request, id) then 1 else 0
  {
  }

  /** Until the challenge is renewed, the counter counts the wrong guesses exactly. */
  lemma {:induction false} AttemptsCountWrongGuesses(requests: seq<Request>, dbs: seq<Db>, i: nat, j: nat, id: InvitationId)
    requires IsRun(requests, dbs) && i <= j <= |requests| && id in dbs[i].rows
    requires forall k :: i <= k < j ==> !Renews(dbs[k], requests[k], id)
    ensures id in dbs[j].rows && dbs[j].rows[id].challenge == dbs[i].rows[id].challenge
    ensures dbs[j].rows[id].attempts == dbs[i].rows[id].attempts + WrongGuesses(requests, dbs, i, j, id)
    decreases j
  {
    if i < j {
      AttemptsCountWrongGuesses(requests, dbs, i, j - 1, id);
      var db, request := dbs[j - 1], requests[j - 1];
      assert dbs[j - 1 + 1] == Handle(db, request).0 && !Renews(db, request, id);
      assert IsCoherent(db.rows[id]) by {
        RunKeepsInvariant(requests, dbs, j - 1);
      }
      StepCountsWrongGuess(db, request, id);
    }
  }

  /** No challenge survives eight wrong guesses: there are never more, and after eight of them every activation fails
      until a refresh replaces the challenge, even with the right token or code. */
  lemma EightWrongGuessesCloseChallenge(requests: seq<Request>, dbs: seq<Db>, i: nat, j: nat, id: InvitationId)
    requires IsRun(requests, dbs) && i <= j < |requests| && id in dbs[i].rows
    requires forall k :: i <= k < j ==> !Renews(dbs[k], requests[k], id)
    ensures WrongGuesses(requests, dbs, i, j, id) <= 8
    ensures WrongGuesses(requests, dbs, i, j, id) == 8 && requests[j].Activate? && requests[j].id == id ==>
      Handle(dbs[j], requests[j]).1 == Error(410)
  {
    AttemptsCountWrongGuesses(requests, dbs, i, j, id);
    RunKeepsInvariant(requests, dbs, j);
  }
}
