/** The leased event outbox (platform/ithute-auth/app/push_event_worker.py): rows, and the three short
    transactions a worker runs on them. Times are in seconds. */
module OutboxTable {
  import opened Collections

  type EventId = nat

  datatype Row = Row(createdAt: nat, attempts: nat, nextAttempt: nat, deliveredAt: Option<nat>)

  type Rows = map<EventId, Row>

  const BATCH_SIZE := 100
  const MAX_BACKOFF_SECONDS := 300

  function Min(a: nat, b: nat): nat { if a <= b then a else b }
  function Max(a: nat, b: nat): nat { if a >= b then a else b }

  /** _backoff_seconds. */
  function BackoffSeconds(attempts: nat): nat {
    Min(MAX_BACKOFF_SECONDS, Max(2, PowerOfTwo(Min(attempts, 8))))
  }

  /** The cap of 300 is never reached: waits double from 2 and stop at 256. */
  lemma BackoffStaysBelowCap(attempts: nat)
    ensures 2 <= BackoffSeconds(attempts) <= 256
    ensures 1 <= attempts < 8 ==> BackoffSeconds(attempts + 1) == 2 * BackoffSeconds(attempts)
    ensures attempts >= 8 ==> BackoffSeconds(attempts) == 256
  {
    assert PowerOfTwo(8) == 256;
    if attempts < 8 {
      PowerGrows(attempts, 8);
      PowerGrows(attempts + 1, 8);
    }
  }

  lemma {:induction false} PowerGrows(a: nat, b: nat)
    requires a <= b
    ensures PowerOfTwo(a) <= PowerOfTwo(b)
  {
    if a < b {
      PowerGrows(a, b - 1);
    }
  }

  /** The waits after the first to the seventh failed attempt, and after every later one. */
  function WaitAfter(attempts: nat): nat
    requires attempts >= 1
  {
    if attempts < 8 then [2, 4, 8, 16, 32, 64, 128][attempts - 1] else 256
  }

  lemma WaitIsBackoff(attempts: nat)
    requires attempts >= 1
    ensures BackoffSeconds(attempts) == WaitAfter(attempts)
    decreases 8 - attempts
  {
    BackoffStaysBelowCap(attempts);
    if attempts < 8 {
      WaitIsBackoff(attempts + 1);
    }
  }

  function LeaseSeconds(configured: nat): nat { Max(5, configured) }

  // ----- What the transactions do to the rows -----

  predicate IsDue(rows: Rows, id: EventId, now: nat) {
    id in rows && rows[id].deliveredAt.None? && rows[id].nextAttempt <= now
  }

  /** SKIP LOCKED leaves out the rows other transactions hold; of the rest the oldest due row is taken. */
  predicate IsClaimable(rows: Rows, id: EventId, now: nat, locked: set<EventId>) {
    && IsDue(rows, id, now) && id !in locked
    && forall other :: other in rows && IsDue(rows, other, now) && other !in locked ==>
         rows[id].createdAt <= rows[other].createdAt
  }

  function Claimed(rows: Rows, id: EventId, until: nat): Rows
    requires id in rows
  {
    rows[id := rows[id].(nextAttempt := until)]
  }

  predicate IsOpen(rows: Rows, id: EventId) {
    id in rows && rows[id].deliveredAt.None?
  }

  function Succeeded(rows: Rows, id: EventId, now: nat): Rows {
    if IsOpen(rows, id) then
      rows[id := rows[id].(attempts := rows[id].attempts + 1, deliveredAt := Some(now))]
    else rows
  }

  function Postponed(rows: Rows, id: EventId, now: nat): Rows {
    if IsOpen(rows, id) then
      var attempts := rows[id].attempts + 1;
      rows[id := rows[id].(attempts := attempts, nextAttempt := now + BackoffSeconds(attempts))]
    else rows
  }

  function Delivered(rows: Rows): set<EventId> {
    set id | id in rows && rows[id].deliveredAt.Some?
  }

  class Outbox {
    var rows: Rows

    /** _claim_next. */
    method ClaimNext(now: nat, configuredLease: nat, locked: set<EventId>) returns (claim: Option<EventId>)
      modifies this
      ensures claim.None? ==> rows == old(rows)
      ensures claim.None? <==> forall id :: id in old(rows) && IsDue(old(rows), id, now) ==> id in locked
      ensures claim.Some? ==> IsClaimable(old(rows), claim.value, now, locked)
      ensures claim.Some? ==> rows == Claimed(old(rows), claim.value, now + LeaseSeconds(configuredLease))
      ensures claim.Some? ==> rows[claim.value] == old(rows)[claim.value].(nextAttempt := rows[claim.value].nextAttempt)
      ensures claim.Some? ==> rows[claim.value].nextAttempt == now + if configuredLease < 5 then 5 else configuredLease
    {
      var unread := rows.Keys;
      claim := None;
      while unread != {}
        invariant unread <= rows.Keys && rows == old(rows)
        invariant claim.None? ==> forall id :: id in rows && id !in unread && IsDue(rows, id, now) ==> id in locked
        invariant claim.Some? ==> claim.value !in locked && IsDue(rows, claim.value, now)
        invariant claim.Some? ==> forall id :: id in rows && id !in unread && IsDue(rows, id, now) && id !in locked ==>
          rows[claim.value].createdAt <= rows[id].createdAt
      {
        var id :| id in unread;
        unread := unread - {id};
        if IsDue(rows, id, now) && id !in locked {
          if claim.None? || rows[id].createdAt < rows[claim.value].createdAt {
            claim := Some(id);
          }
        }
      }
      if claim.Some? {
        rows := Claimed(rows, claim.value, now + LeaseSeconds(configuredLease));
      }
    }

    /** _settle_success. */
    method SettleSuccess(id: EventId, now: nat) returns (settled: bool)
      modifies this
      ensures settled <==> IsOpen(old(rows), id)
      ensures rows == Succeeded(old(rows), id, now)
      ensures settled ==> rows[id].attempts == old(rows)[id].attempts + 1 && rows[id].deliveredAt == Some(now)
    {
      if id !in rows || rows[id].deliveredAt.Some? {
        return false;
      }
      var row := rows[id];
      rows := rows[id := row.(attempts := row.attempts + 1, deliveredAt := Some(now))];
      settled := true;
    }

    /** _settle_failure. */
    method SettleFailure(id: EventId, now: nat)
      modifies this
      ensures rows == Postponed(old(rows), id, now)
      ensures IsOpen(old(rows), id) ==>
        IsOpen(rows, id) && rows[id].attempts == old(rows)[id].attempts + 1
        && rows[id].nextAttempt == now + WaitAfter(rows[id].attempts)
    {
      WaitIsBackoff(if id in rows then rows[id].attempts + 1 else 1);
      if id !in rows || rows[id].deliveredAt.Some? {
        return;
      }
      var row := rows[id];
      row := row.(attempts := row.attempts + 1);
      row := row.(nextAttempt := now + BackoffSeconds(row.attempts));
      rows := rows[id := row];
    }

    /** run_once, undisturbed: `accepts` is the receiver's answer to each event, `clock` reads the time before each
        transaction. It claims event after event until nothing is due or 100 are done; exactly the accepted ones become
        delivered, and the result is the number of rows that did. */
    method RunOnce(configuredLease: nat, accepts: EventId -> bool, clock: nat -> nat)
        returns (delivered: nat, ghost claimed: seq<EventId>)
      modifies this
      ensures rows.Keys == old(rows).Keys
      ensures Delivered(rows) == Delivered(old(rows)) + Accepted(claimed, accepts)
      ensures delivered == |Delivered(rows)| - |Delivered(old(rows))|
      ensures |claimed| <= 100
      ensures |claimed| < 100 ==> forall id :: id in rows ==> !IsDue(rows, id, clock(2 * |claimed|))
    {
      delivered, claimed := 0, [];
      for i := 0 to BATCH_SIZE
        invariant rows.Keys == old(rows).Keys && |claimed| == i
        invariant Delivered(rows) == Delivered(old(rows)) + Accepted(claimed, accepts)
        invariant delivered == |Delivered(rows)| - |Delivered(old(rows))|
      {
        ghost var before := Delivered(rows);
        var claim := Claim(clock(2 * i), configuredLease);
        if claim.None? {
          break;
        }
        var settled := Settle(claim.value, accepts(claim.value), clock(2 * i + 1));
        OneMoreClaimed(Delivered(old(rows)), claimed, claim.value, accepts, before, Delivered(rows));
        claimed := claimed + [claim.value];
        if settled {
          delivered := delivered + 1;
        }
      }
    }

    /** A claim while nobody else holds rows. */
    method Claim(now: nat, configuredLease: nat) returns (claim: Option<EventId>)
      modifies this
      ensures rows.Keys == old(rows).Keys && Delivered(rows) == Delivered(old(rows))
      ensures claim.None? ==> rows == old(rows) && forall id :: id in rows ==> !IsDue(rows, id, now)
      ensures claim.Some? ==> IsOpen(rows, claim.value)
    {
      claim := ClaimNext(now, configuredLease, {});
      if claim.Some? {
        DeliveredStays(old(rows), claim.value, now);
      }
    }

    /** The settlement that fits the receiver's answer. */
    method Settle(id: EventId, accepted: bool, now: nat) returns (settled: bool)
      requires IsOpen(rows, id)
      modifies this
      ensures rows.Keys == old(rows).Keys && (settled <==> accepted)
      ensures Delivered(rows) == Delivered(old(rows)) + if accepted then {id} else {}
      ensures |Delivered(rows)| == |Delivered(old(rows))| + if settled then 1 else 0
    {
      settled := false;
      if accepted {
        DeliveredGrows(rows, id, now);
        settled := SettleSuccess(id, now);
      } else {
        DeliveredStays(rows, id, now);
        SettleFailure(id, now);
      }
    }
  }

  lemma OneMoreClaimed(initial: set<EventId>, claimed: seq<EventId>, id: EventId, accepts: EventId -> bool,
                       before: set<EventId>, after: set<EventId>)
    requires before == initial + Accepted(claimed, accepts) && after == before + if accepts(id) then {id} else {}
    ensures after == initial + Accepted(claimed + [id], accepts)
  {
  }

  ghost function Accepted(claimed: seq<EventId>, accepts: EventId -> bool): set<EventId> {
    set id | id in claimed && accepts(id)
  }

  lemma DeliveredGrows(rows: Rows, id: EventId, now: nat)
    ensures Delivered(Succeeded(rows, id, now)) == Delivered(rows) + if IsOpen(rows, id) then {id} else {}
    ensures |Delivered(Succeeded(rows, id, now))| == |Delivered(rows)| + if IsOpen(rows, id) then 1 else 0
  {
    assert Delivered(Succeeded(rows, id, now)) == Delivered(rows) + if IsOpen(rows, id) then {id} else {};
  }

  lemma DeliveredStays(rows: Rows, id: EventId, now: nat)
    ensures Delivered(Postponed(rows, id, now)) == Delivered(rows)
    ensures forall until: nat :: id in rows ==> Delivered(Claimed(rows, id, until)) == Delivered(rows)
  {
  }
}
