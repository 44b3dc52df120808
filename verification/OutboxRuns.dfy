/** Any number of outbox workers over one table: claims, posts and settlements of different workers interleave
    freely, workers may crash between any two of them, and time passes. */
module OutboxRuns {
  import opened Collections
  import opened OutboxTable

  /** Where a worker stands in run_once. `until` is the end of its lease. */
  datatype Worker =
    | Idle
    | Between(rounds: nat, delivered: nat)
    | Holding(rounds: nat, delivered: nat, event: EventId, until: nat, answer: Option<bool>)

  /** `returned` sums the results of finished run_once calls, `lost` the counts that crashed workers took along. */
  datatype State = State(now: nat, lease: nat, rows: Rows, workers: seq<Worker>, returned: nat, lost: nat)

  datatype Step =
    | Tick(seconds: nat)
    | Enqueue(id: EventId)
    | Start(w: nat)
    | Claim(w: nat, id: EventId, locked: set<EventId>)
    | FindNothing(w: nat, locked: set<EventId>)
    | Post(w: nat, ok: bool)
    | Settle(w: nat)
    | Return(w: nat)
    | Crash(w: nat)

  function Counter(worker: Worker): nat {
    if worker.Idle? then 0 else worker.delivered
  }

  function LeaseEnd(s: State): nat {
    s.now + LeaseSeconds(s.lease)
  }

  /** Whether a step can happen. */
  predicate IsEnabled(s: State, step: Step) {
    match step
    case Tick(_) => true
    case Enqueue(id) => id !in s.rows
    case Start(w) => w < |s.workers| && s.workers[w].Idle?
    case Claim(w, id, locked) =>
      && w < |s.workers| && s.workers[w].Between? && s.workers[w].rounds < BATCH_SIZE
      && IsClaimable(s.rows, id, s.now, locked)
    case FindNothing(w, locked) =>
      && w < |s.workers| && s.workers[w].Between? && s.workers[w].rounds < BATCH_SIZE
      && forall id :: id in s.rows && IsDue(s.rows, id, s.now) ==> id in locked
    case Post(w, _) => w < |s.workers| && s.workers[w].Holding? && s.workers[w].answer.None?
    case Settle(w) => w < |s.workers| && s.workers[w].Holding? && s.workers[w].answer.Some?
    case Return(w) => w < |s.workers| && s.workers[w].Between? && s.workers[w].rounds == BATCH_SIZE
    case Crash(w) => w < |s.workers|
  }

  /** Does this step settle `id` successfully? */
  predicate Settles(s: State, step: Step, id: EventId)
    requires IsEnabled(s, step)
  {
    step.Settle? && s.workers[step.w].event == id && s.workers[step.w].answer == Some(true) && IsOpen(s.rows, id)
  }

  function Apply(s: State, step: Step): State
    requires IsEnabled(s, step)
  {
    match step
    case Tick(seconds) => s.(now := s.now + seconds)
    case Enqueue(id) => s.(rows := s.rows[id := Row(s.now, 0, s.now, None)])
    case Start(w) => s.(workers := s.workers[w := Between(0, 0)])
    case Claim(w, id, _) =>
      var me := s.workers[w];
      s.(rows := Claimed(s.rows, id, LeaseEnd(s)),
         workers := s.workers[w := Holding(me.rounds + 1, me.delivered, id, LeaseEnd(s), None)])
    case FindNothing(w, _) => Returned(s, w)
    case Post(w, ok) => s.(workers := s.workers[w := s.workers[w].(answer := Some(ok))])
    case Settle(w) =>
      var me := s.workers[w];
      if me.answer == Some(true) then
        var won := if IsOpen(s.rows, me.event) then 1 else 0;
        s.(rows := Succeeded(s.rows, me.event, s.now), workers := s.workers[w := Between(me.rounds, me.delivered + won)])
      else
        s.(rows := Postponed(s.rows, me.event, s.now), workers := s.workers[w := Between(me.rounds, me.delivered)])
    case Return(w) => Returned(s, w)
    case Crash(w) => s.(lost := s.lost + Counter(s.workers[w]), workers := s.workers[w := Idle])
  }

  function Returned(s: State, w: nat): State
    requires w < |s.workers|
  {
    s.(returned := s.returned + Counter(s.workers[w]), workers := s.workers[w := Idle])
  }

  /** The states a list of steps passes through, if each can happen in its turn. */
  ghost predicate IsRun(steps: seq<Step>, states: seq<State>) {
    && |states| == |steps| + 1
    && forall i :: 0 <= i < |steps| ==> IsEnabled(states[i], steps[i]) && states[i + 1] == Apply(states[i], steps[i])
  }

  ghost predicate IsInitial(s: State) {
    && (forall w :: 0 <= w < |s.workers| ==> s.workers[w] == Idle)
    && s.rows == map[] && s.returned == 0 && s.lost == 0
  }

  // ----- What every run keeps, late settlements and crashes included -----

  function Bound(s: State): nat {
    Max(LeaseSeconds(s.lease), 256)
  }

  function Running(workers: seq<Worker>): nat {
    if workers == [] then 0 else Running(workers[..|workers| - 1]) + Counter(workers[|workers| - 1])
  }

  lemma {:induction false} RunningUpdate(workers: seq<Worker>, w: nat, worker: Worker)
    requires w < |workers|
    ensures Running(workers[w := worker]) + Counter(workers[w]) == Running(workers) + Counter(worker)
  {
    var front := workers[..|workers| - 1];
    if w == |workers| - 1 {
      assert workers[w := worker][..w] == front;
    } else {
      assert workers[w := worker][..|workers| - 1] == front[w := worker];
      RunningUpdate(front, w, worker);
    }
  }

  /** No event is stuck, and every success is counted once: in a result, in a running counter or among the lost. */
  ghost predicate Invariant(s: State) {
    && (forall id :: IsOpen(s.rows, id) ==> s.rows[id].nextAttempt <= s.now + Bound(s))
    && |Delivered(s.rows)| == s.returned + s.lost + Running(s.workers)
  }

  lemma InvariantHoldsInitially(s: State)
    requires IsInitial(s)
    ensures Invariant(s)
  {
    NobodyCounts(s.workers);
    assert Delivered(s.rows) == {};
  }

  lemma {:induction false} NobodyCounts(workers: seq<Worker>)
    requires forall w :: 0 <= w < |workers| ==> workers[w] == Idle
    ensures Running(workers) == 0
  {
    if workers != [] {
      NobodyCounts(workers[..|workers| - 1]);
    }
  }

  lemma StepKeepsInvariant(s: State, step: Step)
    requires Invariant(s) && IsEnabled(s, step)
    ensures Invariant(Apply(s, step))
  {
    var t := Apply(s, step);
    match step
    case Tick(_) =>
    case Enqueue(id) =>
      assert Delivered(t.rows) == Delivered(s.rows);
    case Start(w) =>
      RunningUpdate(s.workers, w, t.workers[w]);
    case Claim(w, id, _) =>
      RunningUpdate(s.workers, w, t.workers[w]);
      DeliveredStays(s.rows, id, s.now);
    case FindNothing(w, _) =>
      RunningUpdate(s.workers, w, Idle);
    case Post(w, _) =>
      RunningUpdate(s.workers, w, t.workers[w]);
    case Settle(w) =>
      SettleKeepsInvariant(s, w);
    case Return(w) =>
      RunningUpdate(s.workers, w, Idle);
    case Crash(w) =>
      RunningUpdate(s.workers, w, Idle);
  }

  lemma SettleKeepsInvariant(s: State, w: nat)
    requires Invariant(s) && IsEnabled(s, Settle(w))
    ensures Invariant(Apply(s, Settle(w)))
  {
    var event := s.workers[w].event;
    RunningUpdate(s.workers, w, Apply(s, Settle(w)).workers[w]);
    if s.workers[w].answer == Some(true) {
      DeliveredGrows(s.rows, event, s.now);
    } else {
      DeliveredStays(s.rows, event, s.now);
      if IsOpen(s.rows, event) {
        BackoffStaysBelowCap(s.rows[event].attempts + 1);
      }
    }
  }

  /** In every reachable state an undelivered event falls due within max(lease, 256) seconds, and the results of
      finished calls, the running counters and the counts lost to crashes add up to the delivered rows. */
  lemma {:induction false} RunKeepsInvariant(steps: seq<Step>, states: seq<State>, i: nat)
    requires IsRun(steps, states) && IsInitial(states[0]) && i < |states|
    ensures Invariant(states[i])
  {
    if i == 0 {
      InvariantHoldsInitially(states[0]);
    } else {
      RunKeepsInvariant(steps, states, i - 1);
      StepKeepsInvariant(states[i - 1], steps[i - 1]);
    }
  }

  /** Without crashes, once all calls have returned, their results sum to the number of delivered rows. */
  lemma ResultsSumToDelivered(steps: seq<Step>, states: seq<State>)
    requires IsRun(steps, states) && IsInitial(states[0])
    requires forall i :: 0 <= i < |steps| ==> !steps[i].Crash?
    requires forall w :: 0 <= w < |states[|steps|].workers| ==> states[|steps|].workers[w].Idle?
    ensures states[|steps|].returned == |Delivered(states[|steps|].rows)|
  {
    RunKeepsInvariant(steps, states, |steps|);
    NobodyCounts(states[|steps|].workers);
    NothingLost(steps, states, |steps|);
  }

  lemma {:induction false} NothingLost(steps: seq<Step>, states: seq<State>, i: nat)
    requires IsRun(steps, states) && IsInitial(states[0]) && i < |states|
    requires forall i :: 0 <= i < |steps| ==> !steps[i].Crash?
    ensures states[i].lost == 0
  {
    if i > 0 {
      NothingLost(steps, states, i - 1);
    }
  }

  // ----- Delivery is final -----

  predicate IsDelivered(s: State, id: EventId) {
    id in s.rows && s.rows[id].deliveredAt.Some?
  }

  /** A delivered row never changes again: it is not claimed, postponed, settled or made undelivered. */
  lemma {:induction false} DeliveryIsFinal(steps: seq<Step>, states: seq<State>, i: nat, j: nat, id: EventId)
    requires IsRun(steps, states) && i <= j < |states| && IsDelivered(states[i], id)
    ensures id in states[j].rows && states[j].rows[id] == states[i].rows[id]
    ensures i <= j < |steps| ==> !(steps[j].Claim? && steps[j].id == id) && !Settles(states[j], steps[j], id)
    decreases j
  {
    if i < j {
      DeliveryIsFinal(steps, states, i, j - 1, id);
    }
  }

  /** Each event is settled successfully at most once in a run, however late its workers are. */
  lemma SettledAtMostOnce(steps: seq<Step>, states: seq<State>, i: nat, j: nat, id: EventId)
    requires IsRun(steps, states) && i < j < |steps|
    requires Settles(states[i], steps[i], id)
    ensures !Settles(states[j], steps[j], id)
  {
    DeliveryIsFinal(steps, states, i + 1, j, id);
  }

  // ----- No event is lost -----

  /** The step takes `id`, or ends somebody's turn with it. */
  predicate Handles(s: State, step: Step, id: EventId)
    requires IsEnabled(s, step)
  {
    (step.Claim? && step.id == id) || (step.Settle? && s.workers[step.w].event == id)
  }

  /** Rows never leave the table, and the lease stays as configured. */
  lemma {:induction false} RowsOnlyGrow(steps: seq<Step>, states: seq<State>, i: nat, j: nat)
    requires IsRun(steps, states) && i <= j < |states|
    ensures states[i].rows.Keys <= states[j].rows.Keys && states[i].lease == states[j].lease
    decreases j
  {
    if i < j {
      RowsOnlyGrow(steps, states, i, j - 1);
    }
  }

  /** A row that nobody handles does not change. */
  lemma {:induction false} UnhandledRowStays(steps: seq<Step>, states: seq<State>, i: nat, j: nat, id: EventId)
    requires IsRun(steps, states) && i <= j < |states| && id in states[i].rows
    requires forall k :: i <= k < j ==> !Handles(states[k], steps[k], id)
    ensures id in states[j].rows && states[j].rows[id] == states[i].rows[id]
    decreases j
  {
    if i < j {
      UnhandledRowStays(steps, states, i, j - 1, id);
    }
  }

  /** An undelivered event that nobody handles for max(lease, 256) seconds is due: any worker may claim it then, unless
      other transactions hold it or an older due event comes first. */
  lemma UnhandledEventFallsDue(steps: seq<Step>, states: seq<State>, i: nat, j: nat, id: EventId, locked: set<EventId>)
    requires IsRun(steps, states) && IsInitial(states[0]) && i <= j < |states|
    requires IsOpen(states[i].rows, id)
    requires states[j].now >= states[i].now + 256 && states[j].now >= states[i].now + states[i].lease
    requires forall k :: i <= k < j ==> !Handles(states[k], steps[k], id)
    ensures IsDue(states[j].rows, id, states[j].now)
    ensures IsClaimable(states[j].rows, id, states[j].now, locked) || id in locked || exists other ::
      IsDue(states[j].rows, other, states[j].now) && other !in locked
      && states[j].rows[other].createdAt < states[j].rows[id].createdAt
  {
    RunKeepsInvariant(steps, states, i);
    UnhandledRowStays(steps, states, i, j, id);
  }

  // ----- Exclusive delivery, when every live worker settles within its lease -----

  /** No worker holding an event lets its lease run out. */
  ghost predicate IsTimely(s: State, step: Step) {
    step.Tick? ==> forall w :: 0 <= w < |s.workers| && s.workers[w].Holding? ==> s.now + step.seconds < s.workers[w].until
  }

  /** Held events are undelivered and leased to their holders, and no lease has run out. */
  ghost predicate LeasesHold(s: State) {
    forall w :: 0 <= w < |s.workers| && s.workers[w].Holding? ==>
      var me := s.workers[w];
      IsOpen(s.rows, me.event) && s.rows[me.event].nextAttempt == me.until && s.now < me.until
  }

  /** Two workers deliver one undelivered event. */
  predicate BothHold(s: State, v: nat, w: nat, id: EventId) {
    && v < |s.workers| && w < |s.workers| && v != w && s.workers[v].Holding? && s.workers[w].Holding?
    && s.workers[v].event == s.workers[w].event == id && IsOpen(s.rows, id)
  }

  ghost predicate NoTwoHold(s: State) {
    forall v, w, id :: !BothHold(s, v, w, id)
  }

  lemma StepKeepsExclusive(s: State, step: Step)
    requires LeasesHold(s) && NoTwoHold(s) && IsEnabled(s, step) && IsTimely(s, step)
    ensures LeasesHold(Apply(s, step)) && NoTwoHold(Apply(s, step))
  {
    var t := Apply(s, step);
    if step.Settle? {
      forall w | 0 <= w < |s.workers| && s.workers[w].Holding? && w != step.w
        ensures s.workers[w].event != s.workers[step.w].event
      {
        assert !BothHold(s, step.w, w, s.workers[w].event);
      }
    }
    forall v, w, id ensures !BothHold(t, v, w, id) {
      assert !BothHold(s, v, w, id);
    }
  }

  /** If no live worker overruns its lease, no two workers ever hold one undelivered event. */
  lemma {:induction false} TimelyRunIsExclusive(steps: seq<Step>, states: seq<State>, i: nat)
    requires IsRun(steps, states) && IsInitial(states[0]) && i < |states|
    requires forall k :: 0 <= k < |steps| ==> IsTimely(states[k], steps[k])
    ensures LeasesHold(states[i]) && NoTwoHold(states[i])
  {
    if i > 0 {
      TimelyRunIsExclusive(steps, states, i - 1);
      StepKeepsExclusive(states[i - 1], steps[i - 1]);
    }
  }

  /** Timeliness is exactly what keeps every event with the one worker it is leased to: all leases hold, and no two
      workers hold one event, throughout a run if and only if every tick of it is timely. */
  lemma TimelyMeansExclusive(steps: seq<Step>, states: seq<State>)
    requires IsRun(steps, states) && IsInitial(states[0])
    ensures (forall k :: 0 <= k < |steps| ==> IsTimely(states[k], steps[k])) <==>
      (forall i :: 0 <= i < |states| ==> LeasesHold(states[i]) && NoTwoHold(states[i]))
  {
    if forall k :: 0 <= k < |steps| ==> IsTimely(states[k], steps[k]) {
      forall i | 0 <= i < |states| ensures LeasesHold(states[i]) && NoTwoHold(states[i]) {
        TimelyRunIsExclusive(steps, states, i);
      }
    } else {
      var k :| 0 <= k < |steps| && !IsTimely(states[k], steps[k]);
      assert states[k + 1] == Apply(states[k], steps[k]);
      var w :| 0 <= w < |states[k].workers| && states[k].workers[w].Holding?
        && states[k].now + steps[k].seconds >= states[k].workers[w].until;
      assert states[k + 1].workers[w] == states[k].workers[w];
    }
  }

  /** And where a lease runs out under a live worker, exclusivity can go with it: an idle worker that starts then can
      claim the event, and two hold it. */
  lemma LapsedLeaseLetsTwoHold(s: State, v: nat, w: nat, locked: set<EventId>)
    requires v < |s.workers| && w < |s.workers| && s.workers[v].Idle? && s.workers[w].Holding?
    requires IsClaimable(s.rows, s.workers[w].event, s.now, locked)
    ensures IsEnabled(s, Start(v)) && IsEnabled(Apply(s, Start(v)), Claim(v, s.workers[w].event, locked))
    ensures BothHold(Apply(Apply(s, Start(v)), Claim(v, s.workers[w].event, locked)), v, w, s.workers[w].event)
  {
  }

  lemma Extend(steps: seq<Step>, states: seq<State>, step: Step, next: State)
      returns (steps': seq<Step>, states': seq<State>)
    requires IsRun(steps, states) && IsEnabled(states[|steps|], step) && next == Apply(states[|steps|], step)
    ensures IsRun(steps', states') && states'[0] == states[0]
    ensures |steps'| == |steps| + 1 && states'[|steps'|] == next
  {
    steps', states' := steps + [step], states + [next];
  }

  /** A table with one event, and three workers. */
  function Scene(lease: nat, now: nat, id: EventId, row: Row, a: Worker, b: Worker, c: Worker): State {
    State(now, lease, map[id := row], [a, b, c], 0, 0)
  }

  /** Such a state is reached, whatever the lease: the first worker's lease ran out while it waited for the receiver,
      and the second one claimed the event. */
  lemma ExpiredLeaseLetsTwoHold(lease: nat, id: EventId) returns (steps: seq<Step>, states: seq<State>)
    ensures IsRun(steps, states) && IsInitial(states[0])
    ensures BothHold(states[|steps|], 0, 1, id)
    ensures var l := LeaseSeconds(lease);
      states[|steps|] == Scene(lease, l, id, Row(0, 0, 2 * l, None), Holding(1, 0, id, l, Some(false)),
                               Holding(1, 0, id, 2 * l, None), Between(0, 0))
  {
    var l := LeaseSeconds(lease);
    steps, states := AllStarted(lease, id);
    var first := Holding(1, 0, id, l, None);
    steps, states := Extend(steps, states, Claim(0, id, {}),
      Scene(lease, 0, id, Row(0, 0, l, None), first, Between(0, 0), Between(0, 0)));
    first := Holding(1, 0, id, l, Some(false));
    steps, states := Extend(steps, states, Post(0, false),
      Scene(lease, 0, id, Row(0, 0, l, None), first, Between(0, 0), Between(0, 0)));
    steps, states := Extend(steps, states, Tick(l),
      Scene(lease, l, id, Row(0, 0, l, None), first, Between(0, 0), Between(0, 0)));
    steps, states := Extend(steps, states, Claim(1, id, {}),
      Scene(lease, l, id, Row(0, 0, 2 * l, None), first, Holding(1, 0, id, 2 * l, None), Between(0, 0)));
  }

  lemma AllStarted(lease: nat, id: EventId) returns (steps: seq<Step>, states: seq<State>)
    ensures IsRun(steps, states) && IsInitial(states[0])
    ensures states[|steps|] == Scene(lease, 0, id, Row(0, 0, 0, None), Between(0, 0), Between(0, 0), Between(0, 0))
  {
    var row, ready := Row(0, 0, 0, None), Between(0, 0);
    steps, states := [], [State(0, lease, map[], [Idle, Idle, Idle], 0, 0)];
    steps, states := Extend(steps, states, Enqueue(id), Scene(lease, 0, id, row, Idle, Idle, Idle));
    steps, states := Extend(steps, states, Start(0), Scene(lease, 0, id, row, ready, Idle, Idle));
    steps, states := Extend(steps, states, Start(1), Scene(lease, 0, id, row, ready, ready, Idle));
    steps, states := Extend(steps, states, Start(2), Scene(lease, 0, id, row, ready, ready, ready));
  }

  /** Worse, a late failure report cuts short the lease of whoever holds the event by then, if the backoff ends before
      that lease: the event falls due, and a third worker can claim it, while the holder is well within its time. */
  lemma LateFailureShortensLease(s: State, u: nat, v: nat, w: nat, id: EventId)
    requires BothHold(s, v, w, id) && s.workers[v].answer == Some(false)
    requires u < |s.workers| && s.workers[u].Between? && s.workers[u].rounds < BATCH_SIZE
    requires s.rows[id].nextAttempt == s.workers[w].until
    requires s.now + BackoffSeconds(s.rows[id].attempts + 1) < s.workers[w].until
    ensures var settled := Apply(s, Settle(v));
      var later := Apply(settled, Tick(BackoffSeconds(s.rows[id].attempts + 1)));
      var claim := Claim(u, id, later.rows.Keys - {id});
      && settled.rows[id].nextAttempt < s.rows[id].nextAttempt
      && later.workers[w] == s.workers[w] && later.now < later.workers[w].until
      && IsEnabled(later, claim) && BothHold(Apply(later, claim), u, w, id)
  {
  }

  /** That happens, too: here the second worker never overruns its lease, and shares the event with a third. */
  lemma LateFailureLetsTwoHold(lease: nat, id: EventId) returns (steps: seq<Step>, states: seq<State>)
    ensures IsRun(steps, states) && IsInitial(states[0])
    ensures var last := states[|steps|];
      BothHold(last, 1, 2, id) && last.now < last.workers[1].until && last.now < last.workers[2].until
  {
    var l := LeaseSeconds(lease);
    steps, states := ExpiredLeaseLetsTwoHold(lease, id);
    var second := Holding(1, 0, id, 2 * l, None);
    assert PowerOfTwo(1) == 2 && BackoffSeconds(1) == 2;
    steps, states := Extend(steps, states, Settle(0),
      Scene(lease, l, id, Row(0, 1, l + 2, None), Between(1, 0), second, Between(0, 0)));
    steps, states := Extend(steps, states, Tick(2),
      Scene(lease, l + 2, id, Row(0, 1, l + 2, None), Between(1, 0), second, Between(0, 0)));
    steps, states := Extend(steps, states, Claim(2, id, {}),
      Scene(lease, l + 2, id, Row(0, 1, l + 2 + l, None), Between(1, 0), second, Holding(1, 0, id, l + 2 + l, None)));
  }
}
