/** Deploying a release on a hosting node (infrastructure/hosting-agent/agent.py): stop and set aside the running
    container, start the candidate, and put the old one back if anything fails. Every command may fail, with or
    without having taken effect. */
module Activation {
  import opened Collections

  /** `id` is the identity docker gives a container at birth; no two containers of a host share one. */
  datatype Container = Container(id: nat, image: string, running: bool)

  type Containers = map<string, Container>

  /** The commands of `activate`, in the order in which it runs those that apply. */
  datatype Command =
    | EnsureNetwork | RemoveStaleBackup
    | RemoveCurrent | RemoveVolume
    | StopCurrent | RenameCurrent
    | EnsureVolume | RunCandidate | ReportRunning | ReadAddress | WaitHealthy | ReportHealthy
    | RemoveBackup

  /** The command that raised, and whether it had taken effect by then. */
  datatype Failure = Failure(command: Command, done: bool)

  /** How a command may end, and how an attempt to start the candidate may. */
  datatype Effect = Worked | FailedAfter | FailedBefore
  datatype Attempt = Started | PortBusy | OtherError

  /** How every command will end on this host, every attempt to start the candidate, from the first one on, and the
      report of a failure. */
  datatype Environment = Environment(effect: Command -> Effect, start: nat -> Attempt, failedReport: Effect)

  datatype Work = Work(current: string, backup: string, image: string, resetDataVolume: bool)

  /** Steps after the old container was set aside and before it is discarded. */
  predicate IsWhileSetAside(c: Command) {
    c in {EnsureVolume, RunCandidate, ReportRunning, ReadAddress, WaitHealthy, ReportHealthy}
  }

  function Rank(c: Command): nat {
    match c
    case EnsureNetwork => 0
    case RemoveStaleBackup => 1
    case RemoveCurrent => 2
    case RemoveVolume => 3
    case StopCurrent => 4
    case RenameCurrent => 5
    case EnsureVolume => 6
    case RunCandidate => 7
    case ReportRunning => 8
    case ReadAddress => 9
    case WaitHealthy => 10
    case ReportHealthy => 11
    case RemoveBackup => 12
  }

  /** The attempt at which the candidate starts: all earlier ports were taken. */
  predicate IsFirstStart(start: nat -> Attempt, i: nat) {
    start(i) == Started && forall j: nat :: j < i ==> start(j) == PortBusy
  }

  /** With no bind address there is one attempt, without a port. */
  predicate Starts(start: nat -> Attempt, ports: Option<seq<nat>>) {
    exists i: nat :: i < (if ports.None? then 1 else |ports.value|) && IsFirstStart(start, i)
  }

  predicate Raises(env: Environment, ports: Option<seq<nat>>, c: Command) {
    if c == RunCandidate then !Starts(env.start, ports) else env.effect(c) != Worked
  }

  /** The commands that `activate` comes to on this host, unless an earlier one raises. */
  predicate Applies(before: Containers, work: Work, c: Command) {
    match c
    case RemoveStaleBackup => work.backup in before
    case RemoveCurrent => work.resetDataVolume && work.current in before
    case RemoveVolume => work.resetDataVolume
    case StopCurrent | RenameCurrent | RemoveBackup => KeepsPrevious(before, work)
    case _ => true
  }

  /** None of the commands from one rank up to another raised. */
  ghost predicate AllWork(before: Containers, work: Work, env: Environment, ports: Option<seq<nat>>, low: nat, high: nat) {
    forall c :: low <= Rank(c) < high && Applies(before, work, c) ==> !Raises(env, ports, c)
  }

  /** The failure is that of the first command to raise. */
  ghost predicate IsFirstFailure(before: Containers, work: Work, env: Environment, ports: Option<seq<nat>>,
                                 failure: Failure, low: nat) {
    && Applies(before, work, failure.command) && Raises(env, ports, failure.command) && low <= Rank(failure.command)
    && AllWork(before, work, env, ports, low, Rank(failure.command))
    && (failure.command != RunCandidate ==> (failure.done <==> env.effect(failure.command) == FailedAfter))
  }

  // ----- Ports -----

  const MAX_PORT_ATTEMPTS := 128

  /** _origin_candidates: consecutive ports of the range from a hashed start, wrapping at its end. */
  function OriginCandidates(first: nat, last: nat, seed: nat): (ports: seq<nat>)
    requires first <= last
    ensures |ports| == if last - first + 1 < MAX_PORT_ATTEMPTS then last - first + 1 else MAX_PORT_ATTEMPTS
    ensures forall i :: 0 <= i < |ports| ==> first <= ports[i] <= last
  {
    var size := last - first + 1;
    seq(if size < MAX_PORT_ATTEMPTS then size else MAX_PORT_ATTEMPTS,
        offset requires 0 <= offset => first + (seed % size + offset) % size)
  }

  lemma OriginCandidatesAreDistinct(first: nat, last: nat, seed: nat)
    requires first <= last
    ensures Distinct(OriginCandidates(first, last, seed))
  {
    var size, ports := last - first + 1, OriginCandidates(first, last, seed);
    forall i, j | 0 <= i < j < |ports| ensures ports[i] != ports[j] {
      OffsetsStayApart(seed % size, size, i, j);
    }
  }

  lemma OffsetsStayApart(start: nat, size: nat, i: nat, j: nat)
    requires start < size && i < j < size
    ensures (start + i) % size != (start + j) % size
  {
    WrapOnce(start + i, size);
    WrapOnce(start + j, size);
  }

  lemma WrapOnce(x: nat, size: nat)
    requires size > 0 && x < 2 * size
    ensures x % size == if x < size then x else x - size
  {
    if x >= size {
      assert x == 1 * size + (x - size);
    }
  }

  /** Each candidate is followed by the next port of the range, and its last by its first. */
  lemma OriginCandidatesWrap(first: nat, last: nat, seed: nat, i: nat)
    requires first <= last && i < |OriginCandidates(first, last, seed)|
    ensures var ports := OriginCandidates(first, last, seed);
      && ports[0] == first + seed % (last - first + 1)
      && (i + 1 < |ports| ==> ports[i + 1] == if ports[i] == last then first else ports[i] + 1)
  {
    var size := last - first + 1;
    WrapOnce(seed % size, size);
    WrapOnce(seed % size + i, size);
    if i + 1 < size {
      WrapOnce(seed % size + i + 1, size);
    }
  }

  function Others(ports: seq<nat>, preferred: nat): (others: seq<nat>)
    ensures forall p :: p in others <==> p in ports && p != preferred
    ensures NoRepeats(ports) ==> NoRepeats(others)
  {
    if ports == [] then []
    else
      var front, last := ports[..|ports| - 1], ports[|ports| - 1];
      assert ports == front + [last];
      NoRepeatsOfLast(ports);
      NoRepeatsAppend(Others(front, preferred), last);
      if last == preferred then Others(front, preferred) else Others(front, preferred) + [last]
  }

  /** The ports _run_candidate tries: the one the old container had, if any, and then the candidates. */
  function PortsToTry(preferred: Option<nat>, first: nat, last: nat, seed: nat): (ports: seq<nat>)
    requires first <= last
    ensures Distinct(ports)
    ensures preferred.Some? ==> ports != [] && ports[0] == preferred.value
    ensures forall p :: p in ports <==> p in OriginCandidates(first, last, seed) || preferred == Some(p)
  {
    var candidates := OriginCandidates(first, last, seed);
    OriginCandidatesAreDistinct(first, last, seed);
    DistinctCardinality(candidates);
    assert preferred.Some? ==> Distinct(Others(candidates, preferred.value)) by {
      if preferred.Some? {
        NoRepeatsIsDistinct(Others(candidates, preferred.value));
      }
    }
    assert preferred.Some? ==> forall i :: 0 <= i < |Others(candidates, preferred.value)| ==>
      Others(candidates, preferred.value)[i] in Others(candidates, preferred.value);
    if preferred.None? then candidates else [preferred.value] + Others(candidates, preferred.value)
  }

  // ----- What a host may hold -----

  /** A container is there to be kept and the work does not ask to discard it. */
  predicate KeepsPrevious(containers: Containers, work: Work) {
    work.current in containers && !work.resetDataVolume
  }

  function Renamed(containers: Containers, from: string, to: string): Containers
    requires from in containers
  {
    (containers - {from})[to := containers[from]]
  }

  /** What restore_previous makes of the host. */
  function Restored(containers: Containers, current: string, backup: string): Containers {
    if backup in containers then
      (containers - {current, backup})[current := containers[backup].(running := true)]
    else containers - {current}
  }

  /** The backup name as `activate` leaves it when a step raises, before anything is restored. */
  function BackupAfter(before: Containers, work: Work, f: Failure): Option<Container> {
    var stale := if work.backup in before then Some(before[work.backup]) else None;
    var aside := if KeepsPrevious(before, work) then Some(before[work.current].(running := false)) else None;
    match f.command
    case EnsureNetwork => stale
    case RemoveStaleBackup => if f.done then None else stale
    case RemoveCurrent | RemoveVolume | StopCurrent => None
    case RenameCurrent => if f.done then aside else None
    case RemoveBackup => if f.done then None else aside
    case _ => aside
  }

  /** The host after a failed deployment: whatever the backup name held runs under the current name, or nothing does. */
  function AfterFailure(before: Containers, work: Work, f: Failure): Containers {
    var rest, held := before - {work.current, work.backup}, BackupAfter(before, work, f);
    if held.Some? then rest[work.current := held.value.(running := true)] else rest
  }

  /** What has been reported when a step raises. */
  function Told(f: Failure): seq<string> {
    match f.command
    case ReportRunning => if f.done then ["running"] else []
    case ReadAddress | WaitHealthy => ["running"]
    case ReportHealthy => if f.done then ["running", "healthy"] else ["running"]
    case RemoveBackup => ["running", "healthy"]
    case _ => []
  }

  function LastWord(env: Environment): seq<string> {
    if env.failedReport == FailedBefore then [] else ["failed"]
  }

  ghost predicate HasUniqueIds(containers: Containers) {
    forall a, b :: a in containers && b in containers && containers[a].id == containers[b].id ==> a == b
  }

  /** A failed deployment keeps the previous release, running under the current name, if and only if it failed while that
      release was set aside: from a rename that took effect to a removal of the backup that did not. Every other step
      loses it: an earlier one because restore_previous removes whatever has the current name, the last one because the
      backup is gone. */
  lemma ReleaseSurvivesExactly(before: Containers, work: Work, f: Failure)
    requires HasUniqueIds(before) && KeepsPrevious(before, work) && Applies(before, work, f.command) && work.current != work.backup
    ensures var after := AfterFailure(before, work, f);
      (work.current in after && after[work.current].id == before[work.current].id && after[work.current].running)
        <==> IsWhileSetAside(f.command) || f == Failure(RenameCurrent, true) || f == Failure(RemoveBackup, false)
  {
  }

  /** And where it is lost, no other name holds it. */
  lemma LostReleaseIsGone(before: Containers, work: Work, f: Failure, name: string)
    requires HasUniqueIds(before) && KeepsPrevious(before, work) && Applies(before, work, f.command) && work.current != work.backup
    requires !IsWhileSetAside(f.command) && f != Failure(RenameCurrent, true) && f != Failure(RemoveBackup, false)
    requires name in AfterFailure(before, work, f)
    ensures AfterFailure(before, work, f)[name].id != before[work.current].id
  {
    if name != work.current {
      assert name in before - {work.current, work.backup};
    }
  }

  /** A failed first deployment leaves nothing under either name, unless it failed before the backup of an earlier
      attempt was removed: that one is brought up instead. */
  lemma FailedFirstDeployment(before: Containers, work: Work, f: Failure)
    requires work.current !in before && Applies(before, work, f.command) && work.current != work.backup
    ensures work.backup !in AfterFailure(before, work, f)
    ensures work.current in AfterFailure(before, work, f) <==>
      work.backup in before && (f.command == EnsureNetwork || f == Failure(RemoveStaleBackup, false))
  {
  }

  lemma BackupIsApart(containers: Containers, current: string, backup: string)
    requires current != backup
    ensures containers - {current, backup} == containers - {current} - {backup}
    ensures Held(containers, backup) == Held(containers - {current}, backup)
  {
  }

  class Host {
    var containers: Containers
    var reports: seq<string>

    /** docker rm -f. */
    method Remove(name: string, e: Effect) returns (failed: bool)
      modifies `containers
      ensures failed <==> e != Worked
      ensures containers == if e == FailedBefore then old(containers) else old(containers) - {name}
    {
      if e != FailedBefore {
        containers := containers - {name};
      }
      failed := e != Worked;
    }

    /** docker stop. */
    method Stop(name: string, e: Effect) returns (failed: bool)
      requires name in containers
      modifies `containers
      ensures failed <==> e != Worked
      ensures containers ==
        if e == FailedBefore then old(containers) else old(containers)[name := old(containers)[name].(running := false)]
    {
      if e != FailedBefore {
        containers := containers[name := containers[name].(running := false)];
      }
      failed := e != Worked;
    }

    /** docker rename. */
    method Rename(from: string, to: string, e: Effect) returns (failed: bool)
      requires from in containers && to !in containers && from != to
      modifies `containers
      ensures failed <==> e != Worked
      ensures containers == if e == FailedBefore then old(containers) else Renamed(old(containers), from, to)
    {
      if e != FailedBefore {
        containers := Renamed(containers, from, to);
      }
      failed := e != Worked;
    }

    /** docker run: a failed start may leave a dead container behind. */
    method Run(name: string, image: string, attempt: Attempt)
      modifies `containers
      ensures attempt == Started ==> IsFreshlyRunning(containers, name, image)
      ensures containers - {name} == old(containers) - {name}
    {
      var id: nat := *;
      if attempt == Started {
        containers := containers[name := Container(id, image, true)];
      } else if * {
        containers := containers[name := Container(id, image, false)];
      }
    }

    method Report(status: string, e: Effect) returns (failed: bool)
      modifies `reports
      ensures failed <==> e != Worked
      ensures reports == old(reports) + if e == FailedBefore then [] else [status]
    {
      if e != FailedBefore {
        reports := reports + [status];
      }
      failed := e != Worked;
    }

    /** _run_candidate: try each port until one is free; with no bind address, run once without a port. */
    method RunOnFreePort(name: string, image: string, ports: Option<seq<nat>>, start: nat -> Attempt)
        returns (ok: bool, port: Option<nat>)
      modifies `containers
      ensures containers - {name} == old(containers) - {name}
      ensures ok <==> Starts(start, ports)
      ensures ok ==> IsFreshlyRunning(containers, name, image)
      ensures ok && ports.Some? ==> exists i: nat :: i < |ports.value| && IsFirstStart(start, i) && port == Some(ports.value[i])
      ensures !ok || ports.None? ==> port.None?
    {
      port := None;
      if ports.None? {
        Run(name, image, start(0));
        ok := start(0) == Started;
        assert ok ==> IsFirstStart(start, 0);
        return;
      }
      for i := 0 to |ports.value|
        invariant containers - {name} == old(containers) - {name}
        invariant forall j: nat :: j < i ==> start(j) == PortBusy
      {
        Run(name, image, start(i));
        if start(i) == Started {
          assert IsFirstStart(start, i);
          return true, Some(ports.value[i]);
        }
        var e: Effect := *;
        var failed := Remove(name, e);
        if start(i) == OtherError {
          return false, None;
        }
      }
      ok := false;
    }

    /** restore_previous, when its commands work. */
    method RestorePrevious(current: string, backup: string)
      requires current != backup
      modifies `containers
      ensures containers == Restored(old(containers), current, backup)
    {
      if current in containers {
        containers := containers - {current};
      }
      if backup in containers {
        containers := Renamed(containers, backup, current);
        containers := containers[current := containers[current].(running := true)];
      }
    }

    /** The body of the try block; the exception it ends with, if any, names the command that raised. */
    method Deploy(work: Work, env: Environment, ports: Option<seq<nat>>) returns (failure: Option<Failure>)
      requires work.current != work.backup
      modifies this
      ensures containers - {work.current, work.backup} == old(containers) - {work.current, work.backup}
      ensures failure.None? ==> AllWork(old(containers), work, env, ports, 0, 13)
      ensures failure.Some? ==> IsFirstFailure(old(containers), work, env, ports, failure.value, 0)
      ensures failure.None? ==> IsFreshlyRunning(containers, work.current, work.image) && work.backup !in containers
      ensures failure.None? ==> reports == old(reports) + ["running", "healthy"]
      ensures failure.Some? ==> reports == old(reports) + Told(failure.value)
      ensures failure.Some? ==> Held(containers, work.backup) == BackupAfter(old(containers), work, failure.value)
    {
      failure := SetAside(work, env, ports);
      if failure.Some? { return; }
      ghost var before, aside := old(containers), containers;
      failure := StartCandidate(work, env, ports);
      BackupIsApart(containers, work.current, work.backup);
      BackupIsApart(aside, work.current, work.backup);
      if failure.Some? {
        FailsAfter(before, aside, work, env, ports, failure.value);
        return;
      }
      assert AllWork(before, work, env, ports, 0, 12);
      if work.backup in containers {
        ghost var healthy := containers;
        var failed := Remove(work.backup, env.effect(RemoveBackup));
        assert containers - {work.current, work.backup} == healthy - {work.current, work.backup};
        if failed { return Some(Failure(RemoveBackup, env.effect(RemoveBackup) == FailedAfter)); }
      }
    }

    /** From the network to the moment the current name is free. */
    method SetAside(work: Work, env: Environment, ports: Option<seq<nat>>) returns (failure: Option<Failure>)
      requires work.current != work.backup
      modifies `containers
      ensures containers - {work.current, work.backup} == old(containers) - {work.current, work.backup}
      ensures failure.None? ==> AllWork(old(containers), work, env, ports, 0, 6)
      ensures failure.None? ==> work.current !in containers
      ensures failure.None? ==> Held(containers, work.backup) == BackupAfter(old(containers), work, Failure(EnsureVolume, false))
      ensures failure.Some? ==> IsFirstFailure(old(containers), work, env, ports, failure.value, 0) && Rank(failure.value.command) < 6
      ensures failure.Some? ==> Held(containers, work.backup) == BackupAfter(old(containers), work, failure.value)
    {
      ghost var before := old(containers);
      failure := ClearStale(work.backup, env);
      if failure.Some? {
        EarlyFailure(before, work, env, ports, failure.value);
        return;
      }
      assert containers - {work.current, work.backup} == before - {work.current, work.backup};
      ghost var cleared := containers;
      BackupIsApart(cleared, work.current, work.backup);
      if work.resetDataVolume {
        failure := Discard(work.current, env);
        BackupIsApart(containers, work.current, work.backup);
      } else if work.current in containers {
        failure := MoveCurrent(work.current, work.backup, env);
      }
      if failure.Some? {
        EarlyFailure(before, work, env, ports, failure.value);
      } else {
        EarlyCommandsWork(before, work, env, ports, 6);
      }
    }

    method ClearStale(backup: string, env: Environment) returns (failure: Option<Failure>)
      modifies `containers
      ensures failure.None? ==> containers == old(containers) - {backup} && env.effect(EnsureNetwork) == Worked
      ensures failure.None? && backup in old(containers) ==> env.effect(RemoveStaleBackup) == Worked
      ensures failure.Some? ==> IsRaised(env, failure.value) && failure.value.command in {EnsureNetwork, RemoveStaleBackup}
      ensures failure.Some? && failure.value.command == EnsureNetwork ==> containers == old(containers)
      ensures failure.Some? && failure.value.command == RemoveStaleBackup ==>
        backup in old(containers) && env.effect(EnsureNetwork) == Worked
      ensures failure.Some? && failure.value.command == RemoveStaleBackup ==>
        containers == if failure.value.done then old(containers) - {backup} else old(containers)
    {
      if env.effect(EnsureNetwork) != Worked {
        return Some(Failure(EnsureNetwork, env.effect(EnsureNetwork) == FailedAfter));
      }
      if backup in containers {
        var failed := Remove(backup, env.effect(RemoveStaleBackup));
        if failed { return Some(Failure(RemoveStaleBackup, env.effect(RemoveStaleBackup) == FailedAfter)); }
      }
      failure := None;
    }

    method MoveCurrent(current: string, backup: string, env: Environment) returns (failure: Option<Failure>)
      requires current in containers && backup !in containers && current != backup
      modifies `containers
      ensures failure.None? ==> env.effect(StopCurrent) == Worked && env.effect(RenameCurrent) == Worked
      ensures failure.Some? ==> IsRaised(env, failure.value) && failure.value.command in {StopCurrent, RenameCurrent}
      ensures failure.Some? && failure.value.command == RenameCurrent ==> env.effect(StopCurrent) == Worked
      ensures containers - {current, backup} == old(containers) - {current, backup}
      ensures failure.None? || failure == Some(Failure(RenameCurrent, true)) ==>
        current !in containers && Held(containers, backup) == Some(old(containers)[current].(running := false))
      ensures failure.Some? && failure != Some(Failure(RenameCurrent, true)) ==> backup !in containers
    {
      var failed := Stop(current, env.effect(StopCurrent));
      if failed { return Some(Failure(StopCurrent, env.effect(StopCurrent) == FailedAfter)); }
      failed := Rename(current, backup, env.effect(RenameCurrent));
      if failed { return Some(Failure(RenameCurrent, env.effect(RenameCurrent) == FailedAfter)); }
      failure := None;
    }

    /** A reset: the old container and its data go. */
    method Discard(current: string, env: Environment) returns (failure: Option<Failure>)
      modifies `containers
      ensures containers - {current} == old(containers) - {current}
      ensures failure.None? ==> containers == old(containers) - {current} && env.effect(RemoveVolume) == Worked
      ensures failure.None? && current in old(containers) ==> env.effect(RemoveCurrent) == Worked
      ensures failure.Some? ==>
        (failure.value.command == RemoveCurrent && current in old(containers))
        || (failure.value.command == RemoveVolume && (current in old(containers) ==> env.effect(RemoveCurrent) == Worked))
      ensures failure.Some? ==> IsRaised(env, failure.value)
    {
      if current in containers {
        var failed := Remove(current, env.effect(RemoveCurrent));
        if failed { return Some(Failure(RemoveCurrent, env.effect(RemoveCurrent) == FailedAfter)); }
      }
      if env.effect(RemoveVolume) != Worked {
        return Some(Failure(RemoveVolume, env.effect(RemoveVolume) == FailedAfter));
      }
      failure := None;
    }

    /** From the data volume to the healthy report. */
    method StartCandidate(work: Work, env: Environment, ports: Option<seq<nat>>) returns (failure: Option<Failure>)
      requires work.current != work.backup && work.current !in containers
      modifies this
      ensures failure.None? ==> AllWork(old(containers), work, env, ports, 6, 12)
      ensures failure.Some? ==> IsFirstFailure(old(containers), work, env, ports, failure.value, 6)
      ensures failure.Some? ==> IsWhileSetAside(failure.value.command)
      ensures failure.None? ==> IsFreshlyRunning(containers, work.current, work.image)
      ensures reports == old(reports) + if failure.Some? then Told(failure.value) else ["running", "healthy"]
      ensures containers - {work.current} == old(containers)
    {
      if env.effect(EnsureVolume) != Worked {
        return Some(Failure(EnsureVolume, env.effect(EnsureVolume) == FailedAfter));
      }
      var ok, port := RunOnFreePort(work.current, work.image, ports, env.start);
      if !ok { return Some(Failure(RunCandidate, false)); }
      var failed := Report("running", env.effect(ReportRunning));
      if failed { return Some(Failure(ReportRunning, env.effect(ReportRunning) == FailedAfter)); }
      if env.effect(ReadAddress) != Worked {
        return Some(Failure(ReadAddress, env.effect(ReadAddress) == FailedAfter));
      }
      if env.effect(WaitHealthy) != Worked {
        return Some(Failure(WaitHealthy, env.effect(WaitHealthy) == FailedAfter));
      }
      failed := Report("healthy", env.effect(ReportHealthy));
      if failed { return Some(Failure(ReportHealthy, env.effect(ReportHealthy) == FailedAfter)); }
      failure := None;
    }

    /** activate, once the manifest is valid. It fails exactly if a command that applies fails, with the first such.
        Success leaves the candidate running and no backup; a failure leaves what AfterFailure says; no other container
        changes. */
    method Activate(work: Work, env: Environment, ports: Option<seq<nat>>) returns (failure: Option<Failure>)
      requires work.current != work.backup
      modifies this
      ensures containers - {work.current} == old(containers) - {work.current, work.backup}
      ensures failure.None? <==> AllWork(old(containers), work, env, ports, 0, 13)
      ensures failure.Some? ==> IsFirstFailure(old(containers), work, env, ports, failure.value, 0)
      ensures failure.None? ==> IsFreshlyRunning(containers, work.current, work.image)
      ensures failure.None? ==> reports == old(reports) + ["running", "healthy"]
      ensures failure.Some? ==> containers == AfterFailure(old(containers), work, failure.value)
      ensures failure.Some? ==> reports == old(reports) + Told(failure.value) + LastWord(env)
    {
      failure := Deploy(work, env, ports);
      if failure.Some? {
        ghost var given := containers;
        RestorePrevious(work.current, work.backup);
        BackupIsApart(given, work.current, work.backup);
        var unreported := Report("failed", env.failedReport);
      }
    }
  }

  /** The command did not work, and the record says how. */
  predicate IsRaised(env: Environment, failure: Failure) {
    && failure.command != RunCandidate && env.effect(failure.command) != Worked
    && (failure.done <==> env.effect(failure.command) == FailedAfter)
  }

  /** The commands before the data volume, one by one. */
  lemma EarlyCommandsWork(before: Containers, work: Work, env: Environment, ports: Option<seq<nat>>, high: nat)
    requires high <= 6
    requires high > 0 ==> env.effect(EnsureNetwork) == Worked
    requires high > 1 && work.backup in before ==> env.effect(RemoveStaleBackup) == Worked
    requires high > 2 && work.resetDataVolume && work.current in before ==> env.effect(RemoveCurrent) == Worked
    requires high > 3 && work.resetDataVolume ==> env.effect(RemoveVolume) == Worked
    requires high > 4 && KeepsPrevious(before, work) ==> env.effect(StopCurrent) == Worked
    requires high > 5 && KeepsPrevious(before, work) ==> env.effect(RenameCurrent) == Worked
    ensures AllWork(before, work, env, ports, 0, high)
  {
    forall c | Rank(c) < high && Applies(before, work, c) ensures !Raises(env, ports, c) {
      match c
      case EnsureNetwork =>
      case RemoveStaleBackup =>
      case RemoveCurrent =>
      case RemoveVolume =>
      case StopCurrent =>
      case RenameCurrent =>
      case _ =>
    }
  }

  lemma EarlyFailure(before: Containers, work: Work, env: Environment, ports: Option<seq<nat>>, failure: Failure)
    requires Rank(failure.command) < 6 && IsRaised(env, failure) && Applies(before, work, failure.command)
    requires Rank(failure.command) > 0 ==> env.effect(EnsureNetwork) == Worked
    requires Rank(failure.command) > 1 && work.backup in before ==> env.effect(RemoveStaleBackup) == Worked
    requires failure.command == RemoveVolume && work.current in before ==> env.effect(RemoveCurrent) == Worked
    requires failure.command == RenameCurrent ==> env.effect(StopCurrent) == Worked
    ensures IsFirstFailure(before, work, env, ports, failure, 0)
  {
    EarlyCommandsWork(before, work, env, ports, Rank(failure.command));
  }

  lemma FailsAfter(before: Containers, aside: Containers, work: Work, env: Environment, ports: Option<seq<nat>>, failure: Failure)
    requires AllWork(before, work, env, ports, 0, 6) && IsFirstFailure(aside, work, env, ports, failure, 6)
    requires IsWhileSetAside(failure.command)
    ensures IsFirstFailure(before, work, env, ports, failure, 0)
  {
    forall c | Rank(c) < Rank(failure.command) && Applies(before, work, c) ensures !Raises(env, ports, c) {
      assert Rank(c) >= 6 ==> Applies(aside, work, c);
    }
  }

  predicate IsFreshlyRunning(containers: Containers, name: string, image: string) {
    name in containers && containers[name].image == image && containers[name].running
  }

  function Held(containers: Containers, name: string): Option<Container> {
    if name in containers then Some(containers[name]) else None
  }
}
