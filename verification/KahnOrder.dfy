/** The loop of dependency_order once its counters are built: a least-first queue of ready nodes.
    `degree[n]` counts the DependsOn edges of n, `deps[n]` is the set of nodes they name. */
module KahnOrder {
  import opened Collections
  import opened StringOrder
  import opened BinaryHeap
  import opened DependencyTheory

  type NodeId = string
  type Counters = map<NodeId, nat>

  ghost predicate DegreesFit(degree: Counters, deps: Dependencies) {
    degree.Keys == deps.Keys && forall n :: n in deps ==> |deps[n]| <= degree[n]
  }

  /** Nodes without parallel edges. */
  ghost function Usable(degree: Counters, deps: Dependencies): set<NodeId>
    requires DegreesFit(degree, deps)
  {
    set n | n in deps && |deps[n]| == degree[n]
  }

  /** Each counter is the degree less the dependencies already ordered. */
  ghost predicate CountersMatch(degree: Counters, deps: Dependencies, counts: Counters, done: set<NodeId>) {
    && DegreesFit(degree, deps) && counts.Keys == deps.Keys
    && (forall n :: n in deps ==> counts[n] == degree[n] - |deps[n] * done|)
  }

  ghost function ReadySet(counts: Counters, done: set<NodeId>): set<NodeId> {
    set n | n in counts && n !in done && counts[n] == 0
  }

  /** A counter is zero exactly when the node is ready and has no parallel edge. */
  lemma ZeroMeansReady(degree: Counters, deps: Dependencies, counts: Counters, done: set<NodeId>, n: NodeId)
    requires CountersMatch(degree, deps, counts, done) && n in deps
    ensures counts[n] == 0 <==> n in Usable(degree, deps) && deps[n] <= done
    ensures counts[n] > 0 <== !(deps[n] <= done)
  {
    SubsetCardinality(deps[n] * done, deps[n]);
    assert deps[n] <= done ==> deps[n] * done == deps[n];
  }

  lemma PoppedIsNext(degree: Counters, deps: Dependencies, counts: Counters, done: set<NodeId>, n: NodeId)
    requires CountersMatch(degree, deps, counts, done)
    requires n in ReadySet(counts, done) && forall m :: m in ReadySet(counts, done) ==> !Less(m, n)
    ensures IsNext(deps, Usable(degree, deps), done, n)
  {
    forall m | m in deps ensures counts[m] == 0 <==> m in Usable(degree, deps) && deps[m] <= done {
      ZeroMeansReady(degree, deps, counts, done, m);
    }
  }

  ghost predicate IsLeastOrder(deps: Dependencies, order: seq<NodeId>) {
    forall other :: IsTopologicalOrder(deps, other) ==> other == order || LexLess(order, other)
  }

  /** Greedy with nothing usable left ready: the queue has drained. */
  ghost predicate IsDrained(degree: Counters, deps: Dependencies, order: seq<NodeId>)
    requires DegreesFit(degree, deps)
  {
    && IsGreedy(deps, Usable(degree, deps), order)
    && forall n :: n in Usable(degree, deps) ==> n in Elements(order) || !IsReady(deps, Elements(order), n)
  }

  /** A drained queue leaves out a node only when a cycle or a parallel edge blocks it. */
  lemma DrainedOrder(degree: Counters, deps: Dependencies, order: seq<NodeId>)
    requires DegreesFit(degree, deps) && Closed(deps) && IsDrained(degree, deps, order)
    ensures |order| == |deps.Keys| <==> Usable(degree, deps) == deps.Keys && !HasCycle(deps)
    ensures |order| == |deps.Keys| ==> IsTopologicalOrder(deps, order) && IsLeastOrder(deps, order)
  {
    GreedyFits(deps, Usable(degree, deps), order);
    if |order| == |deps.Keys| {
      CompleteOrder(deps, order);
    } else if Usable(degree, deps) == deps.Keys {
      LeftoverHasCycle(deps, Elements(order));
    }
  }

  lemma GreedyFits(deps: Dependencies, usable: set<NodeId>, order: seq<NodeId>)
    requires usable <= deps.Keys && IsGreedy(deps, usable, order)
    ensures Elements(order) <= usable
    ensures |order| == |deps.Keys| <==> Elements(order) == deps.Keys
  {
    GreedyIsDistinct(deps, usable, order);
    DistinctCardinality(order);
    GreedyIsUsable(deps, usable, order);
    SubsetCardinality(Elements(order), deps.Keys);
  }

  lemma GreedyIsUsable(deps: Dependencies, usable: set<NodeId>, order: seq<NodeId>)
    requires IsGreedy(deps, usable, order)
    ensures Elements(order) <= usable
  {
    forall k | 0 <= k < |order| ensures order[k] in usable {
      assert IsNext(deps, usable, Elements(order[..k]), order[k]);
    }
  }

  lemma CompleteOrder(deps: Dependencies, order: seq<NodeId>)
    requires IsGreedy(deps, deps.Keys, order) && Elements(order) == deps.Keys
    ensures IsTopologicalOrder(deps, order) && IsLeastOrder(deps, order) && !HasCycle(deps)
  {
    GreedyIsDistinct(deps, deps.Keys, order);
    forall k | 0 <= k < |order| ensures deps[order[k]] <= Elements(order[..k]) {
      assert IsNext(deps, deps.Keys, Elements(order[..k]), order[k]);
    }
    OrderExcludesCycles(deps, order);
    forall other | IsTopologicalOrder(deps, other) ensures other == order || LexLess(order, other) {
      GreedyIsLeast(deps, order, other);
    }
  }

  lemma LeftoverHasCycle(deps: Dependencies, done: set<NodeId>)
    requires Closed(deps) && !(deps.Keys <= done)
    requires forall n :: n in deps ==> n in done || !IsReady(deps, done, n)
    ensures HasCycle(deps)
  {
    var stuck := deps.Keys - done;
    forall n | n in stuck ensures deps[n] * stuck != {} {
      assert !IsReady(deps, done, n);
      var d :| d in deps[n] && d !in done;
      assert d in deps[n] * stuck;
    }
    var n :| n in deps && n !in done;
    assert n in stuck;
    StuckImpliesCycle(deps, stuck);
  }

  // ----- Sorting the dependents -----

  ghost predicate Increasing(s: seq<NodeId>) {
    forall i, j :: 0 <= i < j < |s| ==> Less(s[i], s[j])
  }

  /** std::sort, then std::unique and erase. */
  method SortedUnique(ids: seq<NodeId>) returns (sorted: seq<NodeId>)
    ensures Elements(sorted) == Elements(ids) && Increasing(sorted) && Distinct(sorted)
  {
    sorted := [];
    for i := 0 to |ids|
      invariant Elements(sorted) == Elements(ids[..i]) && Increasing(sorted)
    {
      assert ids[..i + 1] == ids[..i] + [ids[i]];
      sorted := Inserted(sorted, ids[i]);
    }
    assert ids[..|ids|] == ids;
    assert Distinct(sorted) by {
      LessIsStrictTotalOrder();
    }
  }

  /** x placed in a strictly increasing list, unless it is there already. */
  function Inserted(sorted: seq<NodeId>, x: NodeId): (r: seq<NodeId>)
    requires Increasing(sorted)
    ensures Elements(r) == Elements(sorted) + {x}
    ensures Increasing(r)
  {
    if sorted == [] then [x]
    else
      var front, last := sorted[..|sorted| - 1], sorted[|sorted| - 1];
      assert sorted == front + [last];
      if Less(last, x) then IncreasingAppend(sorted, x); sorted + [x]
      else if last == x then sorted
      else
        var r := Inserted(front, x);
        LessIsConnected(last, x);
        assert Less(r[|r| - 1], last) by {
          assert r[|r| - 1] in Elements(r);
        }
        IncreasingAppend(r, last);
        assert Elements(r + [last]) == Elements(r) + {last};
        r + [last]
  }

  lemma IncreasingAppend(s: seq<NodeId>, x: NodeId)
    requires Increasing(s) && (s == [] || Less(s[|s| - 1], x))
    ensures Increasing(s + [x])
  {
    LessIsStrictTotalOrder();
  }

  // ----- The main loop -----

  /** `dependents[t]` lists the nodes that depend on t. */
  ghost predicate Reverses(dependents: map<NodeId, seq<NodeId>>, deps: Dependencies) {
    && dependents.Keys == deps.Keys
    && forall t, n {:trigger n in dependents[t]} :: t in deps ==>
         (n in dependents[t] <==> n in deps && t in deps[n])
  }

  lemma ChildrenDepend(dependents: map<NodeId, seq<NodeId>>, deps: Dependencies, t: NodeId, children: seq<NodeId>)
    requires Reverses(dependents, deps) && t in deps && Elements(children) == Elements(dependents[t])
    ensures forall n :: n in children <==> n in deps && t in deps[n]
  {
    forall n ensures n in children <==> n in deps && t in deps[n] {
      assert n in children <==> n in Elements(children);
      assert n in dependents[t] <==> n in Elements(dependents[t]);
    }
  }

  /** Between turns: the queue holds exactly the ready nodes, and the order so far is greedy. */
  ghost predicate Draining(degree: Counters, deps: Dependencies, counts: Counters,
                           ready: multiset<NodeId>, order: seq<NodeId>) {
    && CountersMatch(degree, deps, counts, Elements(order))
    && Elements(order) <= deps.Keys
    && ready == multiset(ReadySet(counts, Elements(order)))
    && IsGreedy(deps, Usable(degree, deps), order)
    && (forall n :: n in Elements(order) ==> deps[n] <= Elements(order))
  }

  lemma TakeNext(degree: Counters, deps: Dependencies, counts: Counters, ready: multiset<NodeId>,
                 order: seq<NodeId>, n: NodeId)
    requires Draining(degree, deps, counts, ready, order)
    requires n in ready && forall m :: m in ready ==> !Less(m, n)
    ensures n in deps && n !in Elements(order) && deps[n] <= Elements(order)
    ensures IsGreedy(deps, Usable(degree, deps), order + [n])
    ensures Elements(order + [n]) == Elements(order) + {n}
    ensures ready - multiset{n} == multiset(ReadySet(counts, Elements(order) + {n}))
  {
    var done := Elements(order);
    assert forall m :: m in ready <==> m in ReadySet(counts, done);
    PoppedIsNext(degree, deps, counts, done, n);
    GreedyExtends(deps, Usable(degree, deps), order, n);
    ReadyAfterTaking(counts, done, n);
  }

  lemma ReadyAfterTaking(counts: Counters, done: set<NodeId>, n: NodeId)
    requires n in ReadySet(counts, done)
    ensures multiset(ReadySet(counts, done)) - multiset{n} == multiset(ReadySet(counts, done + {n}))
  {
    assert ReadySet(counts, done) - {n} == ReadySet(counts, done + {n});
  }

  lemma ReadyAfterLowering(counts: Counters, done: set<NodeId>, n: NodeId)
    requires n in counts && n !in done && counts[n] > 0
    ensures ReadySet(counts[n := counts[n] - 1], done) == ReadySet(counts, done) + if counts[n] == 1 then {n} else {}
    ensures n !in ReadySet(counts, done)
  {
  }

  lemma CountersAdvance(degree: Counters, deps: Dependencies, counts: Counters, remaining: Counters,
                        done: set<NodeId>, n: NodeId)
    requires CountersMatch(degree, deps, counts, done) && n !in done && remaining.Keys == counts.Keys
    requires forall m :: m in deps ==> remaining[m] + (if n in deps[m] then 1 else 0) == counts[m]
    ensures CountersMatch(degree, deps, remaining, done + {n})
  {
    forall m | m in deps ensures remaining[m] == degree[m] - |deps[m] * (done + {n})| {
      OneMoreDone(deps[m], done, n);
    }
  }

  lemma OneMoreDone(s: set<NodeId>, done: set<NodeId>, n: NodeId)
    requires n !in done
    ensures |s * (done + {n})| == |s * done| + if n in s then 1 else 0
  {
    if n in s {
      assert s * (done + {n}) == s * done + {n};
    } else {
      assert s * (done + {n}) == s * done;
    }
  }

  lemma NothingReady(degree: Counters, deps: Dependencies, counts: Counters, order: seq<NodeId>)
    requires Draining(degree, deps, counts, multiset{}, order)
    ensures IsDrained(degree, deps, order)
  {
    var done := Elements(order);
    forall n | n in Usable(degree, deps) && n !in done ensures !IsReady(deps, done, n) {
      ZeroMeansReady(degree, deps, counts, done, n);
      assert n !in multiset(ReadySet(counts, done));
    }
  }

  /** Repeatedly take the least ready node and release its dependents. */
  method Drain(degree: Counters, dependents: map<NodeId, seq<NodeId>>, ghost deps: Dependencies)
      returns (order: seq<NodeId>)
    requires DegreesFit(degree, deps) && Reverses(dependents, deps)
    ensures IsDrained(degree, deps, order)
  {
    var counts := degree;
    assert StrictWeakOrder(Less) by {
      LessIsStrictTotalOrder();
    }
    var ready := new Heap(Less);
    order := [];
    FillReady(counts, ready);
    while ready.buffer != []
      invariant fresh(ready) && ready.Valid() && ready.before == Less
      invariant Draining(degree, deps, counts, multiset(ready.buffer), order)
      decreases deps.Keys - Elements(order)
    {
      counts, order := Turn(counts, dependents, ready, order, degree, deps);
    }
    NothingReady(degree, deps, counts, order);
  }

  /** One turn of the loop. */
  method Turn(counts: Counters, dependents: map<NodeId, seq<NodeId>>, ready: Heap<NodeId>, order: seq<NodeId>,
              ghost degree: Counters, ghost deps: Dependencies)
      returns (remaining: Counters, longer: seq<NodeId>)
    requires ready.Valid() && ready.before == Less && ready.buffer != []
    requires Draining(degree, deps, counts, multiset(ready.buffer), order)
    requires Reverses(dependents, deps)
    modifies ready
    ensures ready.Valid()
    ensures Draining(degree, deps, remaining, multiset(ready.buffer), longer)
    ensures exists n :: n in deps && n !in Elements(order) && Elements(longer) == Elements(order) + {n}
  {
    ghost var before := ready.buffer;
    var current := ready.Pop();
    assert forall m :: m in multiset(before) <==> m in before;
    TakeNext(degree, deps, counts, multiset(before), order, current);
    var children := SortedUnique(dependents[current]);
    ChildrenDepend(dependents, deps, current, children);
    remaining := Release(current, children, counts, ready, degree, deps, Elements(order));
    longer := order + [current];
  }

  method FillReady(counts: Counters, ready: Heap<NodeId>)
    requires ready.Valid() && ready.buffer == []
    modifies ready
    ensures ready.Valid() && multiset(ready.buffer) == multiset(ReadySet(counts, {}))
  {
    var pending := counts.Keys;
    while pending != {}
      invariant pending <= counts.Keys && ready.Valid()
      invariant multiset(ready.buffer) == multiset(ReadySet(counts, pending))
    {
      var id :| id in pending;
      pending := pending - {id};
      if counts[id] == 0 {
        assert ReadySet(counts, pending) == ReadySet(counts, pending + {id}) + {id};
        ready.Push(id);
      } else {
        assert ReadySet(counts, pending) == ReadySet(counts, pending + {id});
      }
    }
  }

  /** Lower each dependent's counter once, and queue those that reach zero. */
  method Release(current: NodeId, children: seq<NodeId>, counts: Counters, ready: Heap<NodeId>,
                 ghost degree: Counters, ghost deps: Dependencies, ghost done: set<NodeId>)
      returns (remaining: Counters)
    requires CountersMatch(degree, deps, counts, done)
    requires current in deps && current !in done && deps[current] <= done
    requires forall n :: n in done && n in deps ==> deps[n] <= done
    requires Distinct(children) && forall n :: n in children <==> n in deps && current in deps[n]
    requires ready.Valid() && multiset(ready.buffer) == multiset(ReadySet(counts, done + {current}))
    modifies ready
    ensures ready.Valid() && multiset(ready.buffer) == multiset(ReadySet(remaining, done + {current}))
    ensures CountersMatch(degree, deps, remaining, done + {current})
  {
    remaining := counts;
    for i := 0 to |children|
      invariant ready.Valid() && multiset(ready.buffer) == multiset(ReadySet(remaining, done + {current}))
      invariant remaining.Keys == counts.Keys
      invariant forall n :: n in counts ==> remaining[n] + (if n in children[..i] then 1 else 0) == counts[n]
    {
      var dependent := children[i];
      assert children[..i + 1] == children[..i] + [dependent];
      assert dependent in children;
      ZeroMeansReady(degree, deps, counts, done, dependent);
      if dependent !in remaining || remaining[dependent] == 0 {
        continue;
      }
      remaining := Lower(dependent, remaining, ready, done + {current});
    }
    assert children[..|children|] == children;
    CountersAdvance(degree, deps, counts, remaining, done, current);
  }

  /** Lower one counter, and queue its node if it reaches zero. */
  method Lower(n: NodeId, counts: Counters, ready: Heap<NodeId>, ghost done: set<NodeId>) returns (lowered: Counters)
    requires n in counts && n !in done && counts[n] > 0
    requires ready.Valid() && multiset(ready.buffer) == multiset(ReadySet(counts, done))
    modifies ready
    ensures lowered == counts[n := counts[n] - 1]
    ensures ready.Valid() && multiset(ready.buffer) == multiset(ReadySet(lowered, done))
  {
    ReadyAfterLowering(counts, done, n);
    lowered := counts[n := counts[n] - 1];
    if lowered[n] == 0 {
      ready.Push(n);
    }
  }
}
