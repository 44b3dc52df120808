/** The in-memory cluster graph: nodes by id, an adjacency list of typed edges and a cached edge
    count, with reachability and dependency ordering on top (engines/cpp-cluster). */
module ClusterGraph {
  import opened Collections
  import opened DependencyTheory
  import opened KahnOrder

  type NodeId = string

  datatype NodeStatus = Unknown | Online | Offline | Maintenance

  datatype Relation = CommunicatesWith | Hosts | DependsOn | BacksUpTo | ReplicatesTo

  datatype Node = Node(id: NodeId, name: string, status: NodeStatus, healthy: bool)

  datatype Edge = Edge(source: NodeId, target: NodeId, relation: Relation,
                       service: string, protocol: string, port: bv16)

  type Adjacency = map<NodeId, seq<Edge>>

  // ----- Edge lists -----

  /** std::erase_if: what survives keeps its order. */
  function Without(list: seq<Edge>, drop: Edge -> bool): (kept: seq<Edge>)
    ensures |kept| <= |list|
    ensures forall e :: e in kept <==> e in list && !drop(e)
    ensures NoRepeats(list) ==> NoRepeats(kept)
  {
    if list == [] then []
    else
      var front, last := list[..|list| - 1], list[|list| - 1];
      var kept := Without(front, drop);
      assert list == front + [last];
      NoRepeatsOfLast(list);
      NoRepeatsAppend(kept, last);
      if drop(last) then kept else kept + [last]
  }

  predicate Holds(adjacency: Adjacency, e: Edge) {
    e.source in adjacency && e in adjacency[e.source]
  }

  /** The lists hold exactly `edges`, each once, in the list of its source. */
  ghost predicate Represents(adjacency: Adjacency, edges: set<Edge>) {
    && (forall s, e :: s in adjacency && e in adjacency[s] ==> e.source == s)
    && (forall s {:trigger NoRepeats(adjacency[s])} :: s in adjacency ==> NoRepeats(adjacency[s]))
    && (forall e :: e in edges <==> Holds(adjacency, e))
  }

  ghost function From(edges: set<Edge>, source: NodeId): set<Edge> {
    set e | e in edges && e.source == source
  }

  /** The edge set once the list of `source` is replaced. */
  ghost function Replaced(edges: set<Edge>, source: NodeId, list: seq<Edge>): set<Edge> {
    edges - From(edges, source) + Elements(list)
  }

  lemma ListIsFrom(adjacency: Adjacency, edges: set<Edge>, source: NodeId)
    requires Represents(adjacency, edges) && source in adjacency
    ensures From(edges, source) == Elements(adjacency[source])
  {
    forall e ensures e in From(edges, source) <==> e in Elements(adjacency[source]) {
      assert e in edges <==> Holds(adjacency, e);
    }
  }

  /** Replacing one adjacency list changes the edge set, and its size, by that list alone. */
  lemma ReplaceList(adjacency: Adjacency, edges: set<Edge>, source: NodeId, list: seq<Edge>)
    requires Represents(adjacency, edges) && source in adjacency && NoRepeats(list)
    requires forall e :: e in list ==> e.source == source
    ensures Represents(adjacency[source := list], Replaced(edges, source, list))
    ensures |Replaced(edges, source, list)| == |edges| - |adjacency[source]| + |list|
  {
    ReplacedIsRepresented(adjacency, edges, source, list);
    ReplacedCardinality(adjacency, edges, source, list);
  }

  lemma ReplacedIsRepresented(adjacency: Adjacency, edges: set<Edge>, source: NodeId, list: seq<Edge>)
    requires Represents(adjacency, edges) && source in adjacency && NoRepeats(list)
    requires forall e :: e in list ==> e.source == source
    ensures Represents(adjacency[source := list], Replaced(edges, source, list))
  {
    ReplacedIsHeld(adjacency, edges, source, list);
    var replaced := adjacency[source := list];
    forall s | s in replaced ensures NoRepeats(replaced[s]) {
      assert s != source ==> NoRepeats(adjacency[s]);
    }
  }

  lemma ReplacedIsHeld(adjacency: Adjacency, edges: set<Edge>, source: NodeId, list: seq<Edge>)
    requires forall e :: e in edges <==> Holds(adjacency, e)
    requires forall e :: e in list ==> e.source == source
    requires source in adjacency
    ensures forall e :: e in Replaced(edges, source, list) <==> Holds(adjacency[source := list], e)
  {
    forall e ensures e in Replaced(edges, source, list) <==> Holds(adjacency[source := list], e) {
      assert e in edges <==> Holds(adjacency, e);
      if e.source == source {
        assert e in Replaced(edges, source, list) <==> e in list;
      }
    }
  }

  lemma ReplacedCardinality(adjacency: Adjacency, edges: set<Edge>, source: NodeId, list: seq<Edge>)
    requires Represents(adjacency, edges) && source in adjacency && NoRepeats(list)
    requires forall e :: e in list ==> e.source == source
    ensures |Replaced(edges, source, list)| == |edges| - |adjacency[source]| + |list|
  {
    var others, new' := edges - From(edges, source), Elements(list);
    assert |others| + |From(edges, source)| == |edges|;
    assert others !! new';
    ListIsFrom(adjacency, edges, source);
    assert NoRepeats(adjacency[source]);
  }

  lemma FilterIsReplaced(adjacency: Adjacency, edges: set<Edge>, source: NodeId, drop: Edge -> bool, kept: seq<Edge>)
    requires Represents(adjacency, edges) && source in adjacency && kept == Without(adjacency[source], drop)
    ensures Represents(adjacency[source := kept], Replaced(edges, source, kept))
    ensures |Replaced(edges, source, kept)| == |edges| - |adjacency[source]| + |kept|
    ensures forall e :: e in Replaced(edges, source, kept) <==> e in edges && !(e.source == source && drop(e))
  {
    assert NoRepeats(adjacency[source]);
    ReplaceList(adjacency, edges, source, Without(adjacency[source], drop));
    ListIsFrom(adjacency, edges, source);
    forall e ensures e in From(edges, source) <==> e in adjacency[source] {
      assert e in From(edges, source) <==> e in Elements(adjacency[source]);
    }
  }

  lemma RemovalCounts(before: set<Edge>, after: set<Edge>, edge: Edge)
    requires forall e :: e in after <==> e in before && e != edge
    ensures |after| == |before| - if edge in before then 1 else 0
  {
    assert after == before - {edge};
  }

  lemma AppendIsReplaced(adjacency: Adjacency, edges: set<Edge>, edge: Edge)
    requires Represents(adjacency, edges) && edge.source in adjacency && edge !in adjacency[edge.source]
    ensures Represents(adjacency[edge.source := adjacency[edge.source] + [edge]], edges + {edge})
    ensures |edges + {edge}| == |edges| + 1
  {
    var list := adjacency[edge.source];
    NoRepeatsAppend(list, edge);
    ReplaceList(adjacency, edges, edge.source, list + [edge]);
    ListIsFrom(adjacency, edges, edge.source);
    assert Replaced(edges, edge.source, list + [edge]) == edges + {edge};
  }

  // ----- Dependencies -----

  /** How many DependsOn edges a list holds, and the targets they name. */
  function DependencyCount(edges: seq<Edge>): nat {
    if edges == [] then 0
    else DependencyCount(edges[..|edges| - 1]) + if edges[|edges| - 1].relation == DependsOn then 1 else 0
  }

  function DependencyTargets(edges: seq<Edge>): set<NodeId> {
    set e | e in edges && e.relation == DependsOn :: e.target
  }

  /** No two DependsOn edges to one target. */
  ghost predicate NoParallelDependency(edges: seq<Edge>) {
    forall i, j :: 0 <= i < j < |edges| && edges[i].relation == DependsOn == edges[j].relation
      ==> edges[i].target != edges[j].target
  }

  /** The count exceeds the number of distinct dependencies exactly when some edge is parallel. */
  lemma {:induction false} CountBoundsTargets(list: seq<Edge>)
    ensures |DependencyTargets(list)| <= DependencyCount(list)
    ensures |DependencyTargets(list)| == DependencyCount(list) <==> NoParallelDependency(list)
  {
    if list != [] {
      CountBoundsTargets(list[..|list| - 1]);
      LastEdge(list);
    }
  }

  lemma LastEdge(list: seq<Edge>)
    requires list != []
    ensures var front, last := list[..|list| - 1], list[|list| - 1];
      && DependencyTargets(list) == DependencyTargets(front) + (if last.relation == DependsOn then {last.target} else {})
      && (NoParallelDependency(list) <==>
           NoParallelDependency(front) && (last.relation == DependsOn ==> last.target !in DependencyTargets(front)))
  {
    var front, last := list[..|list| - 1], list[|list| - 1];
    assert list == front + [last];
    LastIsParallel(front, last);
  }

  lemma LastIsParallel(front: seq<Edge>, last: Edge)
    ensures NoParallelDependency(front + [last]) <==>
      NoParallelDependency(front) && (last.relation == DependsOn ==> last.target !in DependencyTargets(front))
  {
    var list := front + [last];
    assert forall i :: 0 <= i < |front| ==> list[i] == front[i] && front[i] in front;
    if NoParallelDependency(front) && last.relation == DependsOn && last.target in DependencyTargets(front) {
      var i :| 0 <= i < |front| && front[i].relation == DependsOn && front[i].target == last.target;
      assert list[i] == front[i] && list[|front|] == last;
    }
  }

  /** The lists outside `pending` have been counted, the others not yet. */
  ghost predicate Counted(adjacency: Adjacency, deps: Dependencies, pending: set<NodeId>,
                          counts: Counters, dependents: map<NodeId, seq<NodeId>>)
    requires deps.Keys == adjacency.Keys
  {
    && counts.Keys == dependents.Keys == deps.Keys
    && (forall n :: n in deps ==> counts[n] == if n in pending then 0 else DependencyCount(adjacency[n]))
    && (forall t, n {:trigger n in dependents[t]} :: t in deps ==>
         (n in dependents[t] <==> n in deps && n !in pending && t in deps[n]))
  }

  lemma CountedStep(adjacency: Adjacency, deps: Dependencies, pending: set<NodeId>,
                    counts: Counters, dependents: map<NodeId, seq<NodeId>>,
                    source: NodeId, counts': Counters, dependents': map<NodeId, seq<NodeId>>)
    requires deps.Keys == adjacency.Keys && source in pending && source in deps
    requires deps[source] == DependencyTargets(adjacency[source])
    requires Counted(adjacency, deps, pending, counts, dependents)
    requires counts' == counts[source := DependencyCount(adjacency[source])] && dependents'.Keys == dependents.Keys
    requires forall t, n {:trigger n in dependents'[t]} :: t in dependents ==>
      (n in dependents'[t] <==> n in dependents[t] || (n == source && t in DependencyTargets(adjacency[source])))
    ensures Counted(adjacency, deps, pending - {source}, counts', dependents')
  {
  }

  // ----- Reachability -----

  ghost predicate HasEdge(adjacency: Adjacency, source: NodeId, target: NodeId) {
    source in adjacency && exists e :: e in adjacency[source] && e.target == target
  }

  ghost predicate IsPath(adjacency: Adjacency, p: seq<NodeId>) {
    && p != []
    && forall i :: 0 <= i < |p| - 1 ==> HasEdge(adjacency, p[i], p[i + 1])
  }

  ghost predicate Joined(adjacency: Adjacency, source: NodeId, target: NodeId) {
    exists p :: IsPath(adjacency, p) && p[0] == source && p[|p| - 1] == target
  }

  lemma JoinedTrivially(adjacency: Adjacency, source: NodeId)
    ensures Joined(adjacency, source, source)
  {
    assert IsPath(adjacency, [source]);
  }

  lemma JoinedBeyond(adjacency: Adjacency, source: NodeId, e: Edge)
    requires e.source in adjacency && e in adjacency[e.source] && Joined(adjacency, source, e.source)
    ensures Joined(adjacency, source, e.target)
  {
    var p :| IsPath(adjacency, p) && p[0] == source && p[|p| - 1] == e.source;
    assert HasEdge(adjacency, e.source, e.target);
    assert IsPath(adjacency, p + [e.target]);
  }

  /** A set that no stored edge leaves holds every path that starts inside it. */
  lemma {:induction false} ClosedSetHoldsPaths(adjacency: Adjacency, inside: set<NodeId>, p: seq<NodeId>)
    requires forall n, e :: n in inside && n in adjacency && e in adjacency[n] ==> e.target in inside
    requires IsPath(adjacency, p) && p[0] in inside
    ensures p[|p| - 1] in inside
  {
    if |p| > 1 {
      assert HasEdge(adjacency, p[0], p[0 + 1]);
      forall i | 0 <= i < |p[1..]| - 1 ensures HasEdge(adjacency, p[1..][i], p[1..][i + 1]) {
        assert HasEdge(adjacency, p[i + 1], p[i + 1 + 1]);
      }
      ClosedSetHoldsPaths(adjacency, inside, p[1..]);
    }
  }

  /** Every edge out of `expanded` ends in `visited`. */
  ghost predicate Explored(adjacency: Adjacency, expanded: set<NodeId>, visited: set<NodeId>) {
    forall n, e :: n in expanded && n in adjacency && e in adjacency[n] ==> e.target in visited
  }

  /** Nodes under their own ids, one list per node, both ends of every edge known, no self-loop. */
  ghost predicate WellFormed(nodes: map<NodeId, Node>, adjacency: Adjacency, edges: set<Edge>) {
    && adjacency.Keys == nodes.Keys
    && (forall id :: id in nodes ==> id != "" && nodes[id].id == id)
    && Represents(adjacency, edges)
    && (forall e :: e in edges ==> e.target in nodes && e.target != e.source)
  }

  lemma TargetsAreNodes(nodes: map<NodeId, Node>, adjacency: Adjacency, edges: set<Edge>)
    requires WellFormed(nodes, adjacency, edges)
    ensures forall n, e :: n in adjacency && e in adjacency[n] ==> e.target in nodes
  {
    assert forall n, e :: n in adjacency && e in adjacency[n] ==> Holds(adjacency, e);
  }

  lemma AppendIsWellFormed(nodes: map<NodeId, Node>, adjacency: Adjacency, edges: set<Edge>, edge: Edge)
    requires WellFormed(nodes, adjacency, edges)
    requires edge.source in nodes && edge.target in nodes && edge.source != edge.target
    requires edge !in adjacency[edge.source]
    ensures WellFormed(nodes, adjacency[edge.source := adjacency[edge.source] + [edge]], edges + {edge})
    ensures |edges + {edge}| == |edges| + 1
  {
    AppendIsReplaced(adjacency, edges, edge);
  }

  lemma PendingGrows(queue: seq<NodeId>, seen: set<NodeId>, pending: seq<NodeId>, visited: set<NodeId>, n: NodeId)
    requires Elements(pending) == Elements(queue) + (visited - seen) && seen <= visited && n !in visited
    ensures Elements(pending + [n]) == Elements(queue) + (visited + {n} - seen)
  {
    assert Elements(pending + [n]) == Elements(pending) + {n};
  }

  class ClusterGraph {
    var nodes: map<NodeId, Node>
    var adjacency: Adjacency
    var edgeCount: nat
    ghost var edges: set<Edge>  // what the lists hold

    ghost predicate Valid()
      reads this
    {
      WellFormed(nodes, adjacency, edges) && edgeCount == |edges|
    }

    constructor ()
      ensures Valid() && nodes == map[] && edges == {}
    {
      nodes, adjacency, edgeCount, edges := map[], map[], 0, {};
    }

    method UpsertNode(node: Node)
      requires Valid()
      modifies this
      ensures Valid() && edges == old(edges)
      ensures nodes == if node.id == "" then old(nodes) else old(nodes)[node.id := node]
    {
      if node.id == "" {
        return;
      }
      nodes := nodes[node.id := node];
      if node.id !in adjacency {
        adjacency := adjacency[node.id := []];
        assert forall e :: Holds(adjacency, e) <==> Holds(old(adjacency), e);
      }
    }

    method RemoveNode(id: NodeId) returns (removed: bool)
      requires Valid()
      modifies this
      ensures Valid()
      ensures removed <==> id in old(nodes)
      ensures nodes == old(nodes) - {id}
      ensures forall e :: e in edges <==> e in old(edges) && e.source != id && e.target != id
    {
      if id !in nodes {
        assert forall e :: e in edges ==> Holds(adjacency, e);
        return false;
      }
      nodes := nodes - {id};
      DropList(id);
      var pending := adjacency.Keys;
      while pending != {}
        invariant pending <= adjacency.Keys == nodes.Keys && Represents(adjacency, edges)
        invariant nodes == old(nodes) - {id}
        invariant forall e :: e in edges <==> e in old(edges) && e.source != id && (e.target != id || e.source in pending)
        invariant edgeCount == |edges|
      {
        var source :| source in pending;
        var dropped := FilterList(source, (e: Edge) => e.target == id);
        pending := pending - {source};
      }
      return true;
    }

    /** Forget the list of a removed node. */
    method DropList(source: NodeId)
      requires source in adjacency && Represents(adjacency, edges) && edgeCount == |edges|
      modifies `adjacency, `edgeCount, `edges
      ensures adjacency == old(adjacency) - {source}
      ensures forall e :: e in edges <==> e in old(edges) && e.source != source
      ensures Represents(adjacency, edges) && edgeCount == |edges|
    {
      ReplaceList(adjacency, edges, source, []);
      assert Replaced(edges, source, []) == edges - From(edges, source);
      edgeCount := edgeCount - |adjacency[source]|;
      adjacency, edges := adjacency - {source}, edges - From(edges, source);
      assert forall e :: Holds(adjacency, e) <==> Holds(old(adjacency)[source := []], e);
    }

    /** std::erase_if on one adjacency list, with the edge count kept in step. */
    method FilterList(source: NodeId, drop: Edge -> bool) returns (dropped: nat)
      requires source in adjacency && Represents(adjacency, edges) && edgeCount == |edges|
      modifies `adjacency, `edgeCount, `edges
      ensures adjacency.Keys == old(adjacency).Keys
      ensures forall e :: e in edges <==> e in old(edges) && !(e.source == source && drop(e))
      ensures Represents(adjacency, edges) && edgeCount == |edges| == old(edgeCount) - dropped
    {
      var before := adjacency[source];
      var kept := Without(before, drop);
      FilterIsReplaced(adjacency, edges, source, drop, kept);
      dropped := |before| - |kept|;
      edgeCount := edgeCount - dropped;
      adjacency, edges := adjacency[source := kept], Replaced(edges, source, kept);
    }

    method UpsertEdge(edge: Edge) returns (stored: bool)
      requires Valid()
      modifies this
      ensures Valid() && nodes == old(nodes)
      ensures stored <==> edge.source in nodes && edge.target in nodes && edge.source != edge.target
      ensures stored ==> edges == old(edges) + {edge}
      ensures !stored ==> edges == old(edges)
    {
      if edge.source == "" || edge.target == "" || edge.source == edge.target {
        return false;
      }
      if edge.source !in nodes || edge.target !in nodes {
        return false;
      }
      assert edge in edges <==> Holds(adjacency, edge);
      var list := adjacency[edge.source];
      if edge !in list {
        AppendIsWellFormed(nodes, adjacency, edges, edge);
        adjacency := adjacency[edge.source := list + [edge]];
        edgeCount, edges := edgeCount + 1, edges + {edge};
      }
      assert WellFormed(nodes, adjacency, edges);
      return true;
    }

    method RemoveEdge(edge: Edge) returns (removed: bool)
      requires Valid()
      modifies this
      ensures Valid() && nodes == old(nodes)
      ensures removed <==> edge in old(edges)
      ensures forall e :: e in edges <==> e in old(edges) && e != edge
    {
      assert edge in edges <==> Holds(adjacency, edge);
      if edge.source !in adjacency {
        return false;
      }
      var dropped := FilterList(edge.source, e => e == edge);
      RemovalCounts(old(edges), edges, edge);
      removed := dropped != 0;
    }

    /** Breadth-first search over stored edges. */
    method Reachable(source: NodeId, target: NodeId) returns (found: bool)
      requires Valid()
      ensures found <==> source in nodes && target in nodes && Joined(adjacency, source, target)
    {
      if source !in nodes || target !in nodes {
        return false;
      }
      JoinedTrivially(adjacency, source);
      if source == target {
        return true;
      }
      var pending, visited := [source], {source};
      while pending != []
        invariant Elements(pending) <= visited <= nodes.Keys
        invariant source in visited && target !in visited
        invariant forall n :: n in visited ==> Joined(adjacency, source, n)
        invariant Explored(adjacency, visited - Elements(pending), visited)
        decreases nodes.Keys - visited, |pending|
      {
        var current := pending[0];
        assert Elements(pending) == {current} + Elements(pending[1..]);
        pending, found, visited := Visit(current, target, pending[1..], visited, source);
        if found {
          return true;
        }
      }
      if Joined(adjacency, source, target) {
        var p :| IsPath(adjacency, p) && p[0] == source && p[|p| - 1] == target;
        ClosedSetHoldsPaths(adjacency, visited, p);
        assert false;
      }
      return false;
    }

    /** The inner loop of the search: look along every edge of one node. */
    method Visit(current: NodeId, target: NodeId, queue: seq<NodeId>, seen: set<NodeId>, ghost source: NodeId)
        returns (pending: seq<NodeId>, found: bool, visited: set<NodeId>)
      requires Valid() && current in seen && seen <= nodes.Keys && Elements(queue) <= seen && target !in seen
      requires forall n :: n in seen ==> Joined(adjacency, source, n)
      ensures seen <= visited <= nodes.Keys && target !in visited
      ensures visited == seen ==> pending == queue
      ensures Elements(pending) == Elements(queue) + (visited - seen)
      ensures forall n :: n in visited ==> Joined(adjacency, source, n)
      ensures found ==> Joined(adjacency, source, target)
      ensures !found ==> forall e :: e in adjacency[current] ==> e.target in visited
    {
      pending, found, visited := queue, false, seen;
      var list := adjacency[current];
      for i := 0 to |list|
        invariant seen <= visited <= nodes.Keys && target !in visited
        invariant visited == seen ==> pending == queue
        invariant Elements(pending) == Elements(queue) + (visited - seen)
        invariant forall n :: n in visited ==> Joined(adjacency, source, n)
        invariant forall j :: 0 <= j < i ==> list[j].target in visited
      {
        var edge := list[i];
        JoinedBeyond(adjacency, source, edge);
        if edge.target == target {
          return pending, true, visited;
        }
        if edge.target in nodes && edge.target !in visited {
          PendingGrows(queue, seen, pending, visited, edge.target);
          visited := visited + {edge.target};
          pending := pending + [edge.target];
        }
      }
    }

    /** Direct dependencies of every node, as the stored DependsOn edges give them. */
    ghost function Dependencies(): (deps: map<NodeId, set<NodeId>>)
      requires Valid()
      reads this
      ensures Closed(deps)
    {
      assert forall n, e :: n in nodes && e in adjacency[n] ==> Holds(adjacency, e);
      map n | n in nodes :: DependencyTargets(adjacency[n])
    }

    /** No node stores two DependsOn edges to one target. */
    ghost predicate NoParallelDependencies()
      requires Valid()
      reads this
    {
      forall n :: n in nodes ==> NoParallelDependency(adjacency[n])
    }

    /** Kahn's algorithm with the least ready id taken first. A dependent's counter starts at its number
        of DependsOn edges but falls once per distinct dependency, so a parallel edge also blocks it. */
    method DependencyOrder() returns (result: Option<seq<NodeId>>)
      requires Valid()
      ensures result.Some? <==> !HasCycle(Dependencies()) && NoParallelDependencies()
      ensures result.Some? ==> IsTopologicalOrder(Dependencies(), result.value)
      ensures result.Some? ==> IsLeastOrder(Dependencies(), result.value)
    {
      var counts, dependents := CountDependencies();
      forall n | n in nodes
        ensures |DependencyTargets(adjacency[n])| <= DependencyCount(adjacency[n])
        ensures |DependencyTargets(adjacency[n])| == DependencyCount(adjacency[n]) <==> NoParallelDependency(adjacency[n])
      {
        CountBoundsTargets(adjacency[n]);
      }
      var order := Drain(counts, dependents, Dependencies());
      DrainedOrder(counts, Dependencies(), order);
      assert |nodes| == |nodes.Keys| == |Dependencies().Keys|;
      assert Usable(counts, Dependencies()) == nodes.Keys <==> NoParallelDependencies();
      if |order| != |nodes| {
        return None;
      }
      return Some(order);
    }

    /** The counters and the reverse lists that dependency_order builds first. */
    method CountDependencies() returns (counts: map<NodeId, nat>, dependents: map<NodeId, seq<NodeId>>)
      requires Valid()
      ensures counts.Keys == dependents.Keys == nodes.Keys
      ensures forall n :: n in nodes ==> counts[n] == DependencyCount(adjacency[n])
      ensures Reverses(dependents, Dependencies())
    {
      counts := map n | n in nodes :: 0;
      dependents := map n | n in nodes :: [];
      ghost var deps := Dependencies();
      var pending := adjacency.Keys;
      TargetsAreNodes(nodes, adjacency, edges);
      while pending != {}
        invariant pending <= deps.Keys && Counted(adjacency, deps, pending, counts, dependents)
      {
        var source :| source in pending;
        var counts', dependents' := CountList(source, adjacency[source], counts, dependents);
        CountedStep(adjacency, deps, pending, counts, dependents, source, counts', dependents');
        counts, dependents, pending := counts', dependents', pending - {source};
      }
    }

    /** One adjacency list's share of the counting. */
    method CountList(source: NodeId, list: seq<Edge>, before: map<NodeId, nat>, listed: map<NodeId, seq<NodeId>>)
        returns (counts: map<NodeId, nat>, dependents: map<NodeId, seq<NodeId>>)
      requires source in before && before[source] == 0
      requires forall e :: e in list ==> e.target in listed
      requires forall t :: t in listed ==> source !in listed[t]
      ensures counts == before[source := DependencyCount(list)]
      ensures dependents.Keys == listed.Keys
      ensures forall t, n {:trigger n in dependents[t]} :: t in listed ==>
        (n in dependents[t] <==> n in listed[t] || (n == source && t in DependencyTargets(list)))
    {
      counts, dependents := before, listed;
      for i := 0 to |list|
        invariant counts == before[source := DependencyCount(list[..i])]
        invariant dependents.Keys == listed.Keys
        invariant forall t, n {:trigger n in dependents[t]} :: t in listed ==>
          (n in dependents[t] <==> n in listed[t] || (n == source && t in DependencyTargets(list[..i])))
      {
        var edge := list[i];
        assert list[..i + 1] == list[..i] + [edge];
        if edge.relation == DependsOn {
          counts := counts[source := counts[source] + 1];
          dependents := dependents[edge.target := dependents[edge.target] + [source]];
        }
      }
      assert list[..|list|] == list;
    }
  }

  /** Two nodes and two different DependsOn edges between them: the graph has no cycle, and still no order is found. */
  method OrderWithParallelEdges(dependent: Node, dependency: Node, first: Edge, second: Edge)
      returns (graph: ClusterGraph, order: Option<seq<NodeId>>)
    requires dependent.id != "" && dependency.id != "" && dependent.id != dependency.id && first != second
    requires first.source == second.source == dependent.id && first.target == second.target == dependency.id
    requires first.relation == second.relation == DependsOn
    ensures graph.Valid() && graph.nodes.Keys == {dependent.id, dependency.id} && graph.edges == {first, second}
    ensures order.None? && !HasCycle(graph.Dependencies())
  {
    graph := new ClusterGraph();
    graph.UpsertNode(dependent);
    graph.UpsertNode(dependency);
    var stored := graph.UpsertEdge(first);
    stored := graph.UpsertEdge(second);
    order := graph.DependencyOrder();
    ParallelEdgeWithoutCycle(graph, dependent.id, dependency.id, first, second);
  }

  lemma ParallelEdgeWithoutCycle(graph: ClusterGraph, dependent: NodeId, dependency: NodeId, first: Edge, second: Edge)
    requires graph.Valid() && graph.nodes.Keys == {dependent, dependency} && graph.edges == {first, second}
    requires dependent != dependency && first != second && first.relation == second.relation == DependsOn
    requires first.source == second.source == dependent && first.target == second.target == dependency
    ensures !graph.NoParallelDependencies() && !HasCycle(graph.Dependencies())
  {
    var list, deps := graph.adjacency[dependent], graph.Dependencies();
    assert Holds(graph.adjacency, first) && Holds(graph.adjacency, second);
    var i, j :| 0 <= i < |list| && 0 <= j < |list| && list[i] == first && list[j] == second;
    assert !NoParallelDependency(list);
    forall e | e in graph.adjacency[dependency] ensures false {
      assert Holds(graph.adjacency, e);
    }
    assert deps[dependency] == {} && deps[dependent] <= {dependency};
    var order := [dependency, dependent];
    assert order[..1] == [dependency];
    OrderExcludesCycles(deps, order);
  }
}
