/** The C entry points over the graph and the scheduler: ids in, index buffers out (engines/cpp-cluster/src/c_api.cpp).
    A pointer is an Option; a buffer it points to is as long as the count passed beside it. */
module ClusterApi {
  import opened Collections
  import opened ClusterGraph
  import opened DependencyTheory
  import opened KahnOrder
  import opened Placement
  import opened StringOrder

  datatype CString = Null | Text(text: string)

  function SafeString(value: CString): (text: string)
    ensures value.Null? ==> text == ""
    ensures value.Text? ==> text == value.text
  {
    if value == Null then "" else value.text
  }

  function Strings(values: seq<CString>): seq<string> {
    seq(|values|, i requires 0 <= i < |values| => SafeString(values[i]))
  }

  /** The relation a caller describes: ids, and (dependent, dependency) pairs. */
  ghost predicate IsWellFormedRequest(ids: seq<string>, dependents: seq<string>, dependencies: seq<string>) {
    && |dependents| == |dependencies|
    && AreIds(ids)
    && AreKnownPairs(Elements(ids), dependents, dependencies)
  }

  ghost predicate AreIds(ids: seq<string>) {
    Distinct(ids) && "" !in ids
  }

  ghost predicate AreKnownPairs(ids: set<string>, dependents: seq<string>, dependencies: seq<string>)
    requires |dependents| == |dependencies|
  {
    forall k :: 0 <= k < |dependents| ==> IsKnownPair(ids, dependents[k], dependencies[k])
  }

  /** Both ends known, and not the same. */
  predicate IsKnownPair(ids: set<string>, dependent: string, dependency: string) {
    dependent in ids && dependency in ids && dependent != dependency
  }

  ghost function RequestedDependencies(ids: seq<string>, dependents: seq<string>, dependencies: seq<string>): Dependencies
    requires |dependents| == |dependencies|
  {
    map n | n in ids :: set k | 0 <= k < |dependents| && dependents[k] == n :: dependencies[k]
  }

  function PlainEdge(dependent: string, dependency: string): Edge {
    Edge(dependent, dependency, DependsOn, "", "", 0)
  }

  /** The graph holds one plain edge for each of the first pairs, and nothing else. */
  ghost predicate HoldsPairs(edges: set<Edge>, dependents: seq<string>, dependencies: seq<string>)
    requires |dependents| == |dependencies|
  {
    forall e :: e in edges <==>
      exists k :: 0 <= k < |dependents| && e == PlainEdge(dependents[k], dependencies[k])
  }

  /** All edges being plain, equal pairs collapse and no parallel edge can be stored. */
  lemma PlainGraph(nodes: map<NodeId, Node>, adjacency: Adjacency, edges: set<Edge>,
                   ids: seq<string>, dependents: seq<string>, dependencies: seq<string>, n: NodeId)
    requires WellFormed(nodes, adjacency, edges) && nodes.Keys == Elements(ids) && n in nodes
    requires |dependents| == |dependencies| && HoldsPairs(edges, dependents, dependencies)
    ensures NoParallelDependency(adjacency[n])
    ensures DependencyTargets(adjacency[n]) == RequestedDependencies(ids, dependents, dependencies)[n]
  {
    var list := adjacency[n];
    assert NoRepeats(list);
    NoRepeatsIsDistinct(list);
    forall e | e in list ensures e == PlainEdge(n, e.target) {
      assert e in edges <==> Holds(adjacency, e);
    }
    assert forall i :: 0 <= i < |list| ==> list[i] in list;
    forall t ensures t in DependencyTargets(list) <==> t in RequestedDependencies(ids, dependents, dependencies)[n] {
      var e := PlainEdge(n, t);
      assert e in edges <==> Holds(adjacency, e);
      assert t in DependencyTargets(list) <==> e in list;
    }
  }

  /** index_by_id maps each id to its position. */
  ghost predicate IsIndexOf(ids: seq<string>, indexById: map<string, nat>) {
    && AreIds(ids) && indexById.Keys == Elements(ids)
    && forall k :: 0 <= k < |ids| ==> indexById[ids[k]] == k
  }

  lemma IndexExtends(ids: seq<string>, index: nat, indexById: map<string, nat>)
    requires index < |ids| && IsIndexOf(ids[..index], indexById)
    ensures Elements(ids[..index + 1]) == Elements(ids[..index]) + {ids[index]}
    ensures ids[index] != "" && ids[index] !in indexById ==> IsIndexOf(ids[..index + 1], indexById[ids[index] := index])
    ensures ids[index] == "" || ids[index] in indexById ==> !AreIds(ids)
  {
    assert ids[..index + 1] == ids[..index] + [ids[index]];
    if ids[index] in indexById {
      var k :| 0 <= k < index && ids[..index][k] == ids[index];
      assert ids[k] == ids[index];
    }
  }

  /** Fill a graph with one node per id; fails on an empty or repeated id. */
  method LoadNodes(graph: ClusterGraph, ids: seq<CString>) returns (ok: bool, indexById: map<string, nat>)
    requires graph.Valid() && graph.nodes == map[] && graph.edges == {}
    modifies graph
    ensures graph.Valid() && graph.edges == {}
    ensures ok <==> AreIds(Strings(ids))
    ensures ok ==> graph.nodes.Keys == Elements(Strings(ids)) && IsIndexOf(Strings(ids), indexById)
  {
    indexById := map[];
    ghost var names := Strings(ids);
    for index := 0 to |ids|
      invariant graph.Valid() && graph.edges == {}
      invariant graph.nodes.Keys == Elements(names[..index])
      invariant IsIndexOf(names[..index], indexById)
    {
      ok, indexById := LoadNode(graph, SafeString(ids[index]), index, indexById, names);
      if !ok {
        return;
      }
    }
    assert names[..|ids|] == names;
    ok := true;
  }

  method LoadNode(graph: ClusterGraph, id: string, index: nat, before: map<string, nat>, ghost names: seq<string>)
      returns (ok: bool, indexById: map<string, nat>)
    requires graph.Valid() && graph.edges == {} && index < |names| && names[index] == id
    requires graph.nodes.Keys == Elements(names[..index]) && IsIndexOf(names[..index], before)
    modifies graph
    ensures graph.Valid() && graph.edges == {}
    ensures !ok ==> !AreIds(names)
    ensures ok ==> graph.nodes.Keys == Elements(names[..index + 1]) && IsIndexOf(names[..index + 1], indexById)
  {
    IndexExtends(names, index, before);
    indexById := before;
    if id == "" || id in indexById {
      return false, indexById;
    }
    indexById := indexById[id := index];
    graph.UpsertNode(Node(id, id, Unknown, false));
    ok := true;
  }

  /** Add one plain edge per pair; fails on an unknown id or a self pair. */
  method LoadPairs(graph: ClusterGraph, dependentIds: seq<CString>, dependencyIds: seq<CString>) returns (ok: bool)
    requires graph.Valid() && graph.edges == {} && |dependentIds| == |dependencyIds|
    modifies graph
    ensures graph.Valid() && graph.nodes == old(graph.nodes)
    ensures ok <==> AreKnownPairs(graph.nodes.Keys, Strings(dependentIds), Strings(dependencyIds))
    ensures ok ==> HoldsPairs(graph.edges, Strings(dependentIds), Strings(dependencyIds))
  {
    ghost var dependents, dependencies := Strings(dependentIds), Strings(dependencyIds);
    for index := 0 to |dependentIds|
      invariant graph.Valid() && graph.nodes == old(graph.nodes)
      invariant AreKnownPairs(graph.nodes.Keys, dependents[..index], dependencies[..index])
      invariant HoldsPairs(graph.edges, dependents[..index], dependencies[..index])
    {
      var edge := PlainEdge(SafeString(dependentIds[index]), SafeString(dependencyIds[index]));
      assert edge == PlainEdge(dependents[index], dependencies[index]);
      OneMorePair(graph.edges, dependents, dependencies, index);
      OneMoreKnown(graph.nodes.Keys, dependents, dependencies, index);
      var stored := graph.UpsertEdge(edge);
      if !stored {
        return false;
      }
    }
    assert dependents[..|dependentIds|] == dependents && dependencies[..|dependentIds|] == dependencies;
    ok := true;
  }

  lemma OneMoreKnown(ids: set<string>, dependents: seq<string>, dependencies: seq<string>, index: nat)
    requires |dependents| == |dependencies| && index < |dependents|
    requires AreKnownPairs(ids, dependents[..index], dependencies[..index])
    ensures AreKnownPairs(ids, dependents[..index + 1], dependencies[..index + 1])
      <==> IsKnownPair(ids, dependents[index], dependencies[index])
    ensures AreKnownPairs(ids, dependents, dependencies) ==> IsKnownPair(ids, dependents[index], dependencies[index])
  {
    var longer, longer' := dependents[..index + 1], dependencies[..index + 1];
    assert longer[index] == dependents[index] && longer'[index] == dependencies[index];
    assert forall k :: 0 <= k < index ==> longer[k] == dependents[..index][k] && longer'[k] == dependencies[..index][k];
  }

  lemma OneMorePair(edges: set<Edge>, dependents: seq<string>, dependencies: seq<string>, index: nat)
    requires |dependents| == |dependencies| && index < |dependents|
    requires HoldsPairs(edges, dependents[..index], dependencies[..index])
    ensures HoldsPairs(edges + {PlainEdge(dependents[index], dependencies[index])},
                       dependents[..index + 1], dependencies[..index + 1])
  {
    var added := PlainEdge(dependents[index], dependencies[index]);
    var shorter, shorter' := dependents[..index], dependencies[..index];
    var longer, longer' := dependents[..index + 1], dependencies[..index + 1];
    assert longer[index] == dependents[index] && longer'[index] == dependencies[index];
    assert forall k :: 0 <= k < index ==> longer[k] == shorter[k] && longer'[k] == shorter'[k];
    forall e ensures e in edges + {added} <==>
      exists k :: 0 <= k < index + 1 && e == PlainEdge(longer[k], longer'[k])
    {
      if e in edges {
        var k :| 0 <= k < index && e == PlainEdge(shorter[k], shorter'[k]);
        assert e == PlainEdge(longer[k], longer'[k]);
      } else if e == added {
        assert e == PlainEdge(longer[index], longer'[index]);
      } else {
        assert forall k :: 0 <= k < index ==> e != PlainEdge(shorter[k], shorter'[k]);
      }
    }
  }

  /** The ids in the order the index buffer puts them. */
  ghost function Listed(ids: seq<string>, indices: seq<nat>): seq<string>
    requires forall k :: 0 <= k < |indices| ==> indices[k] < |ids|
  {
    seq(|indices|, k requires 0 <= k < |indices| => ids[indices[k]])
  }

  /** Indices are a permutation of 0..|ids| that lists the ids in the least valid dependency order. */
  ghost predicate IsOrdering(ids: seq<string>, deps: Dependencies, indices: seq<nat>) {
    && |indices| == |ids| && Distinct(indices)
    && (forall k :: 0 <= k < |indices| ==> indices[k] < |ids|)
    && IsTopologicalOrder(deps, Listed(ids, indices))
    && IsLeastOrder(deps, Listed(ids, indices))
  }

  /** What the entry point answers once its pointers are good. */
  ghost predicate IsAnswer(ids: seq<string>, dependents: seq<string>, dependencies: seq<string>,
                           code: int, indices: seq<nat>)
    requires |dependents| == |dependencies|
  {
    var deps := RequestedDependencies(ids, dependents, dependencies);
    if !IsWellFormedRequest(ids, dependents, dependencies) then code == 4
    else if HasCycle(deps) then code == 3
    else code == 0 && IsOrdering(ids, deps, indices)
  }

  method DependencyOrderIndices(nodeIds: Option<seq<CString>>, nodeCount: nat,
                                dependentIds: Option<seq<CString>>, dependencyIds: Option<seq<CString>>,
                                dependencyCount: nat, outIndices: array?<nat>, outCapacity: nat)
      returns (code: int)
    requires nodeIds.Some? ==> |nodeIds.value| == nodeCount
    requires dependentIds.Some? ==> |dependentIds.value| == dependencyCount
    requires dependencyIds.Some? ==> |dependencyIds.value| == dependencyCount
    requires outIndices != null ==> outIndices.Length >= outCapacity
    modifies outIndices
    ensures nodeCount == 0 ==> code == 0
    ensures nodeCount > 0 ==> (code == 1 <==>
      nodeIds.None? || outIndices == null || outCapacity < nodeCount
      || (dependencyCount > 0 && (dependentIds.None? || dependencyIds.None?)))
    ensures nodeCount > 0 && code != 1 ==>
      IsAnswer(Strings(nodeIds.value), Pointed(dependentIds, dependencyCount), Pointed(dependencyIds, dependencyCount),
               code, outIndices[..nodeCount])
    ensures outIndices != null && (code != 0 || nodeCount == 0) ==> outIndices[..] == old(outIndices[..])
    ensures outIndices != null && nodeCount <= outIndices.Length ==> outIndices[nodeCount..] == old(outIndices[nodeCount..])
  {
    if nodeCount == 0 {
      return 0;
    }
    if nodeIds.None? || outIndices == null || outCapacity < nodeCount {
      return 1;
    }
    if dependencyCount > 0 && (dependentIds.None? || dependencyIds.None?) {
      return 1;
    }
    var dependents := if dependencyCount == 0 then [] else dependentIds.value;
    var dependencies := if dependencyCount == 0 then [] else dependencyIds.value;
    code := OrderRequest(nodeIds.value, dependents, dependencies, outIndices);
  }

  /** The strings behind a pointer that may be null when there are none. */
  ghost function Pointed(values: Option<seq<CString>>, count: nat): (r: seq<string>)
    requires values.Some? ==> |values.value| == count
    ensures values.Some? || count == 0 ==> |r| == count
  {
    if values.None? || count == 0 then [] else Strings(values.value)
  }

  method OrderRequest(nodeIds: seq<CString>, dependentIds: seq<CString>, dependencyIds: seq<CString>,
                      outIndices: array<nat>)
      returns (code: int)
    requires |dependentIds| == |dependencyIds| && |nodeIds| <= outIndices.Length
    modifies outIndices
    ensures code != 1
    ensures IsAnswer(Strings(nodeIds), Strings(dependentIds), Strings(dependencyIds), code, outIndices[..|nodeIds|])
    ensures code != 0 ==> outIndices[..] == old(outIndices[..])
    ensures outIndices[|nodeIds|..] == old(outIndices[|nodeIds|..])
  {
    ghost var ids, dependents, dependencies := Strings(nodeIds), Strings(dependentIds), Strings(dependencyIds);
    var graph := new ClusterGraph();
    var loaded, indexById := LoadNodes(graph, nodeIds);
    if !loaded {
      return 4;
    }
    loaded := LoadPairs(graph, dependentIds, dependencyIds);
    if !loaded {
      return 4;
    }
    ghost var deps := RequestedDependencies(ids, dependents, dependencies);
    GraphMatches(graph, ids, dependents, dependencies);
    var result := graph.DependencyOrder();
    if result.None? {
      return 3;
    }
    WriteIndices(ids, result.value, indexById, outIndices);
    code := 0;
  }

  lemma GraphMatches(graph: ClusterGraph, ids: seq<string>, dependents: seq<string>, dependencies: seq<string>)
    requires graph.Valid() && graph.nodes.Keys == Elements(ids)
    requires |dependents| == |dependencies| && HoldsPairs(graph.edges, dependents, dependencies)
    ensures graph.Dependencies() == RequestedDependencies(ids, dependents, dependencies)
    ensures graph.NoParallelDependencies()
  {
    var deps := RequestedDependencies(ids, dependents, dependencies);
    forall n | n in graph.nodes
      ensures NoParallelDependency(graph.adjacency[n]) && DependencyTargets(graph.adjacency[n]) == deps[n]
    {
      PlainGraph(graph.nodes, graph.adjacency, graph.edges, ids, dependents, dependencies, n);
    }
    assert graph.Dependencies().Keys == deps.Keys;
  }

  /** Translate the order back to positions in the caller's id list. */
  method WriteIndices(ghost ids: seq<string>, order: seq<string>, indexById: map<string, nat>, outIndices: array<nat>)
    requires IsIndexOf(ids, indexById) && Distinct(order) && Elements(order) == Elements(ids)
    requires |ids| <= outIndices.Length
    modifies outIndices
    ensures Distinct(outIndices[..|ids|]) && forall k :: 0 <= k < |ids| ==> outIndices[k] < |ids|
    ensures Listed(ids, outIndices[..|ids|]) == order
    ensures outIndices[|ids|..] == old(outIndices[|ids|..])
  {
    OrderFits(ids, order);
    for index := 0 to |order|
      invariant forall k :: 0 <= k < index ==> outIndices[k] < |ids| && ids[outIndices[k]] == order[k]
      invariant outIndices[|order|..] == old(outIndices[|order|..])
    {
      assert order[index] in Elements(order);
      outIndices[index] := indexById[order[index]];
    }
    ListedIsOrder(ids, order, outIndices[..|ids|]);
  }

  lemma OrderFits(ids: seq<string>, order: seq<string>)
    requires Distinct(ids) && Distinct(order) && Elements(order) == Elements(ids)
    ensures |order| == |ids|
  {
    DistinctCardinality(ids);
    DistinctCardinality(order);
  }

  lemma ListedIsOrder(ids: seq<string>, order: seq<string>, indices: seq<nat>)
    requires Distinct(order) && |indices| == |order|
    requires forall k :: 0 <= k < |indices| ==> indices[k] < |ids| && ids[indices[k]] == order[k]
    ensures Listed(ids, indices) == order && Distinct(indices)
  {
  }

  /** A C double array, key array and flag array become candidates numbered by position. */
  function Candidates(keys: seq<CString>, scores: seq<Score>, eligible: seq<int>): (s: seq<Candidate>)
    requires |keys| == |scores| == |eligible|
    ensures DistinctIndices(s) && |s| == |keys|
    ensures forall i :: 0 <= i < |s| ==> s[i].originalIndex == i && s[i].key == SafeString(keys[i])
    ensures forall i :: 0 <= i < |s| ==> s[i].score == scores[i] && (s[i].eligible <==> eligible[i] != 0)
  {
    seq(|keys|, i requires 0 <= i < |keys| => Candidate(SafeString(keys[i]), scores[i], eligible[i] != 0, i))
  }

  /** Position `a` of the arrays may come out before position `b`. */
  ghost predicate RanksBefore(keys: seq<CString>, scores: seq<Score>, eligible: seq<int>, a: nat, b: nat)
    requires a < |keys| == |scores| == |eligible| && b < |keys|
  {
    && (eligible[b] != 0 ==> eligible[a] != 0)
    && ((eligible[a] != 0) == (eligible[b] != 0) ==>
         && (scores[b].Finite? ==> scores[a].Finite? && scores[a].value <= scores[b].value)
         && (AreEqualScores(scores[a], scores[b]) ==>
              && (SafeString(keys[a]) != SafeString(keys[b]) ==> ComesBefore(SafeString(keys[a]), SafeString(keys[b])))
              && (SafeString(keys[a]) == SafeString(keys[b]) ==> a <= b)))
  }

  /** The written positions are a permutation of 0..|keys| that no pair of them is out of order in. */
  ghost predicate IsPlacement(keys: seq<CString>, scores: seq<Score>, eligible: seq<int>, indices: seq<nat>)
    requires |keys| == |scores| == |eligible|
  {
    && |indices| == |keys| && Distinct(indices)
    && (forall i :: 0 <= i < |indices| ==> indices[i] < |keys|)
    && (forall i, j :: 0 <= i < j < |indices| ==> RanksBefore(keys, scores, eligible, indices[i], indices[j]))
  }

  lemma RankingIsPlacement(keys: seq<CString>, scores: seq<Score>, eligible: seq<int>, ranked: seq<Candidate>)
    requires |keys| == |scores| == |eligible|
    requires IsRanking(Candidates(keys, scores, eligible), ranked)
    ensures IsPlacement(keys, scores, eligible, Indices(ranked))
  {
    var candidates := Candidates(keys, scores, eligible);
    InOrderIsSorted(ranked);
    DistinctRankingIsStrict(candidates, ranked);
    assert |ranked| == |multiset(ranked)| == |multiset(candidates)| == |keys|;
    forall i | 0 <= i < |ranked|
      ensures ranked[i].originalIndex < |keys| && candidates[ranked[i].originalIndex] == ranked[i]
    {
      assert ranked[i] in multiset(candidates);
      var k :| 0 <= k < |candidates| && candidates[k] == ranked[i];
    }
    forall i, j | 0 <= i < j < |ranked| ensures ranked[i].originalIndex != ranked[j].originalIndex {
      IndicesStayDistinct(candidates, ranked, i, j);
    }
    forall i, j | 0 <= i < j < |ranked|
      ensures RanksBefore(keys, scores, eligible, ranked[i].originalIndex, ranked[j].originalIndex)
    {
      assert MayStandBefore(ranked[i], ranked[j]);
    }
  }

  method RankCandidates(keys: Option<seq<CString>>, scores: Option<seq<Score>>, eligible: Option<seq<int>>,
                        count: nat, outIndices: array?<nat>, outCapacity: nat)
      returns (code: int)
    requires keys.Some? ==> |keys.value| == count
    requires scores.Some? ==> |scores.value| == count
    requires eligible.Some? ==> |eligible.value| == count
    requires outIndices != null ==> outIndices.Length >= outCapacity
    modifies outIndices
    ensures code == 1 <==> (count > 0 &&
      (keys.None? || scores.None? || eligible.None? || outIndices == null || outCapacity < count))
    ensures code == 0 || code == 1
    ensures code == 0 && count > 0 ==> exists ranked ::
      IsRanking(Candidates(keys.value, scores.value, eligible.value), ranked) && outIndices[..count] == Indices(ranked)
    ensures code == 0 && count > 0 ==> IsPlacement(keys.value, scores.value, eligible.value, outIndices[..count])
    ensures outIndices != null && (code != 0 || count == 0) ==> outIndices[..] == old(outIndices[..])
    ensures outIndices != null && count <= outIndices.Length ==> outIndices[count..] == old(outIndices[count..])
  {
    if count == 0 {
      return 0;
    }
    if keys.None? || scores.None? || eligible.None? || outIndices == null || outCapacity < count {
      return 1;
    }
    var candidates := Candidates(keys.value, scores.value, eligible.value);
    var ranked := Rank(candidates);
    ghost var s :| IsRanking(candidates, s) && ranked == Indices(s);
    RankingIsPlacement(keys.value, scores.value, eligible.value, s);
    for index := 0 to |ranked|
      invariant outIndices[..index] == ranked[..index]
      invariant outIndices[count..] == old(outIndices[count..])
    {
      outIndices[index] := ranked[index];
    }
    code := 0;
  }
}
