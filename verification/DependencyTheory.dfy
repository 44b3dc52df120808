/** Dependency relations: walks, cycles, topological orders, and the least of them.
    `deps[n]` is the set of nodes that n depends on directly. */
module DependencyTheory {
  import opened Collections
  import opened StringOrder

  type Dependencies = map<string, set<string>>

  ghost predicate Closed(deps: Dependencies) {
    forall n :: n in deps ==> deps[n] <= deps.Keys
  }

  ghost predicate IsWalk(deps: Dependencies, p: seq<string>) {
    && p != []
    && (forall i :: 0 <= i < |p| ==> p[i] in deps)
    && (forall i :: 0 <= i < |p| - 1 ==> p[i + 1] in deps[p[i]])
  }

  ghost predicate IsCycle(deps: Dependencies, p: seq<string>) {
    IsWalk(deps, p) && |p| >= 2 && p[0] == p[|p| - 1]
  }

  ghost predicate HasCycle(deps: Dependencies) {
    exists p :: IsCycle(deps, p)
  }

  /** All nodes, once each, every node after all it depends on. */
  ghost predicate IsTopologicalOrder(deps: Dependencies, order: seq<string>) {
    && Distinct(order)
    && Elements(order) == deps.Keys
    && (forall k :: 0 <= k < |order| ==> deps[order[k]] <= Elements(order[..k]))
  }

  /** The first of two lists of names, by the first name in which they differ. */
  ghost predicate LexLess(a: seq<string>, b: seq<string>) {
    exists k :: 0 <= k < |a| && k < |b| && a[..k] == b[..k] && ComesBefore(a[k], b[k])
  }

  ghost predicate IsReady(deps: Dependencies, done: set<string>, n: string) {
    n in deps && n !in done && deps[n] <= done
  }

  /** n is the least of the usable nodes that are ready once `done` is. */
  ghost predicate IsNext(deps: Dependencies, usable: set<string>, done: set<string>, n: string) {
    && n in usable && IsReady(deps, done, n)
    && forall m :: m in usable && IsReady(deps, done, m) ==> !Less(m, n)
  }

  ghost predicate IsGreedy(deps: Dependencies, usable: set<string>, order: seq<string>) {
    forall k :: 0 <= k < |order| ==> IsNext(deps, usable, Elements(order[..k]), order[k])
  }

  lemma GreedyIsDistinct(deps: Dependencies, usable: set<string>, order: seq<string>)
    requires IsGreedy(deps, usable, order)
    ensures Distinct(order)
  {
    forall i, j | 0 <= i < j < |order| ensures order[i] != order[j] {
      assert order[..j][i] in Elements(order[..j]);
      assert IsNext(deps, usable, Elements(order[..j]), order[j]);
    }
  }

  lemma GreedyExtends(deps: Dependencies, usable: set<string>, order: seq<string>, n: string)
    requires IsGreedy(deps, usable, order) && IsNext(deps, usable, Elements(order), n)
    ensures IsGreedy(deps, usable, order + [n])
    ensures Elements(order + [n]) == Elements(order) + {n}
  {
    var longer := order + [n];
    forall k | 0 <= k < |longer| ensures IsNext(deps, usable, Elements(longer[..k]), longer[k]) {
      assert longer[..k] == order[..k];
      assert order[..|order|] == order;
    }
  }

  lemma GreedyIsLeast(deps: Dependencies, order: seq<string>, other: seq<string>)
    requires IsGreedy(deps, deps.Keys, order)
    requires IsTopologicalOrder(deps, order) && IsTopologicalOrder(deps, other)
    ensures other == order || LexLess(order, other)
  {
    DistinctCardinality(order);
    DistinctCardinality(other);
    var k := FirstDifference(order, other, 0);
    if k < |order| {
      DifferenceIsLess(deps, order, other, k);
    } else {
      assert order == order[..k] && other == other[..k];
    }
  }

  lemma FirstDifference(order: seq<string>, other: seq<string>, k: nat) returns (d: nat)
    requires k <= |order| == |other| && order[..k] == other[..k]
    ensures d <= |order| && order[..d] == other[..d]
    ensures d < |order| ==> order[d] != other[d]
    decreases |order| - k
  {
    d := k;
    if k < |order| && order[k] == other[k] {
      assert order[..k + 1] == order[..k] + [order[k]] && other[..k + 1] == other[..k] + [other[k]];
      d := FirstDifference(order, other, k + 1);
    }
  }

  lemma DifferenceIsLess(deps: Dependencies, order: seq<string>, other: seq<string>, k: nat)
    requires IsGreedy(deps, deps.Keys, order) && IsTopologicalOrder(deps, other)
    requires k < |order| && k < |other| && order[..k] == other[..k] && order[k] != other[k]
    ensures LexLess(order, other)
  {
    var done := Elements(order[..k]);
    assert IsNext(deps, deps.Keys, done, order[k]);
    assert other[k] in Elements(other);
    assert IsReady(deps, done, other[k]);
    LessIsConnected(order[k], other[k]);
    LessIsDictionaryOrder(order[k], other[k]);
  }

  lemma OrderExcludesCycles(deps: Dependencies, order: seq<string>)
    requires IsTopologicalOrder(deps, order)
    ensures !HasCycle(deps)
  {
    forall p | IsCycle(deps, p) ensures false {
      assert p[0] in Elements(order);
      var k :| 0 <= k < |order| && order[k] == p[0];
      var j := WalkDescends(deps, order, p, |p| - 1, k);
    }
  }

  /** Each step of a walk goes strictly to the left in a topological order. */
  lemma {:induction false} WalkDescends(deps: Dependencies, order: seq<string>, p: seq<string>, i: nat, start: nat)
      returns (k: nat)
    requires IsTopologicalOrder(deps, order) && IsWalk(deps, p) && i < |p|
    requires start < |order| && order[start] == p[0]
    ensures k < |order| && order[k] == p[i] && k + i <= start
  {
    if i == 0 {
      k := start;
    } else {
      var j := WalkDescends(deps, order, p, i - 1, start);
      assert p[i - 1 + 1] in Elements(order[..j]);
      k :| 0 <= k < j && order[k] == p[i];
    }
  }

  /** Nodes that each depend on another of the same set lie on a cycle. */
  lemma StuckImpliesCycle(deps: Dependencies, stuck: set<string>)
    requires stuck != {} && stuck <= deps.Keys
    requires forall n :: n in stuck ==> deps[n] * stuck != {}
    ensures HasCycle(deps)
  {
    var start :| start in stuck;
    var p := WalkInside(deps, stuck, start, |stuck| + 1);
    Pigeonhole(p, stuck);
    var i, j :| 0 <= i < j < |p| && p[i] == p[j];
    assert IsCycle(deps, p[i..j + 1]);
  }

  lemma {:induction false} WalkInside(deps: Dependencies, stuck: set<string>, start: string, length: nat)
      returns (p: seq<string>)
    requires start in stuck && stuck <= deps.Keys && length > 0
    requires forall n :: n in stuck ==> deps[n] * stuck != {}
    ensures |p| == length && p[0] == start && IsWalk(deps, p) && Elements(p) <= stuck
    decreases length
  {
    if length == 1 {
      p := [start];
    } else {
      var next :| next in deps[start] * stuck;
      var rest := WalkInside(deps, stuck, next, length - 1);
      p := [start] + rest;
    }
  }
}
