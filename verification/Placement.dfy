/** The placement scheduler: candidates leave a priority queue best first (engines/cpp-cluster/src/placement_scheduler.cpp). */
module Placement {
  import opened Collections
  import opened StringOrder
  import opened BinaryHeap

  /** A double, as far as the scheduler tells doubles apart. */
  datatype Score = Finite(value: real) | PositiveInfinity | NegativeInfinity | NotANumber

  datatype Candidate = Candidate(key: string, score: Score, eligible: bool, originalIndex: nat)

  /** normalized_score: whatever is not finite counts as +infinity. */
  function Normalized(score: Score): Score {
    if score.Finite? then score else PositiveInfinity
  }

  predicate ScoreBelow(a: Score, b: Score)
    requires (a.Finite? || a == PositiveInfinity) && (b.Finite? || b == PositiveInfinity)
  {
    a.Finite? && (b.Finite? ==> a.value < b.value)
  }

  /** CandidatePriority(b, a): b waits for a. */
  predicate Precedes(a: Candidate, b: Candidate) {
    if a.eligible != b.eligible then a.eligible
    else if Normalized(a.score) != Normalized(b.score) then ScoreBelow(Normalized(a.score), Normalized(b.score))
    else if a.key != b.key then Less(a.key, b.key)
    else a.originalIndex < b.originalIndex
  }

  lemma PrecedesIsStrictWeakOrder()
    ensures StrictWeakOrder(Precedes)
  {
    LessIsStrictTotalOrder();
  }

  /** Candidates of different positions are never tied. */
  lemma PrecedesIsConnected(a: Candidate, b: Candidate)
    requires a.originalIndex != b.originalIndex
    ensures Precedes(a, b) || Precedes(b, a)
  {
    LessIsStrictTotalOrder();
  }

  ghost predicate DistinctIndices(s: seq<Candidate>) {
    forall i, j :: 0 <= i < j < |s| ==> s[i].originalIndex != s[j].originalIndex
  }

  /** No candidate stands behind one it must precede. */
  ghost predicate InOrder(s: seq<Candidate>) {
    forall i, j :: 0 <= i < j < |s| ==> !Precedes(s[j], s[i])
  }

  /** The candidates again, in order. */
  ghost predicate IsRanking(candidates: seq<Candidate>, ranked: seq<Candidate>) {
    multiset(ranked) == multiset(candidates) && InOrder(ranked)
  }

  /** Two scores between which the scheduler makes no difference. */
  predicate AreEqualScores(a: Score, b: Score) {
    (a.Finite? && b.Finite? && a.value == b.value) || (!a.Finite? && !b.Finite?)
  }

  /** `a` may stand before `b`: the eligible first, then by ascending score with anything not finite last, then by key in
      dictionary order, then by index. */
  ghost predicate MayStandBefore(a: Candidate, b: Candidate) {
    && (b.eligible ==> a.eligible)
    && (a.eligible == b.eligible ==>
         && (b.score.Finite? ==> a.score.Finite? && a.score.value <= b.score.value)
         && (AreEqualScores(a.score, b.score) ==>
              && (a.key != b.key ==> ComesBefore(a.key, b.key))
              && (a.key == b.key ==> a.originalIndex <= b.originalIndex)))
  }

  /** The comparator says just that. */
  lemma ComparatorOrders(a: Candidate, b: Candidate)
    ensures !Precedes(b, a) <==> MayStandBefore(a, b)
  {
    LessIsDictionaryOrder(a.key, b.key);
    LessIsDictionaryOrder(b.key, a.key);
    LessIsStrictTotalOrder();
  }

  function Indices(s: seq<Candidate>): seq<nat> {
    seq(|s|, i requires 0 <= i < |s| => s[i].originalIndex)
  }

  ghost predicate IsSorted(s: seq<Candidate>) {
    forall i, j :: 0 <= i < j < |s| ==> MayStandBefore(s[i], s[j])
  }

  lemma InOrderIsSorted(s: seq<Candidate>)
    ensures InOrder(s) <==> IsSorted(s)
  {
    forall i, j | 0 <= i < j < |s| ensures !Precedes(s[j], s[i]) <==> MayStandBefore(s[i], s[j]) {
      ComparatorOrders(s[i], s[j]);
    }
  }

  // ----- Uniqueness -----

  /** The comparator sees a candidate only up to its normalised score. */
  function NormalForm(c: Candidate): Candidate {
    c.(score := Normalized(c.score))
  }

  function NormalForms(s: seq<Candidate>): seq<Candidate> {
    seq(|s|, i requires 0 <= i < |s| => NormalForm(s[i]))
  }

  lemma TakeOneOut(s: seq<Candidate>, j: nat)
    requires j < |s|
    ensures multiset(s) == multiset(s[..j] + s[j + 1..]) + multiset{s[j]}
    ensures multiset(NormalForms(s)) == multiset(NormalForms(s[..j] + s[j + 1..])) + multiset{NormalForm(s[j])}
  {
    assert s == s[..j] + [s[j]] + s[j + 1..];
    var forms := NormalForms(s);
    assert forms == forms[..j] + [forms[j]] + forms[j + 1..];
    assert NormalForms(s[..j] + s[j + 1..]) == forms[..j] + forms[j + 1..];
  }

  lemma {:induction false} NormalFormsPermute(a: seq<Candidate>, b: seq<Candidate>)
    requires multiset(a) == multiset(b)
    ensures multiset(NormalForms(a)) == multiset(NormalForms(b))
    decreases |a|
  {
    if a == [] {
      assert |b| == |multiset(b)| == 0;
    } else {
      assert a[0] in multiset(b);
      var j :| 0 <= j < |b| && b[j] == a[0];
      TakeOneOut(a, 0);
      TakeOneOut(b, j);
      var a', b' := a[..0] + a[1..], b[..j] + b[j + 1..];
      assert multiset(a') == multiset(a) - multiset{a[0]} && multiset(b') == multiset(b) - multiset{a[0]};
      NormalFormsPermute(a', b');
    }
  }

  /** Two arrangements of the same normal forms that both respect Precedes are one. */
  lemma {:induction false} NormalRankingIsUnique(a: seq<Candidate>, b: seq<Candidate>)
    requires multiset(a) == multiset(b) && InOrder(a) && InOrder(b)
    requires forall i :: 0 <= i < |a| ==> a[i] == NormalForm(a[i])
    requires forall i :: 0 <= i < |b| ==> b[i] == NormalForm(b[i])
    ensures a == b
    decreases |a|
  {
    assert |a| == |multiset(a)| == |multiset(b)| == |b|;
    if a != [] {
      assert a[0] in multiset(b) && b[0] in multiset(a);
      FirstIsForced(a, b);
      TailInOrder(a);
      TailInOrder(b);
      NormalRankingIsUnique(a[1..], b[1..]);
    }
  }

  lemma TailInOrder(s: seq<Candidate>)
    requires s != [] && InOrder(s)
    ensures s == [s[0]] + s[1..] && InOrder(s[1..])
    ensures multiset(s[1..]) == multiset(s) - multiset{s[0]}
  {
    assert s == [s[0]] + s[1..];
  }

  lemma FirstIsForced(a: seq<Candidate>, b: seq<Candidate>)
    requires a != [] && b != [] && a[0] in b && b[0] in a
    requires InOrder(a) && InOrder(b)
    requires a[0] == NormalForm(a[0]) && b[0] == NormalForm(b[0])
    ensures a[0] == b[0]
  {
    LessIsStrictTotalOrder();
  }

  /** The candidates alone determine the indices a ranking gives, tied candidates included. */
  lemma RankingIsUnique(candidates: seq<Candidate>, a: seq<Candidate>, b: seq<Candidate>)
    requires IsRanking(candidates, a) && IsRanking(candidates, b)
    ensures Indices(a) == Indices(b)
  {
    NormalFormsPermute(a, b);
    NormalRankingIsUnique(NormalForms(a), NormalForms(b));
    assert Indices(a) == Indices(NormalForms(a));
    assert Indices(b) == Indices(NormalForms(b));
  }

  /** With distinct indices, as the C API assigns them, there are no ties: the ranking is strict. */
  lemma DistinctRankingIsStrict(candidates: seq<Candidate>, ranked: seq<Candidate>)
    requires DistinctIndices(candidates) && IsRanking(candidates, ranked)
    ensures forall i, j :: 0 <= i < j < |ranked| ==> Precedes(ranked[i], ranked[j])
  {
    forall i, j | 0 <= i < j < |ranked| ensures Precedes(ranked[i], ranked[j]) {
      IndicesStayDistinct(candidates, ranked, i, j);
      PrecedesIsConnected(ranked[i], ranked[j]);
    }
  }

  /** A permutation of candidates with distinct indices has distinct indices. */
  lemma IndicesStayDistinct(candidates: seq<Candidate>, ranked: seq<Candidate>, i: nat, j: nat)
    requires DistinctIndices(candidates) && multiset(ranked) == multiset(candidates)
    requires i < j < |ranked|
    ensures ranked[i].originalIndex != ranked[j].originalIndex
  {
    var a, b := ranked[i], ranked[j];
    assert a in multiset(candidates) && b in multiset(candidates);
    if a == b {
      CountsTwice(ranked, i, j);
      AtMostOnce(candidates, a);
      assert false;
    }
  }

  lemma CountsTwice(s: seq<Candidate>, i: nat, j: nat)
    requires i < j < |s| && s[i] == s[j]
    ensures multiset(s)[s[i]] >= 2
  {
    assert s == s[..j] + s[j..];
    assert s[..j][i] in s[..j] && s[j..][0] in s[j..];
  }

  lemma {:induction false} AtMostOnce(candidates: seq<Candidate>, a: Candidate)
    requires DistinctIndices(candidates)
    ensures multiset(candidates)[a] <= 1
  {
    if candidates != [] {
      var front, last := candidates[..|candidates| - 1], candidates[|candidates| - 1];
      assert candidates == front + [last];
      AtMostOnce(front, a);
      forall k | 0 <= k < |front| ensures front[k] != last {
        assert candidates[k].originalIndex != candidates[|candidates| - 1].originalIndex;
      }
    }
  }

  // ----- The queue -----

  /** rank_placement_candidates. */
  method Rank(candidates: seq<Candidate>) returns (ranked: seq<nat>)
    ensures exists s :: IsRanking(candidates, s) && ranked == Indices(s) && IsSorted(s)
  {
    PrecedesIsStrictWeakOrder();
    var queue := new Heap(Precedes);
    for i := 0 to |candidates|
      invariant fresh(queue) && queue.Valid() && queue.before == Precedes
      invariant multiset(queue.buffer) == multiset(candidates[..i])
    {
      assert candidates[..i + 1] == candidates[..i] + [candidates[i]];
      queue.Push(candidates[i]);
    }
    assert candidates[..|candidates|] == candidates;
    ghost var s;
    ranked, s := PopAll(queue);
    InOrderIsSorted(s);
  }

  method PopAll(queue: Heap<Candidate>) returns (ranked: seq<nat>, ghost popped: seq<Candidate>)
    requires queue.Valid() && queue.before == Precedes
    modifies queue
    ensures IsRanking(old(queue.buffer), popped) && ranked == Indices(popped)
  {
    ranked, popped := [], [];
    while queue.buffer != []
      invariant queue.Valid()
      invariant multiset(popped) + multiset(queue.buffer) == multiset(old(queue.buffer))
      invariant ranked == Indices(popped)
      invariant InOrder(popped)
      invariant forall i, y :: 0 <= i < |popped| && y in queue.buffer ==> !Precedes(y, popped[i])
      decreases |queue.buffer|
    {
      ghost var before := queue.buffer;
      var top := queue.Pop();
      SmallerQueue(before, queue.buffer, top);
      popped := popped + [top];
      ranked := ranked + [top.originalIndex];
    }
  }

  lemma SmallerQueue(before: seq<Candidate>, after: seq<Candidate>, top: Candidate)
    requires multiset(after) == multiset(before) - multiset{top} && top in before
    ensures |after| < |before|
    ensures forall y :: y in after ==> y in before
  {
    assert |multiset(after)| == |after| && |multiset(before)| == |before|;
    forall y | y in after ensures y in before {
      assert y in multiset(after);
    }
  }
}
