/** Facts about finite sets, sequences and numbers that several components share. */
module Collections {

  datatype Option<+T> = None | Some(value: T)

  function Elements<T>(s: seq<T>): set<T> {
    set x | x in s
  }

  ghost predicate Distinct<T>(s: seq<T>) {
    forall i, j :: 0 <= i < j < |s| ==> s[i] != s[j]
  }

  /** Distinct, said by counting: the form that grows with a sequence. NoRepeatsIsDistinct and DistinctCardinality are
      the two directions. */
  ghost predicate NoRepeats<T>(s: seq<T>) {
    |Elements(s)| == |s|
  }

  lemma ElementsOfLast<T>(s: seq<T>)
    requires s != []
    ensures Elements(s) == Elements(s[..|s| - 1]) + {s[|s| - 1]}
  {
    assert s == s[..|s| - 1] + [s[|s| - 1]];
  }

  lemma {:induction false} ElementsCardinality<T>(s: seq<T>)
    ensures |Elements(s)| <= |s|
  {
    if s != [] {
      ElementsOfLast(s);
      ElementsCardinality(s[..|s| - 1]);
    }
  }

  lemma NoRepeatsOfLast<T>(s: seq<T>)
    requires s != []
    ensures NoRepeats(s) <==> NoRepeats(s[..|s| - 1]) && s[|s| - 1] !in s[..|s| - 1]
  {
    ElementsOfLast(s);
    ElementsCardinality(s[..|s| - 1]);
  }

  lemma NoRepeatsAppend<T>(s: seq<T>, x: T)
    ensures Elements(s + [x]) == Elements(s) + {x}
    ensures NoRepeats(s + [x]) <==> NoRepeats(s) && x !in s
  {
    assert (s + [x])[..|s|] == s;
    ElementsOfLast(s + [x]);
    NoRepeatsOfLast(s + [x]);
  }

  lemma {:induction false} DistinctCardinality<T>(s: seq<T>)
    requires Distinct(s)
    ensures NoRepeats(s)
  {
    if s != [] {
      DistinctCardinality(s[..|s| - 1]);
      NoRepeatsOfLast(s);
    }
  }

  lemma {:induction false} SubsetCardinality<T>(a: set<T>, b: set<T>)
    requires a <= b
    ensures |a| <= |b|
    ensures |a| == |b| ==> a == b
  {
    if a != {} {
      var x :| x in a;
      SubsetCardinality(a - {x}, b - {x});
    }
  }

  lemma {:induction false} NoRepeatsIsDistinct<T>(s: seq<T>)
    requires NoRepeats(s)
    ensures Distinct(s)
  {
    if s != [] {
      NoRepeatsOfLast(s);
      NoRepeatsIsDistinct(s[..|s| - 1]);
      forall i, j | 0 <= i < j < |s| ensures s[i] != s[j] {
        assert s[i] == s[..|s| - 1][i];
      }
    }
  }

  /** A sequence longer than the set it draws from repeats an element. */
  lemma Pigeonhole<T>(s: seq<T>, bound: set<T>)
    requires Elements(s) <= bound && |s| > |bound|
    ensures exists i, j :: 0 <= i < j < |s| && s[i] == s[j]
  {
    if Distinct(s) {
      DistinctCardinality(s);
      SubsetCardinality(Elements(s), bound);
    }
  }

  ghost function Below(n: nat): (r: set<nat>)
    ensures forall i: nat :: i in r <==> i < n
  {
    if n == 0 then {} else Below(n - 1) + {n - 1}
  }

  lemma {:induction false} BelowCardinality(n: nat)
    ensures |Below(n)| == n
  {
    if n > 0 {
      BelowCardinality(n - 1);
    }
  }

  function PowerOfTwo(n: nat): (r: nat)
    ensures r > 0
  {
    if n == 0 then 1 else 2 * PowerOfTwo(n - 1)
  }
}
