/** A binary heap over a growable buffer: what std::priority_queue keeps under a comparator.
    `before(x, y)` says that x must leave the queue ahead of y. */
module BinaryHeap {

  /** What the comparator must be: asymmetric, with "not before" transitive. */
  ghost predicate StrictWeakOrder<T(!new)>(before: (T, T) -> bool) {
    && (forall x, y :: before(x, y) ==> !before(y, x))
    && (forall x, y, z :: !before(x, y) && !before(y, z) ==> !before(x, z))
  }

  predicate IsChild(parent: int, child: int) {
    child == 2 * parent + 1 || child == 2 * parent + 2
  }

  ghost predicate IsHeap<T>(before: (T, T) -> bool, a: seq<T>) {
    forall p, c :: 0 <= p < c < |a| && IsChild(p, c) ==> !before(a[c], a[p])
  }

  /** A heap but for the element at i, which may belong above its parent. */
  ghost predicate HeapExceptAbove<T>(before: (T, T) -> bool, a: seq<T>, i: int) {
    && (forall p, c :: 0 <= p < c < |a| && IsChild(p, c) && c != i ==> !before(a[c], a[p]))
    && (forall p, c :: 0 <= p < i < c < |a| && IsChild(p, i) && IsChild(i, c) ==> !before(a[c], a[p]))
  }

  /** A heap but for the element at i, which may belong below its children. */
  ghost predicate HeapExceptBelow<T>(before: (T, T) -> bool, a: seq<T>, i: int) {
    && (forall p, c :: 0 <= p < c < |a| && IsChild(p, c) && p != i ==> !before(a[c], a[p]))
    && (forall p, c :: 0 <= p < i < c < |a| && IsChild(p, i) && IsChild(i, c) ==> !before(a[c], a[p]))
  }

  function Swap<T>(a: seq<T>, i: nat, j: nat): (b: seq<T>)
    requires i < |a| && j < |a|
    ensures |b| == |a| && b[i] == a[j] && b[j] == a[i]
    ensures multiset(b) == multiset(a)
  {
    a[i := a[j]][j := a[i]]
  }

  /** The root of a heap: nothing in the buffer must leave before it. */
  lemma {:induction false} RootIsFirst<T(!new)>(before: (T, T) -> bool, a: seq<T>, i: nat)
    requires StrictWeakOrder(before) && IsHeap(before, a) && i < |a|
    ensures !before(a[i], a[0])
  {
    if i > 0 {
      assert IsChild((i - 1) / 2, i);
      RootIsFirst(before, a, (i - 1) / 2);
    }
  }

  lemma SwapUp<T(!new)>(before: (T, T) -> bool, a: seq<T>, p: int, i: int)
    requires StrictWeakOrder(before)
    requires 0 <= p < i < |a| && IsChild(p, i) && before(a[i], a[p])
    requires HeapExceptAbove(before, a, i)
    ensures HeapExceptAbove(before, Swap(a, i, p), p)
  {
    var b := Swap(a, i, p);
    forall q, c | 0 <= q < c < |b| && IsChild(q, c) && c != p ensures !before(b[c], b[q]) {
      if q == p {
        assert c != i ==> !before(a[c], a[p]);
      }
    }
    forall q, c | 0 <= q < p < c < |b| && IsChild(q, p) && IsChild(p, c) ensures !before(b[c], b[q]) {
      assert !before(a[p], a[q]);
      assert c != i ==> !before(a[c], a[p]);
    }
  }

  lemma SwapDown<T(!new)>(before: (T, T) -> bool, a: seq<T>, i: int, child: int)
    requires StrictWeakOrder(before)
    requires 0 <= i < child < |a| && IsChild(i, child) && before(a[child], a[i])
    requires forall c :: i < c < |a| && IsChild(i, c) ==> !before(a[c], a[child])
    requires HeapExceptBelow(before, a, i)
    ensures HeapExceptBelow(before, Swap(a, i, child), child)
  {
    var b := Swap(a, i, child);
    forall q, c | 0 <= q < c < |b| && IsChild(q, c) && q != child ensures !before(b[c], b[q]) {
      if q == i {
      } else if c == i {
        assert IsChild(q, i) && IsChild(i, child);
      }
    }
  }

  /** The child of i that leaves first. */
  function FirstChild<T(!new)>(before: (T, T) -> bool, a: seq<T>, i: int): (child: int)
    requires 0 <= i && 2 * i + 1 < |a|
    requires forall x, y :: before(x, y) ==> !before(y, x)
    ensures i < child < |a| && IsChild(i, child)
    ensures forall c :: i < c < |a| && IsChild(i, c) ==> !before(a[c], a[child])
  {
    var left := 2 * i + 1;
    if left + 1 < |a| && before(a[left + 1], a[left]) then left + 1 else left
  }

  lemma SettledBelow<T(!new)>(before: (T, T) -> bool, a: seq<T>, i: int)
    requires StrictWeakOrder(before) && 0 <= i && HeapExceptBelow(before, a, i)
    requires 2 * i + 1 < |a| ==> !before(a[FirstChild(before, a, i)], a[i])
    ensures IsHeap(before, a)
  {
    forall p, c | 0 <= p < c < |a| && IsChild(p, c) ensures !before(a[c], a[p]) {
      if p == i {
        assert !before(a[c], a[FirstChild(before, a, i)]);
      }
    }
  }

  class Heap<T(!new)> {
    const before: (T, T) -> bool
    var buffer: seq<T>

    ghost predicate Valid()
      reads this
    {
      StrictWeakOrder(before) && IsHeap(before, buffer)
    }

    constructor (before: (T, T) -> bool)
      requires StrictWeakOrder(before)
      ensures Valid() && this.before == before && buffer == []
    {
      this.before := before;
      buffer := [];
    }

    method Push(x: T)
      requires Valid()
      modifies this
      ensures Valid() && multiset(buffer) == multiset(old(buffer)) + multiset{x}
    {
      buffer := buffer + [x];
      var i := |buffer| - 1;
      while i > 0 && before(buffer[i], buffer[(i - 1) / 2])
        invariant 0 <= i < |buffer|
        invariant HeapExceptAbove(before, buffer, i)
        invariant multiset(buffer) == multiset(old(buffer)) + multiset{x}
      {
        var parent := (i - 1) / 2;
        assert IsChild(parent, i);
        SwapUp(before, buffer, parent, i);
        buffer := Swap(buffer, i, parent);
        i := parent;
      }
    }

    method Pop() returns (top: T)
      requires Valid() && buffer != []
      modifies this
      ensures Valid() && multiset(buffer) == multiset(old(buffer)) - multiset{top}
      ensures top in old(buffer) && forall y :: y in old(buffer) ==> !before(y, top)
    {
      top := buffer[0];
      forall y | y in buffer ensures !before(y, top) {
        var i :| 0 <= i < |buffer| && buffer[i] == y;
        RootIsFirst(before, buffer, i);
      }
      var last := |buffer| - 1;
      buffer := Swap(buffer, 0, last);
      assert buffer == buffer[..last] + [top];
      buffer := buffer[..last];
      SiftDown();
    }

    method SiftDown()
      requires StrictWeakOrder(before) && HeapExceptBelow(before, buffer, 0)
      modifies this
      ensures Valid() && multiset(buffer) == multiset(old(buffer))
    {
      var i := 0;
      while 2 * i + 1 < |buffer| && before(buffer[FirstChild(before, buffer, i)], buffer[i])
        invariant 0 <= i
        invariant HeapExceptBelow(before, buffer, i)
        invariant multiset(buffer) == multiset(old(buffer))
        decreases |buffer| - i
      {
        var child := FirstChild(before, buffer, i);
        SwapDown(before, buffer, i, child);
        buffer := Swap(buffer, i, child);
        i := child;
      }
      SettledBelow(before, buffer, i);
    }
  }
}
