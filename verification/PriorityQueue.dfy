/** The heap behind std::priority_queue, over an order that its caller may change while an
    element is out of the queue. */
module PriorityQueue {
  import opened RowOrder

  function Parent(i: nat): nat
    requires i > 0
  {
    (i - 1) / 2
  }

  /** Element `i` does not come before its parent. */
  ghost predicate Edge<I>(order: (I, I) -> int, heap: seq<I>, i: nat)
    requires 0 < i < |heap|
  {
    order(heap[Parent(i)], heap[i]) <= 0
  }

  /** Element `i` does not come before its grandparent. */
  ghost predicate LongEdge<I>(order: (I, I) -> int, heap: seq<I>, i: nat)
    requires 0 < i < |heap| && Parent(i) > 0
  {
    order(heap[Parent(Parent(i))], heap[i]) <= 0
  }

  ghost predicate HeapOrdered<I>(order: (I, I) -> int, heap: seq<I>) {
    forall i :: 0 < i < |heap| ==> Edge(order, heap, i)
  }

  ghost predicate LongEdgesOver<I>(order: (I, I) -> int, heap: seq<I>, hole: nat) {
    hole > 0 ==> forall i :: 0 < i < |heap| && Parent(i) == hole ==> LongEdge(order, heap, i)
  }

  /** Heap order, except that the element at `hole` may come before its ancestors. */
  ghost predicate AlmostUp<I>(order: (I, I) -> int, heap: seq<I>, hole: nat) {
    && (forall i :: 0 < i < |heap| && i != hole ==> Edge(order, heap, i))
    && LongEdgesOver(order, heap, hole)
  }

  /** Heap order, except that the element at `hole` may come after its descendants. */
  ghost predicate AlmostDown<I>(order: (I, I) -> int, heap: seq<I>, hole: nat) {
    && (forall i :: 0 < i < |heap| && Parent(i) != hole ==> Edge(order, heap, i))
    && LongEdgesOver(order, heap, hole)
  }

  function Swap<I>(s: seq<I>, i: nat, j: nat): (r: seq<I>)
    requires i < |s| && j < |s|
    ensures |r| == |s| && multiset(r) == multiset(s)
  {
    s[i := s[j]][j := s[i]]
  }

  // Moving an element up

  lemma EdgeAfterSwapUp<I(!new)>(order: (I, I) -> int, heap: seq<I>, i: nat, k: nat)
    requires Lawful(order) && 0 < i < |heap| && AlmostUp(order, heap, i) && !Edge(order, heap, i)
    requires 0 < k < |heap| && k != Parent(i)
    ensures Edge(order, Swap(heap, Parent(i), i), k)
  {
    var p := Parent(i);
    LawfulAt(order, heap[p], heap[i], heap[p]);
    if k != i {
      assert Edge(order, heap, k);
      if Parent(k) == p {
        LawfulAt(order, heap[i], heap[p], heap[k]);
      } else if Parent(k) == i {
        assert LongEdge(order, heap, k);
      }
    }
  }

  lemma LongEdgeAfterSwapUp<I(!new)>(order: (I, I) -> int, heap: seq<I>, i: nat, k: nat)
    requires Lawful(order) && 0 < i < |heap| && AlmostUp(order, heap, i)
    requires Parent(i) > 0 && 0 < k < |heap| && Parent(k) == Parent(i)
    ensures LongEdge(order, Swap(heap, Parent(i), i), k)
  {
    var p := Parent(i);
    assert Edge(order, heap, p);
    if k != i {
      assert Edge(order, heap, k);
      LawfulAt(order, heap[Parent(p)], heap[p], heap[k]);
    }
  }

  lemma SwapUp<I(!new)>(order: (I, I) -> int, heap: seq<I>, i: nat)
    requires Lawful(order) && 0 < i < |heap| && AlmostUp(order, heap, i) && !Edge(order, heap, i)
    ensures AlmostUp(order, Swap(heap, Parent(i), i), Parent(i))
  {
    forall k: nat | 0 < k < |heap| && k != Parent(i)
      ensures Edge(order, Swap(heap, Parent(i), i), k)
    {
      EdgeAfterSwapUp(order, heap, i, k);
    }
    forall k: nat | 0 < k < |heap| && Parent(k) == Parent(i) && Parent(i) > 0
      ensures LongEdge(order, Swap(heap, Parent(i), i), k)
    {
      LongEdgeAfterSwapUp(order, heap, i, k);
    }
  }

  lemma AppendAlmostUp<I>(order: (I, I) -> int, heap: seq<I>, x: I)
    requires HeapOrdered(order, heap)
    ensures AlmostUp(order, heap + [x], |heap|)
  {
    forall k: nat | 0 < k < |heap|
      ensures Edge(order, heap + [x], k)
    {
      assert Edge(order, heap, k);
    }
  }

  method Push<I(!new)>(order: (I, I) -> int, heap: seq<I>, x: I) returns (h: seq<I>)
    requires Lawful(order) && HeapOrdered(order, heap)
    ensures HeapOrdered(order, h)
    ensures multiset(h) == multiset(heap) + multiset{x}
  {
    AppendAlmostUp(order, heap, x);
    h := heap + [x];
    var i: nat := |heap|;
    while i > 0
      invariant i < |h|
      invariant AlmostUp(order, h, i)
      invariant multiset(h) == multiset(heap) + multiset{x}
    {
      var p := (i - 1) / 2;
      if order(h[p], h[i]) <= 0 {
        assert Edge(order, h, i);
        return;
      }
      SwapUp(order, h, i);
      h := Swap(h, p, i);
      i := p;
    }
  }

  // Moving an element down

  lemma EdgeAfterSwapDown<I(!new)>(order: (I, I) -> int, heap: seq<I>, c: nat, k: nat)
    requires Lawful(order) && 0 < c < |heap| && AlmostDown(order, heap, Parent(c))
    requires 0 < k < |heap| && Parent(k) != c && !Edge(order, heap, c)
    requires Parent(k) == Parent(c) ==> order(heap[c], heap[k]) <= 0
    ensures Edge(order, Swap(heap, Parent(c), c), k)
  {
    var i := Parent(c);
    LawfulAt(order, heap[i], heap[c], heap[i]);
    if k == i {
      assert LongEdge(order, heap, c);
    } else if Parent(k) != i {
      assert Edge(order, heap, k);
    }
  }

  ghost predicate LeastChild<I>(order: (I, I) -> int, heap: seq<I>, c: nat)
    requires 0 < c < |heap|
  {
    forall k :: 0 < k < |heap| && Parent(k) == Parent(c) ==> order(heap[c], heap[k]) <= 0
  }

  lemma SwapDown<I(!new)>(order: (I, I) -> int, heap: seq<I>, c: nat)
    requires Lawful(order) && 0 < c < |heap| && AlmostDown(order, heap, Parent(c))
    requires LeastChild(order, heap, c) && !Edge(order, heap, c)
    ensures AlmostDown(order, Swap(heap, Parent(c), c), c)
  {
    var h := Swap(heap, Parent(c), c);
    forall k: nat | 0 < k < |heap| && Parent(k) != c
      ensures Edge(order, h, k)
    {
      EdgeAfterSwapDown(order, heap, c, k);
    }
    forall k: nat | 0 < k < |heap| && Parent(k) == c
      ensures LongEdge(order, h, k)
    {
      assert Edge(order, heap, k);
    }
  }

  lemma ParentFits<I(!new)>(order: (I, I) -> int, heap: seq<I>, c: nat)
    requires Lawful(order) && 0 < c < |heap| && AlmostDown(order, heap, Parent(c))
    requires LeastChild(order, heap, c) && Edge(order, heap, c)
    ensures HeapOrdered(order, heap)
  {
    forall k: nat | 0 < k < |heap|
      ensures Edge(order, heap, k)
    {
      if Parent(k) == Parent(c) {
        LawfulAt(order, heap[Parent(c)], heap[c], heap[k]);
      }
    }
  }

  method LesserChild<I(!new)>(order: (I, I) -> int, heap: seq<I>, i: nat) returns (c: nat)
    requires Lawful(order) && 2 * i + 1 < |heap|
    ensures 0 < c < |heap| && Parent(c) == i && LeastChild(order, heap, c)
  {
    c := 2 * i + 1;
    LawfulAt(order, heap[c], heap[c], heap[c]);
    if 2 * i + 2 < |heap| {
      LawfulAt(order, heap[c], heap[2 * i + 2], heap[c]);
      LawfulAt(order, heap[2 * i + 2], heap[2 * i + 2], heap[2 * i + 2]);
      if order(heap[c], heap[2 * i + 2]) > 0 {
        c := 2 * i + 2;
      }
    }
    assert forall k: nat :: 0 < k && Parent(k) == i ==> k == 2 * i + 1 || k == 2 * i + 2;
  }

  method SiftDown<I(!new)>(order: (I, I) -> int, heap: seq<I>) returns (h: seq<I>)
    requires Lawful(order) && AlmostDown(order, heap, 0)
    ensures HeapOrdered(order, h) && multiset(h) == multiset(heap)
  {
    h := heap;
    var i: nat := 0;
    while 2 * i + 1 < |h|
      invariant AlmostDown(order, h, i)
      invariant multiset(h) == multiset(heap)
      decreases |h| - i
    {
      var c := LesserChild(order, h, i);
      if order(h[i], h[c]) <= 0 {
        ParentFits(order, h, c);
        return;
      }
      SwapDown(order, h, c);
      h := Swap(h, i, c);
      i := c;
    }
    assert forall k: nat :: 0 < k < |h| ==> Parent(k) != i;
  }

  lemma TopMoved<I>(order: (I, I) -> int, heap: seq<I>, h: seq<I>)
    requires HeapOrdered(order, heap) && 0 < |h| == |heap| - 1
    requires h == [heap[|heap| - 1]] + heap[1..|heap| - 1]
    ensures AlmostDown(order, h, 0)
    ensures multiset(heap) == multiset(h) + multiset{heap[0]}
  {
    forall k: nat | 0 < k < |h| && Parent(k) != 0
      ensures Edge(order, h, k)
    {
      assert Edge(order, heap, k);
    }
    RotateMultiset(heap);
  }

  lemma RotateMultiset<I>(s: seq<I>)
    requires |s| > 1
    ensures multiset(s) == multiset([s[|s| - 1]] + s[1..|s| - 1]) + multiset{s[0]}
  {
    var n := |s| - 1;
    assert s == [s[0]] + s[1..n] + [s[n]];
  }

  method Pop<I(!new)>(order: (I, I) -> int, heap: seq<I>) returns (top: I, h: seq<I>)
    requires Lawful(order) && heap != [] && HeapOrdered(order, heap)
    ensures HeapOrdered(order, h)
    ensures multiset(heap) == multiset(h) + multiset{top}
    ensures forall x :: x in heap ==> order(top, x) <= 0
  {
    TopIsLeast(order, heap);
    top := heap[0];
    var n := |heap| - 1;
    if n == 0 {
      assert heap == [top];
      return top, [];
    }
    h := [heap[n]] + heap[1..n];
    TopMoved(order, heap, h);
    h := SiftDown(order, h);
  }

  lemma {:induction false} TopBefore<I(!new)>(order: (I, I) -> int, heap: seq<I>, i: nat)
    requires Lawful(order) && HeapOrdered(order, heap) && i < |heap|
    ensures order(heap[0], heap[i]) <= 0
  {
    if i > 0 {
      TopBefore(order, heap, Parent(i));
      assert Edge(order, heap, i);
      LawfulAt(order, heap[0], heap[Parent(i)], heap[i]);
    } else {
      LawfulAt(order, heap[0], heap[0], heap[0]);
    }
  }

  lemma TopIsLeast<I(!new)>(order: (I, I) -> int, heap: seq<I>)
    requires Lawful(order) && HeapOrdered(order, heap) && heap != []
    ensures forall x :: x in heap ==> order(heap[0], x) <= 0
  {
    forall i: nat | i < |heap|
      ensures order(heap[0], heap[i]) <= 0
    {
      TopBefore(order, heap, i);
    }
  }
}
