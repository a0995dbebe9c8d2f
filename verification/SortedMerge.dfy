/** MergeSortedTable (cpp/src/cylon/table.cpp:436-494): a k-way merge that emits row indices
    and whose queue compares tables by cursors that move while the merge runs. */
module SortedMerge {
  import opened Tables
  import opened RowOrder
  import opened PriorityQueue

  // Taking rows by index

  function Take<T>(rows: seq<T>, indices: seq<nat>): seq<T>
    requires forall k :: 0 <= k < |indices| ==> indices[k] < |rows|
  {
    seq(|indices|, k requires 0 <= k < |indices| => rows[indices[k]])
  }

  /** Every index below `n` exactly once. */
  ghost predicate IsIndexOrder(indices: seq<nat>, n: nat) {
    && |indices| == n
    && NoDuplicates(indices)
    && forall i: nat :: i in indices <==> i < n
  }

  ghost function Occurs<T>(rows: seq<T>, x: T): nat -> nat {
    (i: nat) => if i < |rows| && rows[i] == x then 0 else 1
  }

  lemma {:induction false} TakeCount<T>(rows: seq<T>, indices: seq<nat>, x: T)
    requires forall k :: 0 <= k < |indices| ==> indices[k] < |rows|
    ensures multiset(Take(rows, indices))[x] == |Routed(indices, Occurs(rows, x), 0)|
  {
    if indices != [] {
      var n := |indices| - 1;
      TakeCount(rows, indices[..n], x);
      assert Take(rows, indices) == Take(rows, indices[..n]) + [rows[indices[n]]];
    }
  }

  lemma IndexOrdersPermute(a: seq<nat>, b: seq<nat>, n: nat)
    requires IsIndexOrder(a, n) && IsIndexOrder(b, n)
    ensures multiset(a) == multiset(b)
  {
    forall i: nat
      ensures multiset(a)[i] == multiset(b)[i]
    {
      NoDuplicatesCount(a, i);
      NoDuplicatesCount(b, i);
    }
  }

  /** Taking every row once, in whatever order, permutes the table. */
  lemma TakePermutes<T>(rows: seq<T>, indices: seq<nat>)
    requires IsIndexOrder(indices, |rows|)
    ensures (forall k :: 0 <= k < |indices| ==> indices[k] < |rows|)
    ensures multiset(Take(rows, indices)) == multiset(rows)
  {
    assert forall k :: 0 <= k < |indices| ==> indices[k] in indices;
    var all: seq<nat> := seq(|rows|, i => i);
    forall i: nat
      ensures i in all <==> i < |rows|
    {
      assert i < |rows| ==> all[i] == i;
    }
    IndexOrdersPermute(indices, all, |rows|);
    forall x
      ensures multiset(Take(rows, indices))[x] == multiset(Take(rows, all))[x]
    {
      TakeCount(rows, indices, x);
      TakeCount(rows, all, x);
      RoutedPermutation(indices, all, Occurs(rows, x), 0);
    }
    SameCounts(multiset(Take(rows, indices)), multiset(Take(rows, all)));
    assert Take(rows, all) == rows;
  }

  // The queue's order

  /** The row a table's cursor points at, if the cursor is inside the rows. */
  function Front<T>(rows: seq<T>, cursor: seq<nat>, t: nat): Option<T> {
    if t < |cursor| && cursor[t] < |rows| then Some(rows[cursor[t]]) else None
  }

  function CompareFronts<T>(cmp: (T, T) -> int, x: Option<T>, y: Option<T>): int {
    match x
    case Some(r) => if y.Some? then cmp(r, y.value) else -1
    case None => if y.Some? then 1 else 0
  }

  /** Tables compare by the rows at their cursors; a table without such a row, which is
      never in the queue, comes last. */
  function ByFront<T>(cmp: (T, T) -> int, rows: seq<T>, cursor: seq<nat>): (nat, nat) -> int {
    (a: nat, b: nat) => CompareFronts(cmp, Front(rows, cursor, a), Front(rows, cursor, b))
  }

  lemma CompareFrontsLawful<T(!new)>(cmp: (T, T) -> int, x: Option<T>, y: Option<T>, z: Option<T>)
    requires Lawful(cmp)
    ensures CompareFronts(cmp, x, y) > 0 <==> CompareFronts(cmp, y, x) < 0
    ensures CompareFronts(cmp, x, y) <= 0 && CompareFronts(cmp, y, z) <= 0 ==> CompareFronts(cmp, x, z) <= 0
  {
    if x.Some? && y.Some? && z.Some? {
      LawfulAt(cmp, x.value, y.value, z.value);
    }
  }

  lemma ByFrontLawful<T(!new)>(cmp: (T, T) -> int, rows: seq<T>, cursor: seq<nat>)
    requires Lawful(cmp)
    ensures Lawful(ByFront(cmp, rows, cursor))
  {
    var order := ByFront(cmp, rows, cursor);
    forall a: nat, b: nat, c: nat
      ensures order(a, b) > 0 <==> order(b, a) < 0
      ensures order(a, b) <= 0 && order(b, c) <= 0 ==> order(a, c) <= 0
    {
      CompareFrontsLawful(cmp, Front(rows, cursor, a), Front(rows, cursor, b), Front(rows, cursor, c));
    }
  }

  /** The queue stays a heap when a cursor moves whose table is not in the queue. */
  lemma CursorMoves<T>(cmp: (T, T) -> int, rows: seq<T>, cursor: seq<nat>, t: nat, to: nat, heap: seq<nat>)
    requires t < |cursor| && t !in heap && HeapOrdered(ByFront(cmp, rows, cursor), heap)
    ensures HeapOrdered(ByFront(cmp, rows, cursor[t := to]), heap)
  {
    var order, moved := ByFront(cmp, rows, cursor), ByFront(cmp, rows, cursor[t := to]);
    forall i: nat | 0 < i < |heap|
      ensures Edge(moved, heap, i)
    {
      assert Edge(order, heap, i);
      var p, c := heap[Parent(i)], heap[i];
      assert p in heap && c in heap;
      assert order(p, c) == moved(p, c);
    }
  }

  // The state of a merge

  /** Every cursor is inside its own table's stretch of the concatenated rows. */
  ghost predicate Cursors(counts: seq<nat>, cursor: seq<nat>) {
    && |cursor| == |counts|
    && forall t :: 0 <= t < |counts| ==> Before(counts, t) <= cursor[t] <= Before(counts, t + 1)
  }

  /** Index `i` lies in the stretch of table `t`. */
  ghost predicate InStretch(counts: seq<nat>, t: nat, i: nat) {
    t < |counts| && Before(counts, t) <= i < Before(counts, t + 1)
  }

  ghost predicate Unfinished(counts: seq<nat>, cursor: seq<nat>, t: nat)
    requires |cursor| == |counts|
  {
    t < |counts| && cursor[t] < Before(counts, t + 1)
  }

  /** The queue holds each unfinished table once, and nothing else. */
  ghost predicate Queued(counts: seq<nat>, cursor: seq<nat>, heap: multiset<nat>)
    requires |cursor| == |counts|
  {
    forall t: nat :: heap[t] == if Unfinished(counts, cursor, t) then 1 else 0
  }

  /** Index `i`, which lies in table `t`, has been emitted exactly if the cursor is past it. */
  ghost predicate Emitted(counts: seq<nat>, cursor: seq<nat>, take: seq<nat>)
    requires |cursor| == |counts|
  {
    && NoDuplicates(take)
    && forall t: nat, i: nat :: InStretch(counts, t, i) ==> (i in take <==> i < cursor[t])
  }

  /** Rows of one table are emitted in their order. */
  ghost predicate KeepsTableOrder(counts: seq<nat>, take: seq<nat>) {
    forall t: nat, a: nat, b: nat ::
      a < b < |take| && InStretch(counts, t, take[a]) && InStretch(counts, t, take[b]) ==> take[a] < take[b]
  }

  /** What is left lies at or after everything emitted. */
  ghost predicate Boundary<T>(cmp: (T, T) -> int, rows: seq<T>, counts: seq<nat>, cursor: seq<nat>, take: seq<nat>)
    requires |cursor| == |counts|
    requires forall k :: 0 <= k < |take| ==> take[k] < |rows|
  {
    && Sorted(cmp, Take(rows, take))
    && forall t: nat, k: nat :: Unfinished(counts, cursor, t) && k < |take| && cursor[t] < |rows| ==>
         cmp(rows[take[k]], rows[cursor[t]]) <= 0
  }

  ghost predicate StretchesSorted<T>(cmp: (T, T) -> int, rows: seq<T>, counts: seq<nat>) {
    && |rows| == Total(counts)
    && forall t: nat, i: nat, j: nat ::
         i < j < |rows| && InStretch(counts, t, i) && InStretch(counts, t, j) ==> cmp(rows[i], rows[j]) <= 0
  }

  // One step of the merge

  lemma StretchDisjoint(counts: seq<nat>, s: nat, t: nat, i: nat)
    requires InStretch(counts, s, i) && InStretch(counts, t, i)
    ensures s == t
  {
    if s < t {
      BeforeMonotone(counts, s + 1, t);
    } else if t < s {
      BeforeMonotone(counts, t + 1, s);
    }
  }

  lemma EmitOne(counts: seq<nat>, cursor: seq<nat>, take: seq<nat>, t: nat)
    requires Cursors(counts, cursor) && Unfinished(counts, cursor, t) && Emitted(counts, cursor, take)
    ensures Cursors(counts, cursor[t := cursor[t] + 1])
    ensures Emitted(counts, cursor[t := cursor[t] + 1], take + [cursor[t]])
  {
    var x := cursor[t];
    var more := take + [x];
    assert InStretch(counts, t, x) && x !in take;
    forall s: nat, i: nat | InStretch(counts, s, i)
      ensures i in more <==> i < cursor[t := x + 1][s]
    {
      assert i in more <==> i in take || i == x;
      if i == x {
        StretchDisjoint(counts, s, t, i);
      }
    }
  }

  lemma OrderOne(counts: seq<nat>, cursor: seq<nat>, take: seq<nat>, t: nat)
    requires Cursors(counts, cursor) && Unfinished(counts, cursor, t) && Emitted(counts, cursor, take)
    requires KeepsTableOrder(counts, take)
    ensures KeepsTableOrder(counts, take + [cursor[t]])
  {
    var more := take + [cursor[t]];
    forall s: nat, a: nat, b: nat |
        a < b < |more| && InStretch(counts, s, more[a]) && InStretch(counts, s, more[b])
      ensures more[a] < more[b]
    {
      if b == |take| {
        assert InStretch(counts, t, more[b]);
        StretchDisjoint(counts, s, t, more[b]);
        assert take[a] in take;
      } else {
        assert take[a] < take[b];
      }
    }
  }

  lemma TakeOneMore<T>(rows: seq<T>, take: seq<nat>, x: nat)
    requires x < |rows| && forall k :: 0 <= k < |take| ==> take[k] < |rows|
    ensures Take(rows, take + [x]) == Take(rows, take) + [rows[x]]
  {
  }

  lemma SortedOneMore<T>(cmp: (T, T) -> int, rows: seq<T>, x: T)
    requires Sorted(cmp, rows) && forall k :: 0 <= k < |rows| ==> cmp(rows[k], x) <= 0
    ensures Sorted(cmp, rows + [x])
  {
  }

  /** `t` is an unfinished table whose front is least. */
  ghost predicate LeastFront<T>(cmp: (T, T) -> int, rows: seq<T>, counts: seq<nat>, cursor: seq<nat>, t: nat)
    requires |cursor| == |counts|
  {
    && Unfinished(counts, cursor, t) && cursor[t] < |rows|
    && forall s: nat :: Unfinished(counts, cursor, s) && cursor[s] < |rows| ==>
         cmp(rows[cursor[t]], rows[cursor[s]]) <= 0
  }

  lemma NextFront<T(!new)>(
      cmp: (T, T) -> int, rows: seq<T>, counts: seq<nat>, cursor: seq<nat>, t: nat, s: nat)
    requires Lawful(cmp) && StretchesSorted(cmp, rows, counts)
    requires Cursors(counts, cursor) && LeastFront(cmp, rows, counts, cursor, t)
    requires Unfinished(counts, cursor[t := cursor[t] + 1], s)
    ensures cursor[t := cursor[t] + 1][s] < |rows|
    ensures cmp(rows[cursor[t]], rows[cursor[t := cursor[t] + 1][s]]) <= 0
  {
    BeforeMonotone(counts, s + 1, |counts|);
    assert Unfinished(counts, cursor, s);
    if s == t {
      assert InStretch(counts, t, cursor[t]) && InStretch(counts, t, cursor[t] + 1);
      assert cmp(rows[cursor[t]], rows[cursor[t] + 1]) <= 0;
    }
  }

  lemma BoundaryOne<T(!new)>(
      cmp: (T, T) -> int, rows: seq<T>, counts: seq<nat>, cursor: seq<nat>, take: seq<nat>, t: nat)
    requires Lawful(cmp) && StretchesSorted(cmp, rows, counts)
    requires Cursors(counts, cursor) && LeastFront(cmp, rows, counts, cursor, t)
    requires forall k :: 0 <= k < |take| ==> take[k] < |rows|
    requires Boundary(cmp, rows, counts, cursor, take)
    ensures Boundary(cmp, rows, counts, cursor[t := cursor[t] + 1], take + [cursor[t]])
  {
    var x, next, more := cursor[t], cursor[t := cursor[t] + 1], take + [cursor[t]];
    TakeOneMore(rows, take, x);
    SortedOneMore(cmp, Take(rows, take), rows[x]);
    forall s: nat, k: nat | Unfinished(counts, next, s) && k < |more| && next[s] < |rows|
      ensures cmp(rows[more[k]], rows[next[s]]) <= 0
    {
      NextFront(cmp, rows, counts, cursor, t, s);
      if k < |take| {
        LawfulAt(cmp, rows[take[k]], rows[x], rows[next[s]]);
      }
    }
  }

  /** The rows the unfinished tables still hold, over the first `k` tables. */
  ghost function Left(counts: seq<nat>, cursor: seq<nat>, k: nat): int
    requires k <= |counts| == |cursor|
  {
    if k == 0 then 0 else Left(counts, cursor, k - 1) + Before(counts, k) - cursor[k - 1]
  }

  lemma {:induction false} LeftOne(counts: seq<nat>, cursor: seq<nat>, t: nat, k: nat)
    requires k <= |counts| == |cursor| && t < |counts|
    ensures Left(counts, cursor[t := cursor[t] + 1], k) == Left(counts, cursor, k) - if t < k then 1 else 0
  {
    if k > 0 {
      LeftOne(counts, cursor, t, k - 1);
    }
  }

  lemma {:induction false} LeftBounds(counts: seq<nat>, cursor: seq<nat>, k: nat)
    requires Cursors(counts, cursor) && k <= |counts|
    ensures Left(counts, cursor, k) >= 0
    ensures (forall t :: 0 <= t < k ==> cursor[t] == Before(counts, t)) ==> Left(counts, cursor, k) == Before(counts, k)
    ensures (forall t :: 0 <= t < k ==> cursor[t] == Before(counts, t + 1)) ==> Left(counts, cursor, k) == 0
  {
    if k > 0 {
      LeftBounds(counts, cursor, k - 1);
    }
  }

  /** The popped table is unfinished, its front is least, and it is no longer queued. */
  lemma PoppedIsLeast<T(!new)>(
      cmp: (T, T) -> int, rows: seq<T>, counts: seq<nat>, cursor: seq<nat>,
      heap: seq<nat>, t: nat, rest: seq<nat>)
    requires |rows| == Total(counts) && |cursor| == |counts| && Queued(counts, cursor, multiset(heap))
    requires multiset(heap) == multiset(rest) + multiset{t}
    requires forall x :: x in heap ==> ByFront(cmp, rows, cursor)(t, x) <= 0
    ensures LeastFront(cmp, rows, counts, cursor, t)
    ensures t !in rest
    ensures forall s: nat :: s != t ==> multiset(rest)[s] == multiset(heap)[s]
  {
    assert t in multiset(heap);
    assert Unfinished(counts, cursor, t);
    BeforeMonotone(counts, t + 1, |counts|);
    forall s: nat | Unfinished(counts, cursor, s) && cursor[s] < |rows|
      ensures cmp(rows[cursor[t]], rows[cursor[s]]) <= 0
    {
      assert s in multiset(heap) && s in heap;
      assert Front(rows, cursor, t) == Some(rows[cursor[t]]) && Front(rows, cursor, s) == Some(rows[cursor[s]]);
    }
    assert multiset(rest)[t] == 0;
  }

  /** The queue after the cursor of the popped table moved: the table returns if it has more. */
  lemma Requeued(counts: seq<nat>, cursor: seq<nat>, heap: multiset<nat>, rest: multiset<nat>, t: nat)
    requires |cursor| == |counts| && t < |counts| && Queued(counts, cursor, heap)
    requires heap == rest + multiset{t}
    ensures var next := cursor[t := cursor[t] + 1];
            Queued(counts, next, if Unfinished(counts, next, t) then rest + multiset{t} else rest)
  {
    var next := cursor[t := cursor[t] + 1];
    forall s: nat | s != t
      ensures Unfinished(counts, next, s) <==> Unfinished(counts, cursor, s)
    {
    }
  }

  ghost predicate Progress<T>(
      cmp: (T, T) -> int, rows: seq<T>, counts: seq<nat>, cursor: seq<nat>, take: seq<nat>)
  {
    && Cursors(counts, cursor)
    && Emitted(counts, cursor, take)
    && KeepsTableOrder(counts, take)
    && (forall k :: 0 <= k < |take| ==> take[k] < |rows|)
    && Boundary(cmp, rows, counts, cursor, take)
    && |take| + Left(counts, cursor, |counts|) == |rows|
  }

  lemma ProgressOne<T(!new)>(
      cmp: (T, T) -> int, rows: seq<T>, counts: seq<nat>, cursor: seq<nat>, take: seq<nat>, t: nat)
    requires Lawful(cmp) && StretchesSorted(cmp, rows, counts)
    requires Progress(cmp, rows, counts, cursor, take) && LeastFront(cmp, rows, counts, cursor, t)
    ensures Progress(cmp, rows, counts, cursor[t := cursor[t] + 1], take + [cursor[t]])
    ensures Left(counts, cursor[t := cursor[t] + 1], |counts|) < Left(counts, cursor, |counts|)
  {
    EmitOne(counts, cursor, take, t);
    OrderOne(counts, cursor, take, t);
    BoundaryOne(cmp, rows, counts, cursor, take, t);
    LeftOne(counts, cursor, t, |counts|);
  }

  lemma NothingQueued(counts: seq<nat>, cursor: seq<nat>, heap: multiset<nat>)
    requires |cursor| == |counts| && Queued(counts, cursor, heap) && heap == multiset{}
    ensures forall t: nat :: !Unfinished(counts, cursor, t)
  {
    forall t: nat
      ensures !Unfinished(counts, cursor, t)
    {
      assert heap[t] == 0;
    }
  }

  /** When no table is left, every index has been emitted once. */
  lemma AllEmitted<T>(cmp: (T, T) -> int, rows: seq<T>, counts: seq<nat>, cursor: seq<nat>, take: seq<nat>)
    requires Progress(cmp, rows, counts, cursor, take) && |rows| == Total(counts)
    requires forall t: nat :: !Unfinished(counts, cursor, t)
    ensures IsIndexOrder(take, |rows|)
  {
    forall t: nat | t < |counts|
      ensures cursor[t] == Before(counts, t + 1)
    {
      assert !Unfinished(counts, cursor, t);
    }
    LeftBounds(counts, cursor, |counts|);
    forall i: nat
      ensures i in take <==> i < |rows|
    {
      if i < |rows| {
        var t := LocateRank(counts, |counts|, i);
        assert InStretch(counts, t, i);
      }
    }
  }

  lemma TablesAreStretches<T>(cmp: (T, T) -> int, tables: seq<seq<T>>)
    requires forall t :: 0 <= t < |tables| ==> Sorted(cmp, tables[t])
    ensures StretchesSorted(cmp, Flatten(tables), RowCounts(tables))
  {
    var counts, rows := RowCounts(tables), Flatten(tables);
    ConcatLength(tables, |tables|);
    forall t: nat, i: nat, j: nat | i < j < |rows| && InStretch(counts, t, i) && InStretch(counts, t, j)
      ensures cmp(rows[i], rows[j]) <= 0
    {
      ConcatAt(tables, |tables|, t, i - Before(counts, t));
      ConcatAt(tables, |tables|, t, j - Before(counts, t));
    }
  }

  /** The queue before the merge: every nonempty table. */
  method FillQueue<T(!new)>(cmp: (T, T) -> int, rows: seq<T>, counts: seq<nat>, cursor: seq<nat>, ends: seq<nat>)
      returns (heap: seq<nat>)
    requires Lawful(cmp) && |counts| == |cursor| == |ends|
    requires forall t :: 0 <= t < |counts| ==> ends[t] == Before(counts, t + 1)
    ensures HeapOrdered(ByFront(cmp, rows, cursor), heap)
    ensures Queued(counts, cursor, multiset(heap))
  {
    heap := [];
    ByFrontLawful(cmp, rows, cursor);
    for i: nat := 0 to |counts|
      invariant HeapOrdered(ByFront(cmp, rows, cursor), heap)
      invariant forall t: nat :: multiset(heap)[t] == if t < i && Unfinished(counts, cursor, t) then 1 else 0
    {
      if cursor[i] < ends[i] {
        heap := Push<nat>(ByFront(cmp, rows, cursor), heap, i);
      }
    }
  }

  /** The loop that sets up `table_indices` and `table_end_indices`. */
  method Offsets(counts: seq<nat>) returns (starts: seq<nat>, ends: seq<nat>)
    ensures |starts| == |ends| == |counts|
    ensures forall t :: 0 <= t < |counts| ==> starts[t] == Before(counts, t) && ends[t] == Before(counts, t + 1)
  {
    starts, ends := [], [];
    var acc := 0;
    for i := 0 to |counts|
      invariant |starts| == |ends| == i && acc == Before(counts, i)
      invariant forall t :: 0 <= t < i ==> starts[t] == Before(counts, t) && ends[t] == Before(counts, t + 1)
    {
      starts := starts + [acc];
      acc := acc + counts[i];
      ends := ends + [acc];
    }
  }

  lemma NothingEmitted<T>(cmp: (T, T) -> int, rows: seq<T>, counts: seq<nat>, cursor: seq<nat>)
    requires |rows| == Total(counts) && |cursor| == |counts|
    requires forall t :: 0 <= t < |counts| ==> cursor[t] == Before(counts, t)
    ensures Progress(cmp, rows, counts, cursor, [])
  {
    LeftBounds(counts, cursor, |counts|);
  }

  /** One turn of the loop: the least front is emitted, its cursor moves while its table is
      out of the queue, and the table returns if it has rows left. */
  method EmitLeast<T(!new)>(
      cmp: (T, T) -> int, rows: seq<T>, counts: seq<nat>, ends: seq<nat>,
      cursor: seq<nat>, take: seq<nat>, heap: seq<nat>)
      returns (cursor': seq<nat>, take': seq<nat>, heap': seq<nat>)
    requires Lawful(cmp) && StretchesSorted(cmp, rows, counts) && heap != []
    requires |ends| == |counts| && forall t :: 0 <= t < |counts| ==> ends[t] == Before(counts, t + 1)
    requires Progress(cmp, rows, counts, cursor, take)
    requires HeapOrdered(ByFront(cmp, rows, cursor), heap) && Queued(counts, cursor, multiset(heap))
    ensures Progress(cmp, rows, counts, cursor', take')
    ensures HeapOrdered(ByFront(cmp, rows, cursor'), heap') && Queued(counts, cursor', multiset(heap'))
    ensures Left(counts, cursor', |counts|) < Left(counts, cursor, |counts|)
  {
    ByFrontLawful(cmp, rows, cursor);
    var t: nat, rest := Pop<nat>(ByFront(cmp, rows, cursor), heap);
    PoppedIsLeast(cmp, rows, counts, cursor, heap, t, rest);
    ProgressOne(cmp, rows, counts, cursor, take, t);
    CursorMoves(cmp, rows, cursor, t, cursor[t] + 1, rest);
    Requeued(counts, cursor, multiset(heap), multiset(rest), t);
    take' := take + [cursor[t]];
    cursor' := cursor[t := cursor[t] + 1];
    heap' := rest;
    if cursor'[t] < ends[t] {
      ByFrontLawful(cmp, rows, cursor');
      heap' := Push<nat>(ByFront(cmp, rows, cursor'), rest, t);
    }
  }

  /** The emitted indices are a permutation of all row indices whose rows are sorted, and
      the rows of each input table keep their order. */
  method KWayMerge<T(!new)>(cmp: (T, T) -> int, tables: seq<seq<T>>) returns (take: seq<nat>)
    requires Lawful(cmp) && forall t :: 0 <= t < |tables| ==> Sorted(cmp, tables[t])
    ensures IsIndexOrder(take, |Flatten(tables)|)
    ensures forall k :: 0 <= k < |take| ==> take[k] < |Flatten(tables)|
    ensures Sorted(cmp, Take(Flatten(tables), take))
    ensures KeepsTableOrder(RowCounts(tables), take)
  {
    var rows, counts := Flatten(tables), RowCounts(tables);
    TablesAreStretches(cmp, tables);
    var cursor, ends := Offsets(counts);
    var heap := FillQueue(cmp, rows, counts, cursor, ends);
    NothingEmitted(cmp, rows, counts, cursor);
    take := [];
    while heap != []
      invariant Progress(cmp, rows, counts, cursor, take)
      invariant HeapOrdered(ByFront(cmp, rows, cursor), heap)
      invariant Queued(counts, cursor, multiset(heap))
      decreases Left(counts, cursor, |counts|)
    {
      LeftBounds(counts, cursor, |counts|);
      cursor, take, heap := EmitLeast(cmp, rows, counts, ends, cursor, take, heap);
    }
    NothingQueued(counts, cursor, multiset(heap));
    AllEmitted(cmp, rows, counts, cursor, take);
  }

  // The whole operation

  datatype MergeError = Invalid

  /** Merge (table.cpp:343-370): the nonempty tables one after the other. */
  method Merge<T>(tables: seq<seq<T>>) returns (r: Result<seq<T>, MergeError>)
    ensures r == if tables == [] then Err(Invalid) else Ok(Flatten(tables))
  {
    if tables == [] {
      return Err(Invalid);
    }
    var rows := [];
    for i := 0 to |tables|
      invariant rows == Concat(tables, i)
    {
      if tables[i] != [] {
        rows := rows + tables[i];
      }
    }
    return Ok(rows);
  }

  /** A local sort by its contract. */
  ghost predicate Sorts<T(!new)>(cmp: (T, T) -> int, sort: seq<T> -> seq<T>) {
    forall rows :: SortedCopy(cmp, rows, sort(rows))
  }

  /** Merging sorted tables gives a sorted copy of all their rows; no table at all is an
      error. Above four ranks the tables are concatenated and sorted anew. */
  method MergeSortedTable<T(!new)>(
      cmp: (T, T) -> int, sort: seq<T> -> seq<T>, world: nat, tables: seq<seq<T>>)
      returns (r: Result<seq<T>, MergeError>)
    requires Lawful(cmp) && Sorts(cmp, sort) && forall t :: 0 <= t < |tables| ==> Sorted(cmp, tables[t])
    ensures r.Err? <==> tables == []
    ensures r.Ok? ==> SortedCopy(cmp, Flatten(tables), r.value)
  {
    var merged := Merge(tables);
    if merged.Err? {
      return merged;
    }
    if world > 4 {
      return Ok(sort(merged.value));
    }
    var take := KWayMerge(cmp, tables);
    TakePermutes(merged.value, take);
    return Ok(Take(merged.value, take));
  }
}
