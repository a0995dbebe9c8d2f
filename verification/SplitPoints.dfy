/** Cutting a sorted table at sorted split points (cpp/src/cylon/table.cpp:539-610). */
module SplitPoints {
  import opened Int32
  import opened Tables
  import opened RowOrder

  /** The partition of a row: the number of split points that are not above it. */
  function PartitionOf<T>(cmp: (T, T) -> int, splits: seq<T>, x: T): nat {
    if splits == [] then 0
    else
      var n := |splits| - 1;
      PartitionOf(cmp, splits[..n], x) + if cmp(splits[n], x) <= 0 then 1 else 0
  }

  function PartitionRoute<T>(cmp: (T, T) -> int, splits: seq<T>): T -> nat {
    x => PartitionOf(cmp, splits, x)
  }

  lemma {:induction false} PartitionAtMost<T>(cmp: (T, T) -> int, splits: seq<T>, x: T)
    ensures PartitionOf(cmp, splits, x) <= |splits|
  {
    if splits != [] {
      PartitionAtMost(cmp, splits[..|splits| - 1], x);
    }
  }

  /** In sorted split points those not above a row come first. */
  lemma {:induction false} PartitionCounts<T(!new)>(cmp: (T, T) -> int, splits: seq<T>, x: T)
    requires Lawful(cmp) && Sorted(cmp, splits)
    ensures forall i :: 0 <= i < |splits| ==> (cmp(splits[i], x) <= 0 <==> i < PartitionOf(cmp, splits, x))
  {
    if splits != [] {
      var n := |splits| - 1;
      var rest := splits[..n];
      PartitionCounts(cmp, rest, x);
      PartitionAtMost(cmp, rest, x);
      if cmp(splits[n], x) <= 0 && n > 0 {
        LawfulAt(cmp, splits[n - 1], splits[n], x);
        assert cmp(rest[n - 1], x) <= 0;
      }
    }
  }

  /** For sorted split points partition `p` is the stretch from split point `p - 1`,
      inclusive, to split point `p`, exclusive. */
  lemma PartitionBounds<T(!new)>(cmp: (T, T) -> int, splits: seq<T>, x: T, p: nat)
    requires Lawful(cmp) && Sorted(cmp, splits) && p <= |splits|
    ensures PartitionOf(cmp, splits, x) == p <==>
            (p == 0 || cmp(splits[p - 1], x) <= 0) && (p == |splits| || cmp(splits[p], x) > 0)
  {
    PartitionCounts(cmp, splits, x);
    PartitionAtMost(cmp, splits, x);
  }

  /** Larger rows go to later partitions. */
  lemma {:induction false} PartitionMonotone<T(!new)>(cmp: (T, T) -> int, splits: seq<T>, x: T, y: T)
    requires Lawful(cmp) && cmp(x, y) <= 0
    ensures PartitionOf(cmp, splits, x) <= PartitionOf(cmp, splits, y)
  {
    if splits != [] {
      var n := |splits| - 1;
      PartitionMonotone(cmp, splits[..n], x, y);
      LawfulAt(cmp, splits[n], x, y);
    }
  }

  /** The first row at or after `from` that is not below the split point, or the row count. The
      start index is remembered in an `int`: beyond 2^31-1 it is not recognised, and when the row
      before it is not below the split point either, the search falls through to the row count. */
  method TableBinarySearch<T(!new)>(cmp: (T, T) -> int, rows: seq<T>, split: T, from: nat) returns (index: nat)
    requires Lawful(cmp) && Sorted(cmp, rows) && from <= |rows|
    ensures if from <= INT32_MAX || from == |rows| || cmp(rows[from - 1], split) < 0
            then IsFirstNotBelow(cmp, rows, split, from, index)
            else IsFirstNotBelow(cmp, rows, split, from, from) && index == |rows|
    ensures from <= INT32_MAX ==>
              from <= index <= |rows| &&
              (forall k :: from <= k < index ==> cmp(rows[k], split) < 0) &&
              (index < |rows| ==> cmp(rows[index], split) >= 0)
  {
    index := Search(cmp, rows, split, from);
    ToInt32Range(from);
    if index < |rows| {
      FoundAt(cmp, rows, split, from, index);
    } else if from == |rows| || cmp(rows[|rows| - 1], split) < 0 {
      FoundNone(cmp, rows, split, from);
    } else {
      AboveFrom(cmp, rows, split, from);
    }
  }

  /** The loop, before the order of the rows is used. */
  method Search<T>(cmp: (T, T) -> int, rows: seq<T>, split: T, from: nat) returns (index: nat)
    requires from <= |rows|
    ensures index <= |rows|
    ensures index < |rows| ==> from <= index && cmp(rows[index], split) >= 0
    ensures index < |rows| && index != ToInt32(from) ==> 0 < index && cmp(rows[index - 1], split) < 0
    ensures index == |rows| ==>
              || from == |rows| || cmp(rows[|rows| - 1], split) < 0
              || (from > INT32_MAX && cmp(rows[from], split) >= 0 && cmp(rows[from - 1], split) >= 0)
  {
    ToInt32Range(from);
    var l, r := from, |rows| - 1;
    var L := ToInt32(l);
    while r >= l
      invariant from <= l <= r + 1 <= |rows|
      invariant l > from ==> cmp(rows[l - 1], split) < 0
      invariant r == |rows| - 1 ||
                (r + 1 != L && cmp(rows[r + 1], split) >= 0 && cmp(rows[r], split) >= 0)
      decreases r - l + 1
    {
      var m := (l + r) / 2;
      var here := cmp(rows[m], split);
      var before := if m == L then -1 else cmp(rows[m - 1], split);
      if here >= 0 && before < 0 {
        return m;
      } else if here < 0 {
        l := m + 1;
      } else {
        r := m - 1;
      }
    }
    return |rows|;
  }

  /** All rows from `from` to before `index` are below the split point, and no later one is. */
  ghost predicate IsFirstNotBelow<T>(cmp: (T, T) -> int, rows: seq<T>, split: T, from: nat, index: nat) {
    && from <= index <= |rows|
    && (forall k :: from <= k < index ==> cmp(rows[k], split) < 0)
    && forall k :: index <= k < |rows| ==> cmp(rows[k], split) >= 0
  }

  lemma FoundAt<T(!new)>(cmp: (T, T) -> int, rows: seq<T>, split: T, from: nat, m: nat)
    requires Lawful(cmp) && Sorted(cmp, rows) && from <= m < |rows| && cmp(rows[m], split) >= 0
    requires m == from || cmp(rows[m - 1], split) < 0
    ensures IsFirstNotBelow(cmp, rows, split, from, m)
  {
    AboveFrom(cmp, rows, split, m);
    if m > from {
      BelowUpTo(cmp, rows, split, m - 1);
    }
  }

  lemma FoundNone<T(!new)>(cmp: (T, T) -> int, rows: seq<T>, split: T, from: nat)
    requires Lawful(cmp) && Sorted(cmp, rows) && from <= |rows|
    requires from == |rows| || cmp(rows[|rows| - 1], split) < 0
    ensures IsFirstNotBelow(cmp, rows, split, from, |rows|)
  {
    if from < |rows| {
      BelowUpTo(cmp, rows, split, |rows| - 1);
    }
  }

  lemma AboveFrom<T(!new)>(cmp: (T, T) -> int, rows: seq<T>, split: T, m: nat)
    requires Lawful(cmp) && Sorted(cmp, rows) && m < |rows|
    ensures cmp(rows[m], split) >= 0 ==> forall k :: m <= k < |rows| ==> cmp(rows[k], split) >= 0
  {
    if cmp(rows[m], split) >= 0 {
      forall k | m <= k < |rows|
        ensures cmp(rows[k], split) >= 0
      {
        LawfulAt(cmp, split, rows[m], rows[k]);
      }
    }
  }

  lemma BelowUpTo<T(!new)>(cmp: (T, T) -> int, rows: seq<T>, split: T, m: nat)
    requires Lawful(cmp) && Sorted(cmp, rows) && m < |rows| && cmp(rows[m], split) < 0
    ensures forall k :: 0 <= k <= m ==> cmp(rows[k], split) < 0
  {
    forall k | 0 <= k < m
      ensures cmp(rows[k], split) < 0
    {
      LawfulAt(cmp, rows[k], rows[m], split);
      LawfulAt(cmp, rows[m], split, rows[k]);
      LawfulAt(cmp, split, rows[k], rows[m]);
    }
  }

  /** Every row learns its partition, and the histogram counts the rows of each partition, in
      32 bits. Each search resumes where the one before ended; the row before that is below
      the next split point too, so a start index beyond 2^31-1 does no harm. */
  method GetSplitPointIndices<T(!new)>(cmp: (T, T) -> int, splits: seq<T>, rows: seq<T>)
      returns (targets: seq<nat>, hist: seq<nat>)
    requires Lawful(cmp) && Sorted(cmp, rows) && Sorted(cmp, splits)
    ensures |targets| == |rows| && |hist| == |splits| + 1
    ensures Assigned(cmp, splits, rows, targets, |rows|)
    ensures Counted(cmp, splits, rows, hist, |splits| + 1)
    ensures |rows| <= UINT32_MAX ==> Total(hist) == |rows|
  {
    var target := new nat[|rows|](_ => 0);
    hist := seq(|splits| + 1, _ => 0);
    var low: nat := 0;
    for i := 0 to |splits|
      invariant Indexed(cmp, splits, rows, target[..], hist, i, low)
    {
      var index := ResumeSearch(cmp, splits, rows, i, low);
      ghost var earlier := target[..];
      Fill(target, low, index, i);
      IndexOneMore(cmp, splits, rows, earlier, target[..], hist, i, low, index);
      hist := hist[i := ToUint32(index - low)];
      low := index;
    }
    ghost var earlier := target[..];
    Fill(target, low, |rows|, |splits|);
    IndexTheRest(cmp, splits, rows, earlier, target[..], hist, low);
    hist := hist[|splits| := ToUint32(|rows| - low)];
    targets := target[..];
  }

  /** The first `low` rows are those of the first `i` partitions, and are accounted for. */
  ghost predicate Indexed<T>(
      cmp: (T, T) -> int, splits: seq<T>, rows: seq<T>, targets: seq<nat>, hist: seq<nat>, i: nat, low: nat)
  {
    && low <= |rows| == |targets| && i <= |hist| == |splits| + 1
    && Assigned(cmp, splits, rows, targets, low)
    && CutAt(cmp, splits, rows, i, low)
    && Counted(cmp, splits, rows, hist, i)
    && (|rows| <= UINT32_MAX ==> Before(hist, i) == low)
  }

  lemma IndexOneMore<T(!new)>(
      cmp: (T, T) -> int, splits: seq<T>, rows: seq<T>, earlier: seq<nat>, targets: seq<nat>, hist: seq<nat>,
      i: nat, low: nat, index: nat)
    requires Lawful(cmp) && Sorted(cmp, splits) && i < |splits|
    requires Indexed(cmp, splits, rows, earlier, hist, i, low) && IsFirstNotBelow(cmp, rows, splits[i], low, index)
    requires |targets| == |rows|
    requires forall k :: 0 <= k < |rows| ==> targets[k] == if low <= k < index then i else earlier[k]
    ensures Indexed(cmp, splits, rows, targets, hist[i := ToUint32(index - low)], i + 1, index)
  {
    StretchOfPartition(cmp, splits, rows, i, low, index);
    CountOneMore(cmp, splits, rows, hist, i, index - low);
  }

  lemma IndexTheRest<T>(
      cmp: (T, T) -> int, splits: seq<T>, rows: seq<T>, earlier: seq<nat>, targets: seq<nat>, hist: seq<nat>, low: nat)
    requires Indexed(cmp, splits, rows, earlier, hist, |splits|, low) && |targets| == |rows|
    requires forall k :: 0 <= k < |rows| ==> targets[k] == if low <= k < |rows| then |splits| else earlier[k]
    ensures var counts := hist[|splits| := ToUint32(|rows| - low)];
            Assigned(cmp, splits, rows, targets, |rows|) && Counted(cmp, splits, rows, counts, |splits| + 1) &&
            (|rows| <= UINT32_MAX ==> Total(counts) == |rows|)
  {
    StretchOfLastPartition(cmp, splits, rows, low);
    CountOneMore(cmp, splits, rows, hist, |splits|, |rows| - low);
  }

  method ResumeSearch<T(!new)>(cmp: (T, T) -> int, splits: seq<T>, rows: seq<T>, i: nat, low: nat) returns (index: nat)
    requires Lawful(cmp) && Sorted(cmp, rows) && Sorted(cmp, splits) && i < |splits| && low <= |rows|
    requires CutAt(cmp, splits, rows, i, low)
    ensures IsFirstNotBelow(cmp, rows, splits[i], low, index)
  {
    BelowNextSplit(cmp, splits, rows, i, low);
    index := TableBinarySearch(cmp, rows, splits[i], low);
  }

  /** The row before the one where a search resumes is below the split point searched for. */
  lemma BelowNextSplit<T(!new)>(cmp: (T, T) -> int, splits: seq<T>, rows: seq<T>, i: nat, low: nat)
    requires Lawful(cmp) && Sorted(cmp, splits) && i < |splits| && low <= |rows|
    requires CutAt(cmp, splits, rows, i, low)
    ensures low > 0 ==> cmp(rows[low - 1], splits[i]) < 0
  {
    if low > 0 {
      PartitionCounts(cmp, splits, rows[low - 1]);
      LawfulAt(cmp, splits[i], rows[low - 1], splits[i]);
    }
  }

  /** The first `low` rows carry their partition. */
  ghost predicate Assigned<T>(cmp: (T, T) -> int, splits: seq<T>, rows: seq<T>, targets: seq<nat>, low: nat)
    requires low <= |rows| == |targets|
  {
    forall k :: 0 <= k < low ==> targets[k] == PartitionOf(cmp, splits, rows[k])
  }

  /** Row `low` is where partition `i` starts. */
  ghost predicate CutAt<T>(cmp: (T, T) -> int, splits: seq<T>, rows: seq<T>, i: nat, low: nat)
    requires low <= |rows|
  {
    && (forall k :: 0 <= k < low ==> PartitionOf(cmp, splits, rows[k]) < i)
    && (forall k :: low <= k < |rows| ==> PartitionOf(cmp, splits, rows[k]) >= i)
  }

  /** The first `i` histogram entries are the sizes of their partitions, in 32 bits. */
  ghost predicate Counted<T>(cmp: (T, T) -> int, splits: seq<T>, rows: seq<T>, hist: seq<nat>, i: nat)
    requires i <= |hist|
  {
    forall p :: 0 <= p < i ==> hist[p] == ToUint32(|Routed(rows, PartitionRoute(cmp, splits), p)|)
  }

  lemma CountOneMore<T>(
      cmp: (T, T) -> int, splits: seq<T>, rows: seq<T>, hist: seq<nat>, i: nat, count: nat)
    requires i < |hist| && Counted(cmp, splits, rows, hist, i)
    requires count == |Routed(rows, PartitionRoute(cmp, splits), i)|
    ensures var entry := ToUint32(count);
            Counted(cmp, splits, rows, hist[i := entry], i + 1) &&
            Before(hist[i := entry], i + 1) == Before(hist, i) + entry
    ensures count <= UINT32_MAX ==> ToUint32(count) == count
  {
    BeforePrefix(hist, hist[i := ToUint32(count)], i);
  }

  /** In a sorted table the partitions never decrease. */
  lemma PartitionsAscend<T(!new)>(cmp: (T, T) -> int, splits: seq<T>, rows: seq<T>)
    requires Lawful(cmp) && Sorted(cmp, rows)
    ensures forall i, j :: 0 <= i < j < |rows| ==>
              PartitionOf(cmp, splits, rows[i]) <= PartitionOf(cmp, splits, rows[j])
  {
    forall i, j | 0 <= i < j < |rows|
      ensures PartitionOf(cmp, splits, rows[i]) <= PartitionOf(cmp, splits, rows[j])
    {
      PartitionMonotone(cmp, splits, rows[i], rows[j]);
    }
  }

  /** The rows between two consecutive search results are those of partition `i`. */
  lemma StretchOfPartition<T(!new)>(
      cmp: (T, T) -> int, splits: seq<T>, rows: seq<T>, i: nat, low: nat, index: nat)
    requires Lawful(cmp) && Sorted(cmp, splits) && i < |splits| && low <= index <= |rows|
    requires CutAt(cmp, splits, rows, i, low)
    requires IsFirstNotBelow(cmp, rows, splits[i], low, index)
    ensures forall k :: low <= k < index ==> PartitionOf(cmp, splits, rows[k]) == i
    ensures CutAt(cmp, splits, rows, i + 1, index)
    ensures |Routed(rows, PartitionRoute(cmp, splits), i)| == index - low
  {
    forall k | low <= k < |rows|
      ensures PartitionOf(cmp, splits, rows[k]) == i <==> k < index
    {
      LaterPartition(cmp, splits, rows[k], i);
      LawfulAt(cmp, splits[i], rows[k], splits[i]);
    }
    CountStretch(rows, PartitionRoute(cmp, splits), i, low, index);
  }

  lemma LaterPartition<T(!new)>(cmp: (T, T) -> int, splits: seq<T>, x: T, i: nat)
    requires Lawful(cmp) && Sorted(cmp, splits) && i < |splits|
    requires PartitionOf(cmp, splits, x) >= i
    ensures PartitionOf(cmp, splits, x) == i <==> cmp(splits[i], x) > 0
  {
    var p := PartitionOf(cmp, splits, x);
    PartitionAtMost(cmp, splits, x);
    PartitionBounds(cmp, splits, x, p);
    if p > i {
      LawfulAt(cmp, splits[i], splits[p - 1], x);
      LawfulAt(cmp, splits[i], splits[i], x);
    }
  }

  lemma StretchOfLastPartition<T>(cmp: (T, T) -> int, splits: seq<T>, rows: seq<T>, low: nat)
    requires low <= |rows|
    requires CutAt(cmp, splits, rows, |splits|, low)
    ensures forall k :: low <= k < |rows| ==> PartitionOf(cmp, splits, rows[k]) == |splits|
    ensures |Routed(rows, PartitionRoute(cmp, splits), |splits|)| == |rows| - low
  {
    forall k | low <= k < |rows|
      ensures PartitionOf(cmp, splits, rows[k]) == |splits|
    {
      PartitionAtMost(cmp, splits, rows[k]);
    }
    CountStretch(rows, PartitionRoute(cmp, splits), |splits|, low, |rows|);
  }

  lemma {:induction false} CountStretch<T>(rows: seq<T>, route: T -> nat, p: nat, low: nat, high: nat)
    requires low <= high <= |rows|
    requires forall k :: 0 <= k < |rows| ==> (route(rows[k]) == p <==> low <= k < high)
    ensures |Routed(rows, route, p)| == high - low
  {
    if rows != [] {
      var n := |rows| - 1;
      CountStretch(rows[..n], route, p, if low > n then n else low, if high > n then n else high);
    }
  }
}
