/** Distributed sort by regular sampling (cpp/src/cylon/table.cpp:496-537, 612-690). The
    supersteps of the ranks are loops over the world. */
module SampleSort {
  import opened Tables
  import opened Int32
  import opened RowIndices
  import opened RowOrder
  import opened Partitioning
  import opened Exchange
  import opened SlotExchange
  import opened Shuffle
  import opened SplitPoints
  import opened SortedMerge
  import opened Sampling

  datatype SortError = NothingReceived | TooFewSplitPoints
  type SortResult<+T> = Result<seq<T>, SortError>

  // Sampling

  function Sample<T>(pick: (nat, nat) -> seq<nat>, rows: seq<T>, k: nat): (s: seq<T>)
    requires k <= |rows| && Picks(pick)
    ensures |s| == k
  {
    if rows == [] || k == 0 then [] else Take(rows, pick(|rows|, k))
  }

  lemma SampleSorted<T(!new)>(cmp: (T, T) -> int, pick: (nat, nat) -> seq<nat>, rows: seq<T>, k: nat)
    requires Lawful(cmp) && Sorted(cmp, rows) && k <= |rows| && Picks(pick)
    ensures Sorted(cmp, Sample(pick, rows, k))
  {
    var s := Sample(pick, rows, k);
    forall i, j | 0 <= i < j < |s|
      ensures cmp(s[i], s[j]) <= 0
    {
      var positions := pick(|rows|, k);
      assert Ascending(positions, |rows|);
      LawfulAt(cmp, rows[positions[i]], rows[positions[i]], rows[positions[i]]);
    }
  }

  /** One sample per rank, of at most `most` rows. */
  function SamplesOf<T>(pick: (nat, nat) -> seq<nat>, most: nat, locals: seq<seq<T>>): seq<seq<T>>
    requires Picks(pick)
  {
    seq(|locals|, r requires 0 <= r < |locals| => Sample(pick, locals[r], Min(most, |locals[r]|)))
  }

  /** The split points are a sample of the merged samples. */
  ghost predicate SplitPointsOf<T(!new)>(
      cmp: (T, T) -> int, pick: (nat, nat) -> seq<nat>, samples: seq<seq<T>>, splits: seq<T>)
    requires Picks(pick) && samples != []
  {
    exists merged :: SortedCopy(cmp, Flatten(samples), merged) &&
                     splits == Sample(pick, merged, Min(|merged|, |samples| - 1))
  }

  /** The split points come from samples of the locally sorted tables. */
  ghost predicate Sampled<T(!new)>(
      cmp: (T, T) -> int, pick: (nat, nat) -> seq<nat>, most: nat, world: seq<seq<T>>, splits: seq<T>)
    requires Picks(pick) && world != []
  {
    exists locals :: SortedCopies(cmp, world, locals) && SplitPointsOf(cmp, pick, SamplesOf(pick, most, locals), splits)
  }

  ghost predicate SortedCopies<T>(cmp: (T, T) -> int, world: seq<seq<T>>, locals: seq<seq<T>>) {
    |locals| == |world| && forall r :: 0 <= r < |world| ==> SortedCopy(cmp, world[r], locals[r])
  }

  // One rank before the exchange

  method LocalSortAndSample<T(!new)>(
      cmp: (T, T) -> int, sort: seq<T> -> seq<T>, pick: (nat, nat) -> seq<nat>, most: nat, rows: seq<T>)
      returns (local: seq<T>, sample: seq<T>)
    requires Lawful(cmp) && Sorts(cmp, sort) && Picks(pick)
    ensures SortedCopy(cmp, rows, local)
    ensures Sorted(cmp, sample) && |sample| == Min(most, |rows|)
    ensures sample == Sample(pick, local, Min(most, |local|))
  {
    local := sort(rows);
    assert |multiset(local)| == |multiset(rows)|;
    var count := Min(most, |rows|);
    sample := Sample(pick, local, count);
    SampleSorted(cmp, pick, local, count);
  }

  /** The root merges the samples and picks the split points from them. */
  method DetermineSplitPoints<T(!new)>(
      cmp: (T, T) -> int, sort: seq<T> -> seq<T>, pick: (nat, nat) -> seq<nat>, gathered: seq<seq<T>>)
      returns (splits: seq<T>)
    requires Lawful(cmp) && Sorts(cmp, sort) && Picks(pick) && gathered != []
    requires forall r :: 0 <= r < |gathered| ==> Sorted(cmp, gathered[r])
    ensures Sorted(cmp, splits)
    ensures |splits| == Min(|Flatten(gathered)|, |gathered| - 1)
    ensures SplitPointsOf(cmp, pick, gathered, splits)
  {
    var merged := MergeSortedTable(cmp, sort, |gathered|, gathered);
    assert |multiset(merged.value)| == |multiset(Flatten(gathered))|;
    var count := Min(|merged.value|, |gathered| - 1);
    splits := Sample(pick, merged.value, count);
    SampleSorted(cmp, pick, merged.value, count);
  }

  /** The partitions of one rank. Split reads `world` histogram entries, so without
      `world - 1` split points it reads past the histogram: `None`. */
  method SplitAtPoints<T(!new)>(cmp: (T, T) -> int, splits: seq<T>, local: seq<T>, world: nat)
      returns (parts: Option<seq<seq<T>>>)
    requires Lawful(cmp) && Sorted(cmp, splits) && Sorted(cmp, local) && |local| <= INT32_MAX
    requires |splits| < world
    ensures parts.Some? <==> |splits| == world - 1
    ensures parts.Some? ==> |parts.value| == world
    ensures parts.Some? ==>
              forall q :: 0 <= q < world ==> parts.value[q] == Routed(local, PartitionRoute(cmp, splits), q)
  {
    var targets, hist := GetSplitPointIndices(cmp, splits, local);
    if |hist| < world {
      return None;
    }
    forall q: nat | q < world
      ensures Split(local, targets, q) == Routed(local, PartitionRoute(cmp, splits), q)
    {
      SplitByRoute(local, targets, PartitionRoute(cmp, splits), q);
    }
    return Some(SplitAll(local, targets, world));
  }

  // One rank after the exchange

  /** all_to_all_arrow_tables_separated_cylon_table (table.cpp:160-177) drops empty tables. */
  method NonemptyTables<T>(tables: seq<seq<T>>) returns (out: seq<seq<T>>)
    ensures Flatten(out) == Flatten(tables)
    ensures forall t :: t in out ==> t in tables && t != []
    ensures out == [] <==> Flatten(tables) == []
  {
    out := [];
    for i := 0 to |tables|
      invariant Flatten(out) == Concat(tables, i)
      invariant forall t :: t in out ==> t in tables && t != []
      invariant out == [] <==> Concat(tables, i) == []
    {
      if |tables[i]| > 0 {
        FlattenOneMore(out, tables[i]);
        out := out + [tables[i]];
      }
    }
  }

  lemma FlattenOneMore<T>(tables: seq<seq<T>>, t: seq<T>)
    ensures Flatten(tables + [t]) == Flatten(tables) + t
  {
    ConcatCong(tables, tables + [t], |tables|);
  }

  method ReceiveAndMerge<T(!new)>(cmp: (T, T) -> int, sort: seq<T> -> seq<T>, world: nat, received: seq<seq<T>>)
      returns (r: SortResult<T>)
    requires Lawful(cmp) && Sorts(cmp, sort)
    requires forall s :: 0 <= s < |received| ==> Sorted(cmp, received[s])
    ensures r.Err? <==> Flatten(received) == []
    ensures r.Err? ==> r.error == NothingReceived
    ensures r.Ok? ==> SortedCopy(cmp, Flatten(received), r.value)
  {
    var tables := NonemptyTables(received);
    assert forall t :: 0 <= t < |tables| ==> tables[t] in tables;
    var merged := MergeSortedTable(cmp, sort, world, tables);
    return if merged.Ok? then Ok(merged.value) else Err(NothingReceived);
  }

  // The ranks together

  lemma {:induction false} RoutedSorted<T>(cmp: (T, T) -> int, rows: seq<T>, route: T -> nat, p: nat)
    requires Sorted(cmp, rows)
    ensures Sorted(cmp, Routed(rows, route, p))
  {
    if rows != [] {
      var n := |rows| - 1;
      RoutedSorted(cmp, rows[..n], route, p);
      forall k | 0 <= k < |Routed(rows[..n], route, p)|
        ensures cmp(Routed(rows[..n], route, p)[k], rows[n]) <= 0
      {
        RoutedMember(rows[..n], route, p, Routed(rows[..n], route, p)[k]);
      }
    }
  }

  /** What the ranks hold when all succeed: rank `q` a sorted copy of partition `q`. */
  ghost predicate RangePartitioned<T>(
      cmp: (T, T) -> int, splits: seq<T>, world: seq<seq<T>>, out: seq<seq<T>>)
  {
    && Shuffled(world, PartitionRoute(cmp, splits), out)
    && forall q :: 0 <= q < |out| ==> Sorted(cmp, out[q])
  }

  lemma PartitionsOrdered<T(!new)>(
      cmp: (T, T) -> int, splits: seq<T>, world: seq<seq<T>>, out: seq<seq<T>>, p: nat, q: nat, x: T, y: T)
    requires Lawful(cmp) && RangePartitioned(cmp, splits, world, out)
    requires p < q < |out| && x in out[p] && y in out[q]
    ensures cmp(x, y) <= 0
  {
    var route := PartitionRoute(cmp, splits);
    ShuffledMember(world, route, out, p, x);
    ShuffledMember(world, route, out, q, y);
    if cmp(x, y) > 0 {
      LawfulAt(cmp, x, y, x);
      PartitionMonotone(cmp, splits, y, x);
    }
  }

  lemma {:induction false} PartitionsConcatSorted<T(!new)>(
      cmp: (T, T) -> int, splits: seq<T>, world: seq<seq<T>>, out: seq<seq<T>>, k: nat)
    requires Lawful(cmp) && RangePartitioned(cmp, splits, world, out) && k <= |out|
    ensures Sorted(cmp, Concat(out, k))
  {
    if k > 0 {
      PartitionsConcatSorted(cmp, splits, world, out, k - 1);
      forall x, y | x in Concat(out, k - 1) && y in out[k - 1]
        ensures cmp(x, y) <= 0
      {
        ConcatMember(out, k - 1, x);
        var p :| 0 <= p < k - 1 && x in out[p];
        PartitionsOrdered(cmp, splits, world, out, p, k - 1, x, y);
      }
      SortedAppend(cmp, Concat(out, k - 1), out[k - 1]);
    }
  }

  /** For any sorted list of W-1 split points, duplicates included, range partitions that are
      sorted on their ranks are a sorted permutation of the world in rank order. */
  lemma RangePartitionsSort<T(!new)>(cmp: (T, T) -> int, splits: seq<T>, world: seq<seq<T>>, out: seq<seq<T>>)
    requires Lawful(cmp) && |splits| < |world| && RangePartitioned(cmp, splits, world, out)
    ensures SortedCopy(cmp, Flatten(world), Flatten(out))
  {
    PartitionsConcatSorted(cmp, splits, world, out, |out|);
    forall x
      ensures PartitionOf(cmp, splits, x) < |world|
    {
      PartitionAtMost(cmp, splits, x);
    }
    ShuffleConserves(world, PartitionRoute(cmp, splits), out);
  }

  // Sampling enough split points

  function SampleCounts(counts: seq<nat>, most: nat): seq<nat> {
    seq(|counts|, r requires 0 <= r < |counts| => if counts[r] < most then counts[r] else most)
  }

  lemma {:induction false} SamplesSuffice(counts: seq<nat>, most: nat, k: nat)
    requires k <= |counts|
    ensures Before(SampleCounts(counts, most), k) <= Before(counts, k)
    ensures Before(SampleCounts(counts, most), k) == Before(counts, k) ||
            Before(SampleCounts(counts, most), k) >= most
  {
    if k > 0 {
      SamplesSuffice(counts, most, k - 1);
    }
  }

  /** There are enough samples for W-1 split points exactly when there are enough rows. */
  lemma EnoughSamples(counts: seq<nat>, world: nat, ratio: nat)
    requires |counts| == world > 0 && ratio > 0
    ensures Total(SampleCounts(counts, world * ratio)) >= world - 1 <==> Total(counts) >= world - 1
  {
    SamplesSuffice(counts, world * ratio, |counts|);
    assert world * ratio >= world;
  }

  // Which ranks are left without rows

  lemma SampleMembers<T>(pick: (nat, nat) -> seq<nat>, rows: seq<T>, k: nat)
    requires k <= |rows| && Picks(pick)
    ensures forall x :: x in Sample(pick, rows, k) ==> x in rows
  {
    if rows != [] && k > 0 {
      assert Ascending(pick(|rows|, k), |rows|);
    }
  }

  lemma SameMembers<T>(a: seq<T>, b: seq<T>, x: T)
    requires multiset(a) == multiset(b) && x in a
    ensures x in b
  {
    assert x in multiset(a);
  }

  /** The sorted tables and the merged samples that the split points come from. */
  lemma SampledFrom<T(!new)>(
      cmp: (T, T) -> int, pick: (nat, nat) -> seq<nat>, most: nat, world: seq<seq<T>>, splits: seq<T>)
      returns (locals: seq<seq<T>>, merged: seq<T>)
    requires Picks(pick) && world != [] && Sampled(cmp, pick, most, world, splits)
    ensures SortedCopies(cmp, world, locals)
    ensures SortedCopy(cmp, Flatten(SamplesOf(pick, most, locals)), merged)
    ensures splits == Sample(pick, merged, Min(|merged|, |world| - 1))
  {
    locals :| SortedCopies(cmp, world, locals) && SplitPointsOf(cmp, pick, SamplesOf(pick, most, locals), splits);
    merged :| SortedCopy(cmp, Flatten(SamplesOf(pick, most, locals)), merged) &&
              splits == Sample(pick, merged, Min(|merged|, |world| - 1));
  }

  /** Split points are rows of the world. */
  lemma SplitsAreRows<T(!new)>(
      cmp: (T, T) -> int, pick: (nat, nat) -> seq<nat>, most: nat, world: seq<seq<T>>, splits: seq<T>)
    requires Picks(pick) && world != [] && Sampled(cmp, pick, most, world, splits)
    ensures forall x :: x in splits ==> x in Flatten(world)
  {
    var locals, merged := SampledFrom(cmp, pick, most, world, splits);
    SampleMembers(pick, merged, Min(|merged|, |world| - 1));
    forall x | x in splits
      ensures x in Flatten(world)
    {
      SameMembers(merged, Flatten(SamplesOf(pick, most, locals)), x);
      SamplesAreRows(cmp, pick, most, world, locals, x);
    }
  }

  lemma SamplesAreRows<T(!new)>(
      cmp: (T, T) -> int, pick: (nat, nat) -> seq<nat>, most: nat, world: seq<seq<T>>, locals: seq<seq<T>>, x: T)
    requires Picks(pick) && SortedCopies(cmp, world, locals) && x in Flatten(SamplesOf(pick, most, locals))
    ensures x in Flatten(world)
  {
    var samples := SamplesOf(pick, most, locals);
    ConcatMember(samples, |samples|, x);
    var r :| 0 <= r < |samples| && x in samples[r];
    SampleMembers(pick, locals[r], Min(most, |locals[r]|));
    SameMembers(locals[r], world[r], x);
    ConcatMember(world, |world|, x);
  }

  /** Rank `q` is left without rows: rank 0 when no row is below the first split point, a rank
      in between when the split points around it tie, the last rank never. */
  ghost predicate Starved<T>(cmp: (T, T) -> int, splits: seq<T>, world: seq<seq<T>>, q: nat)
    requires splits != []
  {
    if q == 0 then forall x :: x in Flatten(world) ==> cmp(splits[0], x) <= 0
    else q < |splits| && cmp(splits[q - 1], splits[q]) == 0
  }

  lemma EmptyPartition<T>(cmp: (T, T) -> int, splits: seq<T>, rows: seq<T>, q: nat)
    ensures Routed(rows, PartitionRoute(cmp, splits), q) == [] <==>
            forall x :: x in rows ==> PartitionOf(cmp, splits, x) != q
  {
    var route := PartitionRoute(cmp, splits);
    var mine := Routed(rows, route, q);
    forall x
      ensures x in mine <==> x in rows && PartitionOf(cmp, splits, x) == q
    {
      RoutedMember(rows, route, q, x);
      assert route(x) == PartitionOf(cmp, splits, x);
    }
    assert mine != [] ==> mine[0] in mine;
  }

  /** When the split points are rows of the world, a partition is empty exactly for these reasons. */
  lemma EmptyPartitionExact<T(!new)>(cmp: (T, T) -> int, splits: seq<T>, world: seq<seq<T>>, q: nat)
    requires Lawful(cmp) && Sorted(cmp, splits) && splits != [] && q <= |splits|
    requires forall x :: x in splits ==> x in Flatten(world)
    ensures Routed(Flatten(world), PartitionRoute(cmp, splits), q) == [] <==> Starved(cmp, splits, world, q)
  {
    EmptyPartition(cmp, splits, Flatten(world), q);
    forall x | x in Flatten(world)
      ensures PartitionOf(cmp, splits, x) == q <==>
              (q == 0 || cmp(splits[q - 1], x) <= 0) && (q == |splits| || cmp(splits[q], x) > 0)
    {
      PartitionBounds(cmp, splits, x, q);
    }
    if q > 0 {
      var x := splits[q - 1];
      LawfulAt(cmp, x, x, x);
      if q < |splits| {
        LawfulAt(cmp, x, splits[q], x);
        forall y | cmp(x, y) <= 0 && cmp(splits[q], y) > 0
          ensures cmp(x, splits[q]) != 0
        {
          LawfulAt(cmp, splits[q], x, y);
        }
      }
    }
  }

  /** Some `n` rows, each strictly below the next. */
  ghost predicate HasDistinct<T(!new)>(cmp: (T, T) -> int, rows: seq<T>, n: nat) {
    exists s: seq<T> :: |s| == n && (forall x :: x in s ==> x in rows) && Strict(cmp, s)
  }

  ghost predicate Strict<T>(cmp: (T, T) -> int, s: seq<T>) {
    forall i, j :: 0 <= i < j < |s| ==> cmp(s[i], s[j]) < 0
  }

  /** Feeding every rank takes as many rows that differ in the sort columns as there are ranks. */
  lemma FedNeedsDistinct<T(!new)>(cmp: (T, T) -> int, splits: seq<T>, world: seq<seq<T>>)
    requires Lawful(cmp) && Sorted(cmp, splits) && splits != []
    requires forall x :: x in splits ==> x in Flatten(world)
    requires forall q :: 0 <= q <= |splits| ==> !Starved(cmp, splits, world, q)
    ensures HasDistinct(cmp, Flatten(world), |splits| + 1)
  {
    assert !Starved(cmp, splits, world, 0);
    var least :| least in Flatten(world) && cmp(splits[0], least) > 0;
    var s := [least] + splits;
    forall i, j | 0 <= i < j < |s|
      ensures cmp(s[i], s[j]) < 0
    {
      if i == 0 {
        LawfulAt(cmp, splits[0], splits[j - 1], least);
        LawfulAt(cmp, splits[0], least, splits[0]);
        LawfulAt(cmp, least, splits[j - 1], least);
      } else {
        assert !Starved(cmp, splits, world, i);
        LawfulAt(cmp, splits[i - 1], splits[i], splits[j - 1]);
        LawfulAt(cmp, splits[i], splits[i], splits[i]);
      }
    }
    assert Strict(cmp, s);
    assert forall x :: x in s ==> x in Flatten(world);
  }

  /** When all rows tie, every rank but the last is left without rows. */
  lemma ConstantWorld<T(!new)>(cmp: (T, T) -> int, splits: seq<T>, world: seq<seq<T>>, q: nat)
    requires splits != [] && q <= |splits|
    requires forall x :: x in splits ==> x in Flatten(world)
    requires forall x, y :: x in Flatten(world) && y in Flatten(world) ==> cmp(x, y) == 0
    ensures Starved(cmp, splits, world, q) <==> q < |splits|
  {
  }

  // When no rank is left without rows

  /** The rows that tie with `x`. */
  function Tying<T>(cmp: (T, T) -> int, rows: seq<T>, x: T): seq<T> {
    Routed(rows, TieRoute(cmp, x), 0)
  }

  function TieRoute<T>(cmp: (T, T) -> int, x: T): T -> nat {
    y => if cmp(y, x) == 0 then 0 else 1
  }

  lemma PrefixTies<T>(rows: seq<T>, route: T -> nat, i: nat, j: nat)
    requires i <= j <= |rows|
    ensures |Routed(rows[..i], route, 0)| <= |Routed(rows[..j], route, 0)|
  {
    RoutedAppend(rows[..i], rows[i..j], route, 0);
    assert rows[..i] + rows[i..j] == rows[..j];
  }

  /** Rows taken at different positions, in order, hold no row more often than the table. */
  lemma {:induction false} TakeTies<T>(rows: seq<T>, positions: seq<nat>, route: T -> nat, upTo: nat)
    requires upTo <= |rows| && forall k :: 0 <= k < |positions| ==> positions[k] < upTo
    requires forall i, j :: 0 <= i < j < |positions| ==> positions[i] < positions[j]
    ensures |Routed(Take(rows, positions), route, 0)| <= |Routed(rows[..upTo], route, 0)|
  {
    if positions != [] {
      var n := |positions| - 1;
      var last := positions[n];
      TakeTies(rows, positions[..n], route, last);
      assert Take(rows, positions)[..n] == Take(rows, positions[..n]);
      assert rows[..last + 1][..last] == rows[..last];
      PrefixTies(rows, route, last + 1, upTo);
    }
  }

  lemma SampleTies<T>(pick: (nat, nat) -> seq<nat>, rows: seq<T>, k: nat, route: T -> nat)
    requires Picks(pick) && Spreads(pick) && k <= |rows|
    ensures |Routed(Sample(pick, rows, k), route, 0)| <= |Routed(rows, route, 0)|
  {
    if rows != [] && k > 0 {
      assert Spread(pick(|rows|, k), |rows|, k);
      TakeTies(rows, pick(|rows|, k), route, |rows|);
      assert rows[..|rows|] == rows;
    }
  }

  lemma {:induction false} ConcatTies<T>(a: seq<seq<T>>, b: seq<seq<T>>, route: T -> nat, k: nat)
    requires k <= |a| == |b|
    requires forall r :: 0 <= r < |a| ==> |Routed(a[r], route, 0)| <= |Routed(b[r], route, 0)|
    ensures |Routed(Concat(a, k), route, 0)| <= |Routed(Concat(b, k), route, 0)|
  {
    if k > 0 {
      ConcatTies(a, b, route, k - 1);
      RoutedAppend(Concat(a, k - 1), a[k - 1], route, 0);
      RoutedAppend(Concat(b, k - 1), b[k - 1], route, 0);
    }
  }

  /** The merged samples hold no row more often than the world. */
  lemma MergedTies<T(!new)>(
      cmp: (T, T) -> int, pick: (nat, nat) -> seq<nat>, most: nat, world: seq<seq<T>>, locals: seq<seq<T>>,
      merged: seq<T>, x: T)
    requires Picks(pick) && Spreads(pick) && SortedCopies(cmp, world, locals)
    requires multiset(merged) == multiset(Flatten(SamplesOf(pick, most, locals)))
    ensures |Tying(cmp, merged, x)| <= |Tying(cmp, Flatten(world), x)|
  {
    var route := TieRoute(cmp, x);
    forall r: nat | r < |locals|
      ensures |Routed(SamplesOf(pick, most, locals)[r], route, 0)| <= |Routed(locals[r], route, 0)|
    {
      SampleTies(pick, locals[r], Min(most, |locals[r]|), route);
    }
    ConcatTies(SamplesOf(pick, most, locals), locals, route, |locals|);
    LocalsPermute(cmp, world, locals);
    RoutedPermutation(Flatten(locals), Flatten(world), route, 0);
    RoutedPermutation(merged, Flatten(SamplesOf(pick, most, locals)), route, 0);
  }

  lemma {:induction false} StretchInside<T>(rows: seq<T>, route: T -> nat, p: nat, a: nat, b: nat)
    requires a <= b <= |rows| && forall k :: a <= k < b ==> route(rows[k]) == p
    ensures b - a <= |Routed(rows, route, p)|
  {
    if a < b {
      var n := |rows| - 1;
      StretchInside(rows[..n], route, p, a, if b > n then n else b);
    }
  }

  /** In sorted rows two that are further apart than ties reach do not tie. */
  lemma FarApart<T(!new)>(cmp: (T, T) -> int, rows: seq<T>, a: nat, b: nat)
    requires Lawful(cmp) && Sorted(cmp, rows) && a < b < |rows|
    requires |Tying(cmp, rows, rows[a])| <= b - a
    ensures cmp(rows[a], rows[b]) < 0
  {
    if cmp(rows[a], rows[b]) >= 0 {
      forall k | a <= k < b + 1
        ensures TieRoute(cmp, rows[a])(rows[k]) == 0
      {
        LawfulAt(cmp, rows[a], rows[a], rows[a]);
        LawfulAt(cmp, rows[a], rows[k], rows[b]);
        LawfulAt(cmp, rows[k], rows[b], rows[a]);
      }
      StretchInside(rows, TieRoute(cmp, rows[a]), 0, a, b + 1);
      assert false;
    }
  }

  /** No row ties with more rows, itself included, than the distance of the split points in the
      merged samples, and there are as many rows as ranks. */
  ghost predicate FewTies<T>(cmp: (T, T) -> int, most: nat, world: seq<seq<T>>)
    requires world != []
  {
    && |Flatten(world)| >= |world|
    && TiesAtMost(cmp, Flatten(world), Stride(Total(SampleCounts(RowCounts(world), most)), |world| - 1))
  }

  ghost predicate TiesAtMost<T>(cmp: (T, T) -> int, rows: seq<T>, most: nat) {
    forall x :: x in rows ==> |Tying(cmp, rows, x)| <= most
  }

  /** Then no rank is left without rows, if the sampler spreads its positions. */
  lemma FewTiesFeedAll<T(!new)>(
      cmp: (T, T) -> int, pick: (nat, nat) -> seq<nat>, most: nat, world: seq<seq<T>>, splits: seq<T>)
    requires Lawful(cmp) && Picks(pick) && Spreads(pick) && 1 < |world| <= most
    requires Sampled(cmp, pick, most, world, splits) && FewTies(cmp, most, world)
    ensures |splits| == |world| - 1
    ensures forall q :: 0 <= q < |world| ==> !Starved(cmp, splits, world, q)
  {
    var locals, merged := SampledFrom(cmp, pick, most, world, splits);
    MergedCount(cmp, pick, most, world, locals, merged);
    FewTiesMerged(cmp, pick, most, world, locals, merged, Stride(|merged|, |world| - 1));
    SpreadSplits(cmp, pick, world, merged, splits);
  }

  lemma FewTiesMerged<T(!new)>(
      cmp: (T, T) -> int, pick: (nat, nat) -> seq<nat>, most: nat, world: seq<seq<T>>, locals: seq<seq<T>>,
      merged: seq<T>, ties: nat)
    requires Picks(pick) && Spreads(pick) && SortedCopies(cmp, world, locals)
    requires multiset(merged) == multiset(Flatten(SamplesOf(pick, most, locals)))
    requires TiesAtMost(cmp, Flatten(world), ties)
    ensures forall x :: x in merged ==> x in Flatten(world) && |Tying(cmp, merged, x)| <= ties
  {
    forall x | x in merged
      ensures x in Flatten(world) && |Tying(cmp, merged, x)| <= ties
    {
      SameMembers(merged, Flatten(SamplesOf(pick, most, locals)), x);
      SamplesAreRows(cmp, pick, most, world, locals, x);
      MergedTies(cmp, pick, most, world, locals, merged, x);
    }
  }

  lemma MergedCount<T(!new)>(
      cmp: (T, T) -> int, pick: (nat, nat) -> seq<nat>, most: nat, world: seq<seq<T>>, locals: seq<seq<T>>,
      merged: seq<T>)
    requires Lawful(cmp) && Picks(pick) && |world| <= most && SortedCopies(cmp, world, locals)
    requires multiset(merged) == multiset(Flatten(SamplesOf(pick, most, locals)))
    ensures |merged| == Total(SampleCounts(RowCounts(world), most))
    ensures |Flatten(world)| >= |world| ==> |merged| >= |world|
  {
    var samples := SamplesOf(pick, most, locals);
    SamplesSorted(cmp, pick, most, world, locals);
    ConcatLength(samples, |samples|);
    assert |multiset(merged)| == |multiset(Flatten(samples))|;
    SamplesSuffice(RowCounts(world), most, |world|);
    ConcatLength(world, |world|);
  }

  /** Split points taken from sorted rows further apart than ties reach. */
  lemma SpreadSplits<T(!new)>(
      cmp: (T, T) -> int, pick: (nat, nat) -> seq<nat>, world: seq<seq<T>>, merged: seq<T>, splits: seq<T>)
    requires Lawful(cmp) && Picks(pick) && Spreads(pick) && 1 < |world| <= |merged| && Sorted(cmp, merged)
    requires splits == Sample(pick, merged, |world| - 1)
    requires forall x :: x in merged ==> x in Flatten(world) && |Tying(cmp, merged, x)| <= Stride(|merged|, |world| - 1)
    ensures forall q :: 0 <= q < |world| ==> !Starved(cmp, splits, world, q)
  {
    var n, k := |merged|, |world| - 1;
    var p := pick(n, k);
    assert Spread(p, n, k);
    forall q: nat | q < |world|
      ensures !Starved(cmp, splits, world, q)
    {
      if q == 0 {
        FarApart(cmp, merged, 0, p[0]);
        LawfulAt(cmp, merged[0], splits[0], merged[0]);
        assert merged[0] in merged;
      } else if q < k {
        assert merged[p[q - 1]] in merged;
        FarApart(cmp, merged, p[q - 1], p[q]);
      }
    }
  }

  ghost predicate NoTies<T>(cmp: (T, T) -> int, rows: seq<T>) {
    forall i, j :: 0 <= i < j < |rows| ==> cmp(rows[i], rows[j]) != 0
  }

  lemma {:induction false} TyingOnce<T(!new)>(cmp: (T, T) -> int, rows: seq<T>, x: T)
    requires Lawful(cmp) && NoTies(cmp, rows)
    ensures |Tying(cmp, rows, x)| <= 1
  {
    if rows != [] {
      var n := |rows| - 1;
      TyingOnce(cmp, rows[..n], x);
      var earlier := Tying(cmp, rows[..n], x);
      forall y | y in rows[..n]
        ensures cmp(y, x) == 0 ==> cmp(rows[n], x) != 0
      {
        LawfulAt(cmp, x, rows[n], x);
        LawfulAt(cmp, y, x, rows[n]);
      }
      if earlier != [] {
        RoutedMember(rows[..n], TieRoute(cmp, x), 0, earlier[0]);
        assert cmp(earlier[0], x) == 0;
      }
    }
  }

  /** Without ties it only takes as many rows as there are ranks. */
  lemma FewTiesWhenNone<T(!new)>(cmp: (T, T) -> int, most: nat, world: seq<seq<T>>)
    requires Lawful(cmp) && NoTies(cmp, Flatten(world)) && world != []
    ensures FewTies(cmp, most, world) <==> |Flatten(world)| >= |world|
  {
    forall x | x in Flatten(world)
      ensures |Tying(cmp, Flatten(world), x)| <= 1
    {
      TyingOnce(cmp, Flatten(world), x);
    }
  }

  /** Rows each strictly below the next are as many rows of the table. */
  lemma DistinctNeedsRows<T(!new)>(cmp: (T, T) -> int, rows: seq<T>, n: nat)
    requires Lawful(cmp) && HasDistinct(cmp, rows, n)
    ensures n <= |rows|
  {
    var s: seq<T> :| |s| == n && (forall x :: x in s ==> x in rows) && Strict(cmp, s);
    forall i, j | 0 <= i < j < |s|
      ensures s[i] != s[j]
    {
      LawfulAt(cmp, s[i], s[i], s[i]);
    }
    forall x | x in multiset(s)
      ensures multiset(s)[x] <= multiset(rows)[x]
    {
      NoDuplicatesCount(s, x);
      assert x in rows;
    }
    FewerRows(multiset(s), multiset(rows));
    assert |multiset(s)| == |s| && |multiset(rows)| == |rows|;
  }

  lemma FewerRows<T>(a: multiset<T>, b: multiset<T>)
    requires forall x :: x in a ==> a[x] <= b[x]
    ensures |a| <= |b|
  {
    assert a <= b;
    assert b == a + (b - a);
  }

  // The run

  function SamplingRatio(numSamples: nat): nat {
    if numSamples == 0 then 2 else numSamples
  }

  method LocalPhase<T(!new)>(
      cmp: (T, T) -> int, sort: seq<T> -> seq<T>, pick: (nat, nat) -> seq<nat>, ratio: nat, world: seq<seq<T>>)
      returns (locals: seq<seq<T>>, samples: seq<seq<T>>)
    requires Lawful(cmp) && Sorts(cmp, sort) && Picks(pick)
    ensures SortedCopies(cmp, world, locals)
    ensures samples == SamplesOf(pick, |world| * ratio, locals)
    ensures forall r :: 0 <= r < |samples| ==> Sorted(cmp, samples[r])
    ensures RowCounts(samples) == SampleCounts(RowCounts(world), |world| * ratio)
  {
    locals, samples := [], [];
    var most := |world| * ratio;
    for r := 0 to |world|
      invariant |locals| == r
      invariant forall s :: 0 <= s < r ==> SortedCopy(cmp, world[s], locals[s])
      invariant samples == SamplesOf(pick, most, locals)
    {
      var local, sample := LocalSortAndSample(cmp, sort, pick, most, world[r]);
      assert SamplesOf(pick, most, locals + [local]) == samples + [sample];
      locals, samples := locals + [local], samples + [sample];
    }
    SamplesSorted(cmp, pick, most, world, locals);
  }

  lemma SamplesSorted<T(!new)>(
      cmp: (T, T) -> int, pick: (nat, nat) -> seq<nat>, most: nat, world: seq<seq<T>>, locals: seq<seq<T>>)
    requires Lawful(cmp) && Picks(pick) && SortedCopies(cmp, world, locals)
    ensures var samples := SamplesOf(pick, most, locals);
            (forall r :: 0 <= r < |samples| ==> Sorted(cmp, samples[r])) &&
            RowCounts(samples) == SampleCounts(RowCounts(world), most)
  {
    var samples := SamplesOf(pick, most, locals);
    forall r: nat | r < |samples|
      ensures Sorted(cmp, samples[r]) && |samples[r]| == Min(most, |world[r]|)
    {
      SampleSorted(cmp, pick, locals[r], Min(most, |locals[r]|));
      assert |multiset(locals[r])| == |multiset(world[r])|;
    }
  }

  method SplitPhase<T(!new)>(cmp: (T, T) -> int, splits: seq<T>, locals: seq<seq<T>>)
      returns (parts: Option<seq<seq<seq<T>>>>)
    requires Lawful(cmp) && Sorted(cmp, splits) && |splits| < |locals|
    requires forall r :: 0 <= r < |locals| ==> Sorted(cmp, locals[r]) && |locals[r]| <= INT32_MAX
    ensures parts.Some? <==> |splits| == |locals| - 1
    ensures parts.Some? ==> |parts.value| == |locals| && Square(parts.value)
    ensures parts.Some? ==> forall q :: 0 <= q < |locals| ==>
              Column(parts.value, q) == RoutedWorld(locals, PartitionRoute(cmp, splits), q)
  {
    var all: seq<seq<seq<T>>> := [];
    for r := 0 to |locals|
      invariant |all| == r
      invariant r > 0 ==> |splits| == |locals| - 1
      invariant forall s :: 0 <= s < r ==> |all[s]| == |locals|
      invariant forall s, q :: 0 <= s < r && 0 <= q < |locals| ==>
                  all[s][q] == Routed(locals[s], PartitionRoute(cmp, splits), q)
    {
      var mine := SplitAtPoints(cmp, splits, locals[r], |locals|);
      if mine.None? {
        return None;
      }
      all := all + [mine.value];
    }
    return Some(all);
  }

  /** Rank `q` fails exactly when its partition is empty, and otherwise holds a sorted copy. */
  ghost predicate RankOutcome<T>(
      cmp: (T, T) -> int, splits: seq<T>, world: seq<seq<T>>, q: nat, r: SortResult<T>)
  {
    var mine := Routed(Flatten(world), PartitionRoute(cmp, splits), q);
    match r
    case Ok(rows) => mine != [] && SortedCopy(cmp, mine, rows)
    case Err(error) => mine == [] && error == NothingReceived
  }

  lemma LocalsPermute<T>(cmp: (T, T) -> int, world: seq<seq<T>>, locals: seq<seq<T>>)
    requires SortedCopies(cmp, world, locals)
    ensures multiset(Flatten(locals)) == multiset(Flatten(world))
  {
    ConcatMultisetCong(locals, world, |world|);
  }

  method ReceivePhase<T(!new)>(
      cmp: (T, T) -> int, sort: seq<T> -> seq<T>, splits: seq<T>, world: seq<seq<T>>, locals: seq<seq<T>>,
      received: seq<seq<seq<T>>>) returns (out: seq<SortResult<T>>)
    requires Lawful(cmp) && Sorts(cmp, sort) && SortedCopies(cmp, world, locals)
    requires |received| == |world|
    requires forall q :: 0 <= q < |received| ==> received[q] == RoutedWorld(locals, PartitionRoute(cmp, splits), q)
    ensures |out| == |world| && Outcomes(cmp, splits, world, out)
  {
    out := [];
    LocalsPermute(cmp, world, locals);
    for q := 0 to |received|
      invariant |out| == q && Outcomes(cmp, splits, world, out)
    {
      var mine := ReceiveColumn(cmp, sort, splits, world, locals, q, received[q]);
      OneMoreOutcome(cmp, splits, world, out, mine);
      out := out + [mine];
    }
  }

  ghost predicate Outcomes<T>(cmp: (T, T) -> int, splits: seq<T>, world: seq<seq<T>>, out: seq<SortResult<T>>) {
    forall q :: 0 <= q < |out| ==> RankOutcome(cmp, splits, world, q, out[q])
  }

  lemma OneMoreOutcome<T>(
      cmp: (T, T) -> int, splits: seq<T>, world: seq<seq<T>>, out: seq<SortResult<T>>, mine: SortResult<T>)
    requires Outcomes(cmp, splits, world, out) && RankOutcome(cmp, splits, world, |out|, mine)
    ensures Outcomes(cmp, splits, world, out + [mine])
  {
    forall q: nat | q < |out + [mine]|
      ensures RankOutcome(cmp, splits, world, q, (out + [mine])[q])
    {
    }
  }

  method ReceiveColumn<T(!new)>(
      cmp: (T, T) -> int, sort: seq<T> -> seq<T>, ghost splits: seq<T>, world: seq<seq<T>>,
      ghost locals: seq<seq<T>>, ghost q: nat, column: seq<seq<T>>) returns (mine: SortResult<T>)
    requires Lawful(cmp) && Sorts(cmp, sort)
    requires forall r :: 0 <= r < |locals| ==> Sorted(cmp, locals[r])
    requires multiset(Flatten(locals)) == multiset(Flatten(world))
    requires column == RoutedWorld(locals, PartitionRoute(cmp, splits), q)
    ensures RankOutcome(cmp, splits, world, q, mine)
  {
    ColumnRows(cmp, splits, world, locals, column, q);
    mine := ReceiveAndMerge(cmp, sort, |world|, column);
  }

  lemma ColumnRows<T>(
      cmp: (T, T) -> int, splits: seq<T>, world: seq<seq<T>>, locals: seq<seq<T>>, column: seq<seq<T>>, q: nat)
    requires forall r :: 0 <= r < |locals| ==> Sorted(cmp, locals[r])
    requires multiset(Flatten(locals)) == multiset(Flatten(world))
    requires column == RoutedWorld(locals, PartitionRoute(cmp, splits), q)
    ensures forall s :: 0 <= s < |column| ==> Sorted(cmp, column[s])
    ensures multiset(Flatten(column)) == multiset(Routed(Flatten(world), PartitionRoute(cmp, splits), q))
    ensures Flatten(column) == [] <==> Routed(Flatten(world), PartitionRoute(cmp, splits), q) == []
  {
    var route := PartitionRoute(cmp, splits);
    RoutedConcat(locals, |locals|, route, q);
    RoutedPermutation(Flatten(locals), Flatten(world), route, q);
    forall s | 0 <= s < |column|
      ensures Sorted(cmp, column[s])
    {
      RoutedSorted(cmp, locals[s], route, q);
    }
  }

  ghost predicate AllSucceeded<T>(out: seq<SortResult<T>>) {
    forall q :: 0 <= q < |out| ==> out[q].Ok?
  }

  ghost function SortedTables<T>(out: seq<SortResult<T>>): seq<seq<T>>
    requires AllSucceeded(out)
  {
    seq(|out|, q requires 0 <= q < |out| => out[q].value)
  }

  /** What is known of split points whatever the sampler picks: they are sorted rows of the
      world, and there are W-1 of them exactly when there are W-1 rows. */
  lemma SampledSplits<T(!new)>(
      cmp: (T, T) -> int, pick: (nat, nat) -> seq<nat>, ratio: nat, world: seq<seq<T>>, splits: seq<T>)
    requires Lawful(cmp) && Picks(pick) && world != [] && ratio > 0
    requires Sampled(cmp, pick, |world| * ratio, world, splits)
    ensures Sorted(cmp, splits) && |splits| < |world|
    ensures |splits| == |world| - 1 <==> Total(RowCounts(world)) >= |world| - 1
    ensures forall x :: x in splits ==> x in Flatten(world)
  {
    var most := |world| * ratio;
    SplitsAreRows(cmp, pick, most, world, splits);
    var locals :| SortedCopies(cmp, world, locals) && SplitPointsOf(cmp, pick, SamplesOf(pick, most, locals), splits);
    SamplesSorted(cmp, pick, most, world, locals);
    var samples := SamplesOf(pick, most, locals);
    ConcatLength(samples, |samples|);
    EnoughSamples(RowCounts(world), |world|, ratio);
    SplitsOfSamples(cmp, pick, samples, splits);
  }

  lemma SplitsOfSamples<T(!new)>(
      cmp: (T, T) -> int, pick: (nat, nat) -> seq<nat>, samples: seq<seq<T>>, splits: seq<T>)
    requires Lawful(cmp) && Picks(pick) && samples != [] && SplitPointsOf(cmp, pick, samples, splits)
    ensures Sorted(cmp, splits) && |splits| == Min(|Flatten(samples)|, |samples| - 1)
  {
    var merged :| SortedCopy(cmp, Flatten(samples), merged) &&
                  splits == Sample(pick, merged, Min(|merged|, |samples| - 1));
    assert |multiset(merged)| == |multiset(Flatten(samples))|;
    SampleSorted(cmp, pick, merged, Min(|merged|, |samples| - 1));
  }

  /** The sort over several ranks. Without W-1 rows the split reads past its histogram on
      every rank; otherwise exactly the ranks with an empty partition fail. */
  method SortOverRanks<T(!new)>(
      cmp: (T, T) -> int, sort: seq<T> -> seq<T>, pick: (nat, nat) -> seq<nat>, ratio: nat, world: seq<seq<T>>)
      returns (out: seq<SortResult<T>>, ghost splits: seq<T>)
    requires Lawful(cmp) && Sorts(cmp, sort) && Picks(pick) && |world| > 1 && ratio > 0
    requires forall r :: 0 <= r < |world| ==> |world[r]| <= INT32_MAX
    ensures |out| == |world| && Sampled(cmp, pick, |world| * ratio, world, splits)
    ensures if Total(RowCounts(world)) < |world| - 1
            then forall q :: 0 <= q < |out| ==> out[q] == Err(TooFewSplitPoints)
            else Outcomes(cmp, splits, world, out)
  {
    var locals, samples := LocalPhase(cmp, sort, pick, ratio, world);
    var points := DetermineSplitPoints(cmp, sort, pick, samples);
    splits := points;
    SampledSplits(cmp, pick, ratio, world, splits);
    LocalLengths(cmp, world, locals);
    var parts := SplitPhase(cmp, points, locals);
    if parts.None? {
      out := seq(|world|, _ => Err(TooFewSplitPoints));
    } else {
      var received := AllToAllSeparated(parts.value);
      out := ReceivePhase(cmp, sort, points, world, locals, received);
    }
  }

  /** The ranks that fail are the starved ones, and with fewer than W rows that differ in the
      sort columns there is one, whatever the sampler picks. */
  ghost predicate FailsWhenStarved<T(!new)>(
      cmp: (T, T) -> int, splits: seq<T>, world: seq<seq<T>>, out: seq<SortResult<T>>)
  {
    && |splits| == |world| - 1 > 0
    && (forall q :: 0 <= q < |out| ==> (out[q].Err? <==> Starved(cmp, splits, world, q)))
    && (AllSucceeded(out) ==> HasDistinct(cmp, Flatten(world), |world|))
  }

  lemma OutcomesWhenStarved<T(!new)>(
      cmp: (T, T) -> int, splits: seq<T>, world: seq<seq<T>>, out: seq<SortResult<T>>)
    requires Lawful(cmp) && Sorted(cmp, splits) && |splits| == |world| - 1 > 0 && |out| == |world|
    requires forall x :: x in splits ==> x in Flatten(world)
    requires Outcomes(cmp, splits, world, out)
    ensures FailsWhenStarved(cmp, splits, world, out)
  {
    forall q: nat | q < |out|
      ensures out[q].Err? <==> Starved(cmp, splits, world, q)
    {
      EmptyPartitionExact(cmp, splits, world, q);
      assert RankOutcome(cmp, splits, world, q, out[q]);
    }
    if AllSucceeded(out) {
      FedNeedsDistinct(cmp, splits, world);
    }
  }

  /** What the input says about success on all ranks: it takes as many rows as ranks, and few
      ties are enough; without ties, success is exactly that. */
  ghost predicate SucceedsOnInput<T>(cmp: (T, T) -> int, most: nat, world: seq<seq<T>>, success: bool)
    requires world != []
  {
    && (success ==> |Flatten(world)| >= |world|)
    && (FewTies(cmp, most, world) ==> success)
    && (NoTies(cmp, Flatten(world)) ==> (success <==> |Flatten(world)| >= |world|))
  }

  lemma SuccessOnInput<T(!new)>(
      cmp: (T, T) -> int, pick: (nat, nat) -> seq<nat>, most: nat, world: seq<seq<T>>, splits: seq<T>,
      out: seq<SortResult<T>>)
    requires Lawful(cmp) && Picks(pick) && Spreads(pick) && 1 < |world| <= most && |out| == |world|
    requires Sampled(cmp, pick, most, world, splits)
    requires if Total(RowCounts(world)) < |world| - 1
             then forall q :: 0 <= q < |out| ==> out[q].Err?
             else FailsWhenStarved(cmp, splits, world, out)
    ensures SucceedsOnInput(cmp, most, world, AllSucceeded(out))
  {
    ConcatLength(world, |world|);
    if AllSucceeded(out) {
      assert out[0].Ok?;
      DistinctNeedsRows(cmp, Flatten(world), |world|);
    }
    if FewTies(cmp, most, world) {
      FewTiesFeedAll(cmp, pick, most, world, splits);
    }
    if NoTies(cmp, Flatten(world)) {
      FewTiesWhenNone(cmp, most, world);
    }
  }

  /** Distributed sort. When all ranks succeed, their tables in rank order are a sorted
      permutation of the input. */
  method DistributedSort<T(!new)>(
      cmp: (T, T) -> int, sort: seq<T> -> seq<T>, pick: (nat, nat) -> seq<nat>, numSamples: nat, world: seq<seq<T>>)
      returns (out: seq<SortResult<T>>, ghost splits: seq<T>)
    requires Lawful(cmp) && Sorts(cmp, sort) && Picks(pick) && world != []
    requires |world| > 1 ==> forall r :: 0 <= r < |world| ==> |world[r]| <= INT32_MAX
    ensures |out| == |world|
    ensures |world| == 1 ==> AllSucceeded(out)
    ensures AllSucceeded(out) ==> SortedCopy(cmp, Flatten(world), Flatten(SortedTables(out)))
    ensures AllSucceeded(out) ==>
              forall p, i, q, j :: 0 <= p <= q < |out| && 0 <= i < |out[p].value| && 0 <= j < |out[q].value| &&
                                   (p < q || i < j) ==>
                cmp(out[p].value[i], out[q].value[j]) <= 0
    ensures |world| > 1 ==>
              Sampled(cmp, pick, |world| * (if numSamples == 0 then 2 else numSamples), world, splits)
    ensures |world| > 1 ==>
              if Total(RowCounts(world)) < |world| - 1
              then forall q :: 0 <= q < |out| ==> out[q] == Err(TooFewSplitPoints)
              else Outcomes(cmp, splits, world, out) && FailsWhenStarved(cmp, splits, world, out)
    ensures |world| > 1 && Spreads(pick) ==>
              SucceedsOnInput(cmp, |world| * SamplingRatio(numSamples), world, AllSucceeded(out))
  {
    if |world| == 1 {
      var table := sort(world[0]);
      out, splits := [Ok(table)], [];
      SortedAlone(cmp, world, table);
    } else {
      var ratio := SamplingRatio(numSamples);
      var rows, points := SortOverRanks(cmp, sort, pick, ratio, world);
      out, splits := rows, points;
      SortedOverRanks(cmp, pick, ratio, world, points, rows);
      if Spreads(pick) {
        RatioKeeps(|world|, ratio);
        SuccessOnInput(cmp, pick, |world| * ratio, world, points, rows);
      }
    }
    if AllSucceeded(out) {
      RowsAscend(cmp, out);
    }
  }

  /** Sorted tables in rank order: within a rank and from rank to rank no row is above a later one. */
  lemma RowsAscend<T>(cmp: (T, T) -> int, out: seq<SortResult<T>>)
    requires AllSucceeded(out) && Sorted(cmp, Flatten(SortedTables(out)))
    ensures forall p, i, q, j :: 0 <= p <= q < |out| && 0 <= i < |out[p].value| && 0 <= j < |out[q].value| &&
                                 (p < q || i < j) ==>
              cmp(out[p].value[i], out[q].value[j]) <= 0
  {
    var tables := SortedTables(out);
    forall p: nat, i: nat, q: nat, j: nat |
        p <= q < |out| && i < |out[p].value| && j < |out[q].value| && (p < q || i < j)
      ensures cmp(out[p].value[i], out[q].value[j]) <= 0
    {
      ConcatAt(tables, |tables|, p, i);
      ConcatAt(tables, |tables|, q, j);
      if p < q {
        BeforeMonotone(RowCounts(tables), p + 1, q);
      }
    }
  }


  lemma RatioKeeps(world: nat, ratio: nat)
    requires ratio > 0
    ensures world <= world * ratio
  {
  }

  lemma SortedOverRanks<T(!new)>(
      cmp: (T, T) -> int, pick: (nat, nat) -> seq<nat>, ratio: nat, world: seq<seq<T>>, splits: seq<T>,
      out: seq<SortResult<T>>)
    requires Lawful(cmp) && Picks(pick) && |world| > 1 && ratio > 0 && |out| == |world|
    requires Sampled(cmp, pick, |world| * ratio, world, splits)
    requires if Total(RowCounts(world)) < |world| - 1
             then forall q :: 0 <= q < |out| ==> out[q] == Err(TooFewSplitPoints)
             else Outcomes(cmp, splits, world, out)
    ensures Total(RowCounts(world)) >= |world| - 1 ==> FailsWhenStarved(cmp, splits, world, out)
    ensures AllSucceeded(out) ==> SortedCopy(cmp, Flatten(world), Flatten(SortedTables(out)))
  {
    SampledSplits(cmp, pick, ratio, world, splits);
    if Total(RowCounts(world)) >= |world| - 1 {
      OutcomesWhenStarved(cmp, splits, world, out);
    } else {
      assert out[0].Err?;
    }
    if AllSucceeded(out) {
      RangePartitionsSort(cmp, splits, world, SortedTables(out));
    }
  }

  lemma SortedAlone<T>(cmp: (T, T) -> int, world: seq<seq<T>>, table: seq<T>)
    requires |world| == 1 && SortedCopy(cmp, world[0], table)
    ensures AllSucceeded([Ok(table)])
    ensures SortedCopy(cmp, Flatten(world), Flatten(SortedTables([Ok(table)])))
  {
    FlattenOne(world);
    FlattenOne([table]);
    assert SortedTables([Ok(table)]) == [table];
  }

  lemma LocalLengths<T>(cmp: (T, T) -> int, world: seq<seq<T>>, locals: seq<seq<T>>)
    requires SortedCopies(cmp, world, locals)
    ensures forall r :: 0 <= r < |world| ==> Sorted(cmp, locals[r]) && |locals[r]| == |world[r]|
  {
    forall r | 0 <= r < |world|
      ensures |locals[r]| == |world[r]|
    {
      assert |multiset(locals[r])| == |multiset(world[r])|;
    }
  }
}
