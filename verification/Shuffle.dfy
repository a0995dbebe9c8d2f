/** Hash shuffle (cpp/src/cylon/table.cpp:194-237): rows travel to the rank their key
    hashes to, through the push-back variant of the exchange. */
module Shuffle {
  import opened Tables
  import opened Partitioning
  import opened Exchange

  /** MapToHashPartitions: the target of a row is a function of its key alone. */
  function KeyRoute<T, K>(key: T -> K, hash: K -> nat, world: nat): T -> nat
    requires world > 0
  {
    x => hash(key(x)) % world
  }

  /** The route when all columns are hashed. */
  function RowRoute<T>(hash: T -> nat, world: nat): T -> nat
    requires world > 0
  {
    x => hash(x) % world
  }

  function HashTargets<T>(rows: seq<T>, route: T -> nat): seq<nat> {
    seq(|rows|, k requires 0 <= k < |rows| => route(rows[k]))
  }

  /** The partitions every rank hands to the exchange. */
  function Partitions<T>(world: seq<seq<T>>, route: T -> nat): seq<seq<seq<T>>> {
    seq(|world|, s requires 0 <= s < |world| => SplitAll(world[s], HashTargets(world[s], route), |world|))
  }

  /** `out` is what the ranks leave with in the run `trace` of the shuffle of `world`. */
  ghost predicate ShuffleRun<T>(world: seq<seq<T>>, route: T -> nat, trace: seq<State<T>>, out: seq<seq<T>>) {
    RunEndsWith(Partitions(world, route), trace, out)
  }

  /** Every rank holds the rows of its route class, in any order. */
  ghost predicate Shuffled<T>(world: seq<seq<T>>, route: T -> nat, out: seq<seq<T>>) {
    && |out| == |world|
    && forall d :: 0 <= d < |world| ==> multiset(out[d]) == multiset(Routed(Flatten(world), route, d))
  }

  lemma ColumnIsRouted<T>(world: seq<seq<T>>, route: T -> nat, d: nat)
    requires d < |world|
    ensures Square(Partitions(world, route))
    ensures Column(Partitions(world, route), d) == RoutedWorld(world, route, d)
  {
    forall s: nat | s < |world|
      ensures Partitions(world, route)[s][d] == Routed(world[s], route, d)
    {
      SplitByRoute(world[s], HashTargets(world[s], route), route, d);
    }
  }

  /** Whatever the interleaving, a shuffle brings each rank exactly the rows of its class. */
  lemma ShuffleDelivers<T>(world: seq<seq<T>>, route: T -> nat, trace: seq<State<T>>, out: seq<seq<T>>)
    requires ShuffleRun(world, route, trace, out)
    ensures Shuffled(world, route, out)
  {
    var parts := Partitions(world, route);
    forall d: nat | d < |world|
      ensures multiset(out[d]) == multiset(Routed(Flatten(world), route, d))
    {
      ColumnIsRouted(world, route, d);
      LeavesWithColumn(parts, trace, d, out[d]);
      RoutedConcat(world, |world|, route, d);
    }
  }

  lemma ShuffledCount<T>(world: seq<seq<T>>, route: T -> nat, out: seq<seq<T>>, d: nat, x: T)
    requires Shuffled(world, route, out) && d < |world|
    ensures multiset(out[d])[x] == if route(x) == d then multiset(Flatten(world))[x] else 0
  {
    RoutedCount(Flatten(world), route, d, x);
  }

  /** A row is on the rank that the hash of its key says, modulo the number of ranks, as often as
      in the input, and nowhere else. */
  lemma ShuffleByKey<T, K>(
      world: seq<seq<T>>, key: T -> K, hash: K -> nat, trace: seq<State<T>>, out: seq<seq<T>>, d: nat, x: T)
    requires d < |world| && ShuffleRun(world, KeyRoute(key, hash, |world|), trace, out)
    ensures |out| == |world|
    ensures multiset(out[d])[x] == if hash(key(x)) % |world| == d then multiset(Flatten(world))[x] else 0
  {
    ShuffleDelivers(world, KeyRoute(key, hash, |world|), trace, out);
    ShuffledCount(world, KeyRoute(key, hash, |world|), out, d, x);
  }

  /** The same with all columns hashed. */
  lemma ShuffleByRow<T>(
      world: seq<seq<T>>, hash: T -> nat, trace: seq<State<T>>, out: seq<seq<T>>, d: nat, x: T)
    requires d < |world| && ShuffleRun(world, RowRoute(hash, |world|), trace, out)
    ensures |out| == |world|
    ensures multiset(out[d])[x] == if hash(x) % |world| == d then multiset(Flatten(world))[x] else 0
  {
    ShuffleDelivers(world, RowRoute(hash, |world|), trace, out);
    ShuffledCount(world, RowRoute(hash, |world|), out, d, x);
  }

  lemma ShuffledMember<T>(world: seq<seq<T>>, route: T -> nat, out: seq<seq<T>>, d: nat, x: T)
    requires Shuffled(world, route, out) && d < |world|
    ensures x in out[d] <==> x in Flatten(world) && route(x) == d
  {
    ShuffledCount(world, route, out, d, x);
    assert x in out[d] <==> x in multiset(out[d]);
    assert x in Flatten(world) <==> x in multiset(Flatten(world));
  }

  /** A shuffle is a permutation of the global table. */
  lemma ShuffleConserves<T>(world: seq<seq<T>>, route: T -> nat, out: seq<seq<T>>)
    requires Shuffled(world, route, out)
    requires forall x :: x in Flatten(world) ==> route(x) < |world|
    ensures multiset(Flatten(out)) == multiset(Flatten(world))
  {
    forall x
      ensures multiset(Flatten(out))[x] == multiset(Flatten(world))[x]
    {
      forall d: nat | d < |world| && d != route(x)
        ensures x !in out[d]
      {
        ShuffledMember(world, route, out, d, x);
      }
      OwnerCount(out, |out|, x, route(x));
      if route(x) < |world| {
        ShuffledCount(world, route, out, route(x), x);
      } else {
        assert x !in multiset(Flatten(world));
      }
    }
    SameCounts(multiset(Flatten(out)), multiset(Flatten(world)));
  }

  // gcylon: cpp/src/gcylon/gtable_api.cpp:33-47

  /** cudf::hash_partition by its contract: the rows permuted so that the class of target `p`
      starts at `offsets[p]`. */
  ghost predicate HashPartitioned<T>(rows: seq<T>, route: T -> nat, permuted: seq<T>, offsets: seq<nat>) {
    && multiset(permuted) == multiset(rows)
    && (forall p, q :: 0 <= p <= q < |offsets| ==> offsets[p] <= offsets[q] <= |rows|)
    && forall p, k :: 0 <= p < |offsets| && 0 <= k < |permuted| ==>
         (route(permuted[k]) == p <==> offsets[p] <= k && (p == |offsets| - 1 || k < offsets[p + 1]))
  }

  /** The partitions of a table for `n` targets, each right up to the order of its rows. */
  ghost predicate ClassesOf<T>(rows: seq<T>, route: T -> nat, parts: seq<seq<T>>, n: nat) {
    |parts| == n && forall p :: 0 <= p < n ==> multiset(parts[p]) == multiset(Routed(rows, route, p))
  }

  /** The row count is pushed behind the offsets, so that slice `p` is the class of `p`. */
  method GpuPartitions<T>(ghost rows: seq<T>, ghost route: T -> nat, permuted: seq<T>, offsets: seq<nat>)
      returns (parts: seq<seq<T>>)
    requires HashPartitioned(rows, route, permuted, offsets)
    ensures ClassesOf(rows, route, parts, |offsets|)
  {
    var ends := offsets + [|permuted|];
    parts := [];
    for p := 0 to |offsets|
      invariant ClassesOf(rows, route, parts, p)
    {
      ClassSlice(rows, route, permuted, offsets, p);
      parts := parts + [permuted[ends[p]..ends[p + 1]]];
    }
  }

  lemma ClassSlice<T>(rows: seq<T>, route: T -> nat, permuted: seq<T>, offsets: seq<nat>, p: nat)
    requires HashPartitioned(rows, route, permuted, offsets) && p < |offsets|
    ensures var ends := offsets + [|permuted|];
            ends[p] <= ends[p + 1] <= |permuted| &&
            multiset(permuted[ends[p]..ends[p + 1]]) == multiset(Routed(rows, route, p))
  {
    assert |multiset(permuted)| == |multiset(rows)|;
    var ends := offsets + [|permuted|];
    assert ends[p] == offsets[p] && ends[p + 1] == if p == |offsets| - 1 then |permuted| else offsets[p + 1];
    SliceIsClass(rows, route, permuted, p, ends[p], ends[p + 1]);
  }

  lemma SliceIsClass<T>(rows: seq<T>, route: T -> nat, permuted: seq<T>, p: nat, lo: nat, hi: nat)
    requires multiset(permuted) == multiset(rows) && lo <= hi <= |permuted|
    requires forall k :: 0 <= k < |permuted| ==> (route(permuted[k]) == p <==> lo <= k < hi)
    ensures multiset(permuted[lo..hi]) == multiset(Routed(rows, route, p))
  {
    var targets := HashTargets(permuted, route);
    SplitSegment(permuted, targets, p, lo, hi);
    SplitByRoute(permuted, targets, route, p);
    RoutedPermutation(permuted, rows, route, p);
  }

  /** `out` is what the ranks leave with in the run `trace` of gcylon's shuffle of `world`,
      whose ranks cut their tables into `parts`. */
  ghost predicate GpuShuffleRun<T>(
      world: seq<seq<T>>, route: T -> nat, parts: seq<seq<seq<T>>>, trace: seq<State<T>>, out: seq<seq<T>>)
  {
    && |parts| == |world|
    && (forall s :: 0 <= s < |world| ==> ClassesOf(world[s], route, parts[s], |world|))
    && RunEndsWith(parts, trace, out)
  }

  /** gcylon's shuffle, too, brings each rank exactly the rows of its class in every run. */
  lemma GpuShuffleDelivers<T>(
      world: seq<seq<T>>, route: T -> nat, parts: seq<seq<seq<T>>>, trace: seq<State<T>>, out: seq<seq<T>>)
    requires GpuShuffleRun(world, route, parts, trace, out)
    ensures Shuffled(world, route, out)
  {
    forall d: nat | d < |world|
      ensures multiset(out[d]) == multiset(Routed(Flatten(world), route, d))
    {
      GpuColumn(world, route, parts, d);
      LeavesWithColumn(parts, trace, d, out[d]);
    }
  }

  lemma GpuColumn<T>(world: seq<seq<T>>, route: T -> nat, parts: seq<seq<seq<T>>>, d: nat)
    requires |parts| == |world| && d < |world|
    requires forall s :: 0 <= s < |world| ==> ClassesOf(world[s], route, parts[s], |world|)
    ensures Square(parts)
    ensures multiset(Flatten(Column(parts, d))) == multiset(Routed(Flatten(world), route, d))
  {
    ConcatMultisetCong(Column(parts, d), RoutedWorld(world, route, d), |world|);
    RoutedConcat(world, |world|, route, d);
  }
}
