/** How the partitions are spread over the ranks (cpp/src/cylon/table.cpp:82-91). */
module Spreading {
  import opened Division
  import opened Int32
  import opened Tables

  /** The rank that partition `i` of `n` is sent to. */
  function Target(world: nat, n: nat, i: nat): nat
    requires i < n
  {
    if world == n then i else i * world / n
  }

  /** The targets of all partitions. `None` is an overflow: `i * world_size` is formed in an
      `int` unless there are as many partitions as ranks. */
  method SendTargets(world: nat, n: nat) returns (targets: Option<seq<nat>>)
    ensures targets.Some? <==> world == n || n == 0 || (n - 1) * world <= INT32_MAX
    ensures targets.Some? ==> |targets.value| == n && forall i :: 0 <= i < n ==> targets.value[i] == Target(world, n, i)
  {
    var all: seq<nat> := [];
    for i := 0 to n
      invariant |all| == i && forall j :: 0 <= j < i ==> all[j] == Target(world, n, j)
      invariant world == n || i == 0 || (i - 1) * world <= INT32_MAX
    {
      var target := SendTarget(world, n, i);
      if target.None? {
        ProductAtMost(i, n - 1, world);
        return None;
      }
      all := all + [target.value];
    }
    return Some(all);
  }

  method SendTarget(world: nat, n: nat, i: nat) returns (target: Option<nat>)
    requires i < n
    ensures target.Some? <==> world == n || i * world <= INT32_MAX
    ensures target.Some? ==> target.value == Target(world, n, i)
  {
    if world == n {
      return Some(i);
    }
    var product := i * world;
    if !IsInt32(product) {
      return None;
    }
    return Some(product / n);
  }

  lemma ProductAtMost(i: nat, last: nat, world: nat)
    requires i <= last
    ensures 0 <= i * world <= last * world
  {
  }

  lemma LastTarget(world: nat, n: nat)
    requires 0 < world < n
    ensures Target(world, n, n - 1) == world - 1
  {
    assert (n - 1) * world == world * n - world;
    assert (world - 1) * n == world * n - n;
    DivBounds((n - 1) * world, n, world - 1);
  }

  lemma LastTargetUnused(world: nat, n: nat, i: nat)
    requires i < n < world
    ensures Target(world, n, i) != world - 1
  {
    DivBounds(i * world, n, world - 1);
    assert i * world <= (n - 1) * world == world * n - world < world * n - n == (world - 1) * n;
  }

  /** The first partition of rank `q`: the ceiling of `q * n / world`. */
  function FirstPartition(world: nat, n: nat, q: nat): nat
    requires world > 0
  {
    (q * n + world - 1) / world
  }

  lemma FirstPartitionBound(world: nat, n: nat, q: nat, i: nat)
    requires world > 0
    ensures FirstPartition(world, n, q) <= i <==> q * n <= i * world
  {
    var x := q * n + world - 1;
    var f := x / world;
    assert f * world <= x < f * world + world;
    if f <= i {
      assert f * world <= i * world;
    } else {
      assert (i + 1) * world <= f * world;
    }
  }

  lemma TargetIsProportional(world: nat, n: nat, i: nat)
    requires i < n
    ensures Target(world, n, i) == i * world / n
  {
    if world == n {
      DivBounds(i * world, n, i);
    }
  }

  lemma FirstPartitionEnds(world: nat, n: nat)
    requires world > 0
    ensures FirstPartition(world, n, 0) == 0 && FirstPartition(world, n, world) == n
  {
    DivBounds(0 * n + world - 1, world, 0);
    DivBounds(world * n + world - 1, world, n);
  }

  lemma BlockSize(world: nat, n: nat, x: nat)
    requires world > 0
    ensures var size := (x + n) / world - x / world;
            size == n / world || (size == n / world + 1 && n % world != 0)
  {
    DivMod(x, world);
    DivMod(n, world);
    SumOfQuotients(world, x / world, n / world, x % world, n % world);
  }

  lemma SumOfQuotients(d: nat, q: nat, u: nat, a: nat, b: nat)
    requires a < d && b < d
    ensures (q * d + a + (u * d + b)) / d == q + u + if a + b < d then 0 else 1
  {
    assert (q + u) * d == q * d + u * d;
    QuotientOf(q * d + a + (u * d + b), d, q + u, a + b);
  }

  /** The ranks receive consecutive blocks of partitions that tile `0..n` ... */
  lemma TargetBlocks(world: nat, n: nat, q: nat, i: nat)
    requires q < world && i < n
    ensures Target(world, n, i) == q <==> FirstPartition(world, n, q) <= i < FirstPartition(world, n, q + 1)
    ensures FirstPartition(world, n, 0) == 0 && FirstPartition(world, n, world) == n
  {
    TargetIsProportional(world, n, i);
    FirstPartitionBound(world, n, q, i);
    FirstPartitionBound(world, n, q + 1, i);
    DivBounds(i * world, n, q);
    FirstPartitionEnds(world, n);
  }

  /** ... and each block holds floor(n / world) or ceil(n / world) of them. */
  lemma TargetBlockSize(world: nat, n: nat, q: nat)
    requires world > 0
    ensures var size := FirstPartition(world, n, q + 1) - FirstPartition(world, n, q);
            size == n / world || (size == n / world + 1 && n % world != 0)
  {
    var x := q * n + world - 1;
    assert (q + 1) * n + world - 1 == x + n;
    BlockSize(world, n, x);
  }
}
