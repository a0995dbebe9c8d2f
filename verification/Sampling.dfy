/** Where SampleTableUniform takes its samples (cpp/src/cylon/util/arrow_utils.cpp:226-265). */
module Sampling {
  import opened Division

  ghost predicate Ascending(positions: seq<nat>, n: nat) {
    && (forall i :: 0 <= i < |positions| ==> positions[i] < n)
    && forall i, j :: 0 <= i < j < |positions| ==> positions[i] <= positions[j]
  }

  /** SampleTableUniform by its contract: `k` ascending positions among `n` rows. */
  ghost predicate Picks(pick: (nat, nat) -> seq<nat>) {
    forall n, k :: 0 < k <= n ==> |pick(n, k)| == k && Ascending(pick(n, k), n)
  }

  /** The positions of SampleTableUniform (cpp/src/cylon/util/arrow_utils.cpp:243-255),
      computed without rounding: multiples of n / (k + 1), rounded down. */
  function UniformPosition(n: nat, k: nat, i: nat): nat {
    (i + 1) * n / (k + 1)
  }

  function UniformPositions(n: nat, k: nat): seq<nat> {
    seq(k, i requires 0 <= i < k => UniformPosition(n, k, i))
  }

  lemma UniformBounds(n: nat, k: nat, i: nat, j: nat)
    requires 0 < n && i <= j < k
    ensures UniformPosition(n, k, i) <= UniformPosition(n, k, j) < n
  {
    assert (i + 1) * n <= (j + 1) * n <= k * n < n * (k + 1);
    DivMonotone((i + 1) * n, (j + 1) * n, k + 1);
    DivBelow((j + 1) * n, k + 1, n);
  }

  /** Position `i` is the whole part of `(i + 1) * n / (k + 1)`. */
  lemma UniformExact(n: nat, k: nat, i: nat)
    ensures UniformPosition(n, k, i) * (k + 1) <= (i + 1) * n < (UniformPosition(n, k, i) + 1) * (k + 1)
  {
    DivBounds((i + 1) * n, k + 1, UniformPosition(n, k, i));
  }

  /** Uniform sampling meets the contract. */
  lemma UniformPicks()
    ensures Picks(UniformPositions)
  {
    forall n: nat, k: nat | 0 < k <= n
      ensures |UniformPositions(n, k)| == k && Ascending(UniformPositions(n, k), n)
    {
      var p := UniformPositions(n, k);
      forall i: nat | i < k
        ensures p[i] < n
      {
        UniformBounds(n, k, i, i);
      }
      forall i, j | 0 <= i < j < k
        ensures p[i] <= p[j]
      {
        UniformBounds(n, k, i, j);
      }
    }
  }

  /** The distance that sampling keeps between positions: that of an even spread, rounded down,
      as far as it is less than 2^23, and at least 1. */
  function Stride(n: nat, k: nat): nat {
    var even := (if n < 0x80_0000 then n else 0x80_0000) / (k + 1);
    if even == 0 then 1 else even
  }

  /** `k` positions among `n` rows that keep that distance from each other and, when some rows
      are left out, from the start. */
  ghost predicate Spread(positions: seq<nat>, n: nat, k: nat) {
    && |positions| == k
    && (forall i :: 0 <= i < k ==> positions[i] < n)
    && (forall i, j :: 0 <= i < j < k ==> positions[i] + Stride(n, k) <= positions[j])
    && (0 < k < n ==> Stride(n, k) <= positions[0])
  }

  ghost predicate Spreads(pick: (nat, nat) -> seq<nat>) {
    forall n, k :: 0 < k <= n ==> Spread(pick(n, k), n, k)
  }

  lemma SpreadsPicks(pick: (nat, nat) -> seq<nat>)
    requires Spreads(pick)
    ensures Picks(pick)
  {
    forall n: nat, k: nat | 0 < k <= n
      ensures |pick(n, k)| == k && Ascending(pick(n, k), n)
    {
      assert Spread(pick(n, k), n, k);
    }
  }

  /** A stride that every step keeps, all steps together keep. */
  lemma {:induction false} StepsKeep(positions: seq<nat>, stride: nat, i: nat, j: nat)
    requires i < j < |positions|
    requires forall h :: 0 <= h < |positions| - 1 ==> positions[h] + stride <= positions[h + 1]
    ensures positions[i] + stride <= positions[j]
  {
    assert positions[j - 1] + stride <= positions[j];
    if i < j - 1 {
      StepsKeep(positions, stride, i, j - 1);
    }
  }

  lemma StrideBelow(n: nat, k: nat)
    requires 0 < k < n
    ensures Stride(n, k) <= n / (k + 1)
  {
    DivMonotone(if n < 0x80_0000 then n else 0x80_0000, n, k + 1);
    DivMonotone(k + 1, n, k + 1);
    DivBounds(k + 1, k + 1, 1);
  }

  /** The stride is the even share of rows, when that is at least one row. */
  lemma StrideExact(n: nat, k: nat)
    requires k < n < 0x80_0000
    ensures Stride(n, k) * (k + 1) <= n < (Stride(n, k) + 1) * (k + 1)
  {
    DivMonotone(k + 1, n, k + 1);
    DivBounds(k + 1, k + 1, 1);
    DivBounds(n, k + 1, n / (k + 1));
  }

  lemma StrideOfAll(n: nat)
    ensures Stride(n, n) == 1
  {
    DivBelow(if n < 0x80_0000 then n else 0x80_0000, n + 1, 1);
  }

  /** One position more is `n / (k + 1)` further, at least. */
  lemma UniformStep(n: nat, k: nat, i: nat)
    ensures UniformPosition(n, k, i) + n / (k + 1) <= UniformPosition(n, k, i + 1)
    ensures n / (k + 1) <= UniformPosition(n, k, 0)
  {
    assert (i + 2) * n == (i + 1) * n + n;
    DivSum((i + 1) * n, n, k + 1);
  }

  /** Sampling all rows takes every one of them. */
  lemma UniformAll(n: nat, i: nat)
    requires i < n
    ensures UniformPosition(n, n, i) == i
  {
    assert (i + 1) * n == i * (n + 1) + (n - i);
    DivBounds((i + 1) * n, n + 1, i);
  }

  /** Uniform sampling, computed exactly, spreads its positions. */
  lemma UniformSpreads()
    ensures Spreads(UniformPositions)
  {
    forall n: nat, k: nat | 0 < k <= n
      ensures Spread(UniformPositions(n, k), n, k)
    {
      UniformSpread(n, k);
    }
  }

  lemma UniformSpread(n: nat, k: nat)
    requires 0 < k <= n
    ensures Spread(UniformPositions(n, k), n, k)
  {
    var p := UniformPositions(n, k);
    forall i: nat | i < k
      ensures p[i] < n
      ensures i < k - 1 ==> p[i] + Stride(n, k) <= p[i + 1]
    {
      UniformBounds(n, k, i, i);
      UniformKeeps(n, k, i);
    }
    forall i: nat, j: nat | i < j < k
      ensures p[i] + Stride(n, k) <= p[j]
    {
      StepsKeep(p, Stride(n, k), i, j);
    }
    if k < n {
      UniformKeeps(n, k, 0);
    }
  }

  lemma UniformKeeps(n: nat, k: nat, i: nat)
    requires 0 < k <= n && i < k
    ensures i < k - 1 ==> UniformPosition(n, k, i) + Stride(n, k) <= UniformPosition(n, k, i + 1)
    ensures k < n ==> Stride(n, k) <= UniformPosition(n, k, 0)
  {
    if k < n {
      StrideBelow(n, k);
      UniformStep(n, k, i);
    } else {
      StrideOfAll(n);
      UniformAll(n, i);
      if i < k - 1 {
        UniformAll(n, i + 1);
      }
    }
  }
}
