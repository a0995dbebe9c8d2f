/** Repartition (cpp/src/cylon/table.cpp:1481-1568 and cpp/src/gcylon/gtable_api.cpp:49-76):
    moving rows between ranks to meet given row counts without changing the global order. */
module Repartition {
  import opened Int32
  import opened Tables
  import opened RowIndices
  import opened EvenDivision
  import opened Partitioning
  import opened Exchange
  import opened SlotExchange

  datatype Error = ValueError | OutOfBounds | SignedOverflow

  // Specification

  /** The `i`-th of the consecutive blocks of `targets` rows. */
  function Block<T>(rows: seq<T>, targets: seq<nat>, i: nat): seq<T>
    requires i < |targets|
  {
    BeforeMonotone(targets, i, i + 1);
    rows[Min(Before(targets, i), |rows|)..Min(Before(targets, i + 1), |rows|)]
  }

  function Blocks<T>(rows: seq<T>, targets: seq<nat>): seq<seq<T>> {
    seq(|targets|, i requires 0 <= i < |targets| => Block(rows, targets, i))
  }

  /** A list of the ranks in some order. */
  ghost predicate IsRankOrder(order: seq<nat>, world: nat) {
    && |order| == world
    && NoDuplicates(order)
    && forall i :: 0 <= i < world ==> order[i] < world
  }

  /** The targets can hold more rows than there are, or as many and the last rank has one. */
  ghost predicate CanRepartition(current: seq<nat>, targets: seq<nat>)
    requires current != []
  {
    Total(current) < Total(targets) ||
    (Total(current) == Total(targets) && current[|current| - 1] > 0)
  }

  // One rank

  /** `out_partitions`: the rows between two cuts are meant for one entry of `order`. */
  method OutPartitions(rows: nat, cuts: seq<int>, order: seq<nat>) returns (targets: seq<nat>)
    requires |cuts| == |order| + 1 && Tiles(cuts, rows)
    ensures |targets| == rows && Labelled(cuts, order, targets, |order|)
    ensures forall i, k :: 0 <= i < |order| && cuts[i] <= k < cuts[i + 1] ==> targets[k] == order[i]
  {
    var out := new nat[rows](_ => 0);
    for i := 0 to |order|
      invariant Labelled(cuts, order, out[..], i)
    {
      Fill(out, cuts[i], cuts[i + 1], order[i]);
    }
    targets := out[..];
  }

  /** The rows of the first `k` stretches carry their entries of `order`. */
  ghost predicate Labelled(cuts: seq<int>, order: seq<nat>, targets: seq<nat>, k: nat)
    requires |cuts| == |order| + 1 && Tiles(cuts, |targets|) && k <= |order|
  {
    forall i, j :: 0 <= i < k && cuts[i] <= j < cuts[i + 1] ==> targets[j] == order[i]
  }

  /** Every row is meant for a rank below `world`. */
  ghost predicate MeantForWorld(cuts: seq<int>, order: seq<nat>, world: nat)
    requires |cuts| == |order| + 1
  {
    forall i :: 0 <= i < |order| && cuts[i] < cuts[i + 1] ==> order[i] < world
  }

  predicate AllBelow(s: seq<nat>, n: nat) {
    forall k :: 0 <= k < |s| ==> s[k] < n
  }

  lemma LabelsInWorld(cuts: seq<int>, order: seq<nat>, targets: seq<nat>, world: nat)
    requires |cuts| == |order| + 1 && Tiles(cuts, |targets|) && Labelled(cuts, order, targets, |order|)
    ensures AllBelow(targets, world) <==> MeantForWorld(cuts, order, world)
  {
    if AllBelow(targets, world) {
      forall i: nat | i < |order| && cuts[i] < cuts[i + 1]
        ensures order[i] < world
      {
        assert targets[cuts[i]] == order[i];
      }
    }
    forall k: nat | MeantForWorld(cuts, order, world) && k < |targets|
      ensures targets[k] < world
    {
      var i := LocateCut(cuts, k, |order|);
      assert targets[k] == order[i];
    }
  }

  lemma {:induction false} LocateCut(cuts: seq<int>, k: nat, j: nat) returns (i: nat)
    requires j < |cuts| && cuts[0] <= k < cuts[j]
    ensures i < j && cuts[i] <= k < cuts[i + 1]
  {
    if cuts[j - 1] <= k {
      i := j - 1;
    } else {
      i := LocateCut(cuts, k, j - 1);
    }
  }

  /** The stretches meant for rank `q`, one after the other. */
  function Pieces<T>(rows: seq<T>, cuts: seq<int>, order: seq<nat>, q: nat, k: nat): seq<T>
    requires |cuts| == |order| + 1 && Tiles(cuts, |rows|) && k <= |order|
  {
    if k == 0 then []
    else Pieces(rows, cuts, order, q, k - 1) + if order[k - 1] == q then rows[cuts[k - 1]..cuts[k]] else []
  }

  lemma {:induction false} SplitInPieces<T>(
      rows: seq<T>, cuts: seq<int>, order: seq<nat>, targets: seq<nat>, q: nat, k: nat)
    requires |cuts| == |order| + 1 && Tiles(cuts, |rows|) && |targets| == |rows| && k <= |order|
    requires Labelled(cuts, order, targets, |order|)
    ensures Split(rows[..cuts[k]], targets[..cuts[k]], q) == Pieces(rows, cuts, order, q, k)
  {
    if k > 0 {
      SplitInPieces(rows, cuts, order, targets, q, k - 1);
      var lo, hi := cuts[k - 1], cuts[k];
      SplitConstant(rows[lo..hi], targets[lo..hi], order[k - 1], q);
      SplitAppend(rows[..lo], rows[lo..hi], targets[..lo], targets[lo..hi], q);
      assert rows[..lo] + rows[lo..hi] == rows[..hi];
      assert targets[..lo] + targets[lo..hi] == targets[..hi];
    }
  }

  /** With distinct entries rank `order[i]` gets the `i`-th stretch and nothing else. */
  lemma {:induction false} OnePiece<T>(rows: seq<T>, cuts: seq<int>, order: seq<nat>, i: nat, k: nat)
    requires |cuts| == |order| + 1 && Tiles(cuts, |rows|) && k <= |order|
    requires NoDuplicates(order) && i < |order|
    ensures Pieces(rows, cuts, order, order[i], k) == if i < k then rows[cuts[i]..cuts[i + 1]] else []
  {
    if k > 0 {
      OnePiece(rows, cuts, order, i, k - 1);
    }
  }

  // The world

  /** What rank `r` sends towards block `i`. */
  function Slice<T>(world: seq<seq<T>>, targets: seq<nat>, r: nat, i: nat): seq<T>
    requires r < |world| && i < |targets|
  {
    BeforeMonotone(targets, i, i + 1);
    world[r][Cut(RowCounts(world), targets, r, i)..Cut(RowCounts(world), targets, r, i + 1)]
  }

  lemma SliceOfAppend<T>(x: seq<T>, y: seq<T>, lo: nat, hi: nat)
    requires lo <= hi
    ensures (x + y)[Min(lo, |x + y|)..Min(hi, |x + y|)] ==
            x[Min(lo, |x|)..Min(hi, |x|)] + y[Clamp(lo - |x|, 0, |y|)..Clamp(hi - |x|, 0, |y|)]
  {
    var l, h := Min(lo, |x + y|), Min(hi, |x + y|);
    SliceAcross(x, y, l, h);
  }

  lemma SliceAcross<T>(x: seq<T>, y: seq<T>, l: nat, h: nat)
    requires l <= h <= |x| + |y|
    ensures (x + y)[l..h] ==
            if h <= |x| then x[l..h]
            else if |x| <= l then y[l - |x|..h - |x|]
            else x[l..] + y[..h - |x|]
  {
  }

  /** The independently computed slices fit together: in rank order they are the block. */
  lemma {:induction false} SlicesFormBlock<T>(
      world: seq<seq<T>>, targets: seq<nat>, i: nat, slices: seq<seq<T>>, k: nat)
    requires k <= |world| == |slices| && i < |targets|
    requires forall r :: 0 <= r < |world| ==> slices[r] == Slice(world, targets, r, i)
    ensures Concat(slices, k) == Block(Concat(world, k), targets, i)
  {
    if k > 0 {
      SlicesFormBlock(world, targets, i, slices, k - 1);
      BlockOfAppend(world, targets, i, k - 1);
    }
  }

  lemma BlockOfAppend<T>(world: seq<seq<T>>, targets: seq<nat>, i: nat, r: nat)
    requires r < |world| && i < |targets|
    ensures Block(Concat(world, r + 1), targets, i) ==
            Block(Concat(world, r), targets, i) + Slice(world, targets, r, i)
  {
    ConcatLength(world, r);
    BeforeMonotone(targets, i, i + 1);
    SliceOfAppend(Concat(world, r), world[r], Before(targets, i), Before(targets, i + 1));
  }

  /** The rank's computed cuts stay inside the targets and inside its own rows, and no row is
      meant for a rank outside the world. */
  ghost predicate CanSend(current: seq<nat>, targets: seq<nat>, order: seq<nat>, rank: nat)
    requires rank < |current| && |order| == |targets|
  {
    && InsideNarrowly(current, targets, rank)
    && Tiles(NarrowCuts(current, targets, rank), current[rank])
    && MeantForWorld(NarrowCuts(current, targets, rank), order, |current|)
  }

  ghost predicate AllCanSend(current: seq<nat>, targets: seq<nat>, order: seq<nat>)
    requires |order| == |targets|
  {
    forall r :: 0 <= r < |current| ==> CanSend(current, targets, order, r)
  }

  /** What rank `s` sends to rank `q`. */
  function Sends<T>(world: seq<seq<T>>, targets: seq<nat>, order: seq<nat>, s: nat, q: nat): seq<T>
    requires s < |world| && |order| == |targets| && CanSend(RowCounts(world), targets, order, s)
  {
    Pieces(world[s], NarrowCuts(RowCounts(world), targets, s), order, q, |order|)
  }

  /** What rank `q` receives, by source. */
  function Receives<T>(world: seq<seq<T>>, targets: seq<nat>, order: seq<nat>, q: nat): seq<seq<T>>
    requires |order| == |targets| && AllCanSend(RowCounts(world), targets, order)
  {
    seq(|world|, s requires 0 <= s < |world| => Sends(world, targets, order, s, q))
  }

  /** What one rank does before the exchange. A negative cut makes it fill before the start
      of its vector, a label outside the world makes Split count past its histogram. */
  method SplitForRepartition<T>(world: seq<seq<T>>, rank: nat, targets: seq<nat>, order: seq<nat>)
      returns (r: Result<seq<seq<T>>, Error>)
    requires rank < |world| == |targets| == |order|
    ensures r.Ok? <==> CanSend(RowCounts(world), targets, order, rank)
    ensures r.Ok? ==> |r.value| == |world| &&
                      forall q :: 0 <= q < |world| ==> r.value[q] == Sends(world, targets, order, rank, q)
    ensures r.Err? ==> r.error == OutOfBounds
  {
    var found := RowIndicesToAll(rank, RowCounts(world), targets);
    if found.None? {
      return Err(OutOfBounds);
    }
    var cuts := found.value;
    NarrowCutsTile(RowCounts(world), targets, rank);
    if !Tiles(cuts, |world[rank]|) {
      return Err(OutOfBounds);
    }
    var out := OutPartitions(|world[rank]|, cuts, order);
    LabelsInWorld(cuts, order, out, |world|);
    if !AllBelow(out, |world|) {
      return Err(OutOfBounds);
    }
    var parts := SplitAll(world[rank], out, |world|);
    forall q: nat | q < |world|
      ensures parts[q] == Sends(world, targets, order, rank, q)
    {
      SplitInPieces(world[rank], cuts, order, out, q, |order|);
      assert world[rank][..|world[rank]|] == world[rank] && out[..|out|] == out;
    }
    return Ok(parts);
  }

  /** Repartition: every rank receives, source by source, the stretches whose order entry names
      it. When no rank is misled by the narrowing and every rank is named once, rank `order[i]`
      ends with exactly the `i`-th block of the global table. */
  method Repartition<T(!new)>(world: seq<seq<T>>, targets: seq<nat>, order: seq<nat>)
      returns (r: Result<seq<seq<T>>, Error>)
    requires world != [] && |order| == |world|
    ensures |targets| != |world| ==> r == Err(ValueError)
    ensures |targets| == |world| ==>
              if AllCanSend(RowCounts(world), targets, order) then r.Ok? else r == Err(OutOfBounds)
    ensures r.Ok? ==> |r.value| == |world| &&
                      forall q :: 0 <= q < |world| ==> r.value[q] == Flatten(Receives(world, targets, order, q))
    ensures |targets| == |world| && Unharmed(RowCounts(world), targets) && AllBelow(order, |world|) ==>
              (r.Ok? <==> CanRepartition(RowCounts(world), targets))
    ensures r.Ok? && Unharmed(RowCounts(world), targets) && IsRankOrder(order, |world|) ==>
              forall i :: 0 <= i < |world| ==> r.value[order[i]] == Block(Flatten(world), targets, i)
  {
    if |targets| != |world| {
      return Err(ValueError);
    }
    WhenUnharmed(world, targets, order);
    var parts: seq<seq<seq<T>>> := [];
    for rank := 0 to |world|
      invariant |parts| == rank
      invariant forall s :: 0 <= s < rank ==> SentBy(world, targets, order, s, parts[s])
    {
      var mine := SplitForRepartition(world, rank, targets, order);
      if mine.Err? {
        return Err(mine.error);
      }
      parts := parts + [mine.value];
    }
    var received := AllToAllSeparated(parts);
    ColumnsReceived(world, targets, order, parts, received);
    r := Ok(seq(|world|, q requires 0 <= q < |world| => Flatten(received[q])));
  }

  ghost predicate SentBy<T>(world: seq<seq<T>>, targets: seq<nat>, order: seq<nat>, s: nat, parts: seq<seq<T>>)
    requires s < |world| == |order| == |targets|
  {
    && CanSend(RowCounts(world), targets, order, s) && |parts| == |world|
    && forall q :: 0 <= q < |world| ==> parts[q] == Sends(world, targets, order, s, q)
  }

  lemma ColumnsReceived<T>(
      world: seq<seq<T>>, targets: seq<nat>, order: seq<nat>, parts: seq<seq<seq<T>>>, received: seq<seq<seq<T>>>)
    requires |world| == |order| == |targets| == |parts| == |received|
    requires forall s :: 0 <= s < |world| ==> SentBy(world, targets, order, s, parts[s])
    requires Square(parts) && forall q :: 0 <= q < |parts| ==> received[q] == Column(parts, q)
    ensures AllCanSend(RowCounts(world), targets, order)
    ensures forall q :: 0 <= q < |world| ==> received[q] == Receives(world, targets, order, q)
  {
    forall s: nat | s < |world|
      ensures CanSend(RowCounts(world), targets, order, s)
    {
      assert SentBy(world, targets, order, s, parts[s]);
    }
    forall q: nat | q < |world|
      ensures received[q] == Receives(world, targets, order, q)
    {
      assert forall s :: 0 <= s < |world| ==> received[q][s] == parts[s][q];
    }
  }

  lemma WhenUnharmed<T>(world: seq<seq<T>>, targets: seq<nat>, order: seq<nat>)
    requires |targets| == |world| == |order| > 0
    ensures Unharmed(RowCounts(world), targets) && AllBelow(order, |world|) ==>
              (AllCanSend(RowCounts(world), targets, order) <==> CanRepartition(RowCounts(world), targets))
    ensures Unharmed(RowCounts(world), targets) && AllCanSend(RowCounts(world), targets, order) &&
            IsRankOrder(order, |world|) ==>
              forall i :: 0 <= i < |world| ==>
                Flatten(Receives(world, targets, order, order[i])) == Block(Flatten(world), targets, i)
  {
    var current := RowCounts(world);
    if Unharmed(current, targets) && AllBelow(order, |world|) {
      forall r: nat | r < |world|
        ensures CanSend(current, targets, order, r) <==> InsideTargets(current, targets, r)
      {
        UnharmedSend(current, targets, order, r);
      }
      AllInsideTargets(current, targets);
      if AllCanSend(current, targets, order) && IsRankOrder(order, |world|) {
        forall i: nat | i < |world|
          ensures Flatten(Receives(world, targets, order, order[i])) == Block(Flatten(world), targets, i)
        {
          ReceivesBlock(world, targets, order, i);
        }
      }
    }
  }

  lemma UnharmedSend(current: seq<nat>, targets: seq<nat>, order: seq<nat>, rank: nat)
    requires rank < |current| && |order| == |targets| && Unharmed(current, targets)
    requires AllBelow(order, |current|)
    ensures CanSend(current, targets, order, rank) <==> InsideTargets(current, targets, rank)
    ensures CanSend(current, targets, order, rank) ==>
              NarrowCuts(current, targets, rank) == Cuts(current, targets, rank)
  {
    assert RankUnharmed(current, targets, rank);
    if InsideTargets(current, targets, rank) {
      NarrowCutsExact(current, targets, rank);
      CutsTile(current, targets, rank);
    }
  }

  lemma ReceivesBlock<T>(world: seq<seq<T>>, targets: seq<nat>, order: seq<nat>, i: nat)
    requires |targets| == |world| == |order| && Unharmed(RowCounts(world), targets)
    requires AllCanSend(RowCounts(world), targets, order) && IsRankOrder(order, |world|) && i < |world|
    ensures Flatten(Receives(world, targets, order, order[i])) == Block(Flatten(world), targets, i)
  {
    var received := Receives(world, targets, order, order[i]);
    forall s: nat | s < |world|
      ensures received[s] == Slice(world, targets, s, i)
    {
      SendsSlice(world, targets, order, s, i);
    }
    SlicesFormBlock(world, targets, i, received, |world|);
  }

  lemma SendsSlice<T>(world: seq<seq<T>>, targets: seq<nat>, order: seq<nat>, s: nat, i: nat)
    requires s < |world| == |targets| == |order| && Unharmed(RowCounts(world), targets)
    requires CanSend(RowCounts(world), targets, order, s) && IsRankOrder(order, |world|) && i < |world|
    ensures Sends(world, targets, order, s, order[i]) == Slice(world, targets, s, i)
  {
    UnharmedSend(RowCounts(world), targets, order, s);
    OnePiece(world[s], NarrowCuts(RowCounts(world), targets, s), order, i, |order|);
  }

  // In rank order

  function RankOrder(world: nat): seq<nat> {
    seq(world, i => i)
  }

  /** What a call in rank order comes to. */
  ghost function Repartitioned<T>(world: seq<seq<T>>, targets: seq<nat>): Result<seq<seq<T>>, Error> {
    if |targets| != |world| then Err(ValueError)
    else if AllCanSend(RowCounts(world), targets, RankOrder(|world|))
    then Ok(seq(|world|, q requires 0 <= q < |world| => Flatten(Receives(world, targets, RankOrder(|world|), q))))
    else Err(OutOfBounds)
  }

  /** When no rank is misled by the narrowing, these are the blocks of the global table, or a
      failure that the counts predict. */
  lemma RepartitionedBlocks<T>(world: seq<seq<T>>, targets: seq<nat>)
    requires |targets| == |world| > 0 && Unharmed(RowCounts(world), targets)
    ensures Repartitioned(world, targets) ==
            if CanRepartition(RowCounts(world), targets) then Ok(Blocks(Flatten(world), targets))
            else Err(OutOfBounds)
  {
    var order := RankOrder(|world|);
    WhenUnharmed(world, targets, order);
    if CanRepartition(RowCounts(world), targets) {
      forall q: nat | q < |world|
        ensures Flatten(Receives(world, targets, order, q)) == Block(Flatten(world), targets, q)
      {
        assert order[q] == q;
      }
      assert Repartitioned(world, targets).value == Blocks(Flatten(world), targets);
    }
  }

  /** The overload without an order (table.cpp:1541-1550): order 0, 1, 2, ... */
  method RepartitionInRankOrder<T(!new)>(world: seq<seq<T>>, targets: seq<nat>)
      returns (r: Result<seq<seq<T>>, Error>)
    requires world != []
    ensures r == Repartitioned(world, targets)
    ensures |targets| == |world| && Unharmed(RowCounts(world), targets) ==>
              r == if CanRepartition(RowCounts(world), targets) then Ok(Blocks(Flatten(world), targets))
                   else Err(OutOfBounds)
  {
    r := Repartition(world, targets, RankOrder(|world|));
    assert r.Ok? ==> r.value == Repartitioned(world, targets).value;
    if |targets| == |world| && Unharmed(RowCounts(world), targets) {
      RepartitionedBlocks(world, targets);
    }
  }

  lemma CountsBounded(counts: seq<nat>)
    ensures forall j :: 0 <= j < |counts| ==> counts[j] <= Total(counts)
  {
    forall j: nat | j < |counts|
      ensures counts[j] <= Total(counts)
    {
      BeforeMonotone(counts, j + 1, |counts|);
    }
  }

  /** The overload without counts (table.cpp:1553-1568) levels the ranks and keeps the order. */
  method RepartitionEvenly<T(!new)>(world: seq<seq<T>>) returns (r: Result<seq<seq<T>>, Error>)
    requires world != []
    ensures |Flatten(world)| <= INT32_MAX ==>
              (r.Ok? <==> world[|world| - 1] != []) &&
              (r.Ok? ==> EvenlyDivided(RowCounts(r.value), |world|, |Flatten(world)|) &&
                         Flatten(r.value) == Flatten(world))
  {
    ConcatLength(world, |world|);
    var total := 0;
    for s := 0 to |world|
      invariant total == Before(RowCounts(world), s)
    {
      total := total + |world[s]|;
    }
    var counts := DivideRowsEvenly(|world|, total);
    CountsBounded(counts);
    if |Flatten(world)| <= INT32_MAX {
      FittingUnharmed(RowCounts(world), counts);
    }
    r := RepartitionInRankOrder(world, counts);
    EvenBlocks(world, counts);
  }

  lemma EvenBlocks<T>(world: seq<seq<T>>, counts: seq<nat>)
    requires world != [] && EvenlyDivided(counts, |world|, |Flatten(world)|)
    ensures RowCounts(Blocks(Flatten(world), counts)) == counts
    ensures Flatten(Blocks(Flatten(world), counts)) == Flatten(world)
    ensures CanRepartition(RowCounts(world), counts) <==> world[|world| - 1] != []
  {
    BlocksFlatten(Flatten(world), counts);
    BlocksCounts(Flatten(world), counts);
    CanMatchTotal(world, counts);
  }

  lemma CanMatchTotal<T>(world: seq<seq<T>>, counts: seq<nat>)
    requires world != [] && Total(counts) == |Flatten(world)|
    ensures CanRepartition(RowCounts(world), counts) <==> world[|world| - 1] != []
  {
    ConcatLength(world, |world|);
    assert RowCounts(world)[|world| - 1] == |world[|world| - 1]|;
  }

  // What a repartition preserves

  lemma {:induction false} BlocksConcat<T>(rows: seq<T>, targets: seq<nat>, k: nat)
    requires k <= |targets|
    ensures Concat(Blocks(rows, targets), k) == rows[..Min(Before(targets, k), |rows|)]
  {
    if k > 0 {
      BlocksConcat(rows, targets, k - 1);
      var lo, hi := Min(Before(targets, k - 1), |rows|), Min(Before(targets, k), |rows|);
      assert rows[..hi] == rows[..lo] + rows[lo..hi];
    }
  }

  lemma BlocksCounts<T>(rows: seq<T>, targets: seq<nat>)
    requires Total(targets) == |rows|
    ensures RowCounts(Blocks(rows, targets)) == targets
  {
    forall i: nat | i < |targets|
      ensures |Block(rows, targets, i)| == targets[i]
    {
      BeforeMonotone(targets, i + 1, |targets|);
    }
  }

  /** No row is lost, none is duplicated, and the global order stays. */
  lemma BlocksFlatten<T>(rows: seq<T>, targets: seq<nat>)
    requires Total(targets) >= |rows|
    ensures Flatten(Blocks(rows, targets)) == rows
  {
    BlocksConcat(rows, targets, |targets|);
  }

  lemma BlocksOfWorld<T>(world: seq<seq<T>>)
    ensures Blocks(Flatten(world), RowCounts(world)) == world
  {
    ConcatLength(world, |world|);
    forall r: nat | r < |world|
      ensures Block(Flatten(world), RowCounts(world), r) == world[r]
    {
      ConcatBlock(world, |world|, r);
    }
  }

  /** Row `k` of block `i` is row `k` behind the targets before it, as long as there are rows. */
  lemma BlockRows<T>(rows: seq<T>, targets: seq<nat>, i: nat)
    requires i < |targets|
    ensures var start, end := Before(targets, i), Before(targets, i) + targets[i];
            |Block(rows, targets, i)| ==
              (if |rows| <= start then 0 else if |rows| <= end then |rows| - start else targets[i]) &&
            forall k :: 0 <= k < |Block(rows, targets, i)| ==> Block(rows, targets, i)[k] == rows[start + k]
  {
  }

  lemma BlockLength<T>(rows: seq<T>, targets: seq<nat>, i: nat)
    requires i < |targets|
    ensures |Block(rows, targets, i)| == Min(Before(targets, i + 1), |rows|) - Min(Before(targets, i), |rows|)
    ensures |RowCounts(Blocks(rows, targets))| == |targets|
    ensures RowCounts(Blocks(rows, targets))[i] == |Block(rows, targets, i)|
  {
  }

  lemma LastBlock<T>(rows: seq<T>, targets: seq<nat>)
    requires targets != [] && Total(targets) >= |rows|
    ensures RowCounts(Blocks(rows, targets))[|targets| - 1] > 0 <==> Before(targets, |targets| - 1) < |rows|
  {
    BlockLength(rows, targets, |targets| - 1);
  }

  lemma BlocksTotal<T>(rows: seq<T>, targets: seq<nat>)
    requires Total(targets) >= |rows|
    ensures Total(RowCounts(Blocks(rows, targets))) == |rows|
  {
    BlocksFlatten(rows, targets);
    ConcatLength(Blocks(rows, targets), |targets|);
  }

  /** Two repartitions in a row, neither with a rank that is misled by the narrowing. Both
      succeed exactly when the first does and the second finds room: for more rows than there
      are, or for as many and the first left some on the last rank. Then the first leaves no
      trace. */
  lemma LastRepartitionWins<T>(world: seq<seq<T>>, first: seq<nat>, second: seq<nat>)
    requires |first| == |second| == |world| > 0 && Unharmed(RowCounts(world), first)
    requires Unharmed(RowCounts(Blocks(Flatten(world), first)), second)
    ensures var n := |Flatten(world)|;
            var between := Repartitioned(world, first);
            (between.Ok? && Repartitioned(between.value, second).Ok? <==>
              CanRepartition(RowCounts(world), first) &&
              (n < Total(second) || (n == Total(second) && Before(first, |first| - 1) < n))) &&
            (between.Ok? && Repartitioned(between.value, second).Ok? ==>
              Repartitioned(between.value, second) == Ok(Blocks(Flatten(world), second)))
  {
    ConcatLength(world, |world|);
    RepartitionedBlocks(world, first);
    if CanRepartition(RowCounts(world), first) {
      BlocksFlatten(Flatten(world), first);
      BlocksTotal(Flatten(world), first);
      LastBlock(Flatten(world), first);
      RepartitionedBlocks(Blocks(Flatten(world), first), second);
    }
  }

  /** Repartitioning to other counts with the same total and back, in neither call with a rank
      that is misled by the narrowing: both calls succeed exactly when the last rank has rows
      before and after the first one, and then every rank has its table again. */
  lemma RoundTrip<T>(world: seq<seq<T>>, targets: seq<nat>)
    requires |targets| == |world| > 0 && Total(targets) == Total(RowCounts(world))
    requires Unharmed(RowCounts(world), targets) && Unharmed(targets, RowCounts(world))
    ensures var there := Repartitioned(world, targets);
            (there.Ok? && Repartitioned(there.value, RowCounts(world)).Ok? <==>
              world[|world| - 1] != [] && targets[|targets| - 1] > 0) &&
            (there.Ok? && Repartitioned(there.value, RowCounts(world)).Ok? ==>
              Repartitioned(there.value, RowCounts(world)) == Ok(world))
  {
    ConcatLength(world, |world|);
    CanMatchTotal(world, targets);
    BlocksCounts(Flatten(world), targets);
    LastRepartitionWins(world, targets, RowCounts(world));
    BlocksOfWorld(world);
  }

  /** When the last rank is left empty, the call back indexes the targets with -1. */
  lemma NoWayBack<T>(x: T, y: T)
    ensures Repartitioned([[x], [y]], [2, 0]) == Ok([[x, y], []])
    ensures Repartitioned([[x, y], []], [1, 1]) == Err(OutOfBounds)
  {
    var world, between := [[x], [y]], [[x, y], []];
    assert Concat(world, 0) == [] && Concat(world, 1) == [x] && Flatten(world) == [x, y];
    assert RowCounts(world) == [1, 1] && RowCounts(between) == [2, 0];
    assert Before([1, 1], 1) == 1 && Total([1, 1]) == 2;
    assert Before([2, 0], 0) == 0 && Before([2, 0], 1) == 2 && Total([2, 0]) == 2;
    FittingUnharmed(RowCounts(world), [2, 0]);
    FittingUnharmed(RowCounts(between), [1, 1]);
    RepartitionedBlocks(world, [2, 0]);
    RepartitionedBlocks(between, [1, 1]);
    assert Block([x, y], [2, 0], 0) == [x, y] && Block([x, y], [2, 0], 1) == [];
    assert Blocks([x, y], [2, 0]) == [[x, y], []];
  }

  /** Counts with equal totals beyond 31 bits for which the call fails, although both last
      ranks have rows. */
  lemma MisledRank<T>(world: seq<seq<T>>)
    requires RowCounts(world) == [0x8000_0000, 1]
    ensures Repartitioned(world, [0, 0x8000_0001]) == Err(OutOfBounds)
  {
    NegativeCut();
    assert !Tiles(NarrowCuts(RowCounts(world), [0, 0x8000_0001], 1), 1);
    assert !CanSend(RowCounts(world), [0, 0x8000_0001], RankOrder(2), 1);
  }

  // gcylon: cpp/src/gcylon/gtable_api.cpp:49-76

  /** One rank. The sums of the counts are formed in an `int` and compared when counts are given;
      a rank that starts at the end indexes the targets with -1. Otherwise the counts given are
      cut for, or the even division when none are given. */
  method GpuRowsToAll(rank: nat, current: seq<nat>, wanted: seq<nat>) returns (r: Result<seq<int>, Error>)
    requires rank < |current|
    ensures r == Err(SignedOverflow) <==> Total(current) > INT32_MAX || Total(wanted) > INT32_MAX
    ensures r == Err(ValueError) <==>
            Total(current) <= INT32_MAX && Total(wanted) <= INT32_MAX && wanted != [] && Total(wanted) != Total(current)
    ensures r == Err(OutOfBounds) <==>
            Total(current) <= INT32_MAX && (wanted == [] || Total(wanted) == Total(current)) &&
            Before(current, rank) == Total(current)
    ensures r.Ok? && wanted != [] ==> r.value == Cuts(current, wanted, rank)
    ensures r.Ok? && wanted == [] ==>
              forall even :: EvenlyDivided(even, |current|, Total(current)) ==> r.value == Cuts(current, even, rank)
  {
    BeforeMonotone(current, rank, |current|);
    BeforeMonotone(current, rank + 1, |current|);
    assert wanted == [] ==> Total(wanted) == 0;
    var targets := wanted;
    if wanted == [] {
      var even := DivideCountsEvenly(current);
      if even.None? {
        return Err(SignedOverflow);
      }
      targets := even.value;
      forall others | EvenlyDivided(others, |current|, Total(current))
        ensures others == targets
      {
        OneEven(others, targets, |current|, Total(current));
      }
    } else {
      var sumOfCurrent := SumInt32(current);
      var sumOfTarget := SumInt32(wanted);
      if sumOfCurrent.None? || sumOfTarget.None? {
        return Err(SignedOverflow);
      } else if sumOfCurrent != sumOfTarget {
        return Err(ValueError);
      }
    }
    CountsBounded(targets);
    FittingCuts(current, targets, rank);
    var cuts := RowIndicesToAll(rank, current, targets);
    return match cuts case Some(value) => Ok(value) case None => Err(OutOfBounds);
  }

  lemma OneEven(a: seq<nat>, b: seq<nat>, workers: nat, total: nat)
    requires workers > 0 && EvenlyDivided(a, workers, total) && EvenlyDivided(b, workers, total)
    ensures a == b
  {
    EvenUnique(a, workers, total);
    EvenUnique(b, workers, total);
  }

  /** The pieces of every rank for every block. */
  function AllSlices<T>(world: seq<seq<T>>, targets: seq<nat>): seq<seq<seq<T>>> {
    seq(|world|, s requires 0 <= s < |world| => RankSlices(world, targets, s))
  }

  function RankSlices<T>(world: seq<seq<T>>, targets: seq<nat>, s: nat): seq<seq<T>>
    requires s < |world|
  {
    seq(|targets|, i requires 0 <= i < |targets| => Slice(world, targets, s, i))
  }

  /** The rows between consecutive indices. */
  method CutTable<T>(rows: seq<T>, cuts: seq<int>) returns (parts: seq<seq<T>>)
    requires Tiles(cuts, |rows|)
    ensures |parts| == |cuts| - 1 && forall i :: 0 <= i < |parts| ==> parts[i] == rows[cuts[i]..cuts[i + 1]]
  {
    parts := [];
    for i := 0 to |cuts| - 1
      invariant |parts| == i && forall j :: 0 <= j < i ==> parts[j] == rows[cuts[j]..cuts[j + 1]]
    {
      parts := parts + [rows[cuts[i]..cuts[i + 1]]];
    }
  }

  method GpuRankPieces<T>(world: seq<seq<T>>, wanted: seq<nat>, ghost targets: seq<nat>, rank: nat)
      returns (r: Result<seq<seq<T>>, Error>)
    requires rank < |world|
    requires wanted != [] ==> targets == wanted
    requires wanted == [] ==> EvenlyDivided(targets, |world|, Total(RowCounts(world)))
    ensures var current := RowCounts(world);
            (r == Err(SignedOverflow) <==> Total(current) > INT32_MAX || Total(wanted) > INT32_MAX) &&
            (r == Err(ValueError) <==> Total(current) <= INT32_MAX && Total(wanted) <= INT32_MAX &&
                                       wanted != [] && Total(wanted) != Total(current)) &&
            (r == Err(OutOfBounds) <==> Total(current) <= INT32_MAX &&
                                        (wanted == [] || Total(wanted) == Total(current)) &&
                                        Before(current, rank) == Total(current))
    ensures r.Ok? ==> r.value == RankSlices(world, targets, rank)
  {
    var cuts := GpuRowsToAll(rank, RowCounts(world), wanted);
    if cuts.Err? {
      return Err(cuts.error);
    }
    GpuInside(RowCounts(world), targets, rank);
    CutsTile(RowCounts(world), targets, rank);
    var mine := CutTable(world[rank], cuts.value);
    PiecesAreSlices(world, targets, rank, mine);
    return Ok(mine);
  }

  lemma PiecesAreSlices<T>(world: seq<seq<T>>, targets: seq<nat>, rank: nat, mine: seq<seq<T>>)
    requires rank < |world| && Tiles(Cuts(RowCounts(world), targets, rank), |world[rank]|) && |mine| == |targets|
    requires var cuts := Cuts(RowCounts(world), targets, rank);
             forall i :: 0 <= i < |mine| ==> mine[i] == world[rank][cuts[i]..cuts[i + 1]]
    ensures mine == RankSlices(world, targets, rank)
  {
    forall i: nat | i < |mine|
      ensures mine[i] == Slice(world, targets, rank, i)
    {
      var cuts := Cuts(RowCounts(world), targets, rank);
      assert mine[i] == world[rank][cuts[i]..cuts[i + 1]];
    }
  }

  lemma GpuInside(current: seq<nat>, targets: seq<nat>, rank: nat)
    requires rank < |current| && Before(current, rank) != Total(current) && Total(current) == Total(targets)
    ensures InsideTargets(current, targets, rank)
  {
    BeforeMonotone(current, rank, |current|);
    BeforeMonotone(current, rank + 1, |current|);
  }

  /** The last rank starts at the end exactly when it is empty, and only then can another rank do so. */
  lemma StartsAtEnd(current: seq<nat>, rank: nat)
    requires rank < |current|
    ensures Before(current, rank) == Total(current) ==> current[|current| - 1] == 0
    ensures rank == |current| - 1 && current[rank] == 0 ==> Before(current, rank) == Total(current)
  {
    BeforeMonotone(current, rank, |current| - 1);
  }

  /** In every run of an exchange of these pieces the ranks end with these numbers of rows. */
  ghost predicate EveryRunMeets<T(!new)>(parts: seq<seq<seq<T>>>, counts: seq<nat>) {
    forall trace, out :: RunEndsWith(parts, trace, out) ==> RowCounts<T>(out) == counts
  }

  /** All ranks, up to the exchange: the call fails by the sums, or because the last rank is
      empty, and otherwise every run of the exchange meets the counts given, or the even division
      when none are given. */
  method GpuRepartition<T(!new)>(world: seq<seq<T>>, wanted: seq<nat>) returns (r: Result<seq<seq<seq<T>>>, Error>)
    requires world != [] && (wanted == [] || |wanted| == |world|)
    ensures r == Err(SignedOverflow) <==> |Flatten(world)| > INT32_MAX || Total(wanted) > INT32_MAX
    ensures r == Err(ValueError) <==>
            |Flatten(world)| <= INT32_MAX && Total(wanted) <= INT32_MAX &&
            wanted != [] && Total(wanted) != |Flatten(world)|
    ensures r == Err(OutOfBounds) <==>
            |Flatten(world)| <= INT32_MAX && (wanted == [] || Total(wanted) == |Flatten(world)|) &&
            world[|world| - 1] == []
    ensures r.Ok? && wanted != [] ==> r.value == AllSlices(world, wanted) && EveryRunMeets(r.value, wanted)
    ensures r.Ok? && wanted == [] ==>
              forall even :: EvenlyDivided(even, |world|, |Flatten(world)|) ==>
                r.value == AllSlices(world, even) && EveryRunMeets(r.value, even)
  {
    ConcatLength(world, |world|);
    assert wanted == [] ==> Total(wanted) == 0;
    ghost var targets := CountsToMeet(|world|, |Flatten(world)|, wanted);
    var parts: seq<seq<seq<T>>> := [];
    for rank := 0 to |world|
      invariant |parts| == rank
      invariant rank > 0 ==> |Flatten(world)| <= INT32_MAX && (wanted == [] || Total(wanted) == |Flatten(world)|)
      invariant rank == |world| ==> world[|world| - 1] != []
      invariant forall s :: 0 <= s < rank ==> parts[s] == RankSlices(world, targets, s)
    {
      StartsAtEnd(RowCounts(world), rank);
      assert RowCounts(world)[|world| - 1] == |world[|world| - 1]| && RowCounts(world)[rank] == |world[rank]|;
      var mine := GpuRankPieces(world, wanted, targets, rank);
      if mine.Err? {
        assert match mine.error
               case OutOfBounds => world[|world| - 1] == []
               case SignedOverflow => |Flatten(world)| > INT32_MAX || Total(wanted) > INT32_MAX
               case ValueError => wanted != [] && Total(wanted) != |Flatten(world)|;
        return Err(mine.error);
      }
      parts := parts + [mine.value];
    }
    GpuPieces(world, wanted, targets, parts);
    r := Ok(parts);
  }

  lemma CountsToMeet(workers: nat, total: nat, wanted: seq<nat>) returns (targets: seq<nat>)
    requires workers > 0
    ensures if wanted == [] then EvenlyDivided(targets, workers, total) else targets == wanted
  {
    targets := wanted;
    if wanted == [] {
      targets := EvenCounts(workers, total);
      EvenCountsExact(targets, workers, total);
    }
  }

  lemma GpuPieces<T(!new)>(world: seq<seq<T>>, wanted: seq<nat>, targets: seq<nat>, parts: seq<seq<seq<T>>>)
    requires |targets| == |world| == |parts| > 0 && Total(targets) == |Flatten(world)|
    requires if wanted == [] then EvenlyDivided(targets, |world|, |Flatten(world)|) else targets == wanted
    requires forall s :: 0 <= s < |world| ==> parts[s] == RankSlices(world, targets, s)
    ensures wanted != [] ==> parts == AllSlices(world, wanted) && EveryRunMeets(parts, wanted)
    ensures wanted == [] ==>
              forall even :: EvenlyDivided(even, |world|, |Flatten(world)|) ==>
                parts == AllSlices(world, even) && EveryRunMeets(parts, even)
  {
    assert parts == AllSlices(world, targets);
    GpuMeets(world, targets, parts);
    forall even | EvenlyDivided(even, |world|, |Flatten(world)|) && wanted == []
      ensures even == targets
    {
      OneEven(even, targets, |world|, |Flatten(world)|);
    }
  }

  lemma GpuMeets<T(!new)>(world: seq<seq<T>>, targets: seq<nat>, parts: seq<seq<seq<T>>>)
    requires |targets| == |world| > 0 && Total(targets) == |Flatten(world)| && parts == AllSlices(world, targets)
    ensures EveryRunMeets(parts, targets)
  {
    forall trace, out | RunEndsWith(parts, trace, out)
      ensures RowCounts<T>(out) == targets
    {
      GpuRepartitionDelivers(world, targets, trace, out);
    }
  }

  lemma GpuBlock<T>(world: seq<seq<T>>, targets: seq<nat>, parts: seq<seq<seq<T>>>, d: nat)
    requires |targets| == |world| && d < |world| && parts == AllSlices(world, targets)
    ensures Square(parts) && Flatten(Column(parts, d)) == Block(Flatten(world), targets, d)
  {
    SlicesFormBlock(world, targets, d, Column(parts, d), |world|);
  }

  lemma GpuDelivers<T>(
      world: seq<seq<T>>, targets: seq<nat>, parts: seq<seq<seq<T>>>, trace: seq<State<T>>, d: nat, rows: seq<T>)
    requires |targets| == |world| && d < |world| && parts == AllSlices(world, targets)
    requires Run(parts, trace) && LeavesWith(parts, trace, d, rows) && Total(targets) == |Flatten(world)|
    ensures multiset(rows) == multiset(Block(Flatten(world), targets, d)) && |rows| == targets[d]
  {
    GpuBlock(world, targets, parts, d);
    LeavesWithColumn(parts, trace, d, rows);
    SameLength(rows, Block(Flatten(world), targets, d));
    BlocksCounts(Flatten(world), targets);
    BlockLength(Flatten(world), targets, d);
  }

  /** gcylon's repartition of a world. What a rank is sent is, source by source, its block of
      the global table; in every run of an exchange that delivers it is that block up to the
      order of its rows, and so every rank ends with the number of rows it should. */
  lemma GpuRepartitionDelivers<T>(
      world: seq<seq<T>>, targets: seq<nat>, trace: seq<State<T>>, out: seq<seq<T>>)
    requires |targets| == |world| > 0 && Total(targets) == |Flatten(world)|
    requires RunEndsWith(AllSlices(world, targets), trace, out)
    ensures RowCounts(out) == targets
    ensures var parts := AllSlices(world, targets);
            Square(parts) &&
            forall d :: 0 <= d < |world| ==>
              Flatten(Column(parts, d)) == Block(Flatten(world), targets, d) &&
              multiset(out[d]) == multiset(Block(Flatten(world), targets, d))
  {
    var parts := AllSlices(world, targets);
    GpuBlock(world, targets, parts, 0);
    forall d: nat | d < |world|
      ensures Flatten(Column(parts, d)) == Block(Flatten(world), targets, d)
      ensures multiset(out[d]) == multiset(Block(Flatten(world), targets, d)) && |out[d]| == targets[d]
    {
      GpuBlock(world, targets, parts, d);
      GpuDelivers(world, targets, parts, trace, d, out[d]);
    }
  }

  lemma SameLength<T>(a: seq<T>, b: seq<T>)
    requires multiset(a) == multiset(b)
    ensures |a| == |b|
  {
    assert |multiset(a)| == |a| && |multiset(b)| == |b|;
  }
}
