/** cpp/src/cylon/repartition.hpp: each rank works out alone, from the row counts
    held and the row counts wanted, which of its rows go to which rank. */
module RowIndices {
  import opened Int32
  import opened Tables

  /** What `std::accumulate` with an `int` accumulator makes of the first `k` counts. */
  function AccumulatedInt32(counts: seq<nat>, k: nat): int
    requires k <= |counts|
  {
    if k == 0 then 0 else ToInt32(AccumulatedInt32(counts, k - 1) + counts[k - 1])
  }

  function Clamp(x: int, lo: int, hi: int): int {
    if x < lo then lo else if x > hi then hi else x
  }

  function Min(x: int, y: int): int {
    if x < y then x else y
  }

  /** Closed form: the number of rows of `rank` that belong to targets before `j`. */
  function Cut(current: seq<nat>, targets: seq<nat>, rank: nat, j: nat): nat
    requires rank < |current| && j <= |targets|
  {
    Clamp(Before(targets, j) - Before(current, rank), 0, current[rank])
  }

  function Cuts(current: seq<nat>, targets: seq<nat>, rank: nat): seq<nat>
    requires rank < |current|
  {
    seq(|targets| + 1, j requires 0 <= j <= |targets| => Cut(current, targets, rank, j))
  }

  /** The rank's first row, if it has one, falls inside the targets, and so do all its rows. */
  ghost predicate InsideTargets(current: seq<nat>, targets: seq<nat>, rank: nat)
    requires rank < |current|
  {
    Before(current, rank) < Total(targets) && Before(current, rank + 1) <= Total(targets)
  }

  // The computation, with its 32-bit intermediates

  /** The first of the first `k` targets that reaches beyond `start`, or -1. */
  function FirstBeyond(targets: seq<nat>, start: int, k: nat): (i: int)
    requires k <= |targets|
    ensures -1 <= i < k
    ensures i == -1 ==> forall j :: 0 < j <= k ==> Before(targets, j) <= start
    ensures i >= 0 ==> start < Before(targets, i + 1) && forall j :: 0 < j <= i ==> Before(targets, j) <= start
  {
    if k == 0 then -1
    else
      var earlier := FirstBeyond(targets, start, k - 1);
      if earlier >= 0 then earlier else if Before(targets, k) > start then k - 1 else -1
  }

  /** What narrowing the distance to the end of the first target adds to it. */
  function Displacement(targets: seq<nat>, start: int): int {
    var first := FirstBeyond(targets, start, |targets|);
    if first == -1 then 0
    else
      var distance := Before(targets, first + 1) - start;
      ToInt32(distance) - distance
  }

  /** Of `rows` rows from `start` on, those that the code takes to belong to targets before `j`. */
  function CutFrom(rows: nat, targets: seq<nat>, start: int, j: nat): int
    requires j <= |targets|
  {
    if j == 0 || Before(targets, j) <= start then 0
    else Min(rows, Before(targets, j) - start + Displacement(targets, start))
  }

  function CutsFrom(rows: nat, targets: seq<nat>, start: int): seq<int> {
    seq(|targets| + 1, j requires 0 <= j <= |targets| => CutFrom(rows, targets, start, j))
  }

  /** Some target reaches beyond `start`, and by the code's reckoning the targets have room
      for `rows` rows from there. */
  ghost predicate RoomFrom(rows: nat, targets: seq<nat>, start: int) {
    FirstBeyond(targets, start, |targets|) >= 0 &&
    rows <= Total(targets) - start + Displacement(targets, start)
  }

  /** The same for all rows of `rank`, from its accumulated row start. */
  function NarrowCuts(current: seq<nat>, targets: seq<nat>, rank: nat): seq<int>
    requires rank < |current|
  {
    CutsFrom(current[rank], targets, AccumulatedInt32(current, rank))
  }

  ghost predicate InsideNarrowly(current: seq<nat>, targets: seq<nat>, rank: nat)
    requires rank < |current|
  {
    RoomFrom(current[rank], targets, AccumulatedInt32(current, rank))
  }

  /** `first_target_rank` is -1 when no target reaches beyond `start`. */
  method FirstTarget(targets: seq<nat>, start: int) returns (rank: int, startRow: nat)
    ensures rank == FirstBeyond(targets, start, |targets|)
    ensures rank == -1 <==> targets == [] || Total(targets) <= start
    ensures rank >= 0 ==> startRow == Before(targets, rank)
  {
    rank, startRow := -1, 0;
    var i := 0;
    while i < |targets|
      invariant 0 <= i <= |targets| && rank == -1
      invariant startRow == Before(targets, i)
      invariant FirstBeyond(targets, start, i) == -1
    {
      if startRow + targets[i] > start {
        rank := i;
        FirstBeyondStays(targets, start, i + 1, |targets|);
        BeforeMonotone(targets, i + 1, |targets|);
        break;
      } else {
        startRow := startRow + targets[i];
      }
      i := i + 1;
    }
  }

  lemma {:induction false} FirstBeyondStays(targets: seq<nat>, start: int, k: nat, n: nat)
    requires k <= n <= |targets| && FirstBeyond(targets, start, k) >= 0
    ensures FirstBeyond(targets, start, n) == FirstBeyond(targets, start, k)
  {
    if k < n {
      FirstBeyondStays(targets, start, k, n - 1);
    }
  }

  method RowStart(current: seq<nat>, rank: nat) returns (start: int)
    requires rank < |current|
    ensures start == AccumulatedInt32(current, rank)
  {
    start := 0;
    for i := 0 to rank
      invariant start == AccumulatedInt32(current, i)
    {
      start := ToInt32(start + current[i]);
    }
  }

  /** The rows `[r[j], r[j + 1])` of this rank go to target `j`. `None` is an access past
      the targets: through rank -1 when no target reaches beyond the row start, or past the
      last target when the rows overrun it. */
  method RowIndicesToAll(rank: nat, current: seq<nat>, targets: seq<nat>) returns (r: Option<seq<int>>)
    requires rank < |current|
    ensures r.Some? <==> InsideNarrowly(current, targets, rank)
    ensures r.Some? ==> r.value == NarrowCuts(current, targets, rank)
    ensures FitsInt32(current, targets) ==>
              (r.Some? <==> Before(current, rank) < Total(targets) && Before(current, rank + 1) <= Total(targets))
    ensures FitsInt32(current, targets) && r.Some? ==>
              |r.value| == |targets| + 1 &&
              forall j :: 0 <= j <= |targets| ==>
                var before := Before(targets, j) - Before(current, rank);
                r.value[j] == if before < 0 then 0 else if before > current[rank] then current[rank] else before
  {
    var start := RowStart(current, rank);
    r := DistributeFrom(current[rank], targets, start);
    if FitsInt32(current, targets) {
      FittingCuts(current, targets, rank);
    }
  }

  /** What follows the computation of the row start. */
  method DistributeFrom(rows: nat, targets: seq<nat>, start: int) returns (r: Option<seq<int>>)
    ensures r.Some? <==> RoomFrom(rows, targets, start)
    ensures r.Some? ==> r.value == CutsFrom(rows, targets, start)
  {
    var firstTarget, firstStart := FirstTarget(targets, start);
    if firstTarget == -1 {
      return None;
    }
    var rowsToFirst := ToInt32(targets[firstTarget] - (start - firstStart));
    assert rowsToFirst == Before(targets, firstTarget + 1) - start + Displacement(targets, start);
    if rowsToFirst > rows {
      rowsToFirst := rows;
    }
    var toAll := new int[|targets| + 1](_ => 0);
    toAll[firstTarget + 1] := rowsToFirst;
    var remaining := rows - rowsToFirst;
    var next := firstTarget + 1;
    while remaining > 0
      invariant firstTarget < next <= |targets| && start < Before(targets, next)
      invariant var left := rows - (Before(targets, next) - start + Displacement(targets, start));
                if remaining > 0 then remaining == left else left <= 0
      invariant forall j :: 0 <= j <= next ==> toAll[j] == CutFrom(rows, targets, start, j)
      decreases |targets| - next
    {
      if next == |targets| {
        return None;
      }
      var toNext := if remaining > targets[next] then targets[next] else remaining;
      toAll[next + 1] := toAll[next] + toNext;
      remaining := remaining - targets[next];
      next := next + 1;
    }
    LaterCutsFull(rows, targets, start, next);
    next := next + 1;
    if next < toAll.Length {
      Fill(toAll, next, toAll.Length, rows);
    }
    return Some(toAll[..]);
  }

  /** Once the targets have room for the last row, all later cuts are the row count. */
  lemma LaterCutsFull(rows: nat, targets: seq<nat>, start: int, next: nat)
    requires 0 < next <= |targets| && start < Before(targets, next)
    requires rows <= Before(targets, next) - start + Displacement(targets, start)
    ensures Before(targets, next) <= Total(targets)
    ensures forall j :: next <= j <= |targets| ==> CutFrom(rows, targets, start, j) == rows
  {
    forall j: nat | next <= j <= |targets|
      ensures Before(targets, next) <= Before(targets, j)
    {
      BeforeMonotone(targets, next, j);
    }
  }

  /** The 32-bit accumulator holds the row start exactly when the row start fits in it. */
  lemma {:induction false} AccumulatedExact(counts: seq<nat>, k: nat)
    requires k <= |counts|
    ensures AccumulatedInt32(counts, k) == ToInt32(Before(counts, k))
    ensures AccumulatedInt32(counts, k) == Before(counts, k) <==> Before(counts, k) <= INT32_MAX
  {
    if k > 0 {
      AccumulatedExact(counts, k - 1);
      ToInt32Add(Before(counts, k - 1), counts[k - 1]);
    }
    ToInt32Range(Before(counts, k));
  }

  // When narrowing does no harm

  /** The target that the code takes for the first one of `rank`. */
  function NarrowFirst(current: seq<nat>, targets: seq<nat>, rank: nat): int
    requires rank < |current|
  {
    FirstBeyond(targets, AccumulatedInt32(current, rank), |targets|)
  }

  /** The distance from the rank's first row to the end of that target. */
  function FirstReach(current: seq<nat>, targets: seq<nat>, rank: nat): int
    requires rank < |current| && NarrowFirst(current, targets, rank) >= 0
  {
    Before(targets, NarrowFirst(current, targets, rank) + 1) - Before(current, rank)
  }

  lemma NarrowCutAt(current: seq<nat>, targets: seq<nat>, rank: nat, j: nat)
    requires rank < |current| && j <= |targets| && NarrowFirst(current, targets, rank) >= 0
    ensures var first := NarrowFirst(current, targets, rank);
            if j <= first then NarrowCuts(current, targets, rank)[j] == 0 == Cut(current, targets, rank, j)
            else
              Before(targets, first + 1) <= Before(targets, j) &&
              NarrowCuts(current, targets, rank)[j] ==
                Min(current[rank],
                    Before(targets, j) - Before(targets, first + 1) + ToInt32(FirstReach(current, targets, rank)))
  {
    var first := NarrowFirst(current, targets, rank);
    AccumulatedExact(current, rank);
    ToInt32Range(Before(current, rank));
    ToInt32Subtract(Before(targets, first + 1), Before(current, rank));
    if j > first {
      BeforeMonotone(targets, first + 1, j);
    }
  }

  /** The end of target `j - 1` coincides with the end of the first target, or the rank's rows
      have all gone by then. */
  ghost predicate NothingBetween(current: seq<nat>, targets: seq<nat>, rank: nat, j: nat)
    requires rank < |current| && j <= |targets| && NarrowFirst(current, targets, rank) >= 0
  {
    Before(targets, j) == Before(targets, NarrowFirst(current, targets, rank) + 1) ||
    Before(targets, j) >= Before(current, rank + 1)
  }

  /** When the narrowed distance to the end of the first target still gives the right cuts: if
      the target reaches beyond the rank's true first row, when the distance survives or still
      covers all rows of the rank. If it ends before that row, when it narrows to 0 and no
      target boundary falls between its end and the rank's last row; an empty rank only needs
      a distance that does not become negative. */
  ghost predicate NarrowingHarmless(current: seq<nat>, targets: seq<nat>, rank: nat)
    requires rank < |current|
  {
    NarrowFirst(current, targets, rank) >= 0 &&
    var reach := FirstReach(current, targets, rank);
    if reach >= 0 then reach <= INT32_MAX || ToInt32(reach) >= current[rank]
    else if current[rank] == 0 then ToInt32(reach) >= 0
    else
      ToInt32(reach) == 0 &&
      forall j :: NarrowFirst(current, targets, rank) < j <= |targets| ==> NothingBetween(current, targets, rank, j)
  }

  /** For a rank inside the targets the computation is the closed form exactly when narrowing
      is harmless. */
  lemma NarrowCutsExact(current: seq<nat>, targets: seq<nat>, rank: nat)
    requires rank < |current| && InsideTargets(current, targets, rank)
    ensures InsideNarrowly(current, targets, rank) &&
            NarrowCuts(current, targets, rank) == Cuts(current, targets, rank) <==>
            NarrowingHarmless(current, targets, rank)
  {
    FirstExists(current, targets, rank);
    var first := NarrowFirst(current, targets, rank);
    ToInt32Range(FirstReach(current, targets, rank));
    if InsideNarrowly(current, targets, rank) && NarrowCuts(current, targets, rank) == Cuts(current, targets, rank) {
      RightIsHarmless(current, targets, rank);
    }
    if NarrowingHarmless(current, targets, rank) {
      forall j: nat | j <= |targets|
        ensures NarrowCuts(current, targets, rank)[j] == Cut(current, targets, rank, j)
      {
        HarmlessCut(current, targets, rank, j);
      }
      NarrowCutAt(current, targets, rank, |targets|);
      HarmlessCut(current, targets, rank, |targets|);
    }
  }

  lemma FirstExists(current: seq<nat>, targets: seq<nat>, rank: nat)
    requires rank < |current| && InsideTargets(current, targets, rank)
    ensures NarrowFirst(current, targets, rank) >= 0
  {
    AccumulatedExact(current, rank);
    ToInt32Range(Before(current, rank));
    assert targets != [] by { assert targets == [] ==> Total(targets) == 0; }
  }

  lemma HarmlessCut(current: seq<nat>, targets: seq<nat>, rank: nat, j: nat)
    requires rank < |current| && NarrowingHarmless(current, targets, rank) && j <= |targets|
    ensures NarrowCuts(current, targets, rank)[j] == Cut(current, targets, rank, j)
  {
    NarrowCutAt(current, targets, rank, j);
    var reach := FirstReach(current, targets, rank);
    ToInt32Range(reach);
    if reach < 0 && current[rank] > 0 && j > NarrowFirst(current, targets, rank) {
      assert NothingBetween(current, targets, rank, j);
    }
  }

  lemma RightIsHarmless(current: seq<nat>, targets: seq<nat>, rank: nat)
    requires rank < |current| && NarrowFirst(current, targets, rank) >= 0
    requires NarrowCuts(current, targets, rank) == Cuts(current, targets, rank)
    ensures NarrowingHarmless(current, targets, rank)
  {
    var first := NarrowFirst(current, targets, rank);
    ToInt32Range(FirstReach(current, targets, rank));
    NarrowCutAt(current, targets, rank, first + 1);
    assert Cuts(current, targets, rank)[first + 1] == Cut(current, targets, rank, first + 1);
    forall j: nat | first < j <= |targets| && FirstReach(current, targets, rank) < 0 < current[rank]
      ensures NothingBetween(current, targets, rank, j)
    {
      NarrowCutAt(current, targets, rank, j);
      assert Cuts(current, targets, rank)[j] == Cut(current, targets, rank, j);
    }
  }

  /** No row start and no target needs more than 31 bits. */
  ghost predicate FitsInt32(current: seq<nat>, targets: seq<nat>) {
    Total(current) <= INT32_MAX && forall j :: 0 <= j < |targets| ==> targets[j] <= INT32_MAX
  }

  /** Within 31 bits the computation is the closed form, and leaves the targets exactly when
      the rank does. */
  lemma FittingCuts(current: seq<nat>, targets: seq<nat>, rank: nat)
    requires rank < |current| && FitsInt32(current, targets)
    ensures InsideNarrowly(current, targets, rank) <==> InsideTargets(current, targets, rank)
    ensures InsideTargets(current, targets, rank) ==>
              NarrowCuts(current, targets, rank) == Cuts(current, targets, rank)
  {
    BeforeMonotone(current, rank, |current|);
    AccumulatedExact(current, rank);
    var first := NarrowFirst(current, targets, rank);
    if first >= 0 {
      assert Before(targets, first) <= Before(current, rank) by { assert Before(targets, 0) == 0; }
      assert FirstReach(current, targets, rank) <= targets[first];
      ToInt32Range(FirstReach(current, targets, rank));
      BeforeMonotone(targets, first + 1, |targets|);
    }
    if InsideTargets(current, targets, rank) {
      NarrowCutsExact(current, targets, rank);
    }
  }

  /** No rank is misled by the narrowing: the ranks inside the targets compute their cuts, and
      the others leave the targets, as they would without it. */
  ghost predicate Unharmed(current: seq<nat>, targets: seq<nat>) {
    forall r :: 0 <= r < |current| ==> RankUnharmed(current, targets, r)
  }

  ghost predicate RankUnharmed(current: seq<nat>, targets: seq<nat>, rank: nat)
    requires rank < |current|
  {
    if InsideTargets(current, targets, rank) then NarrowingHarmless(current, targets, rank)
    else !InsideNarrowly(current, targets, rank)
  }

  /** So it is within 31 bits. */
  lemma FittingUnharmed(current: seq<nat>, targets: seq<nat>)
    requires FitsInt32(current, targets)
    ensures Unharmed(current, targets)
  {
    forall r: nat | r < |current|
      ensures RankUnharmed(current, targets, r)
    {
      FittingCuts(current, targets, r);
      if InsideTargets(current, targets, r) {
        NarrowCutsExact(current, targets, r);
      }
    }
  }

  /** Far enough beyond 2^31-1 rows a rank computes a negative cut, although the totals agree. */
  lemma NegativeCut()
    ensures InsideTargets([0x8000_0000, 1], [0, 0x8000_0001], 1)
    ensures NarrowCuts([0x8000_0000, 1], [0, 0x8000_0001], 1)[1] == -0x8000_0000
  {
    var current, targets := [0x8000_0000, 1], [0, 0x8000_0001];
    AccumulatedOverflows();
    assert Before(current, 0) == 0 && Before(current, 1) == 0x8000_0000 && Before(current, 2) == 0x8000_0001;
    assert Before(targets, 0) == 0 && Before(targets, 1) == 0 && Before(targets, 2) == 0x8000_0001;
    assert FirstBeyond(targets, -0x8000_0000, 0) == -1 && FirstBeyond(targets, -0x8000_0000, 1) == 0;
    NarrowCutAt(current, targets, 1, 1);
  }

  /** Beyond 2^31-1 rows the row start of the second rank is negative. */
  lemma AccumulatedOverflows()
    ensures AccumulatedInt32([0x8000_0000, 1], 1) == -0x8000_0000
  {
    assert AccumulatedInt32([0x8000_0000, 1], 0) == 0;
  }

  /** Every rank stays inside the targets exactly when the targets can hold more rows than
      there are, or just as many and the last rank holds one. */
  lemma AllInsideTargets(current: seq<nat>, targets: seq<nat>)
    requires current != []
    ensures (forall r :: 0 <= r < |current| ==> InsideTargets(current, targets, r)) <==>
            Total(current) < Total(targets) ||
            (Total(current) == Total(targets) && current[|current| - 1] > 0)
  {
    var last := |current| - 1;
    assert InsideTargets(current, targets, last) <==>
           Total(current) < Total(targets) || (Total(current) == Total(targets) && current[last] > 0);
    forall r: nat | r < |current|
      ensures InsideTargets(current, targets, last) ==> InsideTargets(current, targets, r)
    {
      BeforeMonotone(current, r, last);
      BeforeMonotone(current, r + 1, |current|);
    }
  }

  /** With equal totals and an empty last rank, that rank indexes the targets with -1. */
  lemma EmptyLastRank()
    ensures Total([2, 0]) == Total([1, 1]) && !InsideNarrowly([2, 0], [1, 1], 1)
  {
    assert Before([2, 0], 1) == 2 && Total([2, 0]) == 2;
    assert Before([1, 1], 1) == 1 && Total([1, 1]) == 2;
    FittingCuts([2, 0], [1, 1], 1);
  }

  /** The ranges between consecutive cuts are those of all `rows` rows, in order. */
  predicate Tiles(cuts: seq<int>, rows: nat) {
    && cuts != [] && cuts[0] == 0 && cuts[|cuts| - 1] == rows
    && forall i, j :: 0 <= i <= j < |cuts| ==> 0 <= cuts[i] <= cuts[j] <= rows
  }

  /** The cuts of a rank inside the targets start at 0, never decrease, and end at its row count. */
  lemma CutsTile(current: seq<nat>, targets: seq<nat>, rank: nat)
    requires rank < |current| && InsideTargets(current, targets, rank)
    ensures Tiles(Cuts(current, targets, rank), current[rank])
  {
    forall i, j | 0 <= i <= j <= |targets|
      ensures Cut(current, targets, rank, i) <= Cut(current, targets, rank, j)
    {
      BeforeMonotone(targets, i, j);
    }
  }

  /** So do the computed cuts whenever none of them is negative. */
  lemma NarrowCutsTile(current: seq<nat>, targets: seq<nat>, rank: nat)
    requires rank < |current| && InsideNarrowly(current, targets, rank)
    ensures Tiles(NarrowCuts(current, targets, rank), current[rank]) <==>
            forall j :: 0 <= j <= |targets| ==> NarrowCuts(current, targets, rank)[j] >= 0
  {
    var start := AccumulatedInt32(current, rank);
    BeforeMonotone(targets, FirstBeyond(targets, start, |targets|) + 1, |targets|);
    forall i, j | 0 <= i <= j <= |targets|
      ensures Before(targets, i) <= Before(targets, j)
    {
      BeforeMonotone(targets, i, j);
    }
  }

  /** The rows that the first `k` ranks send to targets before `j`. */
  function SentBefore(current: seq<nat>, targets: seq<nat>, k: nat, j: nat): int
    requires k <= |current| && j <= |targets|
  {
    if k == 0 then 0 else SentBefore(current, targets, k - 1, j) + Cut(current, targets, k - 1, j)
  }

  lemma {:induction false} SentBeforeClosed(current: seq<nat>, targets: seq<nat>, k: nat, j: nat)
    requires k <= |current| && j <= |targets|
    ensures SentBefore(current, targets, k, j) == Min(Before(targets, j), Before(current, k))
  {
    if k > 0 {
      SentBeforeClosed(current, targets, k - 1, j);
    }
  }

  /** The rows that the first `k` ranks send to target `j`. */
  function SentTo(current: seq<nat>, targets: seq<nat>, k: nat, j: nat): int
    requires k <= |current| && j < |targets|
  {
    if k == 0 then 0
    else SentTo(current, targets, k - 1, j) +
         Cut(current, targets, k - 1, j + 1) - Cut(current, targets, k - 1, j)
  }

  /** Conservation: although each rank decides alone, together they send target `j`
      exactly the rows it asked for. */
  lemma Conservation(current: seq<nat>, targets: seq<nat>, j: nat)
    requires j < |targets| && Total(targets) == Total(current)
    ensures SentTo(current, targets, |current|, j) == targets[j]
  {
    SentToDifference(current, targets, |current|, j);
    SentBeforeClosed(current, targets, |current|, j);
    SentBeforeClosed(current, targets, |current|, j + 1);
    BeforeMonotone(targets, j + 1, |targets|);
  }

  lemma {:induction false} SentToDifference(current: seq<nat>, targets: seq<nat>, k: nat, j: nat)
    requires k <= |current| && j < |targets|
    ensures SentTo(current, targets, k, j) ==
            SentBefore(current, targets, k, j + 1) - SentBefore(current, targets, k, j)
  {
    if k > 0 {
      SentToDifference(current, targets, k - 1, j);
    }
  }
}
