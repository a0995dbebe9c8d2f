/** Even division of rows over ranks: DivideRowsEvenly in cpp/src/cylon/repartition.hpp
    and the slices FromCSV takes in cpp/src/cylon/table.cpp. */
module EvenDivision {
  import opened Division
  import opened Int32
  import opened Tables

  /** What makes a division even; it determines the counts. */
  ghost predicate EvenlyDivided(counts: seq<nat>, workers: nat, total: nat) {
    && |counts| == workers
    && Total(counts) == total
    && forall i, j :: 0 <= i <= j < workers ==> counts[j] <= counts[i] <= counts[j] + 1
  }

  method DivideRowsEvenly(workers: nat, total: nat) returns (counts: seq<nat>)
    requires workers > 0
    ensures EvenlyDivided(counts, workers, total)
    ensures forall r :: 0 <= r <= workers ==>
              Before(counts, r) == r * (total / workers) + if r < total % workers then r else total % workers
  {
    var perWorker := total / workers;
    var extra := total % workers;
    var even := new nat[workers](_ => perWorker);
    Fill(even, 0, extra, perWorker + 1);
    counts := even[..];
    forall r: nat | r <= workers
      ensures Before(counts, r) == r * perWorker + if r < extra then r else extra
    {
      StepSum(counts, perWorker, extra, r);
    }
    assert workers * perWorker + extra == total;
  }

  lemma {:induction false} StepSum(counts: seq<nat>, low: nat, extra: nat, r: nat)
    requires extra <= |counts| && r <= |counts|
    requires forall k :: 0 <= k < |counts| ==> counts[k] == if k < extra then low + 1 else low
    ensures Before(counts, r) == r * low + if r < extra then r else extra
  {
    if r > 0 {
      StepSum(counts, low, extra, r - 1);
      assert r * low == (r - 1) * low + low;
    }
  }

  /** `std::accumulate` over 32-bit counts in an `int`: `None` is an overflow. */
  method SumInt32(counts: seq<nat>) returns (sum: Option<nat>)
    ensures sum == if Total(counts) <= INT32_MAX then Some(Total(counts)) else None
  {
    var all := 0;
    for i := 0 to |counts|
      invariant all == Before(counts, i) <= INT32_MAX
    {
      all := all + counts[i];
      BeforeMonotone(counts, i + 1, |counts|);
      if !IsInt32(all) {
        return None;
      }
    }
    return Some(all);
  }

  /** The overload that takes the current counts (repartition.hpp:41-46). It adds them up in
      an `int` and compiles only for counts of that type: `None` is an overflow of the sum. */
  method DivideCountsEvenly(current: seq<nat>) returns (counts: Option<seq<nat>>)
    requires current != []
    ensures counts.Some? <==> Total(current) <= INT32_MAX
    ensures counts.Some? ==> EvenlyDivided(counts.value, |current|, Total(current))
  {
    var all := SumInt32(current);
    if all.None? {
      return None;
    }
    var even := DivideRowsEvenly(|current|, all.value);
    return Some(even);
  }

  datatype CsvRange = CsvRange(start: int, length: int)

  /** What becomes of a rank's share: as long as start and length fit in 32 bits it is right;
      when the quotient does not fit, the length is too small. `None` is an overflow. */
  ghost predicate CsvShare(counts: seq<nat>, quotient: nat, rank: nat, r: Option<CsvRange>)
    requires rank < |counts|
  {
    if quotient > INT32_MAX then r.None? || r.value.length < counts[rank]
    else if IsInt32(Before(counts, rank)) && IsInt32(counts[rank])
    then r == Some(CsvRange(Before(counts, rank), counts[rank]))
    else r.None?
  }

  /** The range from the parts of its computation, each of them an `int`. */
  function CsvRangeOf(before: int, perWorker: int, offset: nat, balancer: nat): Option<CsvRange> {
    if IsInt32(before) && IsInt32(before + offset) && IsInt32(perWorker + balancer)
    then Some(CsvRange(before + offset, perWorker + balancer)) else None
  }

  /** The range is that of the even division, whichever way its counts are given. */
  ghost predicate EvenRange(workers: nat, total: nat, quotient: nat, rank: nat, r: Option<CsvRange>)
    requires rank < workers
  {
    forall counts :: EvenlyDivided(counts, workers, total) ==> CsvShare(counts, quotient, rank, r)
  }

  /** The rows of a file of `total` rows that `rank` keeps (table.cpp:257-275): its share of the
      even division, computed in `int32_t`. */
  method CsvSlice(workers: nat, total: nat, rank: nat) returns (r: Option<CsvRange>)
    requires rank < workers
    ensures EvenRange(workers, total, total / workers, rank, r)
  {
    var quotient, remainder := total / workers, total % workers;
    var perWorker := ToInt32(quotient);
    var balancer := 0;
    if remainder != 0 && rank < remainder {
      balancer := 1;
    }
    var offset := rank;
    if rank >= remainder {
      offset := remainder;
    }
    var before := rank * perWorker;
    r := CsvRangeOf(before, perWorker, offset, balancer);
    forall counts | EvenlyDivided(counts, workers, total)
      ensures CsvShare(counts, quotient, rank, r)
    {
      NarrowEvenShare(counts, workers, total, rank, quotient, remainder, perWorker, before, offset, balancer);
    }
  }

  lemma NarrowEvenShare(
      counts: seq<nat>, workers: nat, total: nat, rank: nat, quotient: nat, remainder: nat, perWorker: int,
      before: int, offset: nat, balancer: nat)
    requires rank < workers && EvenlyDivided(counts, workers, total)
    requires quotient == total / workers && remainder == total % workers && perWorker == ToInt32(quotient)
    requires before == rank * perWorker
    requires offset == if rank < remainder then rank else remainder
    requires balancer == if rank < remainder then 1 else 0
    ensures CsvShare(counts, quotient, rank, CsvRangeOf(before, perWorker, offset, balancer))
  {
    EvenShare(counts, workers, total, rank);
    SameProduct(rank, perWorker, quotient);
    NarrowShare(counts, quotient, rank, perWorker, before, offset, balancer);
  }

  lemma SameProduct(rank: nat, x: int, y: nat)
    ensures x == y ==> rank * x == rank * y >= 0
  {
  }

  lemma NarrowShare(
      counts: seq<nat>, quotient: nat, rank: nat, perWorker: int, before: int, offset: nat, balancer: nat)
    requires rank < |counts| && counts[rank] == quotient + balancer
    requires perWorker == ToInt32(quotient)
    requires perWorker == quotient ==> before >= 0 && Before(counts, rank) == before + offset
    ensures CsvShare(counts, quotient, rank, CsvRangeOf(before, perWorker, offset, balancer))
  {
    ToInt32Range(quotient);
  }

  /** The start of the last of four slices of 3 * 10^9 rows does not fit in 32 bits. */
  lemma CsvStartOverflows(counts: seq<nat>)
    requires EvenlyDivided(counts, 4, 3_000_000_000)
    ensures Before(counts, 3) == 2_250_000_000
    ensures forall r :: CsvShare(counts, 3_000_000_000 / 4, 3, r) ==> r.None?
  {
    EvenShare(counts, 4, 3_000_000_000, 3);
  }

  lemma EvenShare(counts: seq<nat>, workers: nat, total: nat, rank: nat)
    requires rank < workers && EvenlyDivided(counts, workers, total)
    ensures counts[rank] == total / workers + if rank < total % workers then 1 else 0
    ensures Before(counts, rank) ==
            rank * (total / workers) + if rank < total % workers then rank else total % workers
  {
    EvenUnique(counts, workers, total);
    StepSum(counts, total / workers, total % workers, rank);
  }

  /** The number of leading counts equal to the first one. */
  ghost function Plateau(counts: seq<nat>, high: nat): nat {
    if counts == [] || counts[0] != high then 0 else 1 + Plateau(counts[1..], high)
  }

  lemma {:induction false} PlateauShape(counts: seq<nat>, low: nat)
    requires forall i, j :: 0 <= i <= j < |counts| ==> counts[j] <= counts[i]
    requires forall i :: 0 <= i < |counts| ==> low <= counts[i] <= low + 1
    ensures Plateau(counts, low + 1) <= |counts|
    ensures forall k :: 0 <= k < |counts| ==> counts[k] == if k < Plateau(counts, low + 1) then low + 1 else low
  {
    if counts != [] && counts[0] == low + 1 {
      PlateauShape(counts[1..], low);
    }
  }

  /** An even division gives the first `total % workers` ranks one row more. */
  lemma EvenUnique(counts: seq<nat>, workers: nat, total: nat)
    requires workers > 0 && EvenlyDivided(counts, workers, total)
    ensures forall k :: 0 <= k < workers ==>
              counts[k] == total / workers + if k < total % workers then 1 else 0
  {
    var low := counts[workers - 1];
    PlateauShape(counts, low);
    var p := Plateau(counts, low + 1);
    StepSum(counts, low, p, workers);
    assert p < workers;
    assert workers * low == low * workers;
    QuotientOf(total, workers, low, p);
    assert total == total / workers * workers + total % workers;
  }

  /** The one even division. */
  function EvenCounts(workers: nat, total: nat): seq<nat>
    requires workers > 0
  {
    seq(workers, k => total / workers + if k < total % workers then 1 else 0)
  }

  lemma EvenCountsExact(counts: seq<nat>, workers: nat, total: nat)
    requires workers > 0
    ensures EvenlyDivided(counts, workers, total) <==> counts == EvenCounts(workers, total)
  {
    var even := EvenCounts(workers, total);
    StepSum(even, total / workers, total % workers, workers);
    assert workers * (total / workers) + total % workers == total;
    if EvenlyDivided(counts, workers, total) {
      EvenUnique(counts, workers, total);
    }
  }

  /** Slice `r` starts where the slices before it end. */
  ghost predicate IsSlice<T>(file: seq<T>, counts: seq<nat>, r: nat, slice: seq<T>)
    requires r < |counts|
  {
    && Before(counts, r + 1) <= |file|
    && slice == file[Before(counts, r)..Before(counts, r + 1)]
  }

  lemma TakeAndSlice<T>(file: seq<T>, lo: nat, hi: nat)
    requires lo <= hi <= |file|
    ensures file[..lo] + file[lo..hi] == file[..hi]
  {
  }

  /** The slices of an even division tile the file. */
  lemma {:induction false} SlicesTile<T>(file: seq<T>, counts: seq<nat>, slices: seq<seq<T>>, k: nat)
    requires k <= |slices| == |counts| && Total(counts) == |file|
    requires forall r :: 0 <= r < |slices| ==> IsSlice(file, counts, r, slices[r])
    ensures Before(counts, k) <= |file| && Concat(slices, k) == file[..Before(counts, k)]
  {
    if k > 0 {
      SlicesTile(file, counts, slices, k - 1);
      assert IsSlice(file, counts, k - 1, slices[k - 1]);
      TakeAndSlice(file, Before(counts, k - 1), Before(counts, k));
    }
  }

  /** Table::Slice: no rows beyond the end; `None` is a range that starts outside the table. */
  function SliceTable<T>(rows: seq<T>, range: CsvRange): Option<seq<T>> {
    if 0 <= range.start <= |rows| && 0 <= range.length then
      var rest := rows[range.start..];
      Some(if range.length < |rest| then rest[..range.length] else rest)
    else None
  }

  ghost predicate AllFit(counts: seq<nat>) {
    forall r :: 0 <= r < |counts| ==> IsInt32(Before(counts, r)) && IsInt32(counts[r])
  }

  /** All slices of the even division fit in 32 bits exactly when the last one starts there. */
  lemma LastStart(counts: seq<nat>, workers: nat, total: nat)
    requires workers > 1 && EvenlyDivided(counts, workers, total)
    ensures counts[workers - 1] == total / workers
    ensures Before(counts, workers - 1) == total - total / workers
    ensures AllFit(counts) <==> total - total / workers <= INT32_MAX
    ensures AllFit(counts) ==> total / workers <= INT32_MAX
  {
    EvenShare(counts, workers, total, workers - 1);
    StartsFit(counts, workers);
  }

  lemma StartsFit(counts: seq<nat>, workers: nat)
    requires workers == |counts| > 1 && forall i, j :: 0 <= i <= j < workers ==> counts[j] <= counts[i]
    ensures AllFit(counts) <==> Before(counts, workers - 1) <= INT32_MAX
  {
    assert Before(counts, 1) == Before(counts, 0) + counts[0];
    BeforeMonotone(counts, 1, workers - 1);
    forall r: nat | r < workers
      ensures Before(counts, r) <= Before(counts, workers - 1) && counts[r] <= counts[0]
    {
      BeforeMonotone(counts, r, workers - 1);
    }
  }

  lemma OneSlice<T>(file: seq<T>)
    ensures Flatten([file]) == file && EvenlyDivided(RowCounts([file]), 1, |file|)
  {
    FlattenOne([file]);
    assert Total([|file|]) == Before([|file|], 0) + |file|;
    assert RowCounts([file]) == [|file|];
  }

  /** The slices of the first ranks: right when all slices fit in 32 bits, and otherwise wrong
      by the last rank at the latest. */
  ghost predicate CsvSoFar<T>(file: seq<T>, counts: seq<nat>, slices: seq<seq<T>>, fits: bool)
    requires counts != [] && |slices| <= |counts|
  {
    if fits then forall r :: 0 <= r < |slices| ==> IsSlice(file, counts, r, slices[r])
    else |slices| == |counts| ==> |slices[|counts| - 1]| < counts[|counts| - 1]
  }

  lemma SliceTableLength<T>(rows: seq<T>, range: CsvRange)
    ensures var slice := SliceTable(rows, range);
            slice.Some? ==> |slice.value| <= range.length
    ensures 0 <= range.start <= range.start + range.length <= |rows| ==>
              SliceTable(rows, range) == Some(rows[range.start..range.start + range.length])
  {
    if 0 <= range.start <= range.start + range.length <= |rows| {
      var slice := SliceTable(rows, range).value;
      assert |slice| == range.length;
      assert slice == rows[range.start..range.start + range.length];
    }
  }

  lemma OneMoreSlice<T>(
      file: seq<T>, counts: seq<nat>, quotient: nat, slices: seq<seq<T>>, range: Option<CsvRange>, fits: bool)
    requires |slices| < |counts| && Total(counts) == |file|
    requires fits ==> quotient <= INT32_MAX && AllFit(counts)
    requires !fits ==> counts[|counts| - 1] == quotient && !IsInt32(Before(counts, |counts| - 1))
    requires CsvShare(counts, quotient, |slices|, range) && CsvSoFar(file, counts, slices, fits)
    ensures if range.None? || SliceTable(file, range.value).None? then !fits
            else CsvSoFar(file, counts, slices + [SliceTable(file, range.value).value], fits)
  {
    if fits {
      BeforeMonotone(counts, |slices| + 1, |counts|);
      var lo, hi := Before(counts, |slices|), Before(counts, |slices| + 1);
      assert range == Some(CsvRange(lo, hi - lo));
      SliceTableLength(file, range.value);
      assert IsSlice(file, counts, |slices|, SliceTable(file, range.value).value);
    } else if range.Some? {
      SliceTableLength(file, range.value);
    }
  }

  /** FromCSV on every rank. A single rank keeps the whole file. With more ranks the slices
      are the file, evenly divided, exactly when the start of the last one fits in 32 bits. */
  method CsvSlices<T>(workers: nat, file: seq<T>) returns (slices: Option<seq<seq<T>>>)
    requires workers > 0
    ensures slices.Some? && Flatten(slices.value) == file &&
            EvenlyDivided(RowCounts(slices.value), workers, |file|) <==>
            workers == 1 || |file| - |file| / workers <= INT32_MAX
  {
    if workers == 1 {
      OneSlice(file);
      return Some([file]);
    }
    var counts := DivideRowsEvenly(workers, |file|);
    ghost var quotient := |file| / workers;
    ghost var fits := |file| - quotient <= INT32_MAX;
    LastStart(counts, workers, |file|);
    var all: seq<seq<T>> := [];
    for rank := 0 to workers
      invariant |all| == rank && CsvSoFar(file, counts, all, fits)
    {
      var range := CsvSlice(workers, |file|, rank);
      OneMoreSlice(file, counts, quotient, all, range, fits);
      if range.None? {
        return None;
      }
      var slice := SliceTable(file, range.value);
      if slice.None? {
        return None;
      }
      all := all + [slice.value];
    }
    AllSlices(file, counts, all, fits);
    return Some(all);
  }

  lemma AllSlices<T>(file: seq<T>, counts: seq<nat>, slices: seq<seq<T>>, fits: bool)
    requires |counts| == |slices| > 1 && EvenlyDivided(counts, |counts|, |file|)
    requires CsvSoFar(file, counts, slices, fits)
    ensures Flatten(slices) == file && EvenlyDivided(RowCounts(slices), |counts|, |file|) <==> fits
  {
    if fits {
      SlicesTile(file, counts, slices, |counts|);
      assert RowCounts(slices) == counts;
      assert file[..|file|] == file;
    } else if EvenlyDivided(RowCounts(slices), |counts|, |file|) {
      LastStart(RowCounts(slices), |counts|, |file|);
      LastStart(counts, |counts|, |file|);
      assert false;
    }
  }
}
