# The distributed relational core of Cylon, in Dafny

Cylon is a dataframe engine whose operators are computed by W ranks together. This project
models the algorithms that the ranks share and proves that the concatenation of their tables
means what the operator promises. The world is one table (a sequence of rows) per rank; rows are
of any type, the sort order is any lawful three-way comparison, and key hashes, the local sort,
the sampler and the local join are parameters with small contracts.

| file | part of the system |
|---|---|
| Tables, Division, Int32 | worlds, prefix sums, concatenation, routing; quotients; 32-bit conversions |
| EvenDivision, RowIndices, Repartition | even division, per-rank row indices, moving rows without changing their order |
| Partitioning, Spreading, Exchange, SlotExchange, ExchangeProgress, Shuffle | splitting, the targets of partitions, the all-to-all as a transition system and its two variants, hash shuffles |
| RowOrder, SplitPoints, PriorityQueue, SortedMerge, Sampling, RoundedSampling, SampleSort | the order of rows, cutting at split points, the k-way merge, sampling exactly and in floating point, distributed sort |
| SetOperators, UniqueRows, Joins, TableEquality | the operators on top |

How the pieces fit:

- **One exchange for all operators.** `Exchange` lets the network interleave deliveries as it
  likes; each channel keeps its order. An invariant over all runs says that an inbox holds, per
  source, a prefix of what that source sends. From it follow the push-back variant (the same rows
  up to order) and, in `SlotExchange`, the slot variant (exactly the rank-ordered tables).
  `ExchangeProgress` shows that runs are bounded and can always be completed, so no statement
  about complete runs is empty.
- **Specification functions.** Imperative code (the index computation, fills, binary search, heap,
  merge, masks) is a method proved against a function (`Cuts`, `PartitionOf`, `LocalSetOp`,
  `FirstPerKey`, ...), and the theorems about worlds are lemmas about those functions. What such a
  function stands for is also said without it, on the method or in a lemma beside it: which rows at
  which positions come out, how often, and when a call fails.
- **Undefined accesses are results.** Where the code indexes past a vector the model returns
  `None` or an error value, and the contract says exactly when.

What the proofs found about the code:

- `RowIndicesToAll` asks its callers for equal sums. That is not enough: with equal sums and an
  empty last rank it indexes with -1 (`EmptyLastRank`). It is also more than enough: targets that
  can hold more rows than there are work too. `AllInsideTargets` gives the exact condition.
- The row start is accumulated in an `int`, right exactly up to 2^31-1 rows (`AccumulatedExact`,
  `AccumulatedOverflows`), and the distance to the end of the first target is narrowed to one. The
  method's contract is the closed form with both effects; `NarrowCutsExact` says exactly when the
  cuts are right nevertheless, `NegativeCut` gives counts for which one is negative. The results
  about whole repartitions assume that the narrowing misleads no rank (`Unharmed`), as it never
  does within 31 bits (`FittingUnharmed`); `MisledRank` is a call that fails for it.
- Repartitioning and repartitioning back restores every rank exactly when the last rank has rows
  before and in between; otherwise a call indexes with -1 (`RoundTrip`, `NoWayBack`). A row meant
  for a rank outside the world is counted past the end of a histogram (`Repartition`).
- The slices of a CSV file are computed in 32 bits: they are the file exactly when the start of the
  last one fits (`CsvSlices`, `CsvStartOverflows`).
- The slot-per-source exchange fills the slots of the last rank exactly when there are as many
  partitions as ranks, in every run (`SlotsNeedSquare`, `TooFewPartitions`).
- The distributed sort returns an error on ranks that are left without rows: rank 0 when no row is
  below the first split point, a rank in between when the split points around it tie, the last rank
  never (`EmptyPartitionExact`). With fewer rows that differ in the sort columns than there are
  ranks this happens in every run, whatever the sampler (`FedNeedsDistinct`); with a constant
  table all ranks fail but the last (`ConstantWorld`). It does not happen when there are as many
  rows as ranks and none ties with more rows than the split points are apart in the merged samples
  (`FewTiesFeedAll`); without ties the sort succeeds exactly with as many rows as ranks.
- The sample positions are summed in `float`. Up to 2895 samples of a larger table, and all rows of
  a table of up to 255, are taken where they should be (`RoundedSpreads`); of 16777236 rows the last
  of 5592411 samples is taken behind the last row (`SamplesPastEnd`).
- `DistributedEquals` declares an all-empty first table equal to anything
  (`EmptyEqualsAnything`), and mixes collectives when only some ranks of it are empty
  (`SomeRanksEmpty`). Unordered on several ranks the failing sort above leaves the ranks that
  succeeded waiting in the next collective, even for equal tables (`EqualButStuck`); an answer
  takes as many different rows in each table as there are ranks (`AnswerNeedsDistinct`). For tables
  without duplicate rows that is also enough, if the second is not the larger one
  (`DistinctRowsAnswer`).
- A binary search that resumes beyond row 2^31-1 does not recognise its start index. Alone it
  can miss (`TableBinarySearch` says exactly when); where it is used it does not
  (`GetSplitPointIndices`).
- `Unique` that keeps last rows never looks at row 0; it serves every key exactly when the key of
  row 0 occurs again (`KeepLastExact`).
- Comparing integers by a wrapping difference is right exactly while the difference fits the signed
  type (`CompareByDifferenceExact`). The code wraps for unsigned and for narrow signed columns; for
  signed columns of 32 and 64 bits a difference that does not fit is undefined. Over values that close together it
  is a lawful order; a column of unsigned bytes with 0, 100 and 200 is not ordered at all
  (`UnsignedBytes`).

`dafny verify dfyconfig.toml` checks the whole project.

## Model

| member | source | states |
|---|---|---|
| RowIndices.FirstTarget | cpp/src/cylon/repartition.hpp:56-71 | the target whose range holds the given global row, with the global row it starts at; -1 exactly when no target reaches beyond that row |
| RowIndices.RowIndicesToAll | cpp/src/cylon/repartition.hpp:94-129 | for all counts, refines the closed form min(targets before j - rows before me, my rows) with the two narrowings to `int` as a displacement; an access past the targets happens exactly when, by that reckoning, the rank's rows are not inside them; within 31 bits both are spelled out on the counts |
| RowIndices.NarrowCutAt | cpp/src/cylon/repartition.hpp:99-127 | the computed cut, right or not, from the end of the first target the code finds and the narrowed distance to it |
| RowIndices.NarrowCutsExact | cpp/src/cylon/repartition.hpp:99-108 | for a rank inside the targets the cuts are clamp(targets before j - rows before me, 0, my rows) exactly when narrowing is harmless: the distance to the end of the target the code takes for the first one survives it or still covers all rows; or that target ends before the rank's first row, the distance narrows to 0 and no target boundary falls between its end and the rank's last row; or the rank is empty and the distance does not become negative |
| RowIndices.FittingUnharmed | cpp/src/cylon/repartition.hpp:94-129 | within 31 bits no rank is misled: ranks inside the targets compute their cuts, the others leave the targets |
| RowIndices.FittingCuts | cpp/src/cylon/repartition.hpp:94-129 | within 31 bits the cuts are that closed form, and the code leaves the targets exactly when the rank does |
| RowIndices.NegativeCut | cpp/src/cylon/repartition.hpp:99-105 | counts with equal totals for which a rank computes a negative cut |
| RowIndices.EmptyLastRank | cpp/src/cylon/repartition.hpp:83-105 | counts with equal totals for which the last rank indexes with -1 |
| RowIndices.AccumulatedExact | cpp/src/cylon/repartition.hpp:99 | the `int` accumulator holds the global row start exactly when that start is at most 2^31-1 |
| RowIndices.AccumulatedOverflows | cpp/src/cylon/repartition.hpp:99 | counts for which the accumulated row start is negative |
| RowIndices.AllInsideTargets | cpp/src/cylon/repartition.hpp:83-87 | all ranks stay inside the targets exactly when the targets hold more rows than there are, or as many and the last rank is not empty |
| RowIndices.CutsTile | cpp/src/cylon/repartition.hpp:77-81 | the ranges a rank sends start at 0, follow each other, and end at its row count |
| RowIndices.NarrowCutsTile | cpp/src/cylon/repartition.hpp:77-81 | so do the computed ranges, exactly when no cut is negative |
| RowIndices.Conservation | cpp/src/cylon/repartition.hpp:94-129 | although every rank computes alone, over all ranks target j is sent exactly the rows it asked for |
| RowIndices.SentBeforeClosed | cpp/src/cylon/repartition.hpp:94-129 | the first k ranks send the targets before j exactly as many rows as both sides allow |
| EvenDivision.DivideRowsEvenly | cpp/src/cylon/repartition.hpp:32-39 | the counts sum to the total, never increase, differ by at most one; their prefix sums in closed form |
| EvenDivision.DivideCountsEvenly | cpp/src/cylon/repartition.hpp:42-46 | the same for the sum of the current counts, exactly when that sum fits in the `int` it is formed in |
| EvenDivision.EvenUnique | cpp/src/cylon/repartition.hpp:16-30 | there is only one even division: the first total mod W ranks hold one row more |
| EvenDivision.CsvSlice | cpp/src/cylon/table.cpp:257-275 | a rank's slice starts at the prefix sum of the even division and has its length exactly when both fit in 32 bits; with a quotient that does not fit it is too short |
| EvenDivision.CsvStartOverflows | cpp/src/cylon/table.cpp:274 | for 3 * 10^9 rows on four ranks the start of the last slice overflows |
| EvenDivision.CsvSlices | cpp/src/cylon/table.cpp:257-275 | the slices of all ranks, one after the other, are the file, evenly divided, exactly when there is one rank or the start of the last slice fits in 32 bits |
| Repartition.OutPartitions | cpp/src/cylon/table.cpp:1512-1520 | every row between two cuts is labelled with the rank that entry of the order names |
| Repartition.SplitInPieces | cpp/src/cylon/table.cpp:1512-1523 | splitting by these labels gives a rank the stretches that name it, one after the other, even when the order repeats it |
| Repartition.LabelsInWorld | cpp/src/cylon/partition/partition.cpp:67-79 | Split stays inside its histogram exactly when every stretch with rows names a rank of the world |
| Repartition.SlicesFormBlock | cpp/src/cylon/table.cpp:1512-1536 | the pieces that the ranks cut out independently are, in rank order, one contiguous block of the global table |
| Repartition.Repartition | cpp/src/cylon/table.cpp:1481-1539 | for any list of ranks a rank ends with the stretches that name it, source by source; a wrong number of counts is a ValueError, and an access out of bounds happens exactly when some rank's cuts leave the targets or its own rows or a row is meant for a rank outside the world; when the narrowing misleads no rank the counts predict it, and with every rank listed once rank order[i] ends with exactly the i-th block of the rank-order concatenation |
| Repartition.RepartitionInRankOrder | cpp/src/cylon/table.cpp:1541-1550 | for all counts, every rank receives its stretch of each source in rank order, or the exact failure; when the narrowing misleads no rank the world becomes the blocks of the unchanged global table, or fails as the counts predict |
| Repartition.MisledRank | cpp/src/cylon/table.cpp:1541-1550 | counts with equal totals and rows on both last ranks for which the call fails, beyond 31 bits |
| Repartition.RepartitionEvenly | cpp/src/cylon/table.cpp:1553-1568 | up to 2^31-1 rows it succeeds exactly when the last rank has rows; then counts are even and the global table is unchanged |
| Repartition.BlocksFlatten | cpp/src/cylon/table.cpp:1531-1536 | no row is lost or duplicated and the global order stays |
| Repartition.BlockRows | cpp/src/cylon/table.cpp:1512-1536 | row k of block i is row k behind the targets before it, and the block has as many rows as its target, as long as there are rows |
| Repartition.RoundTrip | cpp/src/cylon/table.cpp:1481-1568 | for a call to other counts with the same total and a call back, neither with a rank misled by the narrowing (within 31 bits, say): both succeed exactly when the last rank has rows before and after the first one, and then every rank has its table again |
| Repartition.NoWayBack | cpp/src/cylon/table.cpp:1481-1568 | one row on each of two ranks, moved to the first: the call back indexes with -1 |
| Repartition.LastRepartitionWins | cpp/src/cylon/table.cpp:1481-1568 | when two calls in a row, neither with a rank misled by the narrowing, both succeed, in terms of the counts, and that the result is then the blocks of the second alone |
| Repartition.GpuRowsToAll | cpp/src/gcylon/gtable_api.cpp:54-70 | each error exactly by the counts: a sum beyond 2^31-1, counts given with another sum, a rank that starts at the end; otherwise the cuts for the counts given, or for the even division when none are given |
| Repartition.GpuRepartition | cpp/src/gcylon/gtable_api.cpp:49-76 | on all ranks, each error exactly by the counts and the last rank; otherwise in every run of the exchange the ranks end with the numbers of rows given, or evenly divided when none are given |
| Repartition.GpuRepartitionDelivers | cpp/src/gcylon/gtable_api.cpp:49-76 | source by source a rank is sent its block of the global table by the counts to meet, and in every run of the exchange it ends with that block up to the order of rows, and so with its number of rows |
| Partitioning.SplitSegment | cpp/src/cylon/partition/partition.cpp:67-91 | splitting by consecutive targets cuts the table into the corresponding stretches |
| Partitioning.SplitByRoute | cpp/src/cylon/partition/partition.cpp:67-91 | splitting by targets that depend on the row alone is a stable filter |
| Partitioning.SplitTakes | cpp/src/cylon/partition/partition.cpp:67-91 | the table of a target takes exactly the rows with that target, at ascending positions |
| Exchange.RunInv | cpp/src/cylon/table.cpp:49-158 | over every run and every interleaving each inbox holds, per source, a prefix of what that source sends it |
| Exchange.ExactlyOnce | cpp/src/cylon/table.cpp:92-98 | a rank that may go on has received from every source exactly its packets, once and in order |
| Exchange.PartitionsArrive | cpp/src/cylon/table.cpp:73-98 | a rank that may go on holds of every source exactly the partitions i with i == rank, or i * W / n == rank when there are n other than W of them, unchanged, in ascending order and none twice |
| Exchange.PushBackRows | cpp/src/cylon/table.cpp:49-106 | the push-back variant receives the same multiset of rows in every interleaving, for any number of partitions |
| SlotExchange.SlotsExact | cpp/src/cylon/table.cpp:109-158 | the slot variant ends with partition d of rank s in slot s of rank d, in every interleaving |
| SlotExchange.SlotsNeedSquare | cpp/src/cylon/table.cpp:118-147 | in every run the last rank's slots are all filled exactly when there are as many partitions as ranks, and then so are those of every rank |
| SlotExchange.TooFewPartitions | cpp/src/cylon/table.cpp:118-147 | one partition for two ranks: the last rank goes on at once with no slot filled |
| SlotExchange.AllToAllSeparated | cpp/src/cylon/table.cpp:182-190 | the tables that every run delivers, in rank order |
| Spreading.SendTargets | cpp/src/cylon/table.cpp:82-91 | the targets of all partitions, exactly when the largest product i * W fits in an `int` or there are as many partitions as ranks |
| Spreading.TargetBlocks | cpp/src/cylon/table.cpp:82-91 | these targets spread the partitions over the ranks in consecutive blocks that tile them |
| Spreading.TargetBlockSize | cpp/src/cylon/table.cpp:82-91 | by these targets every rank gets floor(n/W) or ceil(n/W) partitions |
| ExchangeProgress.RunLength | cpp/src/cylon/table.cpp:93-97 | a run has made as many deliveries as packets have arrived, so its length is bounded by the packets there are |
| ExchangeProgress.NoDeadlock | cpp/src/cylon/table.cpp:93-97 | until all ranks may go on some delivery is possible |
| ExchangeProgress.RunCompletes | cpp/src/cylon/table.cpp:93-97 | every run can be continued until all ranks may go on |
| Shuffle.ShuffleDelivers | cpp/src/cylon/table.cpp:194-215 | in every run a hash shuffle brings each rank exactly the rows of its class |
| Shuffle.ShuffleByKey | cpp/src/cylon/table.cpp:194-215 | in every run a row is on the rank that the hash of its key says modulo W, as often as in the input, and nowhere else |
| Shuffle.ShuffleByRow | cpp/src/cylon/table.cpp:194-215 | the same with all columns hashed |
| Shuffle.ShuffleConserves | cpp/src/cylon/table.cpp:194-215 | a shuffle permutes the global table |
| Shuffle.GpuPartitions | cpp/src/gcylon/gtable_api.cpp:38-44 | with the row count pushed behind the offsets, slice p holds exactly the rows that hash to p |
| Shuffle.GpuShuffleDelivers | cpp/src/gcylon/gtable_api.cpp:33-47 | in every run of the exchange of these partitions each rank receives exactly the rows of its class |
| RowOrder.CompareRows | cpp/src/cylon/table.cpp:420-434 | the verdict of the first column comparator that tells the rows apart, 0 if none does |
| RowOrder.FirstColumnFirst | cpp/src/cylon/table.cpp:428-432 | rows that the first sort column tells apart are in its order, whatever the later columns say |
| RowOrder.ByColumnsLawful | cpp/src/cylon/table.cpp:420-434 | lexicographic comparison by lawful columns is a total preorder |
| RowOrder.ByAllColumnsDecisive | cpp/src/cylon/table.cpp:1448-1451 | comparison by all columns ties only equal rows |
| RowOrder.DirectedLawful | cpp/src/cylon/arrow/arrow_comparator.cpp:124-132 | a descending column orders lawfully too |
| RowOrder.DirectedVerdict | cpp/src/cylon/arrow/arrow_comparator.cpp:124-132 | ascending keeps every verdict, descending turns it round |
| RowOrder.DirectedSorted | cpp/src/cylon/arrow/arrow_comparator.cpp:124-132 | rows sorted ascending never step down, rows sorted descending never up |
| RowOrder.CompareByDifferenceExact | cpp/src/cylon/arrow/arrow_comparator.cpp:114-132 | the sign of a wrapping difference, which is what unsigned and narrow signed columns are compared by, is the sign of the difference exactly while that fits the signed type |
| RowOrder.ByDifferenceLawful | cpp/src/cylon/arrow/arrow_comparator.cpp:114-132 | over values less than half the range apart the comparator is lawful and orders by value |
| RowOrder.UnsignedBytes | cpp/src/cylon/arrow/arrow_comparator.cpp:124-127 | as unsigned bytes 200 comes before 10, and a column with 0, 100 and 200 has no lawful order |
| RowOrder.SortedCopiesAgree | cpp/src/cylon/table.cpp:436-494 | two sorted copies of the same rows agree up to ties, and are equal when there are none |
| SplitPoints.PartitionBounds | cpp/src/cylon/table.cpp:564-610 | partition p is the stretch from split point p-1, inclusive, to split point p, exclusive |
| SplitPoints.PartitionMonotone | cpp/src/cylon/table.cpp:564-610 | larger rows go to later partitions |
| SplitPoints.PartitionsAscend | cpp/src/cylon/table.cpp:599-606 | in a sorted table the target partitions never decrease |
| SplitPoints.TableBinarySearch | cpp/src/cylon/table.cpp:540-562 | the least index from the start index on whose row is not below the split point, or the row count when all are below; with a start index beyond 2^31-1 that follows a row not below the split point, the row count instead |
| SplitPoints.GetSplitPointIndices | cpp/src/cylon/table.cpp:564-610 | for tables of any size every row carries its partition; each histogram entry counts its partition in 32 bits, and below 2^32 rows the histogram sums to the row count |
| PriorityQueue.Push | cpp/src/cylon/table.cpp:464-470 | adds one element and keeps the heap |
| PriorityQueue.Pop | cpp/src/cylon/table.cpp:477-479 | removes an element that no other comes before, and keeps the heap |
| SortedMerge.CursorMoves | cpp/src/cylon/table.cpp:459-485 | the heap survives a cursor that moves while its table is out of the queue, although the comparator reads the cursors |
| SortedMerge.EmitLeast | cpp/src/cylon/table.cpp:477-485 | one turn emits a least front and keeps every property of the merge |
| SortedMerge.KWayMerge | cpp/src/cylon/table.cpp:441-485 | the emitted indices are a permutation of all row indices, their rows are sorted, and each input table keeps its order |
| SortedMerge.TakePermutes | cpp/src/cylon/table.cpp:487-491 | taking every index once permutes the table |
| SortedMerge.Merge | cpp/src/cylon/table.cpp:343-370 | the concatenation of the tables; no table at all is Invalid |
| SortedMerge.MergeSortedTable | cpp/src/cylon/table.cpp:436-494 | a sorted copy of all rows, by either branch; fails exactly on no tables |
| Sampling.UniformPicks | cpp/src/cylon/util/arrow_utils.cpp:243-255 | uniform sampling positions, computed exactly, are in range and ascending |
| Sampling.UniformExact | cpp/src/cylon/util/arrow_utils.cpp:243-252 | position i is the whole part of (i + 1) * n / (k + 1) |
| Sampling.UniformSpreads | cpp/src/cylon/util/arrow_utils.cpp:243-255 | they are strictly ascending, as far apart as an even spread rounded down, and as far from the start when some rows are left out |
| RoundedSampling.RoundedPicks | cpp/src/cylon/util/arrow_utils.cpp:243-255 | the positions as computed in `float` are in range and ascending, for any rounding to nearest, up to 2895 samples of a table of any size |
| RoundedSampling.RoundedSpreads | cpp/src/cylon/util/arrow_utils.cpp:243-255 | so spread are they, up to 2895 samples of a larger table or all rows of a table of up to 255 |
| RoundedSampling.SamplesPastEnd | cpp/src/cylon/util/arrow_utils.cpp:249-252 | 5592411 samples of 16777236 rows: the last position is the row count |
| SampleSort.DetermineSplitPoints | cpp/src/cylon/table.cpp:496-518 | the split points are a sorted sample of the merged samples, min(samples, W-1) of them |
| SampleSort.EnoughSamples | cpp/src/cylon/table.cpp:509-510 | there are samples for W-1 split points exactly when there are W-1 rows |
| SampleSort.SplitAtPoints | cpp/src/cylon/table.cpp:671-677 | the partitions are the stretches between split points; the split reads past its histogram exactly when there are fewer than W-1 split points |
| SampleSort.NonemptyTables | cpp/src/cylon/table.cpp:160-177 | the nonempty tables remain, their rows unchanged; nothing remains exactly when there are no rows |
| SampleSort.RangePartitionsSort | cpp/src/cylon/table.cpp:670-689 | for any sorted list of W-1 split points, with or without ties, sorted range partitions, empty ones included, concatenate to a sorted permutation of the input |
| SampleSort.SplitsAreRows | cpp/src/cylon/table.cpp:496-537 | split points are rows of the world |
| SampleSort.EmptyPartitionExact | cpp/src/cylon/table.cpp:682-689 | rank 0 is left without rows exactly when no row is below the first split point, a rank in between exactly when the split points around it tie, the last rank never |
| SampleSort.FedNeedsDistinct | cpp/src/cylon/table.cpp:682-689 | if no rank is left without rows there are W rows each strictly below the next |
| SampleSort.ConstantWorld | cpp/src/cylon/table.cpp:682-689 | when all rows tie, exactly the ranks before the last are left without rows |
| SampleSort.FewTiesFeedAll | cpp/src/cylon/table.cpp:496-537 | with a sampler that spreads its positions no rank is left without rows when there are as many rows as ranks and no row ties with more rows than the split points are apart in the merged samples |
| SampleSort.FewTiesWhenNone | cpp/src/cylon/table.cpp:496-537 | without ties that is the case exactly when there are as many rows as ranks |
| SampleSort.SortOverRanks | cpp/src/cylon/table.cpp:620-690 | a rank fails exactly when its partition is empty and otherwise holds a sorted copy of it; all ranks fail with fewer than W-1 rows |
| SampleSort.DistributedSort | cpp/src/cylon/table.cpp:620-690 | whenever all ranks succeed the tables in rank order are a sorted permutation of the input: no row is above a later one of its rank or of a later rank; the ranks that fail are those left without rows; all can succeed only with W rows that differ in the sort columns, do so when there are few ties, and without ties exactly when there are W rows |
| SetOperators.InsertAll | cpp/src/cylon/table.cpp:951-960 | the index set represents every row by its first occurrence, and the mask marks first occurrences |
| SetOperators.UnionRows | cpp/src/cylon/table.cpp:925-995 | the left rows at ascending positions without an equal row before them, then the right rows at ascending positions without an equal row before them or on the left: exactly the rows on either side |
| SetOperators.SubtractRows | cpp/src/cylon/table.cpp:997-1049 | the left rows at ascending positions without an equal row before them or on the right: exactly the rows on the left and not on the right |
| SetOperators.IntersectRows | cpp/src/cylon/table.cpp:1051-1111 | the left rows at ascending positions without an equal row before them and with one on the right: exactly the rows on both sides |
| SetOperators.LocalSetOpMeaning | cpp/src/cylon/table.cpp:925-1111 | the outputs have no duplicates and hold the rows on either side, only on the left, or on both sides |
| SetOperators.DistributedSetOp | cpp/src/cylon/table.cpp:1117-1165 | in every run and for any hash the ranks' outputs together are a permutation of the local operator's output on the concatenated inputs: once every row on either side, only on the left, or on both sides, and no other |
| UniqueRows.Unique | cpp/src/cylon/table.cpp:1306-1374 | with `first` the rows at ascending positions whose key no earlier row has, otherwise the rows at descending positions from 1 on whose key no later row has |
| UniqueRows.FirstPerKeyMeaning | cpp/src/cylon/table.cpp:1335-1341 | keeping first rows leaves exactly one row per key |
| UniqueRows.LastPerKeyMeaning | cpp/src/cylon/table.cpp:1342-1349 | keeping last rows leaves exactly one row per key of the rows looked at |
| UniqueRows.KeepLastExact | cpp/src/cylon/table.cpp:1343 | keep-last serves every key exactly when the key of row 0 occurs again |
| UniqueRows.KeepLastDropsOnlyRow | cpp/src/cylon/table.cpp:1343 | a table of one row comes out empty |
| UniqueRows.DistributedUnique | cpp/src/cylon/table.cpp:1376-1387 | in every run exactly one input row per key survives over all ranks: no two survivors share a key and every key has one |
| Joins.JoinCount | cpp/src/cylon/table.cpp:850-852 | the relational join has every row as often as the multiplicities of its sides say |
| Joins.JoinPairs | cpp/src/cylon/table.cpp:850-852 | every join pairs rows with equal keys, each with each, and no others |
| Joins.UnmatchedLeft | cpp/src/cylon/table.cpp:850-852 | a left row without a partner stays, as often as it occurs, in the left and the full outer join and not in the others |
| Joins.UnmatchedRight | cpp/src/cylon/table.cpp:850-852 | a right row without a partner stays, as often as it occurs, in the right and the full outer join and not in the others |
| Joins.DistributedJoin | cpp/src/cylon/table.cpp:861-890 | in every run, for all four types and any hash of the keys, the ranks' outputs are the local join of the concatenated inputs as a multiset of row pairs |
| Joins.GpuJoinIsRelational | cpp/src/gcylon/gtable_api.cpp:200-230 | up to the order of columns the four joins are the relational ones |
| Joins.GpuUnmatched | cpp/src/gcylon/gtable_api.cpp:209-222 | the left join keeps left rows without a partner, the right join right ones, with their columns first, and neither the other kind |
| Joins.GpuDistributedJoin | cpp/src/gcylon/gtable_api.cpp:276-299 | in every run of the two shuffles, over all ranks, every row occurs as often as in the relational join of the concatenated inputs |
| TableEquality.Equals | cpp/src/cylon/table.cpp:1389-1412 | equality of row sequences, or of multisets of rows when unordered |
| TableEquality.CompareWorlds | cpp/src/cylon/table.cpp:1414-1479 | how the ordered comparison ends, in every case and for worlds of any size |
| TableEquality.AlignedEqual | cpp/src/cylon/table.cpp:1414-1464 | being the blocks of the second table by the counts of the first is equality of the global tables |
| TableEquality.OrderedExact | cpp/src/cylon/table.cpp:1461-1478 | as long as the narrowing misleads no rank, the ordered comparison answers rightly exactly when both worlds are empty, or the first has rows on every rank and the second can be repartitioned to it |
| TableEquality.OrderedEqualTotals | cpp/src/cylon/table.cpp:1461-1478 | with equal totals, rows on every rank of the first and on the last of the second, and no rank misled by the narrowing, the answer is equality of the global tables |
| TableEquality.EmptyEqualsAnything | cpp/src/cylon/table.cpp:1419-1422 | an empty first table is declared equal to a table with a row |
| TableEquality.StuckExactly | cpp/src/cylon/table.cpp:1417-1431 | the ranks wait in different collectives exactly when some rank of the first table is empty and some is not; with all empty the answer is true |
| TableEquality.SomeRanksEmpty | cpp/src/cylon/table.cpp:1417-1431 | a table compared with itself, one of its two ranks empty: the ranks wait in different collectives |
| TableEquality.SortedOutcome | cpp/src/cylon/table.cpp:1447-1460 | after successful sorts, and when the narrowing misleads no rank, the comparison decides equality of multisets of rows |
| TableEquality.DistributedEquals | cpp/src/cylon/table.cpp:1440-1479 | unordered: too few rows for W-1 split points in a table that is sorted are an access past the histogram on every rank, a rank left without rows leaves others waiting, and otherwise the sorted tables are compared in order; up to 2^31-1 rows that is multiset equality, with its own exact failure |
| TableEquality.UnorderedEnds | cpp/src/cylon/table.cpp:1440-1479 | up to 2^31-1 rows and on several ranks, how the unordered comparison ends, case by case on row counts, ranks left without rows and the rows |
| TableEquality.FewTiesAnswer | cpp/src/cylon/table.cpp:1447-1460 | with few ties in both tables the unordered comparison on several ranks always comes to that answer |
| TableEquality.DistinctRowsAnswer | cpp/src/cylon/table.cpp:1447-1460 | for tables without duplicate rows it answers exactly when both have W rows and the second does not have more than the first |
| TableEquality.AnswerNeedsDistinct | cpp/src/cylon/table.cpp:1447-1460 | on several ranks an unordered comparison answers only if each table has W different rows |
| TableEquality.EqualButStuck | cpp/src/cylon/table.cpp:1447-1460 | two equal tables of two ranks with one and the same row each: rank 0 returns an error and rank 1 waits |

## Left out

- Repartition: the ranks' supersteps are loops over the world, here and in the sort. A list of ranks of another length than the world is not modelled.
- SlotsNeedSquare: like all statements about runs with another number of partitions than ranks it presupposes that the targets can be computed, which `SendTargets` says exactly.
- DistributedSort: the sampler is any choice of ascending positions, and for the statements about success any that spreads them. SampleTableUniform is such a sampler in exact arithmetic; in `float` this is proved in the range of `RoundedSpreads` (with the default ratio up to 1447 ranks, if a rank that holds no more rows than it would sample holds at most 255) and false far beyond it (`SamplesPastEnd`); in between it is open. With several ranks a table has at most 2^31-1 rows per rank, since the split counts the rows of a partition in an `int`. The choice between equal rows, which depends on the heap and on the local sort, is left open.
- FewTiesFeedAll: a sufficient condition; when rows tie, whether a rank is left without rows depends on which rows are sampled.
- GpuRepartition: gcylon's own all-to-all is not part of this model; it enters as an exchange that delivers every piece once. That it puts the pieces in rank order, and so keeps the global order, is not proved. Counts are not negative.
- DistributedEquals: the sort before an unordered comparison uses the default sampling ratio, as the code does; schema mismatch is not modelled.
- DistributedJoin: the local join is taken as a relational join whose row order is open; the sort and hash algorithms behind it are not modelled. How cudf fills the columns of unmatched rows is not modelled.
- Push: std::priority_queue is a binary heap with the library's contract; the order in which it returns ties is not claimed to be the library's.
- CompareRows: split points are rows of which only the sort columns are read, so the separate column lists of the two tables are not modelled.
- KWayMerge: the cursors, the heap and the emitted indices are sequences that are reassigned; that the comparator sees the cursors change is expressed by the order taking them as an argument.
- Mixed collectives (in DistributedEquals) end in the value `Stuck`; what the network library does then is not modelled.
- The initial-sampling sort, whose range partitioner is not part of this model.
- Tables that give up their memory (`retain_` false), memory pools, chunks, schemas, nulls and floating-point keys.
- Slice, Head and Tail, whose bodies are not part of this model.
- CSV and Parquet readers, printing, the table registry, streaming operators, and the Python, Java and cloud scripts: wrappers around the operators above.
