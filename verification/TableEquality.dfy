/** DistributedEquals (cpp/src/cylon/table.cpp:1389-1479): align the second world with the
    row counts of the first, compare rank by rank, and combine the answers. */
module TableEquality {
  import opened Tables
  import opened Int32
  import opened RowIndices
  import opened RowOrder
  import opened Repartition
  import opened SortedMerge
  import opened SplitPoints
  import opened Sampling
  import opened SampleSort

  /** How a call ends: with an answer on every rank, in an access past the end of a vector, or
      with some ranks waiting in a collective for ranks that took another path or have already
      returned an error. */
  datatype Outcome = Answer(equal: bool) | OutOfBoundsAccess | Stuck

  predicate NoneEmpty<T>(world: seq<seq<T>>) {
    forall r :: 0 <= r < |world| ==> |world[r]| > 0
  }

  predicate AllEmpty<T>(world: seq<seq<T>>) {
    forall r :: 0 <= r < |world| ==> |world[r]| == 0
  }

  /** The comparison of two worlds as sequences of rows. A rank whose own table is empty
      skips the repartition and compares that table with itself. */
  method CompareWorlds<T(==, !new)>(a: seq<seq<T>>, b: seq<seq<T>>) returns (o: Outcome)
    requires |a| == |b| > 0
    ensures o == OrderedOutcome(a, b)
  {
    if AllEmpty(a) {
      return Answer(true);
    } else if !NoneEmpty(a) {
      return Stuck;
    }
    var aligned := RepartitionInRankOrder(b, RowCounts(a));
    if aligned.Err? {
      return OutOfBoundsAccess;
    }
    var result := CompareRanks(a, aligned.value);
    return Answer(result);
  }

  /** Equals on every rank, and the logical AND of the AllReduce. */
  method CompareRanks<T(==)>(a: seq<seq<T>>, b: seq<seq<T>>) returns (result: bool)
    requires |a| == |b|
    ensures result <==> forall r :: 0 <= r < |a| ==> a[r] == b[r]
  {
    result := true;
    for r := 0 to |a|
      invariant result <==> forall s :: 0 <= s < r ==> a[s] == b[s]
    {
      var subResult := a[r] == b[r];
      result := result && subResult;
    }
  }

  /** What CompareWorlds comes to: the second world is aligned with the first. */
  ghost function OrderedOutcome<T>(a: seq<seq<T>>, b: seq<seq<T>>): Outcome
    requires |a| == |b| > 0
  {
    if AllEmpty(a) then Answer(true)
    else if !NoneEmpty(a) then Stuck
    else
      match Repartitioned(b, RowCounts(a))
      case Ok(aligned) => Answer(a == aligned)
      case Err(_) => OutOfBoundsAccess
  }

  /** No rank is misled by the narrowing when the second world is aligned with the first. */
  ghost predicate Alignable<T>(a: seq<seq<T>>, b: seq<seq<T>>) {
    Unharmed(RowCounts(b), RowCounts(a))
  }

  /** Block by block equality is equality of the global tables. */
  lemma AlignedEqual<T>(a: seq<seq<T>>, b: seq<seq<T>>)
    requires |a| == |b| && Total(RowCounts(b)) <= Total(RowCounts(a))
    ensures a == Blocks(Flatten(b), RowCounts(a)) <==> Flatten(a) == Flatten(b)
  {
    ConcatLength(b, |b|);
    BlocksFlatten(Flatten(b), RowCounts(a));
    BlocksOfWorld(a);
  }

  lemma OrderedByCounts<T>(a: seq<seq<T>>, b: seq<seq<T>>)
    requires |a| == |b| > 0 && NoneEmpty(a) && Alignable(a, b)
    ensures OrderedOutcome(a, b) ==
            if CanRepartition(RowCounts(b), RowCounts(a)) then Answer(Flatten(a) == Flatten(b))
            else OutOfBoundsAccess
  {
    assert !AllEmpty(a) by { assert |a[0]| > 0; }
    RepartitionedBlocks(b, RowCounts(a));
    if CanRepartition(RowCounts(b), RowCounts(a)) {
      AlignedEqual(a, b);
    }
  }

  /** The ranks wait for each other exactly when some rank of the first world is empty and some
      rank of it is not. */
  lemma StuckExactly<T>(a: seq<seq<T>>, b: seq<seq<T>>)
    requires |a| == |b| > 0
    ensures OrderedOutcome(a, b) == Stuck <==> [] in a && exists r :: 0 <= r < |a| && a[r] != []
    ensures (forall r :: 0 <= r < |a| ==> a[r] == []) ==> OrderedOutcome(a, b) == Answer(true)
  {
    if [] in a {
      var s :| 0 <= s < |a| && a[s] == [];
      assert |a[s]| == 0 && !NoneEmpty(a);
    }
    if r :| 0 <= r < |a| && a[r] != [] {
      assert |a[r]| > 0 && !AllEmpty(a);
    }
  }

  lemma {:induction false} EmptyWorld<T>(world: seq<seq<T>>, k: nat)
    requires AllEmpty(world) && k <= |world|
    ensures Concat(world, k) == []
  {
    if k > 0 {
      EmptyWorld(world, k - 1);
    }
  }

  /** As long as the narrowing misleads no rank, the ordered comparison answers, and answers
      rightly, exactly when both worlds are empty, or the first has rows on every rank and the
      second can be repartitioned to it. */
  lemma OrderedExact<T>(a: seq<seq<T>>, b: seq<seq<T>>)
    requires |a| == |b| > 0 && Alignable(a, b)
    ensures OrderedOutcome(a, b) == Answer(Flatten(a) == Flatten(b)) <==>
            (AllEmpty(a) && AllEmpty(b)) || (NoneEmpty(a) && CanRepartition(RowCounts(b), RowCounts(a)))
  {
    if AllEmpty(a) {
      EmptyWorld(a, |a|);
      assert !NoneEmpty(a) by { assert |a[0]| == 0; }
      if AllEmpty(b) {
        EmptyWorld(b, |b|);
      } else {
        var r :| 0 <= r < |b| && |b[r]| != 0;
        ConcatMember(b, |b|, b[r][0]);
      }
    } else if NoneEmpty(a) {
      OrderedByCounts(a, b);
    }
  }

  /** An empty first world is declared equal to anything. */
  lemma EmptyEqualsAnything<T>(x: T)
    ensures OrderedOutcome([[]], [[x]]) == Answer(true) && Flatten([[]]) != Flatten([[x]])
  {
    FlattenOne<T>([[]]);
    FlattenOne([[x]]);
  }

  /** When only some ranks of the first world have rows, those wait in the gathering of the
      counts for the others, even if the worlds are equal. */
  lemma SomeRanksEmpty<T>(x: T)
    ensures OrderedOutcome([[x], []], [[x], []]) == Stuck
  {
    var world := [[x], []];
    assert |world[0]| == 1 && |world[1]| == 0;
  }

  /** With a first world that has rows everywhere and as many as the second, whose last rank
      has rows, the answer is equality of the global tables. */
  lemma OrderedEqualTotals<T>(a: seq<seq<T>>, b: seq<seq<T>>)
    requires |a| == |b| > 0 && NoneEmpty(a) && |Flatten(a)| == |Flatten(b)| && b[|b| - 1] != []
    requires Alignable(a, b)
    ensures OrderedOutcome(a, b) == Answer(Flatten(a) == Flatten(b))
  {
    ConcatLength(a, |a|);
    ConcatLength(b, |b|);
    OrderedExact(a, b);
  }

  /** Sorting on all columns makes equality of multisets equality of sequences. */
  lemma SortedEqual<T(!new)>(cmp: (T, T) -> int, a: seq<T>, b: seq<T>, sa: seq<T>, sb: seq<T>)
    requires Lawful(cmp) && Decisive(cmp) && SortedCopy(cmp, a, sa) && SortedCopy(cmp, b, sb)
    ensures sa == sb <==> multiset(a) == multiset(b)
    ensures |sa| == |a| && |sb| == |b|
  {
    assert |multiset(sa)| == |multiset(a)| && |multiset(sb)| == |multiset(b)|;
    if multiset(a) == multiset(b) {
      SortedCopiesAgree(cmp, sa, sb);
    }
  }

  /** With more than one rank, a sort that succeeded everywhere left no rank empty. */
  ghost predicate SortedWorld<T>(cmp: (T, T) -> int, world: seq<seq<T>>, sorted: seq<seq<T>>) {
    && |sorted| == |world| > 0
    && SortedCopy(cmp, Flatten(world), Flatten(sorted))
    && (|world| > 1 ==> NoneEmpty(sorted))
  }

  lemma NonemptyOutcome<T>(a: seq<seq<T>>, b: seq<seq<T>>)
    requires |a| == |b| > 0 && NoneEmpty(a) && Alignable(a, b)
    requires b[|b| - 1] != [] || Flatten(b) == []
    ensures OrderedOutcome(a, b) ==
            if |Flatten(b)| <= |Flatten(a)| then Answer(Flatten(a) == Flatten(b)) else OutOfBoundsAccess
  {
    ConcatLength(a, |a|);
    ConcatLength(b, |b|);
    OrderedByCounts(a, b);
    assert |a[0]| > 0 && |a[|a| - 1]| > 0;
  }

  lemma OutcomeAfterSorting<T>(a: seq<seq<T>>, b: seq<seq<T>>, sa: seq<seq<T>>, sb: seq<seq<T>>)
    requires |a| == |b| == |sa| == |sb| > 0
    requires |Flatten(sa)| == |Flatten(a)| && |Flatten(sb)| == |Flatten(b)|
    requires Flatten(sa) == Flatten(sb) <==> multiset(Flatten(a)) == multiset(Flatten(b))
    requires if |a| == 1 then |sa[0]| == |a[0]| else NoneEmpty(sa) && NoneEmpty(sb)
    requires Alignable(sa, sb)
    ensures OrderedOutcome(sa, sb) == SortedAnswer(a, b)
  {
    if |a| == 1 {
      FlattenOne(sb);
      if a[0] != [] {
        NonemptyOutcome(sa, sb);
      }
    } else {
      assert |sb[|sb| - 1]| > 0;
      NonemptyOutcome(sa, sb);
    }
  }

  lemma SortedOutcome<T(!new)>(
      cmp: (T, T) -> int, a: seq<seq<T>>, b: seq<seq<T>>, sa: seq<seq<T>>, sb: seq<seq<T>>)
    requires Lawful(cmp) && Decisive(cmp) && |a| == |b|
    requires SortedWorld(cmp, a, sa) && SortedWorld(cmp, b, sb) && Alignable(sa, sb)
    ensures OrderedOutcome(sa, sb) == SortedAnswer(a, b)
  {
    SortedEqual(cmp, Flatten(a), Flatten(b), Flatten(sa), Flatten(sb));
    if |a| == 1 {
      OneRank(cmp, a, sa);
    }
    OutcomeAfterSorting(a, b, sa, sb);
  }

  lemma OneRank<T>(cmp: (T, T) -> int, world: seq<seq<T>>, sorted: seq<seq<T>>)
    requires |world| == 1 && SortedWorld(cmp, world, sorted)
    ensures |sorted[0]| == |world[0]|
  {
    FlattenOne(world);
    FlattenOne(sorted);
    assert |multiset(sorted[0])| == |multiset(world[0])|;
  }

  /** What the unordered comparison comes to when both sorts succeed on every rank. */
  ghost function SortedAnswer<T>(a: seq<seq<T>>, b: seq<seq<T>>): Outcome
    requires |a| == |b| > 0
  {
    if |a| == 1 && a[0] == [] then Answer(true)
    else if |Flatten(b)| <= |Flatten(a)| then Answer(multiset(Flatten(a)) == multiset(Flatten(b)))
    else OutOfBoundsAccess
  }

  ghost predicate SomeStarved<T>(cmp: (T, T) -> int, splits: seq<T>, world: seq<seq<T>>) {
    splits != [] && exists q :: 0 <= q < |world| && Starved(cmp, splits, world, q)
  }

  /** How the comparison already ends when a world is sorted. With fewer rows than split points
      needed every rank reads past its histogram. A starved rank returns an error, but the last
      rank is never starved, so others go on to the next collective and wait there. */
  ghost function SortEnd<T>(cmp: (T, T) -> int, splits: seq<T>, world: seq<seq<T>>): Option<Outcome> {
    if |world| == 1 then None
    else if Total(RowCounts(world)) < |world| - 1 then Some(OutOfBoundsAccess)
    else if SomeStarved(cmp, splits, world) then Some(Stuck)
    else None
  }

  /** The unordered comparison: the first world is sorted, then the second, then both compared. */
  ghost function UnorderedOutcome<T>(
      cmp: (T, T) -> int, aSplits: seq<T>, bSplits: seq<T>, a: seq<seq<T>>, b: seq<seq<T>>): Outcome
    requires |a| == |b| > 0
  {
    match SortEnd(cmp, aSplits, a)
    case Some(end) => end
    case None =>
      match SortEnd(cmp, bSplits, b)
      case Some(end) => end
      case None => SortedAnswer(a, b)
  }

  /** `o` is what the comparison of sorted copies of the worlds comes to. */
  ghost predicate ComparedSorted<T(!new)>(cmp: (T, T) -> int, a: seq<seq<T>>, b: seq<seq<T>>, o: Outcome) {
    exists sa, sb :: SortedWorld(cmp, a, sa) && SortedWorld(cmp, b, sb) && |sa| == |sb| && o == OrderedOutcome(sa, sb)
  }

  /** The unordered comparison of worlds of any size. */
  ghost predicate ComparedUnordered<T(!new)>(
      cmp: (T, T) -> int, aSplits: seq<T>, bSplits: seq<T>, a: seq<seq<T>>, b: seq<seq<T>>, o: Outcome)
  {
    match SortEnd(cmp, aSplits, a)
    case Some(end) => o == end
    case None =>
      match SortEnd(cmp, bSplits, b)
      case Some(end) => o == end
      case None => ComparedSorted(cmp, a, b, o)
  }

  /** With up to 2^31-1 rows in each world it is decided by the worlds as multisets. */
  lemma ComparedWithinInt32<T(!new)>(
      cmp: (T, T) -> int, aSplits: seq<T>, bSplits: seq<T>, a: seq<seq<T>>, b: seq<seq<T>>, o: Outcome)
    requires Lawful(cmp) && Decisive(cmp) && |a| == |b| > 0
    requires |Flatten(a)| <= INT32_MAX && |Flatten(b)| <= INT32_MAX
    requires ComparedUnordered(cmp, aSplits, bSplits, a, b, o)
    ensures o == UnorderedOutcome(cmp, aSplits, bSplits, a, b)
  {
    if SortEnd(cmp, aSplits, a).None? && SortEnd(cmp, bSplits, b).None? {
      var sa, sb :| SortedWorld(cmp, a, sa) && SortedWorld(cmp, b, sb) && |sa| == |sb| && o == OrderedOutcome(sa, sb);
      SortedSmall(cmp, a, sa);
      SortedSmall(cmp, b, sb);
      FittingUnharmed(RowCounts(sb), RowCounts(sa));
      SortedOutcome(cmp, a, b, sa, sb);
    }
  }

  /** The same, case by case: a world with fewer than W-1 rows ends the comparison in an access
      past the histogram, a world with a rank left without rows in waiting ranks, the first world
      before the second; then a second world with more rows overruns the first, and otherwise the
      answer is equality as multisets. */
  lemma UnorderedEnds<T(!new)>(
      cmp: (T, T) -> int, aSplits: seq<T>, bSplits: seq<T>, a: seq<seq<T>>, b: seq<seq<T>>)
    requires |a| == |b| > 1
    requires (|Flatten(a)| >= |a| - 1 ==> aSplits != []) && (|Flatten(b)| >= |b| - 1 ==> bSplits != [])
    ensures var o := UnorderedOutcome(cmp, aSplits, bSplits, a, b);
            if |Flatten(a)| < |a| - 1 then o == OutOfBoundsAccess
            else if exists q :: 0 <= q < |a| && Starved(cmp, aSplits, a, q) then o == Stuck
            else if |Flatten(b)| < |b| - 1 then o == OutOfBoundsAccess
            else if exists q :: 0 <= q < |b| && Starved(cmp, bSplits, b, q) then o == Stuck
            else if |Flatten(b)| > |Flatten(a)| then o == OutOfBoundsAccess
            else o == Answer(multiset(Flatten(a)) == multiset(Flatten(b)))
  {
    ConcatLength(a, |a|);
    ConcatLength(b, |b|);
  }

  /** Equals on one rank (table.cpp:1389-1412). */
  method Equals<T(==, !new)>(cmp: (T, T) -> int, sort: seq<T> -> seq<T>, ordered: bool, a: seq<T>, b: seq<T>)
      returns (result: bool)
    requires Lawful(cmp) && Decisive(cmp) && Sorts(cmp, sort)
    ensures result <==> if ordered then a == b else multiset(a) == multiset(b)
  {
    if ordered {
      return a == b;
    }
    SortedEqual(cmp, a, b, sort(a), sort(b));
    return sort(a) == sort(b);
  }

  /** DistributedEquals. Unordered, with both sorts successful on every rank and no more rows in
      the second world than in the first, it answers whether the worlds hold the same multiset
      of rows; only an empty table on a single rank is equal to anything. */
  method DistributedEquals<T(==, !new)>(
      cmp: (T, T) -> int, sort: seq<T> -> seq<T>, pick: (nat, nat) -> seq<nat>, ordered: bool,
      a: seq<seq<T>>, b: seq<seq<T>>) returns (o: Outcome, ghost aSplits: seq<T>, ghost bSplits: seq<T>)
    requires Lawful(cmp) && Decisive(cmp) && Sorts(cmp, sort) && Picks(pick)
    requires |a| == |b| > 0
    requires ordered || |a| == 1 || forall r :: 0 <= r < |a| ==> |a[r]| <= INT32_MAX && |b[r]| <= INT32_MAX
    ensures ordered ==> o == OrderedOutcome(a, b)
    ensures !ordered ==> ComparedUnordered(cmp, aSplits, bSplits, a, b, o)
    ensures !ordered && |Flatten(a)| <= INT32_MAX && |Flatten(b)| <= INT32_MAX ==>
              o == UnorderedOutcome(cmp, aSplits, bSplits, a, b)
    ensures !ordered && |a| > 1 ==> Sampled(cmp, pick, |a| * 2, a, aSplits)
    ensures !ordered && |a| > 1 && SortEnd(cmp, aSplits, a).None? ==> Sampled(cmp, pick, |b| * 2, b, bSplits)
  {
    aSplits, bSplits := [], [];
    if ordered {
      o := CompareWorlds(a, b);
    } else {
      o, aSplits, bSplits := SortAndCompare(cmp, sort, pick, a, b);
      if |Flatten(a)| <= INT32_MAX && |Flatten(b)| <= INT32_MAX {
        ComparedWithinInt32(cmp, aSplits, bSplits, a, b, o);
      }
    }
  }

  /** The branch for an unordered comparison. */
  method SortAndCompare<T(==, !new)>(
      cmp: (T, T) -> int, sort: seq<T> -> seq<T>, pick: (nat, nat) -> seq<nat>,
      a: seq<seq<T>>, b: seq<seq<T>>) returns (o: Outcome, ghost aSplits: seq<T>, ghost bSplits: seq<T>)
    requires Lawful(cmp) && Decisive(cmp) && Sorts(cmp, sort) && Picks(pick)
    requires |a| == |b| > 0
    requires |a| == 1 || forall r :: 0 <= r < |a| ==> |a[r]| <= INT32_MAX && |b[r]| <= INT32_MAX
    ensures ComparedUnordered(cmp, aSplits, bSplits, a, b, o)
    ensures |a| > 1 ==> Sampled(cmp, pick, |a| * 2, a, aSplits)
    ensures |a| > 1 && SortEnd(cmp, aSplits, a).None? ==> Sampled(cmp, pick, |b| * 2, b, bSplits)
  {
    bSplits := [];
    var aSorted, sa := SortWorld(cmp, sort, pick, a);
    aSplits := sa;
    if !aSorted.Everywhere? {
      o := if aSorted.Nowhere? then OutOfBoundsAccess else Stuck;
      return;
    }
    var bSorted, sb := SortWorld(cmp, sort, pick, b);
    bSplits := sb;
    if !bSorted.Everywhere? {
      o := if bSorted.Nowhere? then OutOfBoundsAccess else Stuck;
      return;
    }
    o := CompareWorlds(aSorted.tables, bSorted.tables);
    assert ComparedSorted(cmp, a, b, o);
  }

  /** A call that all ranks make succeeds on all of them, on none, or on some. */
  datatype Joint<+T> = Everywhere(tables: seq<seq<T>>) | Nowhere | Somewhere

  method SortWorld<T(!new)>(
      cmp: (T, T) -> int, sort: seq<T> -> seq<T>, pick: (nat, nat) -> seq<nat>, world: seq<seq<T>>)
      returns (r: Joint<T>, ghost splits: seq<T>)
    requires Lawful(cmp) && Sorts(cmp, sort) && Picks(pick) && world != []
    requires |world| > 1 ==> forall s :: 0 <= s < |world| ==> |world[s]| <= INT32_MAX
    ensures r.Everywhere? ==> SortedWorld(cmp, world, r.tables)
    ensures SortEnd(cmp, splits, world) ==
            match r case Everywhere(_) => None case Nowhere => Some(OutOfBoundsAccess) case Somewhere => Some(Stuck)
    ensures |world| > 1 ==> Sampled(cmp, pick, |world| * 2, world, splits)
  {
    var out, points := DistributedSort(cmp, sort, pick, 0, world);
    splits := points;
    RankFailures(cmp, points, world, out);
    r := CollectTables(out);
    if r.Everywhere? && |world| > 1 {
      forall q: nat | q < |r.tables|
        ensures |r.tables[q]| > 0
      {
        assert out[q].Ok?;
        NonemptyRank(cmp, points, world, q, out[q]);
      }
    }
  }

  method CollectTables<T>(out: seq<SortResult<T>>) returns (r: Joint<T>)
    requires out != []
    ensures r.Everywhere? <==> AllSucceeded(out)
    ensures r.Everywhere? ==> r.tables == SortedTables(out)
    ensures r.Nowhere? <==> forall q :: 0 <= q < |out| ==> out[q].Err?
  {
    var tables: seq<seq<T>> := [];
    var failures := 0;
    for q := 0 to |out|
      invariant 0 <= failures <= q && |tables| == q - failures
      invariant failures == 0 <==> forall p :: 0 <= p < q ==> out[p].Ok?
      invariant failures == q <==> forall p :: 0 <= p < q ==> out[p].Err?
      invariant failures == 0 ==> forall p :: 0 <= p < q ==> out[p] == Ok(tables[p])
    {
      if out[q].Err? {
        failures := failures + 1;
      } else {
        tables := tables + [out[q].value];
      }
    }
    if failures == 0 {
      assert AllSucceeded(out);
      return Everywhere(tables);
    }
    return if failures == |out| then Nowhere else Somewhere;
  }

  /** The ranks fail together only for want of rows; starved ranks fail while the last rank
      succeeds. */
  lemma RankFailures<T(!new)>(cmp: (T, T) -> int, splits: seq<T>, world: seq<seq<T>>, out: seq<SortResult<T>>)
    requires |out| == |world| > 0
    requires |world| == 1 ==> AllSucceeded(out)
    requires |world| > 1 ==>
               if Total(RowCounts(world)) < |world| - 1
               then forall q :: 0 <= q < |out| ==> out[q] == Err(TooFewSplitPoints)
               else |splits| == |world| - 1 && FailsWhenStarved(cmp, splits, world, out)
    ensures AllSucceeded(out) <==> SortEnd(cmp, splits, world) == None
    ensures (forall q :: 0 <= q < |out| ==> out[q].Err?) <==>
            SortEnd(cmp, splits, world) == Some(OutOfBoundsAccess)
  {
    var last := |out| - 1;
    if |world| == 1 {
      assert out[0].Ok?;
    } else if Total(RowCounts(world)) < |world| - 1 {
      assert out[last].Err?;
    } else {
      assert !Starved(cmp, splits, world, last) && out[last].Ok?;
    }
  }

  lemma NonemptyRank<T>(cmp: (T, T) -> int, splits: seq<T>, world: seq<seq<T>>, q: nat, r: SortResult<T>)
    requires RankOutcome(cmp, splits, world, q, r) && r.Ok?
    ensures |r.value| > 0
  {
    assert |multiset(r.value)| == |r.value|;
  }

  /** On several ranks an unordered comparison can only answer when each world has at least
      as many different rows as there are ranks. */
  lemma AnswerNeedsDistinct<T(!new)>(
      cmp: (T, T) -> int, pick: (nat, nat) -> seq<nat>, aSplits: seq<T>, bSplits: seq<T>,
      a: seq<seq<T>>, b: seq<seq<T>>)
    requires Lawful(cmp) && Picks(pick) && |a| == |b| > 1
    requires Sampled(cmp, pick, |a| * 2, a, aSplits) && Sampled(cmp, pick, |b| * 2, b, bSplits)
    requires UnorderedOutcome(cmp, aSplits, bSplits, a, b).Answer?
    ensures HasDistinct(cmp, Flatten(a), |a|) && HasDistinct(cmp, Flatten(b), |b|)
  {
    SampledSplits(cmp, pick, 2, a, aSplits);
    SampledSplits(cmp, pick, 2, b, bSplits);
    FedNeedsDistinct(cmp, aSplits, a);
    FedNeedsDistinct(cmp, bSplits, b);
  }

  /** With few ties in both worlds no sort fails, and the comparison comes to its answer. */
  lemma FewTiesAnswer<T(!new)>(
      cmp: (T, T) -> int, pick: (nat, nat) -> seq<nat>, aSplits: seq<T>, bSplits: seq<T>,
      a: seq<seq<T>>, b: seq<seq<T>>)
    requires Lawful(cmp) && Picks(pick) && Spreads(pick) && |a| == |b| > 1
    requires Sampled(cmp, pick, |a| * 2, a, aSplits) && Sampled(cmp, pick, |b| * 2, b, bSplits)
    requires FewTies(cmp, |a| * 2, a) && FewTies(cmp, |b| * 2, b)
    ensures UnorderedOutcome(cmp, aSplits, bSplits, a, b) == SortedAnswer(a, b)
  {
    FewTiesSort(cmp, pick, a, aSplits);
    FewTiesSort(cmp, pick, b, bSplits);
  }

  lemma FewTiesSort<T(!new)>(
      cmp: (T, T) -> int, pick: (nat, nat) -> seq<nat>, world: seq<seq<T>>, splits: seq<T>)
    requires Lawful(cmp) && Picks(pick) && Spreads(pick) && |world| > 1
    requires Sampled(cmp, pick, |world| * 2, world, splits) && FewTies(cmp, |world| * 2, world)
    ensures SortEnd(cmp, splits, world) == None
  {
    FewTiesFeedAll(cmp, pick, |world| * 2, world, splits);
    ConcatLength(world, |world|);
  }

  lemma NoDuplicatesNoTies<T(!new)>(cmp: (T, T) -> int, rows: seq<T>)
    requires Decisive(cmp) && NoDuplicates(rows)
    ensures NoTies(cmp, rows)
  {
  }

  /** On several ranks, and for tables without duplicate rows, the unordered comparison answers
      exactly when both tables have as many rows as there are ranks and the second does not have
      more than the first; the answer is equality as multisets. */
  lemma DistinctRowsAnswer<T(!new)>(
      cmp: (T, T) -> int, pick: (nat, nat) -> seq<nat>, aSplits: seq<T>, bSplits: seq<T>,
      a: seq<seq<T>>, b: seq<seq<T>>)
    requires Lawful(cmp) && Decisive(cmp) && Picks(pick) && Spreads(pick) && |a| == |b| > 1
    requires Sampled(cmp, pick, |a| * 2, a, aSplits) && Sampled(cmp, pick, |b| * 2, b, bSplits)
    requires NoDuplicates(Flatten(a)) && NoDuplicates(Flatten(b))
    ensures var o := UnorderedOutcome(cmp, aSplits, bSplits, a, b);
            (o.Answer? <==> |b| <= |Flatten(b)| <= |Flatten(a)|) &&
            (o.Answer? ==> o.equal == (multiset(Flatten(a)) == multiset(Flatten(b))))
  {
    NoDuplicatesNoTies(cmp, Flatten(a));
    NoDuplicatesNoTies(cmp, Flatten(b));
    FewTiesWhenNone(cmp, |a| * 2, a);
    FewTiesWhenNone(cmp, |b| * 2, b);
    if |Flatten(a)| >= |a| && |Flatten(b)| >= |b| {
      FewTiesAnswer(cmp, pick, aSplits, bSplits, a, b);
    } else if UnorderedOutcome(cmp, aSplits, bSplits, a, b).Answer? {
      AnswerNeedsDistinct(cmp, pick, aSplits, bSplits, a, b);
      DistinctNeedsRows(cmp, Flatten(a), |a|);
      DistinctNeedsRows(cmp, Flatten(b), |b|);
      assert false;
    }
  }

  /** Two equal worlds of two ranks, each with the same one row: the only split point is that
      row, so rank 0 is starved and returns an error while rank 1 waits. */
  lemma EqualButStuck<T(!new)>(
      cmp: (T, T) -> int, pick: (nat, nat) -> seq<nat>, x: T, aSplits: seq<T>, bSplits: seq<T>)
    requires Lawful(cmp) && Picks(pick)
    requires Sampled(cmp, pick, 4, [[x], [x]], aSplits)
    ensures UnorderedOutcome(cmp, aSplits, bSplits, [[x], [x]], [[x], [x]]) == Stuck
  {
    var world := [[x], [x]];
    assert Concat(world, 0) == [] && Concat(world, 1) == [x] && Flatten(world) == [x, x];
    ConcatLength(world, 2);
    SampledSplits(cmp, pick, 2, world, aSplits);
    LawfulAt(cmp, x, x, x);
    ConstantWorld(cmp, aSplits, world, 0);
    assert Starved(cmp, aSplits, world, 0);
  }

  lemma SmallWorld<T>(world: seq<seq<T>>)
    requires |Flatten(world)| <= INT32_MAX
    ensures Total(RowCounts(world)) == |Flatten(world)|
    ensures forall r :: 0 <= r < |world| ==> |world[r]| <= INT32_MAX
  {
    ConcatLength(world, |world|);
    forall r | 0 <= r < |world|
      ensures |world[r]| <= INT32_MAX
    {
      BeforeMonotone(RowCounts(world), r + 1, |world|);
    }
  }

  lemma SortedSmall<T>(cmp: (T, T) -> int, world: seq<seq<T>>, sorted: seq<seq<T>>)
    requires SortedWorld(cmp, world, sorted) && |Flatten(world)| <= INT32_MAX
    ensures Total(RowCounts(sorted)) <= INT32_MAX
    ensures forall r :: 0 <= r < |sorted| ==> |sorted[r]| <= INT32_MAX
  {
    assert |multiset(Flatten(sorted))| == |multiset(Flatten(world))|;
    SmallWorld(sorted);
  }
}
