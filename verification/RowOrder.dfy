/** The order rows are sorted in: CompareRows (cpp/src/cylon/table.cpp:420-434), which goes
    through one comparator per sort column until one of them decides. */
module RowOrder {
  import opened Division
  import opened Tables

  /** A three-way comparison that orders rows totally, up to ties. */
  ghost predicate Lawful<T(!new)>(cmp: (T, T) -> int) {
    && (forall a, b :: cmp(a, b) > 0 <==> cmp(b, a) < 0)
    && (forall a, b, c :: cmp(a, b) <= 0 && cmp(b, c) <= 0 ==> cmp(a, c) <= 0)
  }

  /** No two different rows tie. */
  ghost predicate Decisive<T(!new)>(cmp: (T, T) -> int) {
    forall a, b :: cmp(a, b) == 0 ==> a == b
  }

  ghost predicate Sorted<T>(cmp: (T, T) -> int, rows: seq<T>) {
    forall i, j :: 0 <= i < j < |rows| ==> cmp(rows[i], rows[j]) <= 0
  }

  ghost predicate SortedCopy<T>(cmp: (T, T) -> int, rows: seq<T>, sorted: seq<T>) {
    Sorted(cmp, sorted) && multiset(sorted) == multiset(rows)
  }

  // The lexicographic comparison

  /** The first nonzero verdict of the comparators from `i` on. */
  function CompareFrom<T>(comparators: seq<(T, T) -> int>, i: nat, a: T, b: T): int
    requires i <= |comparators|
    decreases |comparators| - i
  {
    if i == |comparators| then 0
    else if comparators[i](a, b) != 0 then comparators[i](a, b)
    else CompareFrom(comparators, i + 1, a, b)
  }

  /** Comparison by all the sort columns. */
  function ByColumns<T>(comparators: seq<(T, T) -> int>): (T, T) -> int {
    (a, b) => CompareFrom(comparators, 0, a, b)
  }

  /** A comparator decides when those before it do not. */
  lemma {:induction false} FirstDecides<T>(comparators: seq<(T, T) -> int>, i: nat, k: nat, a: T, b: T)
    requires i <= k <= |comparators| && forall j :: i <= j < k ==> comparators[j](a, b) == 0
    ensures k < |comparators| && comparators[k](a, b) != 0 ==>
              CompareFrom(comparators, i, a, b) == comparators[k](a, b)
    ensures k == |comparators| ==> CompareFrom(comparators, i, a, b) == 0
    decreases k - i
  {
    if i < k {
      FirstDecides(comparators, i + 1, k, a, b);
    }
  }

  method CompareRows<T>(comparators: seq<(T, T) -> int>, a: T, b: T) returns (r: int)
    ensures r == ByColumns(comparators)(a, b)
    ensures forall k :: 0 <= k < |comparators| && comparators[k](a, b) != 0 &&
                        (forall j :: 0 <= j < k ==> comparators[j](a, b) == 0) ==>
              r == comparators[k](a, b)
    ensures (forall k :: 0 <= k < |comparators| ==> comparators[k](a, b) == 0) ==> r == 0
  {
    for i := 0 to |comparators|
      invariant forall j :: 0 <= j < i ==> comparators[j](a, b) == 0
    {
      var result := comparators[i](a, b);
      FirstDecides(comparators, 0, i, a, b);
      if result == 0 {
        continue;
      }
      return result;
    }
    FirstDecides(comparators, 0, |comparators|, a, b);
    return 0;
  }

  /** The first sort column takes precedence: rows it tells apart are in its order, whatever
      the columns after it say. */
  lemma FirstColumnFirst<T>(comparators: seq<(T, T) -> int>, a: T, b: T)
    requires comparators != [] && comparators[0](a, b) != 0
    ensures ByColumns(comparators)(a, b) == comparators[0](a, b)
  {
    FirstDecides(comparators, 0, 0, a, b);
  }

  ghost predicate AllLawful<T(!new)>(comparators: seq<(T, T) -> int>) {
    forall i :: 0 <= i < |comparators| ==> Lawful(comparators[i])
  }

  lemma LawfulAt<T(!new)>(cmp: (T, T) -> int, a: T, b: T, c: T)
    requires Lawful(cmp)
    ensures cmp(a, b) > 0 <==> cmp(b, a) < 0
    ensures cmp(a, b) < 0 <==> cmp(b, a) > 0
    ensures cmp(a, b) <= 0 && cmp(b, c) <= 0 ==> cmp(a, c) <= 0
    ensures cmp(a, b) == 0 && cmp(b, c) == 0 ==> cmp(a, c) == 0
    ensures cmp(a, b) <= 0 && cmp(b, c) <= 0 && cmp(a, c) == 0 ==> cmp(a, b) == 0 && cmp(b, c) == 0
  {
  }

  lemma {:induction false} CompareFromLawful<T(!new)>(comparators: seq<(T, T) -> int>, i: nat, a: T, b: T, c: T)
    requires AllLawful(comparators) && i <= |comparators|
    ensures CompareFrom(comparators, i, a, b) > 0 <==> CompareFrom(comparators, i, b, a) < 0
    ensures CompareFrom(comparators, i, a, b) <= 0 && CompareFrom(comparators, i, b, c) <= 0 ==>
              CompareFrom(comparators, i, a, c) <= 0
    decreases |comparators| - i
  {
    if i < |comparators| {
      CompareFromLawful(comparators, i + 1, a, b, c);
      LawfulAt(comparators[i], a, b, c);
    }
  }

  /** The lexicographic comparison of lawful columns, in any directions, is lawful. */
  lemma ByColumnsLawful<T(!new)>(comparators: seq<(T, T) -> int>)
    requires AllLawful(comparators)
    ensures Lawful(ByColumns(comparators))
  {
    var cmp := ByColumns(comparators);
    forall a, b
      ensures cmp(a, b) > 0 <==> cmp(b, a) < 0
    {
      CompareFromLawful(comparators, 0, a, b, a);
    }
    forall a, b, c | cmp(a, b) <= 0 && cmp(b, c) <= 0
      ensures cmp(a, c) <= 0
    {
      CompareFromLawful(comparators, 0, a, b, c);
    }
  }

  ghost predicate TieEverywhere<T>(comparators: seq<(T, T) -> int>, i: nat, a: T, b: T) {
    forall k :: i <= k < |comparators| ==> comparators[k](a, b) == 0
  }

  lemma {:induction false} CompareFromTies<T>(comparators: seq<(T, T) -> int>, i: nat, a: T, b: T)
    requires i <= |comparators|
    ensures CompareFrom(comparators, i, a, b) == 0 <==> TieEverywhere(comparators, i, a, b)
    decreases |comparators| - i
  {
    if i < |comparators| {
      CompareFromTies(comparators, i + 1, a, b);
    }
  }

  /** Sorting by all columns leaves no ties between different rows. */
  lemma ByAllColumnsDecisive<T(!new)>(comparators: seq<(T, T) -> int>)
    requires forall a, b :: TieEverywhere(comparators, 0, a, b) ==> a == b
    ensures Decisive(ByColumns(comparators))
  {
    forall a, b | ByColumns(comparators)(a, b) == 0
      ensures a == b
    {
      CompareFromTies(comparators, 0, a, b);
    }
  }

  /** A descending column compares with the sign turned round
      (cpp/src/cylon/arrow/arrow_comparator.cpp:124-132). */
  function Directed<T>(cmp: (T, T) -> int, ascending: bool): (T, T) -> int {
    if ascending then cmp else (a, b) => -cmp(a, b)
  }

  lemma DirectedLawful<T(!new)>(cmp: (T, T) -> int, ascending: bool)
    requires Lawful(cmp)
    ensures Lawful(Directed(cmp, ascending))
  {
    var d := Directed(cmp, ascending);
    forall a, b, c
      ensures d(a, b) > 0 <==> d(b, a) < 0
      ensures d(a, b) <= 0 && d(b, c) <= 0 ==> d(a, c) <= 0
    {
      LawfulAt(cmp, a, b, c);
      LawfulAt(cmp, c, b, a);
      LawfulAt(cmp, a, c, b);
    }
  }

  /** Sorting by an ascending column never steps down in it, by a descending one never up. */
  lemma DirectedSorted<T(!new)>(cmp: (T, T) -> int, rows: seq<T>)
    requires Lawful(cmp)
    ensures Sorted(Directed(cmp, true), rows) <==>
            forall i, j :: 0 <= i < j < |rows| ==> cmp(rows[i], rows[j]) <= 0
    ensures Sorted(Directed(cmp, false), rows) <==>
            forall i, j :: 0 <= i < j < |rows| ==> cmp(rows[i], rows[j]) >= 0
  {
    var up, down := Directed(cmp, true), Directed(cmp, false);
    forall i, j | 0 <= i < j < |rows|
      ensures up(rows[i], rows[j]) <= 0 <==> cmp(rows[i], rows[j]) <= 0
      ensures down(rows[i], rows[j]) <= 0 <==> cmp(rows[i], rows[j]) >= 0
    {
    }
  }

  /** Ascending keeps every verdict, descending turns it round. */
  lemma DirectedVerdict<T>(cmp: (T, T) -> int, a: T, b: T)
    ensures cmp(a, b) < 0 ==> Directed(cmp, true)(a, b) < 0 < Directed(cmp, false)(a, b)
    ensures cmp(a, b) > 0 ==> Directed(cmp, false)(a, b) < 0 < Directed(cmp, true)(a, b)
    ensures cmp(a, b) == 0 ==> Directed(cmp, false)(a, b) == 0 == Directed(cmp, true)(a, b)
  {
  }

  // The integer column comparator: arrow_comparator.cpp:124-132

  function Sign(x: int): int {
    if x > 0 then 1 else if x < 0 then -1 else 0
  }

  /** The sign of a difference that is wrapped to the range `[-half, half)`. This is what the
      code computes for unsigned columns and for signed ones narrower than `int`. For signed
      columns of 32 and 64 bits a difference outside the range is undefined there, so for them
      only the values within the range say something. */
  function CompareByDifference(v1: int, v2: int, half: int): int
    requires half > 0
  {
    Sign((v1 - v2 + half) % (2 * half) - half)
  }

  /** Comparing two values of a type of `2 * half` values, signed or unsigned, by their wrapping
      difference is right exactly while the difference fits the signed type. */
  lemma CompareByDifferenceExact(v1: int, v2: int, half: int)
    requires half > 0 && -2 * half < v1 - v2 < 2 * half
    ensures CompareByDifference(v1, v2, half) == Sign(v1 - v2) <==> -half <= v1 - v2 < half
    ensures -half <= v1 - v2 < half ==>
              CompareByDifference(v1, v2, half) == if v1 > v2 then 1 else if v1 == v2 then 0 else -1
  {
    var d, m := v1 - v2, 2 * half;
    if d < -half {
      Remainder(d + half, m, -1, d + half + m);
    } else if d < half {
      Remainder(d + half, m, 0, d + half);
    } else {
      Remainder(d + half, m, 1, d + half - m);
    }
  }

  /** The comparator of an integer column. */
  function ByDifference<T>(column: T -> int, half: int): (T, T) -> int
    requires half > 0
  {
    (a, b) => CompareByDifference(column(a), column(b), half)
  }

  /** Over values that lie less than `half` apart it is a lawful order, the order of the values. */
  lemma ByDifferenceLawful<T(!new)>(column: T -> int, half: int, low: int)
    requires half > 0 && forall x :: low <= column(x) < low + half
    ensures Lawful(ByDifference(column, half))
    ensures forall a, b :: ByDifference(column, half)(a, b) == Sign(column(a) - column(b))
  {
    forall a, b
      ensures ByDifference(column, half)(a, b) == Sign(column(a) - column(b))
    {
      CompareByDifferenceExact(column(a), column(b), half);
    }
  }

  /** In a column of unsigned bytes 200 comes before 10, and a column that holds 0, 100 and
      200 is not ordered at all. */
  lemma UnsignedBytes<T(!new)>(column: T -> int, a: T, b: T, c: T)
    requires column(a) == 0 && column(b) == 100 && column(c) == 200
    ensures CompareByDifference(200, 10, 128) == -1
    ensures !Lawful(ByDifference(column, 128))
  {
    var cmp := ByDifference(column, 128);
    assert cmp(a, b) <= 0 && cmp(b, c) <= 0 && cmp(a, c) > 0;
  }

  // Sorted sequences

  lemma SortedAppend<T>(cmp: (T, T) -> int, a: seq<T>, b: seq<T>)
    requires Sorted(cmp, a) && Sorted(cmp, b)
    requires forall x, y :: x in a && y in b ==> cmp(x, y) <= 0
    ensures Sorted(cmp, a + b)
  {
    forall i, j | 0 <= i < j < |a + b|
      ensures cmp((a + b)[i], (a + b)[j]) <= 0
    {
      if i < |a| <= j {
        assert a[i] in a && b[j - |a|] in b;
      }
    }
  }

  function NotAbove<T>(cmp: (T, T) -> int, x: T): T -> nat {
    y => if cmp(y, x) <= 0 then 0 else 1
  }

  lemma {:induction false} CountNotAbovePrefix<T>(cmp: (T, T) -> int, rows: seq<T>, x: T, k: nat)
    requires k <= |rows| && forall i :: 0 <= i < k ==> cmp(rows[i], x) <= 0
    ensures |Routed(rows, NotAbove(cmp, x), 0)| >= k
  {
    if |rows| > 0 {
      var n := |rows| - 1;
      CountNotAbovePrefix(cmp, rows[..n], x, if k > n then n else k);
    }
  }

  lemma {:induction false} CountNotAboveSuffix<T>(cmp: (T, T) -> int, rows: seq<T>, x: T, k: nat)
    requires k <= |rows| && forall i :: k <= i < |rows| ==> cmp(rows[i], x) > 0
    ensures |Routed(rows, NotAbove(cmp, x), 0)| <= k
  {
    if |rows| > 0 {
      var n := |rows| - 1;
      CountNotAboveSuffix(cmp, rows[..n], x, if k > n then n else k);
    }
  }

  lemma SortedCopiesNotAbove<T(!new)>(cmp: (T, T) -> int, a: seq<T>, b: seq<T>, i: nat)
    requires Lawful(cmp) && Sorted(cmp, a) && Sorted(cmp, b) && multiset(a) == multiset(b)
    requires i < |a| == |b|
    ensures cmp(a[i], b[i]) <= 0
  {
    var x := b[i];
    if cmp(a[i], x) > 0 {
      forall j | i <= j < |a|
        ensures cmp(a[j], x) > 0
      {
        LawfulAt(cmp, a[i], a[j], x);
      }
      CountNotAboveSuffix(cmp, a, x, i);
      forall j | 0 <= j < i + 1
        ensures cmp(b[j], x) <= 0
      {
        LawfulAt(cmp, b[j], x, x);
      }
      CountNotAbovePrefix(cmp, b, x, i + 1);
      RoutedPermutation(a, b, NotAbove(cmp, x), 0);
      assert false;
    }
  }

  /** Two sorted copies of the same rows agree up to ties, and are equal when there are none. */
  lemma SortedCopiesAgree<T(!new)>(cmp: (T, T) -> int, a: seq<T>, b: seq<T>)
    requires Lawful(cmp) && Sorted(cmp, a) && Sorted(cmp, b) && multiset(a) == multiset(b)
    ensures |a| == |b|
    ensures forall i :: 0 <= i < |a| ==> cmp(a[i], b[i]) == 0
    ensures Decisive(cmp) ==> a == b
  {
    assert |multiset(a)| == |a| && |multiset(b)| == |b|;
    forall i | 0 <= i < |a|
      ensures cmp(a[i], b[i]) == 0
    {
      SortedCopiesNotAbove(cmp, a, b, i);
      SortedCopiesNotAbove(cmp, b, a, i);
      LawfulAt(cmp, a[i], b[i], a[i]);
    }
  }
}
