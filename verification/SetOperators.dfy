/** Union, Subtract and Intersect, locally (cpp/src/cylon/table.cpp:925-1111) and over the
    ranks (table.cpp:1117-1165). */
module SetOperators {
  import opened Tables
  import opened Exchange
  import opened Shuffle

  datatype SetOp = Union | Subtract | Intersect {
    /** Whether the operator wants a row that does or does not occur on each side. */
    predicate Wants(inLeft: bool, inRight: bool) {
      match this
      case Union => inLeft || inRight
      case Subtract => inLeft && !inRight
      case Intersect => inLeft && inRight
    }
  }

  // Specification: first occurrences, in input order

  /** Row `i` of `rows` is the first of its kind. */
  predicate IsFirst<T(==)>(rows: seq<T>, i: nat)
    requires i < |rows|
  {
    rows[i] !in rows[..i]
  }

  /** Among the first `k` rows of the left table, the first occurrences the operator wants. */
  function KeptLeft<T(==)>(op: SetOp, left: seq<T>, right: seq<T>, k: nat): seq<T>
    requires k <= |left|
  {
    if k == 0 then []
    else
      KeptLeft(op, left, right, k - 1) +
      if IsFirst(left, k - 1) && op.Wants(true, left[k - 1] in right) then [left[k - 1]] else []
  }

  /** Among the first `k` rows of the right table, the first occurrences missing on the left. */
  function KeptRight<T(==)>(op: SetOp, left: seq<T>, right: seq<T>, k: nat): seq<T>
    requires k <= |right|
  {
    if k == 0 then []
    else
      KeptRight(op, left, right, k - 1) +
      if IsFirst(right, k - 1) && right[k - 1] !in left && op.Wants(false, true) then [right[k - 1]] else []
  }

  function LocalSetOp<T(==)>(op: SetOp, left: seq<T>, right: seq<T>): seq<T> {
    KeptLeft(op, left, right, |left|) + KeptRight(op, left, right, |right|)
  }

  lemma {:induction false} KeptLeftMeaning<T>(op: SetOp, left: seq<T>, right: seq<T>, k: nat)
    requires k <= |left|
    ensures NoDuplicates(KeptLeft(op, left, right, k))
    ensures forall x :: x in KeptLeft(op, left, right, k) <==> x in left[..k] && op.Wants(true, x in right)
  {
    if k > 0 {
      KeptLeftMeaning(op, left, right, k - 1);
      assert left[..k] == left[..k - 1] + [left[k - 1]];
    }
  }

  lemma {:induction false} KeptRightMeaning<T>(op: SetOp, left: seq<T>, right: seq<T>, k: nat)
    requires k <= |right|
    ensures NoDuplicates(KeptRight(op, left, right, k))
    ensures forall x :: x in KeptRight(op, left, right, k) <==> x in right[..k] && x !in left && op.Wants(false, true)
  {
    if k > 0 {
      KeptRightMeaning(op, left, right, k - 1);
      assert right[..k] == right[..k - 1] + [right[k - 1]];
    }
  }

  /** The local operators are set operators: no duplicates, and exactly the rows on either side
      for the union, only on the left for the difference, on both for the intersection. */
  lemma LocalSetOpMeaning<T>(op: SetOp, left: seq<T>, right: seq<T>)
    ensures NoDuplicates(LocalSetOp(op, left, right))
    ensures forall x :: x in LocalSetOp(op, left, right) <==>
              match op
              case Union => x in left || x in right
              case Subtract => x in left && x !in right
              case Intersect => x in left && x in right
  {
    KeptLeftAll(op, left, right);
    KeptRightAll(op, left, right);
    forall x | x in KeptRight(op, left, right, |right|)
      ensures x !in KeptLeft(op, left, right, |left|)
    {
      KeptRightIsNew(op, left, right, x);
    }
    NoDuplicatesAppend(KeptLeft(op, left, right, |left|), KeptRight(op, left, right, |right|));
  }

  lemma KeptRightIsNew<T>(op: SetOp, left: seq<T>, right: seq<T>, x: T)
    requires x in KeptRight(op, left, right, |right|)
    ensures x !in KeptLeft(op, left, right, |left|)
  {
    KeptRightAll(op, left, right);
    KeptLeftAll(op, left, right);
  }

  lemma KeptLeftAll<T>(op: SetOp, left: seq<T>, right: seq<T>)
    ensures NoDuplicates(KeptLeft(op, left, right, |left|))
    ensures forall x :: x in KeptLeft(op, left, right, |left|) <==> x in left && op.Wants(true, x in right)
  {
    KeptLeftMeaning(op, left, right, |left|);
    assert left[..|left|] == left;
  }

  lemma KeptRightAll<T>(op: SetOp, left: seq<T>, right: seq<T>)
    ensures NoDuplicates(KeptRight(op, left, right, |right|))
    ensures forall x :: x in KeptRight(op, left, right, |right|) <==> x in right && x !in left && op.Wants(false, true)
  {
    KeptRightMeaning(op, left, right, |right|);
    assert right[..|right|] == right;
  }

  lemma NoDuplicatesAppend<T>(a: seq<T>, b: seq<T>)
    requires NoDuplicates(a) && NoDuplicates(b) && forall x :: x in b ==> x !in a
    ensures NoDuplicates(a + b)
  {
    forall i, j | 0 <= i < j < |a + b|
      ensures (a + b)[i] != (a + b)[j]
    {
      if i < |a| <= j {
        assert b[j - |a|] in b;
      }
    }
  }

  // The implementations

  /** arrow::compute::Filter: the rows whose mask bit is set. */
  function Filter<T>(rows: seq<T>, mask: seq<bool>, k: nat): seq<T>
    requires k <= |rows| == |mask|
  {
    if k == 0 then [] else Filter(rows, mask, k - 1) + if mask[k - 1] then [rows[k - 1]] else []
  }

  /** The positions of the rows it keeps. */
  function FilterAt(mask: seq<bool>, k: nat): seq<nat>
    requires k <= |mask|
  {
    if k == 0 then [] else FilterAt(mask, k - 1) + if mask[k - 1] then [k - 1] else []
  }

  lemma {:induction false} FilterAtTaken<T>(rows: seq<T>, mask: seq<bool>, k: nat)
    requires k <= |rows| == |mask|
    ensures TakenAt(rows, FilterAt(mask, k), Filter(rows, mask, k))
  {
    if k > 0 {
      FilterAtTaken(rows, mask, k - 1);
      OneMoreTaken(rows, FilterAt(mask, k - 1), Filter(rows, mask, k - 1), k - 1);
    }
  }

  lemma {:induction false} FilterAtAscends(mask: seq<bool>, k: nat)
    requires k <= |mask|
    ensures forall i :: 0 <= i < |FilterAt(mask, k)| ==> FilterAt(mask, k)[i] < k
    ensures forall i, j :: 0 <= i < j < |FilterAt(mask, k)| ==> FilterAt(mask, k)[i] < FilterAt(mask, k)[j]
    ensures forall i: nat :: i < k ==> (i in FilterAt(mask, k) <==> mask[i])
  {
    if k > 0 {
      FilterAtAscends(mask, k - 1);
    }
  }

  lemma {:induction false} FilterLeft<T>(op: SetOp, left: seq<T>, right: seq<T>, mask: seq<bool>, k: nat)
    requires k <= |left| == |mask|
    requires forall i :: 0 <= i < |left| ==> (mask[i] <==> IsFirst(left, i) && op.Wants(true, left[i] in right))
    ensures Filter(left, mask, k) == KeptLeft(op, left, right, k)
  {
    if k > 0 {
      FilterLeft(op, left, right, mask, k - 1);
    }
  }

  lemma {:induction false} FilterRight<T>(op: SetOp, left: seq<T>, right: seq<T>, mask: seq<bool>, k: nat)
    requires k <= |right| == |mask| && op.Union?
    requires forall i :: 0 <= i < |right| ==> (mask[i] <==> IsFirst(right, i) && right[i] !in left)
    ensures Filter(right, mask, k) == KeptRight(op, left, right, k)
  {
    if k > 0 {
      FilterRight(op, left, right, mask, k - 1);
    }
  }

  /** The index set, modulo row equality: each row value with its representative index. */
  ghost predicate Represents<T>(rowsSet: map<T, nat>, rows: seq<T>, k: nat)
    requires k <= |rows|
  {
    && rowsSet.Keys == (set x | x in rows[..k])
    && forall x :: x in rowsSet ==> rowsSet[x] < k && rows[rowsSet[x]] == x && IsFirst(rows, rowsSet[x])
  }

  /** Inserting the rows one by one records their first occurrences. */
  method InsertAll<T(==)>(rows: seq<T>) returns (rowsSet: map<T, nat>, isNew: seq<bool>)
    ensures Represents(rowsSet, rows, |rows|)
    ensures |isNew| == |rows| && forall i :: 0 <= i < |rows| ==> (isNew[i] <==> rows[i] !in rows[..i])
    ensures forall x :: x in rowsSet ==>
              rowsSet[x] < |rows| && rows[rowsSet[x]] == x && x !in rows[..rowsSet[x]]
  {
    rowsSet, isNew := map[], [];
    for i := 0 to |rows|
      invariant Represents(rowsSet, rows, i)
      invariant |isNew| == i && forall j :: 0 <= j < i ==> (isNew[j] <==> IsFirst(rows, j))
    {
      assert rows[..i + 1] == rows[..i] + [rows[i]];
      isNew := isNew + [rows[i] !in rowsSet];
      if rows[i] !in rowsSet {
        rowsSet := rowsSet[rows[i] := i];
      }
    }
  }

  /** The left rows at ascending positions, those without an equal row before them, and behind
      them the right rows at ascending positions, those without an equal row before them or on
      the left. */
  method UnionRows<T(==)>(left: seq<T>, right: seq<T>)
      returns (out: seq<T>, ghost leftAt: seq<nat>, ghost rightAt: seq<nat>)
    ensures out == LocalSetOp(Union, left, right)
    ensures forall x :: x in out <==> x in left || x in right
    ensures |out| == |leftAt| + |rightAt|
    ensures forall i :: 0 <= i < |leftAt| ==> leftAt[i] < |left| && out[i] == left[leftAt[i]]
    ensures forall i :: 0 <= i < |rightAt| ==> rightAt[i] < |right| && out[|leftAt| + i] == right[rightAt[i]]
    ensures forall i, j :: 0 <= i < j < |leftAt| ==> leftAt[i] < leftAt[j]
    ensures forall i, j :: 0 <= i < j < |rightAt| ==> rightAt[i] < rightAt[j]
    ensures forall i: nat :: i < |left| ==> (i in leftAt <==> left[i] !in left[..i])
    ensures forall i: nat :: i < |right| ==> (i in rightAt <==> right[i] !in right[..i] && right[i] !in left)
  {
    var rowsSet, mask := InsertAll(left);
    FilterLeft(Union, left, right, mask, |left|);
    assert left[..|left|] == left;
    var rightMask := InsertRight(left, right, rowsSet.Keys);
    FilterRight(Union, left, right, rightMask, |right|);
    out := Filter(left, mask, |left|) + Filter(right, rightMask, |right|);
    leftAt, rightAt := FilterAt(mask, |left|), FilterAt(rightMask, |right|);
    FilteredAt(left, mask);
    FilteredAt(right, rightMask);
    LocalSetOpMeaning(Union, left, right);
  }

  /** Inserting the right rows behind the left ones marks those that are new. */
  method InsertRight<T(==)>(ghost left: seq<T>, right: seq<T>, keys: set<T>) returns (isNew: seq<bool>)
    requires forall x :: x in keys <==> x in left
    ensures |isNew| == |right|
    ensures forall i :: 0 <= i < |right| ==> (isNew[i] <==> IsFirst(right, i) && right[i] !in left)
  {
    var seen := keys;
    isNew := [];
    for i := 0 to |right|
      invariant forall x :: x in seen <==> x in left || x in right[..i]
      invariant |isNew| == i
      invariant forall j :: 0 <= j < i ==> (isNew[j] <==> IsFirst(right, j) && right[j] !in left)
    {
      assert right[..i + 1] == right[..i] + [right[i]];
      isNew := isNew + [right[i] !in seen];
      seen := seen + {right[i]};
    }
  }

  lemma FilteredAt<T>(rows: seq<T>, mask: seq<bool>)
    requires |rows| == |mask|
    ensures TakenAt(rows, FilterAt(mask, |rows|), Filter(rows, mask, |rows|))
    ensures var at := FilterAt(mask, |rows|);
            (forall i, j :: 0 <= i < j < |at| ==> at[i] < at[j]) &&
            forall i: nat :: i < |rows| ==> (i in at <==> mask[i])
  {
    FilterAtTaken(rows, mask, |rows|);
    FilterAtAscends(mask, |rows|);
  }

  /** The left rows at ascending positions, those without an equal row before them or on the right. */
  method SubtractRows<T(==)>(left: seq<T>, right: seq<T>) returns (out: seq<T>, ghost at: seq<nat>)
    ensures out == LocalSetOp(Subtract, left, right)
    ensures forall x :: x in out <==> x in left && x !in right
    ensures |at| == |out| && forall i :: 0 <= i < |at| ==> at[i] < |left| && out[i] == left[at[i]]
    ensures forall i, j :: 0 <= i < j < |at| ==> at[i] < at[j]
    ensures forall i: nat :: i < |left| ==> (i in at <==> left[i] !in left[..i] && left[i] !in right)
  {
    var rowsSet, isNew := InsertAll(left);
    var mask := new bool[|left|](i requires 0 <= i < |left| => isNew[i]);
    for i := 0 to |right|
      invariant forall j :: 0 <= j < |left| ==> (mask[j] <==> IsFirst(left, j) && left[j] !in right[..i])
    {
      assert right[..i + 1] == right[..i] + [right[i]];
      if right[i] in rowsSet {
        FirstIsRepresentative(rowsSet, left, right[i]);
        mask[rowsSet[right[i]]] := false;
      } else {
        assert right[i] !in left[..|left|];
      }
    }
    assert right[..|right|] == right;
    FilterLeft(Subtract, left, right, mask[..], |left|);
    NothingFromRight(Subtract, left, right, |right|);
    out := Filter(left, mask[..], |left|);
    at := FilterAt(mask[..], |left|);
    FilteredAt(left, mask[..]);
    LocalSetOpMeaning(Subtract, left, right);
  }

  /** The left rows at ascending positions, those without an equal row before them and with one
      on the right. */
  method IntersectRows<T(==)>(left: seq<T>, right: seq<T>) returns (out: seq<T>, ghost at: seq<nat>)
    ensures out == LocalSetOp(Intersect, left, right)
    ensures forall x :: x in out <==> x in left && x in right
    ensures |at| == |out| && forall i :: 0 <= i < |at| ==> at[i] < |left| && out[i] == left[at[i]]
    ensures forall i, j :: 0 <= i < j < |at| ==> at[i] < at[j]
    ensures forall i: nat :: i < |left| ==> (i in at <==> left[i] !in left[..i] && left[i] in right)
  {
    var rowsSet, _ := InsertAll(left);
    var mask := new bool[|left|](_ => false);
    for i := 0 to |right|
      invariant forall j :: 0 <= j < |left| ==> (mask[j] <==> IsFirst(left, j) && left[j] in right[..i])
    {
      assert right[..i + 1] == right[..i] + [right[i]];
      if right[i] in rowsSet {
        FirstIsRepresentative(rowsSet, left, right[i]);
        mask[rowsSet[right[i]]] := true;
      } else {
        assert right[i] !in left[..|left|];
      }
    }
    assert right[..|right|] == right;
    FilterLeft(Intersect, left, right, mask[..], |left|);
    NothingFromRight(Intersect, left, right, |right|);
    out := Filter(left, mask[..], |left|);
    at := FilterAt(mask[..], |left|);
    FilteredAt(left, mask[..]);
    LocalSetOpMeaning(Intersect, left, right);
  }

  /** The representative of a row value is its one first occurrence. */
  lemma FirstIsRepresentative<T>(rowsSet: map<T, nat>, rows: seq<T>, x: T)
    requires Represents(rowsSet, rows, |rows|) && x in rowsSet
    ensures forall j :: 0 <= j < |rows| && rows[j] == x ==> (IsFirst(rows, j) <==> j == rowsSet[x])
  {
  }

  lemma {:induction false} NothingFromRight<T>(op: SetOp, left: seq<T>, right: seq<T>, k: nat)
    requires k <= |right| && !op.Union?
    ensures KeptRight(op, left, right, k) == []
  {
    if k > 0 {
      NothingFromRight(op, left, right, k - 1);
    }
  }

  // Over the ranks

  /** do_dist_set_op: both tables are shuffled on all columns, then every rank works alone;
      a single rank works on its own tables. */
  ghost predicate DistributedSetOpRun<T>(
      op: SetOp, left: seq<seq<T>>, right: seq<seq<T>>, hash: T -> nat,
      leftTrace: seq<State<T>>, rightTrace: seq<State<T>>,
      leftFinal: seq<seq<T>>, rightFinal: seq<seq<T>>, out: seq<seq<T>>)
  {
    && |left| == |right| == |out| == |leftFinal| == |rightFinal| > 0
    && (if |left| == 1 then leftFinal == left && rightFinal == right
        else
          ShuffleRun(left, RowRoute(hash, |left|), leftTrace, leftFinal) &&
          ShuffleRun(right, RowRoute(hash, |left|), rightTrace, rightFinal))
    && forall d :: 0 <= d < |out| ==> out[d] == LocalSetOp(op, leftFinal[d], rightFinal[d])
  }

  lemma OwnedOutput<T>(
      op: SetOp, left: seq<seq<T>>, right: seq<seq<T>>, route: T -> nat,
      leftFinal: seq<seq<T>>, rightFinal: seq<seq<T>>, out: seq<seq<T>>, x: T)
    requires |left| == |right| == |out|
    requires Shuffled(left, route, leftFinal) && Shuffled(right, route, rightFinal)
    requires forall d :: 0 <= d < |out| ==> out[d] == LocalSetOp(op, leftFinal[d], rightFinal[d])
    requires route(x) < |out|
    ensures multiset(Flatten(out))[x] ==
            if op.Wants(x in Flatten(left), x in Flatten(right)) then 1 else 0
  {
    forall d: nat | d < |out|
      ensures x in out[d] <==> d == route(x) && op.Wants(x in Flatten(left), x in Flatten(right))
    {
      LocalSetOpMeaning(op, leftFinal[d], rightFinal[d]);
      ShuffledMember(left, route, leftFinal, d, x);
      ShuffledMember(right, route, rightFinal, d, x);
    }
    OwnerCount(out, |out|, x, route(x));
    LocalSetOpMeaning(op, leftFinal[route(x)], rightFinal[route(x)]);
    NoDuplicatesCount(out[route(x)], x);
  }

  /** In every run the ranks' outputs together are a permutation of the local operator's
      output on the concatenated inputs, without duplicates, for any hash of the rows. */
  lemma DistributedSetOp<T(!new)>(
      op: SetOp, left: seq<seq<T>>, right: seq<seq<T>>, hash: T -> nat,
      leftTrace: seq<State<T>>, rightTrace: seq<State<T>>,
      leftFinal: seq<seq<T>>, rightFinal: seq<seq<T>>, out: seq<seq<T>>)
    requires DistributedSetOpRun(op, left, right, hash, leftTrace, rightTrace, leftFinal, rightFinal, out)
    ensures multiset(Flatten(out)) == multiset(LocalSetOp(op, Flatten(left), Flatten(right)))
    ensures forall x :: multiset(Flatten(out))[x] ==
              match op
              case Union => if x in Flatten(left) || x in Flatten(right) then 1 else 0
              case Subtract => if x in Flatten(left) && x !in Flatten(right) then 1 else 0
              case Intersect => if x in Flatten(left) && x in Flatten(right) then 1 else 0
  {
    var whole := LocalSetOp(op, Flatten(left), Flatten(right));
    LocalSetOpMeaning(op, Flatten(left), Flatten(right));
    if |left| == 1 {
      FlattenOne(left);
      FlattenOne(right);
      FlattenOne(out);
      forall x
        ensures multiset(whole)[x] == if x in whole then 1 else 0
      {
        NoDuplicatesCount(whole, x);
      }
    } else {
      var route := RowRoute(hash, |left|);
      ShuffleDelivers(left, route, leftTrace, leftFinal);
      ShuffleDelivers(right, route, rightTrace, rightFinal);
      forall x
        ensures multiset(Flatten(out))[x] == multiset(whole)[x] == if x in whole then 1 else 0
      {
        OwnedOutput(op, left, right, route, leftFinal, rightFinal, out, x);
        NoDuplicatesCount(whole, x);
      }
      SameCounts(multiset(Flatten(out)), multiset(whole));
    }
  }
}
