/** Split (cpp/src/cylon/partition/partition.cpp:26-91): row `k` goes to the table of
    target `targets[k]`, and every table keeps the order of its rows. */
module Partitioning {
  import opened Tables

  function Split<T>(rows: seq<T>, targets: seq<nat>, p: nat): seq<T>
    requires |rows| == |targets|
  {
    if rows == [] then []
    else
      var n := |rows| - 1;
      Split(rows[..n], targets[..n], p) + if targets[n] == p then [rows[n]] else []
  }

  function SplitAll<T>(rows: seq<T>, targets: seq<nat>, partitions: nat): seq<seq<T>>
    requires |rows| == |targets|
  {
    seq(partitions, p requires 0 <= p < partitions => Split(rows, targets, p))
  }

  /** The positions of the rows with target `p`. */
  function PositionsOf(targets: seq<nat>, p: nat): seq<nat> {
    if targets == [] then []
    else
      var n := |targets| - 1;
      PositionsOf(targets[..n], p) + if targets[n] == p then [n] else []
  }

  lemma {:induction false} PositionsExact(targets: seq<nat>, p: nat)
    ensures var at := PositionsOf(targets, p);
            (forall i :: 0 <= i < |at| ==> at[i] < |targets|) &&
            (forall i, j :: 0 <= i < j < |at| ==> at[i] < at[j]) &&
            forall k: nat :: k < |targets| ==> (k in at <==> targets[k] == p)
  {
    if targets != [] {
      PositionsExact(targets[..|targets| - 1], p);
    }
  }

  lemma TakenFromPrefix<T>(rows: seq<T>, n: nat, at: seq<nat>, out: seq<T>)
    requires n <= |rows| && TakenAt(rows[..n], at, out)
    ensures TakenAt(rows, at, out)
  {
  }

  lemma {:induction false} SplitTaken<T>(rows: seq<T>, targets: seq<nat>, p: nat)
    requires |rows| == |targets|
    ensures TakenAt(rows, PositionsOf(targets, p), Split(rows, targets, p))
  {
    if rows != [] {
      var n := |rows| - 1;
      var at, out := PositionsOf(targets[..n], p), Split(rows[..n], targets[..n], p);
      SplitTaken(rows[..n], targets[..n], p);
      TakenFromPrefix(rows, n, at, out);
      OneMoreTaken(rows, at, out, n);
      assert at + [] == at && out + [] == out;
    }
  }

  /** The table of target `p` takes the rows with that target, at ascending positions. */
  lemma SplitTakes<T>(rows: seq<T>, targets: seq<nat>, p: nat) returns (at: seq<nat>)
    requires |rows| == |targets|
    ensures |at| == |Split(rows, targets, p)|
    ensures forall i :: 0 <= i < |at| ==> at[i] < |rows| && Split(rows, targets, p)[i] == rows[at[i]]
    ensures forall i, j :: 0 <= i < j < |at| ==> at[i] < at[j]
    ensures forall k: nat :: k < |rows| ==> (k in at <==> targets[k] == p)
  {
    at := PositionsOf(targets, p);
    SplitTaken(rows, targets, p);
    PositionsExact(targets, p);
  }

  /** When the targets are a function of the row, splitting is routing. */
  lemma {:induction false} SplitByRoute<T>(rows: seq<T>, targets: seq<nat>, route: T -> nat, p: nat)
    requires |rows| == |targets|
    requires forall k :: 0 <= k < |rows| ==> targets[k] == route(rows[k])
    ensures Split(rows, targets, p) == Routed(rows, route, p)
  {
    if rows != [] {
      var n := |rows| - 1;
      SplitByRoute(rows[..n], targets[..n], route, p);
    }
  }

  /** Splitting goes through the rows one after the other. */
  lemma {:induction false} SplitAppend<T>(a: seq<T>, b: seq<T>, ta: seq<nat>, tb: seq<nat>, p: nat)
    requires |a| == |ta| && |b| == |tb|
    ensures Split(a + b, ta + tb, p) == Split(a, ta, p) + Split(b, tb, p)
  {
    if b == [] {
      assert a + b == a && ta + tb == ta;
    } else {
      var n := |b| - 1;
      SplitAppend(a, b[..n], ta, tb[..n], p);
      assert (a + b)[..|a| + n] == a + b[..n] && (ta + tb)[..|a| + n] == ta + tb[..n];
    }
  }

  lemma {:induction false} SplitNothing<T>(rows: seq<T>, targets: seq<nat>, p: nat)
    requires |rows| == |targets| && forall k :: 0 <= k < |targets| ==> targets[k] != p
    ensures Split(rows, targets, p) == []
  {
    if rows != [] {
      SplitNothing(rows[..|rows| - 1], targets[..|rows| - 1], p);
    }
  }

  lemma {:induction false} SplitConstant<T>(rows: seq<T>, targets: seq<nat>, value: nat, p: nat)
    requires |rows| == |targets| && forall k :: 0 <= k < |targets| ==> targets[k] == value
    ensures Split(rows, targets, p) == if value == p then rows else []
  {
    if rows != [] {
      SplitConstant(rows[..|rows| - 1], targets[..|rows| - 1], value, p);
    }
  }

  lemma SplitInTwo<T>(rows: seq<T>, targets: seq<nat>, m: nat, p: nat)
    requires |rows| == |targets| && m <= |rows|
    ensures Split(rows, targets, p) == Split(rows[..m], targets[..m], p) + Split(rows[m..], targets[m..], p)
  {
    SplitAppend(rows[..m], rows[m..], targets[..m], targets[m..], p);
    assert rows[..m] + rows[m..] == rows && targets[..m] + targets[m..] == targets;
  }

  /** When only the first `m` rows have target `p`, they are its table. */
  lemma SplitFront<T>(rows: seq<T>, targets: seq<nat>, p: nat, m: nat)
    requires |rows| == |targets| && m <= |rows|
    requires forall k :: 0 <= k < |rows| ==> (targets[k] == p <==> k < m)
    ensures Split(rows, targets, p) == rows[..m]
  {
    SplitInTwo(rows, targets, m, p);
    SplitConstant(rows[..m], targets[..m], p, p);
    SplitNothing(rows[m..], targets[m..], p);
  }

  /** When only the rows `[lo, hi)` have target `p`, its table is that stretch of rows. */
  lemma SplitSegment<T>(rows: seq<T>, targets: seq<nat>, p: nat, lo: nat, hi: nat)
    requires |rows| == |targets| && lo <= hi <= |rows|
    requires forall k :: 0 <= k < |rows| ==> (targets[k] == p <==> lo <= k < hi)
    ensures Split(rows, targets, p) == rows[lo..hi]
  {
    SplitInTwo(rows, targets, lo, p);
    SplitNothing(rows[..lo], targets[..lo], p);
    SplitFront(rows[lo..], targets[lo..], p, hi - lo);
    assert rows[lo..][..hi - lo] == rows[lo..hi];
  }
}
