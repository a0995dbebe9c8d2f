/** Tables, worlds of tables, and the prefix sums and concatenations that the
    distributed operators are stated with.

    A table is the sequence of its rows; a world is one table per rank, and the
    meaning of a world is its tables concatenated in rank order. */
module Tables {

  datatype Option<+T> = None | Some(value: T)

  datatype Result<+T, +E> = Ok(value: T) | Err(error: E)

  /** The sum of the first `k` counts. */
  function Before(counts: seq<nat>, k: nat): nat
    requires k <= |counts|
  {
    if k == 0 then 0 else Before(counts, k - 1) + counts[k - 1]
  }

  function Total(counts: seq<nat>): nat {
    Before(counts, |counts|)
  }

  function RowCounts<T>(world: seq<seq<T>>): seq<nat> {
    seq(|world|, r requires 0 <= r < |world| => |world[r]|)
  }

  /** The first `k` tables, one after the other. */
  function Concat<T>(world: seq<seq<T>>, k: nat): seq<T>
    requires k <= |world|
  {
    if k == 0 then [] else Concat(world, k - 1) + world[k - 1]
  }

  /** The meaning of a world: its tables in rank order. */
  function Flatten<T>(world: seq<seq<T>>): seq<T> {
    Concat(world, |world|)
  }

  /** The rows of `rows` that `route` sends to `p`, in their order. */
  function Routed<T>(rows: seq<T>, route: T -> nat, p: nat): seq<T> {
    if rows == [] then []
    else
      var n := |rows| - 1;
      Routed(rows[..n], route, p) + if route(rows[n]) == p then [rows[n]] else []
  }

  ghost predicate NoDuplicates<T>(s: seq<T>) {
    forall i, j :: 0 <= i < j < |s| ==> s[i] != s[j]
  }

  /** The rows of `out` are those of `rows` at the positions `at`, in that order. */
  ghost predicate TakenAt<T>(rows: seq<T>, at: seq<nat>, out: seq<T>) {
    |at| == |out| && forall i :: 0 <= i < |at| ==> at[i] < |rows| && out[i] == rows[at[i]]
  }

  lemma OneMoreTaken<T>(rows: seq<T>, at: seq<nat>, out: seq<T>, k: nat)
    requires TakenAt(rows, at, out) && k < |rows|
    ensures TakenAt(rows, at + [k], out + [rows[k]])
  {
  }

  lemma SameCounts<T>(a: multiset<T>, b: multiset<T>)
    requires forall x :: x in a || x in b ==> a[x] == b[x]
    ensures a == b
  {
  }

  lemma {:induction false} BeforeMonotone(counts: seq<nat>, i: nat, j: nat)
    requires i <= j <= |counts|
    ensures Before(counts, i) <= Before(counts, j)
  {
    if i < j {
      BeforeMonotone(counts, i, j - 1);
    }
  }

  lemma {:induction false} BeforePrefix(a: seq<nat>, b: seq<nat>, k: nat)
    requires k <= |a| && k <= |b|
    requires forall i :: 0 <= i < k ==> a[i] == b[i]
    ensures Before(a, k) == Before(b, k)
  {
    if k > 0 {
      BeforePrefix(a, b, k - 1);
    }
  }

  lemma {:induction false} ConcatLength<T>(world: seq<seq<T>>, k: nat)
    requires k <= |world|
    ensures |Concat(world, k)| == Before(RowCounts(world), k)
  {
    if k > 0 {
      ConcatLength(world, k - 1);
    }
  }

  /** Row `i` of rank `r` is row `Before(r) + i` of the world. */
  lemma {:induction false} ConcatAt<T>(world: seq<seq<T>>, k: nat, r: nat, i: nat)
    requires r < k <= |world| && i < |world[r]|
    ensures Before(RowCounts(world), r) + i < |Concat(world, k)|
    ensures Concat(world, k)[Before(RowCounts(world), r) + i] == world[r][i]
  {
    ConcatLength(world, k - 1);
    if r < k - 1 {
      ConcatAt(world, k - 1, r, i);
    }
  }

  /** Table `r` is a block of the concatenation. */
  lemma ConcatBlock<T>(world: seq<seq<T>>, k: nat, r: nat)
    requires r < k <= |world|
    ensures var c := RowCounts(world);
            Before(c, r) <= Before(c, r + 1) <= |Concat(world, k)| &&
            Concat(world, k)[Before(c, r)..Before(c, r + 1)] == world[r]
  {
    var c := RowCounts(world);
    ConcatLength(world, k);
    BeforeMonotone(c, r + 1, k);
    forall i: nat | i < |world[r]|
      ensures Concat(world, k)[Before(c, r) + i] == world[r][i]
    {
      ConcatAt(world, k, r, i);
    }
  }

  lemma FlattenOne<T>(world: seq<seq<T>>)
    requires |world| == 1
    ensures Flatten(world) == world[0]
  {
    assert Concat(world, 1) == Concat(world, 0) + world[0];
  }

  /** Every position of a concatenation lies in one of its tables. */
  lemma {:induction false} LocateRank(counts: seq<nat>, k: nat, i: nat) returns (r: nat)
    requires k <= |counts| && i < Before(counts, k)
    ensures r < k && Before(counts, r) <= i < Before(counts, r + 1)
  {
    if i < Before(counts, k - 1) {
      r := LocateRank(counts, k - 1, i);
    } else {
      r := k - 1;
    }
  }

  lemma {:induction false} ConcatMember<T>(world: seq<seq<T>>, k: nat, x: T)
    requires k <= |world|
    ensures x in Concat(world, k) <==> exists r :: 0 <= r < k && x in world[r]
  {
    if k > 0 {
      ConcatMember(world, k - 1, x);
    }
  }

  lemma {:induction false} ConcatCong<T>(a: seq<seq<T>>, b: seq<seq<T>>, k: nat)
    requires k <= |a| && k <= |b|
    requires forall r :: 0 <= r < k ==> a[r] == b[r]
    ensures Concat(a, k) == Concat(b, k)
  {
    if k > 0 {
      ConcatCong(a, b, k - 1);
    }
  }

  lemma {:induction false} ConcatMultisetCong<T>(a: seq<seq<T>>, b: seq<seq<T>>, k: nat)
    requires k <= |a| && k <= |b|
    requires forall r :: 0 <= r < k ==> multiset(a[r]) == multiset(b[r])
    ensures multiset(Concat(a, k)) == multiset(Concat(b, k))
  {
    if k > 0 {
      ConcatMultisetCong(a, b, k - 1);
    }
  }

  /** If only rank `owner` holds copies of `x`, the world holds as many as that rank. */
  lemma {:induction false} OwnerCount<T>(world: seq<seq<T>>, k: nat, x: T, owner: nat)
    requires k <= |world|
    requires forall r :: 0 <= r < k && r != owner ==> x !in world[r]
    ensures multiset(Concat(world, k))[x] == if owner < k then multiset(world[owner])[x] else 0
  {
    if k > 0 {
      OwnerCount(world, k - 1, x, owner);
      assert x in world[k - 1] <==> x in multiset(world[k - 1]);
    }
  }

  /** The same, from counts. */
  lemma {:induction false} OwnerTotal<T>(world: seq<seq<T>>, k: nat, x: T, owner: nat, count: nat)
    requires k <= |world|
    requires forall r :: 0 <= r < k ==> multiset(world[r])[x] == if r == owner then count else 0
    ensures multiset(Concat(world, k))[x] == if owner < k then count else 0
  {
    if k > 0 {
      OwnerTotal(world, k - 1, x, owner, count);
    }
  }

  lemma {:induction false} RoutedAppend<T>(a: seq<T>, b: seq<T>, route: T -> nat, p: nat)
    ensures Routed(a + b, route, p) == Routed(a, route, p) + Routed(b, route, p)
  {
    if b == [] {
      assert a + b == a;
    } else {
      var n := |b| - 1;
      RoutedAppend(a, b[..n], route, p);
      assert (a + b)[..|a| + n] == a + b[..n];
    }
  }

  /** Routing keeps every copy of the rows it selects and no other row. */
  lemma {:induction false} RoutedCount<T>(rows: seq<T>, route: T -> nat, p: nat, x: T)
    ensures multiset(Routed(rows, route, p))[x] == if route(x) == p then multiset(rows)[x] else 0
  {
    if rows != [] {
      var n := |rows| - 1;
      RoutedCount(rows[..n], route, p, x);
      assert rows == rows[..n] + [rows[n]];
    }
  }

  lemma RoutedMember<T>(rows: seq<T>, route: T -> nat, p: nat, x: T)
    ensures x in Routed(rows, route, p) <==> x in rows && route(x) == p
  {
    RoutedCount(rows, route, p, x);
    assert x in rows <==> x in multiset(rows);
    assert x in Routed(rows, route, p) <==> x in multiset(Routed(rows, route, p));
  }

  function RoutedWorld<T>(world: seq<seq<T>>, route: T -> nat, p: nat): seq<seq<T>> {
    seq(|world|, s requires 0 <= s < |world| => Routed(world[s], route, p))
  }

  lemma {:induction false} RoutedConcat<T>(world: seq<seq<T>>, k: nat, route: T -> nat, p: nat)
    requires k <= |world|
    ensures Concat(RoutedWorld(world, route, p), k) == Routed(Concat(world, k), route, p)
  {
    if k > 0 {
      RoutedConcat(world, k - 1, route, p);
      RoutedAppend(Concat(world, k - 1), world[k - 1], route, p);
    }
  }

  /** Rows with equal multisets have equally many members of any route class. */
  lemma RoutedPermutation<T>(a: seq<T>, b: seq<T>, route: T -> nat, p: nat)
    requires multiset(a) == multiset(b)
    ensures multiset(Routed(a, route, p)) == multiset(Routed(b, route, p))
    ensures |Routed(a, route, p)| == |Routed(b, route, p)|
  {
    forall x: T
      ensures multiset(Routed(a, route, p))[x] == multiset(Routed(b, route, p))[x]
    {
      RoutedCount(a, route, p, x);
      RoutedCount(b, route, p, x);
    }
    SameCounts(multiset(Routed(a, route, p)), multiset(Routed(b, route, p)));
    assert |multiset(Routed(a, route, p))| == |multiset(Routed(b, route, p))|;
  }

  lemma {:induction false} NoDuplicatesCount<T>(s: seq<T>, x: T)
    requires NoDuplicates(s)
    ensures multiset(s)[x] == if x in s then 1 else 0
  {
    if s != [] {
      var n := |s| - 1;
      NoDuplicatesCount(s[..n], x);
      assert s == s[..n] + [s[n]];
    }
  }

  /** `std::fill` in place, over the range `[lo, hi)`. */
  method Fill<T>(a: array<T>, lo: nat, hi: nat, value: T)
    requires lo <= hi <= a.Length
    modifies a
    ensures forall k :: 0 <= k < a.Length ==> a[k] == if lo <= k < hi then value else old(a[k])
  {
    for k := lo to hi
      invariant forall j :: 0 <= j < a.Length ==> a[j] == if lo <= j < k then value else old(a[j])
    {
      a[k] := value;
    }
  }
}
