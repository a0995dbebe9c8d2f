/** Unique and DistributedUnique (cpp/src/cylon/table.cpp:1306-1387): one row per key. */
module UniqueRows {
  import opened Tables
  import opened Exchange
  import opened Shuffle

  /** The number of rows with key `k`. */
  function KeyCount<T, K(==)>(key: T -> K, rows: seq<T>, k: K): nat {
    if rows == [] then 0
    else
      var n := |rows| - 1;
      KeyCount(key, rows[..n], k) + if key(rows[n]) == k then 1 else 0
  }

  /** The first row of every key among rows `0..k`, in input order. */
  function FirstPerKey<T, K(==)>(key: T -> K, rows: seq<T>, k: nat): seq<T>
    requires k <= |rows|
  {
    if k == 0 then []
    else if KeyCount(key, rows[..k - 1], key(rows[k - 1])) > 0 then FirstPerKey(key, rows, k - 1)
    else FirstPerKey(key, rows, k - 1) + [rows[k - 1]]
  }

  /** The last row of every key among rows `k..|rows|`, from the end to the front. */
  function LastPerKey<T, K(==)>(key: T -> K, rows: seq<T>, k: nat): seq<T>
    requires k <= |rows|
    decreases |rows| - k
  {
    if k == |rows| then []
    else if KeyCount(key, rows[k + 1..], key(rows[k])) > 0 then LastPerKey(key, rows, k + 1)
    else LastPerKey(key, rows, k + 1) + [rows[k]]
  }

  /** The index set, modulo key equality: the keys met so far. */
  ghost predicate KeysOf<T, K(!new)>(key: T -> K, rows: seq<T>, keys: set<K>) {
    forall k :: k in keys <==> KeyCount(key, rows, k) > 0
  }

  lemma KeysOfMore<T, K(!new)>(key: T -> K, rows: seq<T>, keys: set<K>, x: T)
    requires KeysOf(key, rows, keys)
    ensures KeysOf(key, rows + [x], keys + {key(x)})
    ensures KeysOf(key, [x] + rows, keys + {key(x)})
  {
    forall k
      ensures KeyCount(key, rows + [x], k) == KeyCount(key, rows, k) + if key(x) == k then 1 else 0
      ensures KeyCount(key, [x] + rows, k) == KeyCount(key, rows, k) + if key(x) == k then 1 else 0
    {
      KeyCountOne(key, x, k);
      KeyCountAppend(key, rows, [x], k);
      KeyCountAppend(key, [x], rows, k);
    }
  }

  /** The loop that keeps last rows runs while `row > 0`: row 0 is never looked at. With `first`
      the rows kept are those whose key no earlier row has, in input order; otherwise those
      behind row 0 whose key no later row has, from the end to the front. */
  method Unique<T, K(==, !new)>(key: T -> K, rows: seq<T>, first: bool) returns (out: seq<T>, ghost at: seq<nat>)
    ensures first ==> out == FirstPerKey(key, rows, |rows|)
    ensures !first ==> out == if rows == [] then [] else LastPerKey(key, rows, 1)
    ensures |at| == |out| && forall i :: 0 <= i < |at| ==> at[i] < |rows| && out[i] == rows[at[i]]
    ensures first ==> forall i, j :: 0 <= i < j < |at| ==> at[i] < at[j]
    ensures first ==> forall i: nat :: i < |rows| ==>
              (i in at <==> forall j :: 0 <= j < i ==> key(rows[j]) != key(rows[i]))
    ensures !first ==> forall i, j :: 0 <= i < j < |at| ==> at[i] > at[j]
    ensures !first ==> forall i: nat :: i < |rows| ==>
              (i in at <==> i >= 1 && forall j :: i < j < |rows| ==> key(rows[j]) != key(rows[i]))
  {
    if rows == [] {
      return rows, [];
    }
    if first {
      out := KeepFirst(key, rows);
      at := FirstAt(key, rows, |rows|);
      FirstAtTaken(key, rows, |rows|);
      FirstAtPositions(key, rows, |rows|);
      assert forall i: nat :: i < |rows| ==> (i in at <==> KeyMissing(key, rows, 0, i, i));
    } else {
      out := KeepLast(key, rows);
      at := LastAt(key, rows, 1);
      LastAtTaken(key, rows, 1);
      LastAtPositions(key, rows, 1);
      assert forall i: nat :: 1 <= i < |rows| ==> (i in at <==> KeyMissing(key, rows, i + 1, |rows|, i));
    }
  }

  lemma NoKey<T, K>(key: T -> K, rows: seq<T>, k: K)
    ensures KeyCount(key, rows, k) == 0 <==> forall j :: 0 <= j < |rows| ==> key(rows[j]) != k
  {
    KeyCountPositive(key, rows, k);
    forall j | 0 <= j < |rows| && key(rows[j]) == k
      ensures KeyCount(key, rows, k) > 0
    {
      assert rows[j] in rows;
    }
  }

  /** No row in `[lo, hi)` has the key of row `i`. */
  ghost predicate KeyMissing<T, K>(key: T -> K, rows: seq<T>, lo: nat, hi: nat, i: nat)
    requires lo <= hi <= |rows| && i < |rows|
  {
    forall j :: lo <= j < hi ==> key(rows[j]) != key(rows[i])
  }

  lemma KeyMissingCount<T, K>(key: T -> K, rows: seq<T>, lo: nat, hi: nat, i: nat)
    requires lo <= hi <= |rows| && i < |rows|
    ensures KeyCount(key, rows[lo..hi], key(rows[i])) == 0 <==> KeyMissing(key, rows, lo, hi, i)
  {
    NoKey(key, rows[lo..hi], key(rows[i]));
    assert forall j :: lo <= j < hi ==> rows[j] == rows[lo..hi][j - lo];
  }

  /** Ascending positions below `k`, those of rows whose key no earlier row has. */
  ghost predicate FirstPositions<T, K>(key: T -> K, rows: seq<T>, k: nat, at: seq<nat>)
    requires k <= |rows|
  {
    && (forall i :: 0 <= i < |at| ==> at[i] < k)
    && (forall i, j :: 0 <= i < j < |at| ==> at[i] < at[j])
    && forall i: nat :: i < k ==> (i in at <==> KeyMissing(key, rows, 0, i, i))
  }

  lemma OneMoreFirst<T, K>(key: T -> K, rows: seq<T>, k: nat, at: seq<nat>)
    requires k < |rows| && FirstPositions(key, rows, k, at)
    ensures FirstPositions(key, rows, k + 1, if KeyMissing(key, rows, 0, k, k) then at + [k] else at)
  {
    assert k !in at;
  }

  lemma CountedFirst<T, K>(key: T -> K, rows: seq<T>, k: nat, at: seq<nat>)
    requires k < |rows| && FirstPositions(key, rows, k, at)
    ensures FirstPositions(key, rows, k + 1, at + if KeyCount(key, rows[..k], key(rows[k])) > 0 then [] else [k])
  {
    KeyMissingCount(key, rows, 0, k, k);
    assert rows[0..k] == rows[..k];
    OneMoreFirst(key, rows, k, at);
    assert at + [] == at;
  }

  /** The positions of the rows kept first. */
  function FirstAt<T, K(==)>(key: T -> K, rows: seq<T>, k: nat): seq<nat>
    requires k <= |rows|
  {
    if k == 0 then []
    else FirstAt(key, rows, k - 1) + if KeyCount(key, rows[..k - 1], key(rows[k - 1])) > 0 then [] else [k - 1]
  }

  lemma {:induction false} FirstAtTaken<T, K>(key: T -> K, rows: seq<T>, k: nat)
    requires k <= |rows|
    ensures TakenAt(rows, FirstAt(key, rows, k), FirstPerKey(key, rows, k))
  {
    if k > 0 {
      FirstAtTaken(key, rows, k - 1);
      OneMoreTaken(rows, FirstAt(key, rows, k - 1), FirstPerKey(key, rows, k - 1), k - 1);
    }
  }

  lemma {:induction false} FirstAtPositions<T, K>(key: T -> K, rows: seq<T>, k: nat)
    requires k <= |rows|
    ensures FirstPositions(key, rows, k, FirstAt(key, rows, k))
  {
    if k > 0 {
      FirstAtPositions(key, rows, k - 1);
      CountedFirst(key, rows, k - 1, FirstAt(key, rows, k - 1));
    }
  }

  /** Descending positions from `k` on, those of rows whose key no later row has. */
  ghost predicate LastPositions<T, K>(key: T -> K, rows: seq<T>, k: nat, at: seq<nat>)
    requires k <= |rows|
  {
    && (forall i :: 0 <= i < |at| ==> k <= at[i])
    && (forall i, j :: 0 <= i < j < |at| ==> at[i] > at[j])
    && forall i: nat :: k <= i < |rows| ==> (i in at <==> KeyMissing(key, rows, i + 1, |rows|, i))
  }

  lemma OneMoreLast<T, K>(key: T -> K, rows: seq<T>, k: nat, at: seq<nat>)
    requires k < |rows| && LastPositions(key, rows, k + 1, at)
    ensures LastPositions(key, rows, k, if KeyMissing(key, rows, k + 1, |rows|, k) then at + [k] else at)
  {
    assert k !in at;
  }

  lemma CountedLast<T, K>(key: T -> K, rows: seq<T>, k: nat, at: seq<nat>)
    requires k < |rows| && LastPositions(key, rows, k + 1, at)
    ensures LastPositions(key, rows, k, at + if KeyCount(key, rows[k + 1..], key(rows[k])) > 0 then [] else [k])
  {
    KeyMissingCount(key, rows, k + 1, |rows|, k);
    assert rows[k + 1..|rows|] == rows[k + 1..];
    OneMoreLast(key, rows, k, at);
    assert at + [] == at;
  }

  /** The positions of the rows kept last. */
  function LastAt<T, K(==)>(key: T -> K, rows: seq<T>, k: nat): seq<nat>
    requires k <= |rows|
    decreases |rows| - k
  {
    if k == |rows| then []
    else LastAt(key, rows, k + 1) + if KeyCount(key, rows[k + 1..], key(rows[k])) > 0 then [] else [k]
  }

  lemma {:induction false} LastAtTaken<T, K>(key: T -> K, rows: seq<T>, k: nat)
    requires k <= |rows|
    ensures TakenAt(rows, LastAt(key, rows, k), LastPerKey(key, rows, k))
    decreases |rows| - k
  {
    if k < |rows| {
      LastAtTaken(key, rows, k + 1);
      OneMoreTaken(rows, LastAt(key, rows, k + 1), LastPerKey(key, rows, k + 1), k);
    }
  }

  lemma {:induction false} LastAtPositions<T, K>(key: T -> K, rows: seq<T>, k: nat)
    requires k <= |rows|
    ensures LastPositions(key, rows, k, LastAt(key, rows, k))
    decreases |rows| - k
  {
    if k < |rows| {
      LastAtPositions(key, rows, k + 1);
      CountedLast(key, rows, k, LastAt(key, rows, k + 1));
    }
  }

  method KeepFirst<T, K(==, !new)>(key: T -> K, rows: seq<T>) returns (out: seq<T>)
    ensures out == FirstPerKey(key, rows, |rows|)
  {
    var rowsSet: set<K> := {};
    out := [];
    for row := 0 to |rows|
      invariant out == FirstPerKey(key, rows, row)
      invariant KeysOf(key, rows[..row], rowsSet)
    {
      KeysOfMore(key, rows[..row], rowsSet, rows[row]);
      assert rows[..row + 1] == rows[..row] + [rows[row]];
      if key(rows[row]) !in rowsSet {
        out := out + [rows[row]];
      }
      rowsSet := rowsSet + {key(rows[row])};
    }
  }

  method KeepLast<T, K(==, !new)>(key: T -> K, rows: seq<T>) returns (out: seq<T>)
    requires rows != []
    ensures out == LastPerKey(key, rows, 1)
  {
    var rowsSet: set<K> := {};
    out := [];
    var row := |rows| - 1;
    while row > 0
      invariant 0 <= row < |rows|
      invariant out == LastPerKey(key, rows, row + 1)
      invariant KeysOf(key, rows[row + 1..], rowsSet)
    {
      KeysOfMore(key, rows[row + 1..], rowsSet, rows[row]);
      assert rows[row..] == [rows[row]] + rows[row + 1..];
      if key(rows[row]) !in rowsSet {
        out := out + [rows[row]];
      }
      rowsSet := rowsSet + {key(rows[row])};
      row := row - 1;
    }
  }

  lemma KeyCountOne<T, K>(key: T -> K, x: T, k: K)
    ensures KeyCount(key, [x], k) == if key(x) == k then 1 else 0
  {
    assert [x][..0] == [];
    assert KeyCount(key, [x][..0], k) == 0;
  }

  lemma {:induction false} KeyCountAppend<T, K>(key: T -> K, a: seq<T>, b: seq<T>, k: K)
    ensures KeyCount(key, a + b, k) == KeyCount(key, a, k) + KeyCount(key, b, k)
  {
    if b == [] {
      assert a + b == a;
    } else {
      var n := |b| - 1;
      KeyCountAppend(key, a, b[..n], k);
      assert (a + b)[..|a| + n] == a + b[..n];
    }
  }

  lemma {:induction false} KeyCountPositive<T, K>(key: T -> K, rows: seq<T>, k: K)
    ensures KeyCount(key, rows, k) > 0 <==> exists x :: x in rows && key(x) == k
  {
    if rows != [] {
      var n := |rows| - 1;
      KeyCountPositive(key, rows[..n], k);
      assert rows == rows[..n] + [rows[n]];
      assert rows[n] in rows;
    }
  }

  /** What it means to have kept one row of every key of `rows`. */
  ghost predicate OnePerKey<T, K(!new)>(key: T -> K, rows: seq<T>, out: seq<T>) {
    && (forall x :: x in out ==> x in rows)
    && forall k :: KeyCount(key, out, k) == if KeyCount(key, rows, k) > 0 then 1 else 0
  }

  /** Read without counting: no two survivors share a key, and every key has a survivor. */
  lemma OnePerKeyMeans<T, K(!new)>(key: T -> K, rows: seq<T>, out: seq<T>)
    requires OnePerKey(key, rows, out)
    ensures forall i, j :: 0 <= i < j < |out| ==> key(out[i]) != key(out[j])
    ensures forall x :: x in rows ==> exists y :: y in out && key(y) == key(x)
  {
    forall i, j | 0 <= i < j < |out|
      ensures key(out[i]) != key(out[j])
    {
      assert KeyCount(key, out, key(out[i])) <= 1;
      if key(out[i]) == key(out[j]) {
        SameKeyTwice(key, out, i, j);
        assert false;
      }
    }
    forall x | x in rows
      ensures exists y :: y in out && key(y) == key(x)
    {
      KeyCountPositive(key, rows, key(x));
      KeyCountPositive(key, out, key(x));
    }
  }

  lemma {:induction false} SameKeyTwice<T, K>(key: T -> K, rows: seq<T>, i: nat, j: nat)
    requires i < j < |rows| && key(rows[i]) == key(rows[j])
    ensures KeyCount(key, rows, key(rows[i])) >= 2
  {
    var n := |rows| - 1;
    if j < n {
      SameKeyTwice(key, rows[..n], i, j);
    } else {
      KeyCountPositive(key, rows[..n], key(rows[i]));
      assert rows[..n][i] in rows[..n];
    }
  }

  lemma OneMoreRow<T, K(!new)>(key: T -> K, rows: seq<T>, more: seq<T>, out: seq<T>, x: T)
    requires OnePerKey(key, rows, out)
    requires more == rows + [x] || more == [x] + rows
    ensures OnePerKey(key, more, if KeyCount(key, rows, key(x)) > 0 then out else out + [x])
  {
    var out' := if KeyCount(key, rows, key(x)) > 0 then out else out + [x];
    forall k
      ensures KeyCount(key, out', k) == if KeyCount(key, more, k) > 0 then 1 else 0
    {
      KeyCountOne(key, x, k);
      KeyCountAppend(key, rows, [x], k);
      KeyCountAppend(key, [x], rows, k);
      KeyCountAppend(key, out, [x], k);
    }
  }

  /** With `first`, the survivors are one row per key: the first occurrences in order. */
  lemma {:induction false} FirstPerKeyMeaning<T, K(!new)>(key: T -> K, rows: seq<T>, k: nat)
    requires k <= |rows|
    ensures OnePerKey(key, rows[..k], FirstPerKey(key, rows, k))
  {
    if k > 0 {
      FirstPerKeyMeaning(key, rows, k - 1);
      assert rows[..k] == rows[..k - 1] + [rows[k - 1]];
      OneMoreRow(key, rows[..k - 1], rows[..k], FirstPerKey(key, rows, k - 1), rows[k - 1]);
    }
  }

  lemma {:induction false} LastPerKeyMeaning<T, K(!new)>(key: T -> K, rows: seq<T>, k: nat)
    requires k <= |rows|
    ensures OnePerKey(key, rows[k..], LastPerKey(key, rows, k))
    decreases |rows| - k
  {
    if k < |rows| {
      LastPerKeyMeaning(key, rows, k + 1);
      assert rows[k..] == [rows[k]] + rows[k + 1..];
      OneMoreRow(key, rows[k + 1..], rows[k..], LastPerKey(key, rows, k + 1), rows[k]);
    }
  }

  /** Keeping last rows serves every key exactly when the key of row 0 occurs again. */
  lemma KeepLastExact<T, K(!new)>(key: T -> K, rows: seq<T>)
    requires rows != []
    ensures OnePerKey(key, rows, LastPerKey(key, rows, 1)) <==> KeyCount(key, rows[1..], key(rows[0])) > 0
  {
    LastPerKeyMeaning(key, rows, 1);
    assert rows == [rows[0]] + rows[1..];
    forall k
      ensures KeyCount(key, rows, k) == KeyCount(key, rows[1..], k) + if key(rows[0]) == k then 1 else 0
    {
      KeyCountOne(key, rows[0], k);
      KeyCountAppend(key, [rows[0]], rows[1..], k);
    }
  }

  /** A table of one row comes out empty from keep-last. */
  lemma KeepLastDropsOnlyRow<T, K(!new)>(key: T -> K, x: T)
    ensures LastPerKey(key, [x], 1) == [] && !OnePerKey(key, [x], LastPerKey(key, [x], 1))
  {
    KeepLastExact(key, [x]);
    assert [x][1..] == [];
  }

  // Over the ranks

  ghost predicate DistributedUniqueRun<T, K>(
      key: T -> K, hash: K -> nat, world: seq<seq<T>>, trace: seq<State<T>>,
      shuffled: seq<seq<T>>, out: seq<seq<T>>)
  {
    && |world| == |out| == |shuffled| > 0
    && (if |world| == 1 then shuffled == world
        else ShuffleRun(world, KeyRoute(key, hash, |world|), trace, shuffled))
    && forall d :: 0 <= d < |out| ==> out[d] == FirstPerKey(key, shuffled[d], |shuffled[d]|)
  }

  lemma UniqueOnRank<T, K(!new)>(key: T -> K, rows: seq<T>)
    ensures OnePerKey(key, rows, FirstPerKey(key, rows, |rows|))
  {
    FirstPerKeyMeaning(key, rows, |rows|);
    assert rows[..|rows|] == rows;
  }

  /** If only rank `owner` has rows with key `k`, the world has as many as that rank. */
  lemma {:induction false} OwnerKeyCount<T, K>(key: T -> K, world: seq<seq<T>>, n: nat, k: K, owner: nat)
    requires n <= |world|
    requires forall d :: 0 <= d < n && d != owner ==> KeyCount(key, world[d], k) == 0
    ensures KeyCount(key, Concat(world, n), k) == if owner < n then KeyCount(key, world[owner], k) else 0
  {
    if n > 0 {
      OwnerKeyCount(key, world, n - 1, k, owner);
      KeyCountAppend(key, Concat(world, n - 1), world[n - 1], k);
    }
  }

  /** After the shuffle a key is on the rank it hashes to, if it occurs, and nowhere else. */
  lemma KeyAfterShuffle<T, K>(
      key: T -> K, hash: K -> nat, world: seq<seq<T>>, shuffled: seq<seq<T>>, d: nat, k: K)
    requires d < |world| && Shuffled(world, KeyRoute(key, hash, |world|), shuffled)
    ensures KeyCount(key, shuffled[d], k) > 0 <==> KeyCount(key, Flatten(world), k) > 0 && hash(k) % |world| == d
    ensures forall x :: x in shuffled[d] ==> x in Flatten(world)
  {
    var route := KeyRoute(key, hash, |world|);
    forall x: T
      ensures x in shuffled[d] <==> x in Flatten(world) && route(x) == d
    {
      ShuffledMember(world, route, shuffled, d, x);
    }
    KeyCountPositive(key, shuffled[d], k);
    KeyCountPositive(key, Flatten(world), k);
    if x :| x in Flatten(world) && key(x) == k {
      assert route(x) == hash(k) % |world|;
      assert x in shuffled[d] <==> hash(k) % |world| == d;
    }
  }

  lemma OneRowOfKey<T, K(!new)>(
      key: T -> K, hash: K -> nat, world: seq<seq<T>>, shuffled: seq<seq<T>>, out: seq<seq<T>>, k: K)
    requires |out| == |world| > 0 && Shuffled(world, KeyRoute(key, hash, |world|), shuffled)
    requires forall d :: 0 <= d < |out| ==> OnePerKey(key, shuffled[d], out[d])
    ensures KeyCount(key, Flatten(out), k) == if KeyCount(key, Flatten(world), k) > 0 then 1 else 0
  {
    var owner := hash(k) % |world|;
    forall d: nat | d < |out|
      ensures KeyCount(key, out[d], k) == if d == owner && KeyCount(key, Flatten(world), k) > 0 then 1 else 0
    {
      KeyAfterShuffle(key, hash, world, shuffled, d, k);
    }
    OwnerKeyCount(key, out, |out|, k, owner);
  }

  /** In every run, over all ranks, every key of the input has exactly one surviving row, no
      other key has any, and every survivor is an input row. Which keys survive therefore
      does not depend on the order of arrival. */
  lemma DistributedUnique<T, K(!new)>(
      key: T -> K, hash: K -> nat, world: seq<seq<T>>, trace: seq<State<T>>,
      shuffled: seq<seq<T>>, out: seq<seq<T>>)
    requires DistributedUniqueRun(key, hash, world, trace, shuffled, out)
    ensures OnePerKey(key, Flatten(world), Flatten(out))
    ensures forall y :: y in Flatten(out) ==> y in Flatten(world)
    ensures forall i, j :: 0 <= i < j < |Flatten(out)| ==> key(Flatten(out)[i]) != key(Flatten(out)[j])
    ensures forall x :: x in Flatten(world) ==> exists y :: y in Flatten(out) && key(y) == key(x)
  {
    OneRowPerKey(key, hash, world, trace, shuffled, out);
    OnePerKeyMeans(key, Flatten(world), Flatten(out));
  }

  lemma OneRowPerKey<T, K(!new)>(
      key: T -> K, hash: K -> nat, world: seq<seq<T>>, trace: seq<State<T>>,
      shuffled: seq<seq<T>>, out: seq<seq<T>>)
    requires DistributedUniqueRun(key, hash, world, trace, shuffled, out)
    ensures OnePerKey(key, Flatten(world), Flatten(out))
  {
    forall d: nat | d < |out|
      ensures OnePerKey(key, shuffled[d], out[d])
    {
      UniqueOnRank(key, shuffled[d]);
    }
    if |world| == 1 {
      FlattenOne(world);
      FlattenOne(out);
    } else {
      ShuffleDelivers(world, KeyRoute(key, hash, |world|), trace, shuffled);
      forall k
        ensures KeyCount(key, Flatten(out), k) == if KeyCount(key, Flatten(world), k) > 0 then 1 else 0
      {
        OneRowOfKey(key, hash, world, shuffled, out, k);
      }
      forall x | x in Flatten(out)
        ensures x in Flatten(world)
      {
        ConcatMember(out, |out|, x);
        var d :| 0 <= d < |out| && x in out[d];
        KeyAfterShuffle(key, hash, world, shuffled, d, key(x));
      }
    }
  }
}
