/** Joins: JoinTables by its relational contract, DistributedJoin
    (cpp/src/cylon/table.cpp:861-890), and gcylon's joinTables
    (cpp/src/gcylon/gtable_api.cpp:190-299). */
module Joins {
  import opened Tables
  import opened Exchange
  import opened Shuffle

  datatype JoinType = Inner | Left | Right | FullOuter {
    predicate KeepsLeft() { Left? || FullOuter? }
    predicate KeepsRight() { Right? || FullOuter? }
  }

  datatype Joined<A, B> = Both(left: A, right: B) | LeftOnly(left: A) | RightOnly(right: B)

  /** How the two tables are matched: rows join when their keys are equal. */
  datatype On<!A, !B, !K> = On(leftKey: A -> K, rightKey: B -> K)

  // The relational join, by nested loops

  function Probe<A, B, K(==)>(on: On<A, B, K>, a: A, right: seq<B>): seq<Joined<A, B>> {
    if right == [] then []
    else
      var n := |right| - 1;
      Probe(on, a, right[..n]) + if on.leftKey(a) == on.rightKey(right[n]) then [Both(a, right[n])] else []
  }

  function Matches<A, B, K(==)>(on: On<A, B, K>, left: seq<A>, right: seq<B>): seq<Joined<A, B>> {
    if left == [] then [] else Matches(on, left[..|left| - 1], right) + Probe(on, left[|left| - 1], right)
  }

  ghost predicate LeftMatched<A, B, K>(on: On<A, B, K>, a: A, right: seq<B>) {
    exists b :: b in right && on.leftKey(a) == on.rightKey(b)
  }

  ghost predicate RightMatched<A, B, K>(on: On<A, B, K>, left: seq<A>, b: B) {
    exists a :: a in left && on.leftKey(a) == on.rightKey(b)
  }

  ghost function LeftRest<A, B, K>(on: On<A, B, K>, left: seq<A>, right: seq<B>): seq<Joined<A, B>> {
    if left == [] then []
    else
      var n := |left| - 1;
      LeftRest(on, left[..n], right) + if LeftMatched(on, left[n], right) then [] else [LeftOnly(left[n])]
  }

  ghost function RightRest<A, B, K>(on: On<A, B, K>, left: seq<A>, right: seq<B>): seq<Joined<A, B>> {
    if right == [] then []
    else
      var n := |right| - 1;
      RightRest(on, left, right[..n]) + if RightMatched(on, left, right[n]) then [] else [RightOnly(right[n])]
  }

  ghost function Join<A, B, K>(ty: JoinType, on: On<A, B, K>, left: seq<A>, right: seq<B>): seq<Joined<A, B>> {
    Matches(on, left, right) +
    (if ty.KeepsLeft() then LeftRest(on, left, right) else []) +
    (if ty.KeepsRight() then RightRest(on, left, right) else [])
  }

  // Multiplicities: an independent description of the same relation

  /** How often a row occurs in a join of tables with the given multisets of rows. */
  ghost function Multiplicity<A, B, K>(
      ty: JoinType, on: On<A, B, K>, left: seq<A>, right: seq<B>, row: Joined<A, B>): nat
  {
    match row
    case Both(a, b) => if on.leftKey(a) == on.rightKey(b) then multiset(left)[a] * multiset(right)[b] else 0
    case LeftOnly(a) => if ty.KeepsLeft() && !LeftMatched(on, a, right) then multiset(left)[a] else 0
    case RightOnly(b) => if ty.KeepsRight() && !RightMatched(on, left, b) then multiset(right)[b] else 0
  }

  lemma {:induction false} ProbeCount<A, B, K>(on: On<A, B, K>, a: A, right: seq<B>, row: Joined<A, B>)
    ensures multiset(Probe(on, a, right))[row] ==
            if row.Both? && row.left == a && on.leftKey(a) == on.rightKey(row.right)
            then multiset(right)[row.right] else 0
  {
    if right != [] {
      var n := |right| - 1;
      ProbeCount(on, a, right[..n], row);
      if row.Both? {
        CountLast(right, row.right);
      }
    }
  }

  /** The pairs that the last row of `left` adds. */
  lemma MatchesOfLast<A, B, K>(on: On<A, B, K>, left: seq<A>, right: seq<B>, row: Joined<A, B>)
    requires left != []
    ensures var n := |left| - 1;
            multiset(Matches(on, left, right))[row] == multiset(Matches(on, left[..n], right))[row] +
              if row.Both? && row.left == left[n] && on.leftKey(row.left) == on.rightKey(row.right)
              then multiset(right)[row.right] else 0
  {
    ProbeCount(on, left[|left| - 1], right, row);
  }

  lemma CountLast<A>(rows: seq<A>, x: A)
    requires rows != []
    ensures multiset(rows)[x] == multiset(rows[..|rows| - 1])[x] + if rows[|rows| - 1] == x then 1 else 0
  {
    assert rows == rows[..|rows| - 1] + [rows[|rows| - 1]];
  }

  lemma {:induction false} MatchesCount<A, B, K>(on: On<A, B, K>, left: seq<A>, right: seq<B>, row: Joined<A, B>)
    ensures multiset(Matches(on, left, right))[row] ==
            if row.Both? && on.leftKey(row.left) == on.rightKey(row.right)
            then multiset(left)[row.left] * multiset(right)[row.right] else 0
  {
    if left != [] {
      var n := |left| - 1;
      MatchesCount(on, left[..n], right, row);
      MatchesOfLast(on, left, right, row);
      if row.Both? {
        CountLast(left, row.left);
        Distribute(multiset(left[..n])[row.left], if left[n] == row.left then 1 else 0, multiset(right)[row.right]);
      }
    }
  }

  lemma Distribute(x: nat, y: nat, m: nat)
    ensures (x + y) * m == x * m + y * m
  {
  }

  lemma {:induction false} LeftRestCount<A, B, K>(on: On<A, B, K>, left: seq<A>, right: seq<B>, row: Joined<A, B>)
    ensures multiset(LeftRest(on, left, right))[row] ==
            if row.LeftOnly? && !LeftMatched(on, row.left, right) then multiset(left)[row.left] else 0
  {
    if left != [] {
      var n := |left| - 1;
      LeftRestCount(on, left[..n], right, row);
      if row.LeftOnly? {
        CountLast(left, row.left);
      }
    }
  }

  lemma {:induction false} RightRestCount<A, B, K>(on: On<A, B, K>, left: seq<A>, right: seq<B>, row: Joined<A, B>)
    ensures multiset(RightRest(on, left, right))[row] ==
            if row.RightOnly? && !RightMatched(on, left, row.right) then multiset(right)[row.right] else 0
  {
    if right != [] {
      var n := |right| - 1;
      RightRestCount(on, left, right[..n], row);
      if row.RightOnly? {
        CountLast(right, row.right);
      }
    }
  }

  /** The nested-loop join has every row exactly as often as the relation says. */
  lemma JoinCount<A, B, K>(ty: JoinType, on: On<A, B, K>, left: seq<A>, right: seq<B>, row: Joined<A, B>)
    ensures multiset(Join(ty, on, left, right))[row] == Multiplicity(ty, on, left, right, row)
  {
    MatchesCount(on, left, right, row);
    LeftRestCount(on, left, right, row);
    RightRestCount(on, left, right, row);
  }

  /** Every join pairs the rows with equal keys, each with each. */
  lemma JoinPairs<A, B, K>(ty: JoinType, on: On<A, B, K>, left: seq<A>, right: seq<B>, a: A, b: B)
    ensures multiset(Join(ty, on, left, right))[Both(a, b)] ==
            if on.leftKey(a) == on.rightKey(b) then multiset(left)[a] * multiset(right)[b] else 0
  {
    JoinCount(ty, on, left, right, Both(a, b));
  }

  /** The left and the full outer join keep a left row that has no partner, as often as it
      occurs; the others keep none. */
  lemma UnmatchedLeft<A, B, K>(on: On<A, B, K>, left: seq<A>, right: seq<B>, a: A)
    ensures var kept: nat := if exists b :: b in right && on.leftKey(a) == on.rightKey(b) then 0 else multiset(left)[a];
            multiset(Join(Inner, on, left, right))[LeftOnly(a)] == 0 &&
            multiset(Join(Left, on, left, right))[LeftOnly(a)] == kept &&
            multiset(Join(Right, on, left, right))[LeftOnly(a)] == 0 &&
            multiset(Join(FullOuter, on, left, right))[LeftOnly(a)] == kept
  {
    JoinCount(Inner, on, left, right, LeftOnly(a));
    JoinCount(Left, on, left, right, LeftOnly(a));
    JoinCount(Right, on, left, right, LeftOnly(a));
    JoinCount(FullOuter, on, left, right, LeftOnly(a));
  }

  /** The right and the full outer join keep a right row that has no partner, as often as it
      occurs; the others keep none. */
  lemma UnmatchedRight<A, B, K>(on: On<A, B, K>, left: seq<A>, right: seq<B>, b: B)
    ensures var kept: nat := if exists a :: a in left && on.leftKey(a) == on.rightKey(b) then 0 else multiset(right)[b];
            multiset(Join(Inner, on, left, right))[RightOnly(b)] == 0 &&
            multiset(Join(Left, on, left, right))[RightOnly(b)] == 0 &&
            multiset(Join(Right, on, left, right))[RightOnly(b)] == kept &&
            multiset(Join(FullOuter, on, left, right))[RightOnly(b)] == kept
  {
    JoinCount(Inner, on, left, right, RightOnly(b));
    JoinCount(Left, on, left, right, RightOnly(b));
    JoinCount(Right, on, left, right, RightOnly(b));
    JoinCount(FullOuter, on, left, right, RightOnly(b));
  }

  // Over the ranks

  /** Both tables are shuffled by the hash of their key columns, then every rank joins its
      share; the local join may order its rows as it likes. */
  ghost predicate DistributedJoinRun<A, B, K>(
      ty: JoinType, on: On<A, B, K>, hash: K -> nat, left: seq<seq<A>>, right: seq<seq<B>>,
      leftTrace: seq<State<A>>, rightTrace: seq<State<B>>,
      leftFinal: seq<seq<A>>, rightFinal: seq<seq<B>>, out: seq<seq<Joined<A, B>>>)
  {
    && |left| == |right| == |out| == |leftFinal| == |rightFinal| > 0
    && (if |left| == 1 then leftFinal == left && rightFinal == right
        else
          ShuffleRun(left, KeyRoute(on.leftKey, hash, |left|), leftTrace, leftFinal) &&
          ShuffleRun(right, KeyRoute(on.rightKey, hash, |left|), rightTrace, rightFinal))
    && JoinedOnEveryRank(ty, on, leftFinal, rightFinal, out)
  }

  ghost predicate JoinedOnEveryRank<A, B, K>(
      ty: JoinType, on: On<A, B, K>, left: seq<seq<A>>, right: seq<seq<B>>, out: seq<seq<Joined<A, B>>>)
  {
    && |left| == |right| == |out|
    && forall d :: 0 <= d < |out| ==> multiset(out[d]) == multiset(Join(ty, on, left[d], right[d]))
  }

  /** The rank that is responsible for a row of the result. */
  function Owner<A, B, K>(on: On<A, B, K>, hash: K -> nat, world: nat, row: Joined<A, B>): nat
    requires world > 0
  {
    match row
    case Both(a, _) => hash(on.leftKey(a)) % world
    case LeftOnly(a) => hash(on.leftKey(a)) % world
    case RightOnly(b) => hash(on.rightKey(b)) % world
  }

  lemma LeftMatchedAfterShuffle<A, B, K>(
      on: On<A, B, K>, hash: K -> nat, right: seq<seq<B>>, rightFinal: seq<seq<B>>, d: nat, a: A)
    requires d < |right| && Shuffled(right, KeyRoute(on.rightKey, hash, |right|), rightFinal)
    requires hash(on.leftKey(a)) % |right| == d
    ensures LeftMatched(on, a, rightFinal[d]) <==> LeftMatched(on, a, Flatten(right))
  {
    var route := KeyRoute(on.rightKey, hash, |right|);
    if LeftMatched(on, a, rightFinal[d]) {
      var b :| b in rightFinal[d] && on.leftKey(a) == on.rightKey(b);
      ShuffledMember(right, route, rightFinal, d, b);
    }
    if LeftMatched(on, a, Flatten(right)) {
      var b :| b in Flatten(right) && on.leftKey(a) == on.rightKey(b);
      ShuffledMember(right, route, rightFinal, d, b);
    }
  }

  lemma RightMatchedAfterShuffle<A, B, K>(
      on: On<A, B, K>, hash: K -> nat, left: seq<seq<A>>, leftFinal: seq<seq<A>>, d: nat, b: B)
    requires d < |left| && Shuffled(left, KeyRoute(on.leftKey, hash, |left|), leftFinal)
    requires hash(on.rightKey(b)) % |left| == d
    ensures RightMatched(on, leftFinal[d], b) <==> RightMatched(on, Flatten(left), b)
  {
    var route := KeyRoute(on.leftKey, hash, |left|);
    if RightMatched(on, leftFinal[d], b) {
      var a :| a in leftFinal[d] && on.leftKey(a) == on.rightKey(b);
      ShuffledMember(left, route, leftFinal, d, a);
    }
    if RightMatched(on, Flatten(left), b) {
      var a :| a in Flatten(left) && on.leftKey(a) == on.rightKey(b);
      ShuffledMember(left, route, leftFinal, d, a);
    }
  }

  /** A rank sees a row of the whole join as often as the whole join has it when it owns
      the row, and not at all otherwise. */
  lemma MultiplicityAfterShuffle<A, B, K>(
      ty: JoinType, on: On<A, B, K>, hash: K -> nat, left: seq<seq<A>>, right: seq<seq<B>>,
      leftFinal: seq<seq<A>>, rightFinal: seq<seq<B>>, d: nat, row: Joined<A, B>)
    requires d < |left| == |right|
    requires Shuffled(left, KeyRoute(on.leftKey, hash, |left|), leftFinal)
    requires Shuffled(right, KeyRoute(on.rightKey, hash, |left|), rightFinal)
    ensures Multiplicity(ty, on, leftFinal[d], rightFinal[d], row) ==
            if Owner(on, hash, |left|, row) == d then Multiplicity(ty, on, Flatten(left), Flatten(right), row) else 0
  {
    var lr, rr := KeyRoute(on.leftKey, hash, |left|), KeyRoute(on.rightKey, hash, |left|);
    match row
    case Both(a, b) =>
      ShuffledCount(left, lr, leftFinal, d, a);
      ShuffledCount(right, rr, rightFinal, d, b);
    case LeftOnly(a) =>
      ShuffledCount(left, lr, leftFinal, d, a);
      if lr(a) == d {
        LeftMatchedAfterShuffle(on, hash, right, rightFinal, d, a);
      }
    case RightOnly(b) =>
      ShuffledCount(right, rr, rightFinal, d, b);
      if rr(b) == d {
        RightMatchedAfterShuffle(on, hash, left, leftFinal, d, b);
      }
  }

  /** In every run the ranks' outputs together are, as a multiset of row pairs, the local
      join of the concatenated inputs; for all four join types, whatever the hash. */
  lemma DistributedJoin<A, B, K>(
      ty: JoinType, on: On<A, B, K>, hash: K -> nat, left: seq<seq<A>>, right: seq<seq<B>>,
      leftTrace: seq<State<A>>, rightTrace: seq<State<B>>,
      leftFinal: seq<seq<A>>, rightFinal: seq<seq<B>>, out: seq<seq<Joined<A, B>>>)
    requires DistributedJoinRun(ty, on, hash, left, right, leftTrace, rightTrace, leftFinal, rightFinal, out)
    ensures multiset(Flatten(out)) == multiset(Join(ty, on, Flatten(left), Flatten(right)))
  {
    if |left| == 1 {
      FlattenOne(left);
      FlattenOne(right);
      FlattenOne(out);
    } else {
      ShuffleDelivers(left, KeyRoute(on.leftKey, hash, |left|), leftTrace, leftFinal);
      ShuffleDelivers(right, KeyRoute(on.rightKey, hash, |left|), rightTrace, rightFinal);
      JoinAfterShuffle(ty, on, hash, left, right, leftFinal, rightFinal, out);
    }
  }

  lemma JoinAfterShuffle<A, B, K>(
      ty: JoinType, on: On<A, B, K>, hash: K -> nat, left: seq<seq<A>>, right: seq<seq<B>>,
      leftFinal: seq<seq<A>>, rightFinal: seq<seq<B>>, out: seq<seq<Joined<A, B>>>)
    requires 0 < |left| == |right|
    requires Shuffled(left, KeyRoute(on.leftKey, hash, |left|), leftFinal)
    requires Shuffled(right, KeyRoute(on.rightKey, hash, |left|), rightFinal)
    requires JoinedOnEveryRank(ty, on, leftFinal, rightFinal, out)
    ensures multiset(Flatten(out)) == multiset(Join(ty, on, Flatten(left), Flatten(right)))
  {
    var whole := Join(ty, on, Flatten(left), Flatten(right));
    forall row: Joined<A, B>
      ensures multiset(Flatten(out))[row] == multiset(whole)[row]
    {
      JoinCountAfterShuffle(ty, on, hash, left, right, leftFinal, rightFinal, out, row);
    }
    SameCounts(multiset(Flatten(out)), multiset(whole));
  }

  lemma JoinCountAfterShuffle<A, B, K>(
      ty: JoinType, on: On<A, B, K>, hash: K -> nat, left: seq<seq<A>>, right: seq<seq<B>>,
      leftFinal: seq<seq<A>>, rightFinal: seq<seq<B>>, out: seq<seq<Joined<A, B>>>, row: Joined<A, B>)
    requires 0 < |left| == |right|
    requires Shuffled(left, KeyRoute(on.leftKey, hash, |left|), leftFinal)
    requires Shuffled(right, KeyRoute(on.rightKey, hash, |left|), rightFinal)
    requires JoinedOnEveryRank(ty, on, leftFinal, rightFinal, out)
    ensures multiset(Flatten(out))[row] == multiset(Join(ty, on, Flatten(left), Flatten(right)))[row]
  {
    var owner := Owner(on, hash, |left|, row);
    JoinCount(ty, on, Flatten(left), Flatten(right), row);
    forall d: nat | d < |out|
      ensures multiset(out[d])[row] ==
              if d == owner then Multiplicity(ty, on, Flatten(left), Flatten(right), row) else 0
    {
      JoinCount(ty, on, leftFinal[d], rightFinal[d], row);
      MultiplicityAfterShuffle(ty, on, hash, left, right, leftFinal, rightFinal, d, row);
    }
    OwnerTotal(out, |out|, row, owner, Multiplicity(ty, on, Flatten(left), Flatten(right), row));
  }

  // gcylon

  datatype Algorithm = SortJoin | HashJoin
  datatype JoinError = NotImplemented

  function Mirror<A, B>(row: Joined<A, B>): Joined<B, A> {
    match row
    case Both(a, b) => Both(b, a)
    case LeftOnly(a) => RightOnly(a)
    case RightOnly(b) => LeftOnly(b)
  }

  /** The rows of a joined table: with the left columns first, or with the right ones first. */
  datatype Output<A, B> = LeftFirst(rows: seq<Joined<A, B>>) | RightFirst(mirrored: seq<Joined<B, A>>)

  /** joinTables: a right join is a left join with the tables exchanged, and so its columns
      come out right table first. */
  ghost function GpuJoinTables<A, B, K>(
      algorithm: Algorithm, ty: JoinType, on: On<A, B, K>, left: seq<A>, right: seq<B>)
      : (r: Result<Output<A, B>, JoinError>)
    ensures r.Err? <==> algorithm.SortJoin?
    ensures r.Ok? ==> (r.value.RightFirst? <==> ty.Right?)
  {
    if algorithm.SortJoin? then Err(NotImplemented)
    else
      match ty
      case Inner => Ok(LeftFirst(Join(Inner, on, left, right)))
      case Left => Ok(LeftFirst(Join(Left, on, left, right)))
      case Right => Ok(RightFirst(Join(Left, On(on.rightKey, on.leftKey), right, left)))
      case FullOuter => Ok(LeftFirst(Join(FullOuter, on, left, right)))
  }

  /** How often a row, read with the left columns first, occurs in an output. */
  ghost function OutputCount<A, B>(out: Output<A, B>, row: Joined<A, B>): nat {
    match out
    case LeftFirst(rows) => multiset(rows)[row]
    case RightFirst(rows) => multiset(rows)[Mirror(row)]
  }

  /** Up to the order of the columns gcylon's four joins are the relational joins. */
  lemma GpuJoinIsRelational<A, B, K>(ty: JoinType, on: On<A, B, K>, left: seq<A>, right: seq<B>, row: Joined<A, B>)
    ensures var r := GpuJoinTables(HashJoin, ty, on, left, right);
            OutputCount(r.value, row) == Multiplicity(ty, on, left, right, row) ==
              multiset(Join(ty, on, left, right))[row]
  {
    JoinCount(ty, on, left, right, row);
    if ty.Right? {
      var no := On(on.rightKey, on.leftKey);
      JoinCount(Left, no, right, left, Mirror(row));
      MirrorMatched(on, left, right, row);
    }
  }

  /** gcylon's left join keeps the left rows without a partner; its right join, whose columns
      come right table first, the right ones. */
  lemma GpuUnmatched<A, B, K>(on: On<A, B, K>, left: seq<A>, right: seq<B>, a: A, b: B)
    ensures var leftKept: nat :=
              if exists y :: y in right && on.leftKey(a) == on.rightKey(y) then 0 else multiset(left)[a];
            var rightKept: nat :=
              if exists x :: x in left && on.leftKey(x) == on.rightKey(b) then 0 else multiset(right)[b];
            var byLeft := GpuJoinTables(HashJoin, Left, on, left, right).value;
            var byRight := GpuJoinTables(HashJoin, Right, on, left, right).value;
            byLeft.LeftFirst? && byRight.RightFirst? &&
            multiset(byLeft.rows)[LeftOnly(a)] == leftKept && multiset(byLeft.rows)[RightOnly(b)] == 0 &&
            multiset(byRight.mirrored)[LeftOnly(b)] == rightKept && multiset(byRight.mirrored)[RightOnly(a)] == 0
  {
    UnmatchedLeft(on, left, right, a);
    UnmatchedRight(on, left, right, b);
    UnmatchedExchanged(on, left, right, a, b);
  }

  lemma UnmatchedExchanged<A, B, K>(on: On<A, B, K>, left: seq<A>, right: seq<B>, a: A, b: B)
    ensures var rightKept: nat :=
              if exists x :: x in left && on.leftKey(x) == on.rightKey(b) then 0 else multiset(right)[b];
            var exchanged := Join(Left, On(on.rightKey, on.leftKey), right, left);
            multiset(exchanged)[LeftOnly(b)] == rightKept && multiset(exchanged)[RightOnly(a)] == 0
  {
    var no := On(on.rightKey, on.leftKey);
    UnmatchedLeft(no, right, left, b);
    UnmatchedRight(no, right, left, a);
    assert (exists x :: x in left && no.leftKey(b) == no.rightKey(x)) <==>
           (exists x :: x in left && on.leftKey(x) == on.rightKey(b));
  }

  /** How often a row occurs in the outputs of the first `k` ranks. */
  ghost function TotalOutputCount<A, B>(outs: seq<Output<A, B>>, row: Joined<A, B>, k: nat): nat
    requires k <= |outs|
  {
    if k == 0 then 0 else TotalOutputCount(outs, row, k - 1) + OutputCount(outs[k - 1], row)
  }

  /** gcylon's DistributedJoin: both tables are shuffled, then every rank joins its share; a
      single rank joins its own tables. */
  ghost predicate GpuJoinRun<A, B, K>(
      ty: JoinType, on: On<A, B, K>, hash: K -> nat, left: seq<seq<A>>, right: seq<seq<B>>,
      leftParts: seq<seq<seq<A>>>, leftTrace: seq<State<A>>, leftFinal: seq<seq<A>>,
      rightParts: seq<seq<seq<B>>>, rightTrace: seq<State<B>>, rightFinal: seq<seq<B>>, outs: seq<Output<A, B>>)
  {
    && |left| == |right| == |outs| == |leftFinal| == |rightFinal| > 0
    && (if |left| == 1 then leftFinal == left && rightFinal == right
        else
          GpuShuffleRun(left, KeyRoute(on.leftKey, hash, |left|), leftParts, leftTrace, leftFinal) &&
          GpuShuffleRun(right, KeyRoute(on.rightKey, hash, |left|), rightParts, rightTrace, rightFinal))
    && forall d :: 0 <= d < |outs| ==> Ok(outs[d]) == GpuJoinTables(HashJoin, ty, on, leftFinal[d], rightFinal[d])
  }

  /** gcylon's DistributedJoin, for all four types: in every run, over all ranks, every row
      occurs as often as in the relational join of the concatenated inputs. */
  lemma GpuDistributedJoin<A, B, K>(
      ty: JoinType, on: On<A, B, K>, hash: K -> nat, left: seq<seq<A>>, right: seq<seq<B>>,
      leftParts: seq<seq<seq<A>>>, leftTrace: seq<State<A>>, leftFinal: seq<seq<A>>,
      rightParts: seq<seq<seq<B>>>, rightTrace: seq<State<B>>, rightFinal: seq<seq<B>>, outs: seq<Output<A, B>>,
      row: Joined<A, B>)
    requires GpuJoinRun(ty, on, hash, left, right, leftParts, leftTrace, leftFinal,
                        rightParts, rightTrace, rightFinal, outs)
    ensures TotalOutputCount(outs, row, |outs|) == Multiplicity(ty, on, Flatten(left), Flatten(right), row)
    ensures TotalOutputCount(outs, row, |outs|) == multiset(Join(ty, on, Flatten(left), Flatten(right)))[row]
  {
    JoinCount(ty, on, Flatten(left), Flatten(right), row);
    if |left| == 1 {
      FlattenOne(left);
      FlattenOne(right);
      GpuJoinIsRelational(ty, on, left[0], right[0], row);
      assert TotalOutputCount(outs, row, 1) == TotalOutputCount(outs, row, 0) + OutputCount(outs[0], row);
    } else {
      GpuShuffleDelivers(left, KeyRoute(on.leftKey, hash, |left|), leftParts, leftTrace, leftFinal);
      GpuShuffleDelivers(right, KeyRoute(on.rightKey, hash, |left|), rightParts, rightTrace, rightFinal);
      GpuJoinAfterShuffle(ty, on, hash, left, right, leftFinal, rightFinal, outs, row);
    }
  }

  lemma GpuJoinAfterShuffle<A, B, K>(
      ty: JoinType, on: On<A, B, K>, hash: K -> nat, left: seq<seq<A>>, right: seq<seq<B>>,
      leftFinal: seq<seq<A>>, rightFinal: seq<seq<B>>, outs: seq<Output<A, B>>, row: Joined<A, B>)
    requires 0 < |left| == |right| == |outs|
    requires Shuffled(left, KeyRoute(on.leftKey, hash, |left|), leftFinal)
    requires Shuffled(right, KeyRoute(on.rightKey, hash, |left|), rightFinal)
    requires forall d :: 0 <= d < |outs| ==>
               Ok(outs[d]) == GpuJoinTables(HashJoin, ty, on, leftFinal[d], rightFinal[d])
    ensures TotalOutputCount(outs, row, |outs|) == Multiplicity(ty, on, Flatten(left), Flatten(right), row)
  {
    var whole := Multiplicity(ty, on, Flatten(left), Flatten(right), row);
    var owner := Owner(on, hash, |left|, row);
    forall d: nat | d < |outs|
      ensures OutputCount(outs[d], row) == if d == owner then whole else 0
    {
      GpuJoinIsRelational(ty, on, leftFinal[d], rightFinal[d], row);
      MultiplicityAfterShuffle(ty, on, hash, left, right, leftFinal, rightFinal, d, row);
    }
    OwnerOutput(outs, row, |outs|, owner, whole);
  }

  lemma {:induction false} OwnerOutput<A, B>(
      outs: seq<Output<A, B>>, row: Joined<A, B>, k: nat, owner: nat, count: nat)
    requires k <= |outs|
    requires forall d :: 0 <= d < k ==> OutputCount(outs[d], row) == if d == owner then count else 0
    ensures TotalOutputCount(outs, row, k) == if owner < k then count else 0
  {
    if k > 0 {
      OwnerOutput(outs, row, k - 1, owner, count);
    }
  }

  lemma MirrorMatched<A, B, K>(on: On<A, B, K>, left: seq<A>, right: seq<B>, row: Joined<A, B>)
    ensures Multiplicity(Left, On(on.rightKey, on.leftKey), right, left, Mirror(row)) ==
            Multiplicity(Right, on, left, right, row)
  {
    var no := On(on.rightKey, on.leftKey);
    match row
    case Both(a, b) =>
      assert multiset(left)[a] * multiset(right)[b] == multiset(right)[b] * multiset(left)[a];
    case LeftOnly(a) =>
    case RightOnly(b) =>
      assert LeftMatched(no, b, left) <==> RightMatched(on, left, b);
  }
}
