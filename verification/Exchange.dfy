/** The all-to-all exchange (cpp/src/cylon/table.cpp:49-190) as a state machine, with its push-back variant.

    Every rank has cut its table into partitions. A partition for the rank itself enters
    its inbox before the exchange starts; the others travel over one channel per pair of
    ranks. Channels keep their order, but the network interleaves them as it likes. */
module Exchange {
  import opened Tables
  import opened Spreading

  datatype Packet<T> = Packet(source: nat, partition: nat, rows: seq<T>)

  /** The inbox of every rank: the calls of its receive callback, in order of arrival. */
  type State<T> = seq<seq<Packet<T>>>

  /** The packets of rank `s` for rank `d` among its first `k` partitions. */
  function Queue<T>(parts: seq<seq<seq<T>>>, s: nat, d: nat, k: nat): seq<Packet<T>>
    requires s < |parts| && k <= |parts[s]|
  {
    if k == 0 then []
    else
      Queue(parts, s, d, k - 1) +
      if Target(|parts|, |parts[s]|, k - 1) == d then [Packet(s, k - 1, parts[s][k - 1])] else []
  }

  function Channel<T>(parts: seq<seq<seq<T>>>, s: nat, d: nat): seq<Packet<T>>
    requires s < |parts|
  {
    Queue(parts, s, d, |parts[s]|)
  }

  function FromSource<T>(inbox: seq<Packet<T>>, s: nat): seq<Packet<T>> {
    if inbox == [] then []
    else
      var n := |inbox| - 1;
      FromSource(inbox[..n], s) + if inbox[n].source == s then [inbox[n]] else []
  }

  /** The received tables concatenated in order of arrival. */
  function Rows<T>(inbox: seq<Packet<T>>): seq<T> {
    if inbox == [] then [] else Rows(inbox[..|inbox| - 1]) + inbox[|inbox| - 1].rows
  }

  // The transition system

  function Init<T>(parts: seq<seq<seq<T>>>): State<T> {
    seq(|parts|, d requires 0 <= d < |parts| => Channel(parts, d, d))
  }

  ghost predicate Pending<T>(parts: seq<seq<seq<T>>>, inbox: seq<Packet<T>>, s: nat, d: nat)
    requires s < |parts|
  {
    |FromSource(inbox, s)| < |Channel(parts, s, d)|
  }

  /** The inbox of `d` after the next packet of the channel from `s` arrives. */
  ghost function Arrival<T>(parts: seq<seq<seq<T>>>, inbox: seq<Packet<T>>, s: nat, d: nat): seq<Packet<T>>
    requires s < |parts| && Pending(parts, inbox, s, d)
  {
    inbox + [Channel(parts, s, d)[|FromSource(inbox, s)|]]
  }

  ghost predicate Deliver<T>(parts: seq<seq<seq<T>>>, a: State<T>, b: State<T>, s: nat, d: nat) {
    && |a| == |parts| && s < |parts| && d < |parts|
    && Pending(parts, a[d], s, d)
    && b == a[d := Arrival(parts, a[d], s, d)]
  }

  ghost predicate Next<T>(parts: seq<seq<seq<T>>>, a: State<T>, b: State<T>) {
    exists s, d :: Deliver(parts, a, b, s, d)
  }

  ghost predicate Run<T>(parts: seq<seq<seq<T>>>, trace: seq<State<T>>) {
    && trace != []
    && trace[0] == Init(parts)
    && forall i :: 0 <= i < |trace| - 1 ==> StepAt(parts, trace, i)
  }

  ghost predicate StepAt<T>(parts: seq<seq<seq<T>>>, trace: seq<State<T>>, i: nat)
    requires i < |trace| - 1
  {
    Next(parts, trace[i], trace[i + 1])
  }

  /** Rank `d` has heard everything its sources had for it: `isComplete` lets it go on. */
  ghost predicate Complete<T>(parts: seq<seq<seq<T>>>, st: State<T>, d: nat) {
    && d < |st| == |parts|
    && forall s :: 0 <= s < |parts| ==> |FromSource(st[d], s)| == |Channel(parts, s, d)|
  }

  // Invariant

  ghost predicate InboxInv<T>(parts: seq<seq<seq<T>>>, inbox: seq<Packet<T>>, d: nat)
    requires d < |parts|
  {
    && Channel(parts, d, d) <= inbox
    && (forall p :: p in inbox ==> p.source < |parts|)
    && forall s :: 0 <= s < |parts| ==> FromSource(inbox, s) <= Channel(parts, s, d)
  }

  ghost predicate Inv<T>(parts: seq<seq<seq<T>>>, st: State<T>) {
    |st| == |parts| && forall d :: 0 <= d < |parts| ==> InboxInv(parts, st[d], d)
  }

  lemma {:induction false} QueueSources<T>(parts: seq<seq<seq<T>>>, s: nat, d: nat, k: nat)
    requires s < |parts| && k <= |parts[s]|
    ensures forall p :: p in Queue(parts, s, d, k) ==>
              p.source == s && p.partition < k && p.rows == parts[s][p.partition] &&
              Target(|parts|, |parts[s]|, p.partition) == d
    ensures forall i :: 0 <= i < k && Target(|parts|, |parts[s]|, i) == d ==>
              Packet(s, i, parts[s][i]) in Queue(parts, s, d, k)
  {
    if k > 0 {
      QueueSources(parts, s, d, k - 1);
      var last := if Target(|parts|, |parts[s]|, k - 1) == d then [Packet(s, k - 1, parts[s][k - 1])] else [];
      assert Queue(parts, s, d, k) == Queue(parts, s, d, k - 1) + last;
    }
  }

  lemma {:induction false} FromSourceOnly<T>(inbox: seq<Packet<T>>, own: nat, s: nat)
    requires forall p :: p in inbox ==> p.source == own
    ensures FromSource(inbox, s) == if s == own then inbox else []
  {
    if inbox != [] {
      FromSourceOnly(inbox[..|inbox| - 1], own, s);
    }
  }

  lemma InitInv<T>(parts: seq<seq<seq<T>>>)
    ensures Inv(parts, Init(parts))
  {
    forall d: nat | d < |parts|
      ensures InboxInv(parts, Init(parts)[d], d)
    {
      QueueSources(parts, d, d, |parts[d]|);
      forall s: nat | s < |parts|
        ensures FromSource(Init(parts)[d], s) <= Channel(parts, s, d)
      {
        FromSourceOnly(Init(parts)[d], d, s);
      }
    }
  }

  lemma FromSourceAppend<T>(inbox: seq<Packet<T>>, p: Packet<T>, s: nat)
    ensures FromSource(inbox + [p], s) == FromSource(inbox, s) + if p.source == s then [p] else []
  {
    assert (inbox + [p])[..|inbox|] == inbox;
  }

  lemma RowsAppend<T>(inbox: seq<Packet<T>>, p: Packet<T>)
    ensures Rows(inbox + [p]) == Rows(inbox) + p.rows
  {
    assert (inbox + [p])[..|inbox|] == inbox;
  }

  lemma DeliverInv<T>(parts: seq<seq<seq<T>>>, inbox: seq<Packet<T>>, s: nat, d: nat)
    requires s < |parts| && d < |parts| && InboxInv(parts, inbox, d)
    requires Pending(parts, inbox, s, d)
    ensures InboxInv(parts, Arrival(parts, inbox, s, d), d)
  {
    var channel := Channel(parts, s, d);
    var p := channel[|FromSource(inbox, s)|];
    QueueSources(parts, s, d, |parts[s]|);
    assert p in channel && p.source == s;
    forall r: nat | r < |parts|
      ensures FromSource(inbox + [p], r) <= Channel(parts, r, d)
    {
      FromSourceAppend(inbox, p, r);
    }
    assert forall e :: e in inbox + [p] ==> e in inbox || e == p;
  }

  lemma NextInv<T>(parts: seq<seq<seq<T>>>, a: State<T>, b: State<T>, s: nat, d: nat)
    requires Inv(parts, a) && Deliver(parts, a, b, s, d)
    ensures Inv(parts, b)
  {
    forall e: nat | e < |parts|
      ensures InboxInv(parts, b[e], e)
    {
      NextInboxInv(parts, a, b, s, d, e);
    }
  }

  lemma NextInboxInv<T>(parts: seq<seq<seq<T>>>, a: State<T>, b: State<T>, s: nat, d: nat, e: nat)
    requires Deliver(parts, a, b, s, d) && e < |parts|
    requires InboxInv(parts, a[e], e)
    ensures InboxInv(parts, b[e], e)
  {
    if e == d {
      DeliverInv(parts, a[d], s, d);
    }
  }

  lemma {:induction false} RunInv<T>(parts: seq<seq<seq<T>>>, trace: seq<State<T>>, i: nat)
    requires Run(parts, trace) && i < |trace|
    ensures Inv(parts, trace[i])
  {
    if i == 0 {
      InitInv(parts);
    } else {
      RunInv(parts, trace, i - 1);
      assert StepAt(parts, trace, i - 1);
      var s, d :| Deliver(parts, trace[i - 1], trace[i], s, d);
      NextInv(parts, trace[i - 1], trace[i], s, d);
    }
  }

  /** Exactly once, in channel order: whatever the interleaving, a rank that may go on has
      received from each source precisely the packets meant for it. */
  lemma ExactlyOnce<T>(parts: seq<seq<seq<T>>>, trace: seq<State<T>>, i: nat, d: nat)
    requires Run(parts, trace) && i < |trace| && Complete(parts, trace[i], d)
    ensures forall s :: 0 <= s < |parts| ==> FromSource(trace[i][d], s) == Channel(parts, s, d)
    ensures forall p :: p in trace[i][d] ==> p.source < |parts|
  {
    RunInv(parts, trace, i);
    assert InboxInv(parts, trace[i][d], d);
  }

  lemma {:induction false} QueueAscends<T>(parts: seq<seq<seq<T>>>, s: nat, d: nat, k: nat)
    requires s < |parts| && k <= |parts[s]|
    ensures forall x, y :: 0 <= x < y < |Queue(parts, s, d, k)| ==>
              Queue(parts, s, d, k)[x].partition < Queue(parts, s, d, k)[y].partition
  {
    if k > 0 {
      QueueAscends(parts, s, d, k - 1);
      QueueSources(parts, s, d, k - 1);
    }
  }

  ghost predicate PartitionsAscend<T>(packets: seq<Packet<T>>) {
    forall x, y :: 0 <= x < y < |packets| ==> packets[x].partition < packets[y].partition
  }

  lemma {:induction false} SourceMember<T>(inbox: seq<Packet<T>>, s: nat, p: Packet<T>)
    ensures p in FromSource(inbox, s) <==> p in inbox && p.source == s
  {
    if inbox != [] {
      var n := |inbox| - 1;
      SourceMember(inbox[..n], s, p);
      assert inbox == inbox[..n] + [inbox[n]];
    }
  }

  lemma OfItsChannel<T>(parts: seq<seq<seq<T>>>, inbox: seq<Packet<T>>, d: nat, p: Packet<T>)
    requires d < |parts| && InboxInv(parts, inbox, d) && p in inbox
    ensures p.source < |parts| && p in Channel(parts, p.source, d)
  {
    SourceMember(inbox, p.source, p);
  }

  /** When the packets of a source ascend among themselves, they do so in the inbox. */
  lemma {:induction false} SourceOrder<T>(inbox: seq<Packet<T>>, x: nat, y: nat)
    requires x < y < |inbox| && inbox[x].source == inbox[y].source
    requires PartitionsAscend(FromSource(inbox, inbox[x].source))
    ensures inbox[x].partition < inbox[y].partition
  {
    var n := |inbox| - 1;
    var s := inbox[x].source;
    var earlier := FromSource(inbox[..n], s);
    assert earlier <= FromSource(inbox, s);
    if y < n {
      SourceOrder(inbox[..n], x, y);
    } else {
      assert inbox[x] == inbox[..n][x];
      SourceMember(inbox[..n], s, inbox[x]);
      var i :| 0 <= i < |earlier| && earlier[i] == inbox[x];
      assert FromSource(inbox, s)[i] == inbox[x] && FromSource(inbox, s)[|earlier|] == inbox[y];
    }
  }

  /** What a rank holds when it may go on, in the terms of the partitions: of every source
      exactly the partitions that are spread to this rank, unchanged, in ascending order and so
      no partition twice. */
  lemma PartitionsArrive<T>(parts: seq<seq<seq<T>>>, trace: seq<State<T>>, i: nat, d: nat)
    requires Run(parts, trace) && i < |trace| && Complete(parts, trace[i], d)
    ensures forall p :: p in trace[i][d] ==>
              p.source < |parts| && p.partition < |parts[p.source]| && p.rows == parts[p.source][p.partition]
    ensures forall s, k :: 0 <= s < |parts| && 0 <= k < |parts[s]| ==>
              (Packet(s, k, parts[s][k]) in trace[i][d] <==>
                d == if |parts[s]| == |parts| then k else k * |parts| / |parts[s]|)
    ensures forall x, y :: 0 <= x < y < |trace[i][d]| && trace[i][d][x].source == trace[i][d][y].source ==>
              trace[i][d][x].partition < trace[i][d][y].partition
  {
    var inbox := trace[i][d];
    ExactlyOnce(parts, trace, i, d);
    forall p | p in inbox
      ensures p.source < |parts| && p.partition < |parts[p.source]| && p.rows == parts[p.source][p.partition]
    {
      SourceMember(inbox, p.source, p);
      QueueSources(parts, p.source, d, |parts[p.source]|);
    }
    forall s: nat, k: nat | s < |parts| && k < |parts[s]|
      ensures Packet(s, k, parts[s][k]) in inbox <==> Target(|parts|, |parts[s]|, k) == d
    {
      SourceMember(inbox, s, Packet(s, k, parts[s][k]));
      QueueSources(parts, s, d, |parts[s]|);
    }
    forall x: nat, y: nat | x < y < |inbox| && inbox[x].source == inbox[y].source
      ensures inbox[x].partition < inbox[y].partition
    {
      assert inbox[x] in inbox;
      QueueAscends(parts, inbox[x].source, d, |parts[inbox[x].source]|);
      SourceOrder(inbox, x, y);
    }
  }

  // The push-back variant: table.cpp:49-106

  /** The received rows regrouped by source. */
  function RowsBySource<T>(inbox: seq<Packet<T>>, world: nat): seq<seq<T>> {
    seq(world, s requires 0 <= s < world => Rows(FromSource(inbox, s)))
  }

  /** What every rank sends to rank `d`. */
  function RowsSentTo<T>(parts: seq<seq<seq<T>>>, d: nat): seq<seq<T>> {
    seq(|parts|, s requires 0 <= s < |parts| => Rows(Channel(parts, s, d)))
  }

  /** Lengthening the table of one rank adds its new rows to the world. */
  lemma {:induction false} LengthenOne<T>(a: seq<seq<T>>, b: seq<seq<T>>, r: nat, more: seq<T>, k: nat)
    requires k <= |a| == |b|
    requires forall s :: 0 <= s < |a| ==> b[s] == if s == r then a[s] + more else a[s]
    ensures multiset(Concat(b, k)) == multiset(Concat(a, k)) + if r < k then multiset(more) else multiset{}
  {
    if k > 0 {
      LengthenOne(a, b, r, more, k - 1);
    }
  }

  lemma RowsOfSource<T>(inbox: seq<Packet<T>>, p: Packet<T>, s: nat)
    ensures Rows(FromSource(inbox + [p], s)) ==
            if p.source == s then Rows(FromSource(inbox, s)) + p.rows else Rows(FromSource(inbox, s))
  {
    FromSourceAppend(inbox, p, s);
    if p.source == s {
      RowsAppend(FromSource(inbox, s), p);
    } else {
      assert FromSource(inbox + [p], s) == FromSource(inbox, s);
    }
  }

  lemma AddPacket<T>(inbox: seq<Packet<T>>, p: Packet<T>, world: nat)
    requires p.source < world
    ensures multiset(Flatten(RowsBySource(inbox + [p], world))) ==
            multiset(Flatten(RowsBySource(inbox, world))) + multiset(p.rows)
  {
    var a, b := RowsBySource(inbox, world), RowsBySource(inbox + [p], world);
    forall s: nat | s < world
      ensures b[s] == if s == p.source then a[s] + p.rows else a[s]
    {
      RowsOfSource(inbox, p, s);
    }
    LengthenOne(a, b, p.source, p.rows, world);
  }

  /** Regrouping the received rows by source permutes them. */
  lemma {:induction false} RowsGroupedBySource<T>(inbox: seq<Packet<T>>, world: nat)
    requires forall p :: p in inbox ==> p.source < world
    ensures multiset(Rows(inbox)) == multiset(Flatten(RowsBySource(inbox, world)))
  {
    if inbox == [] {
      NothingConcat(RowsBySource<T>([], world), world);
    } else {
      var rest, p := inbox[..|inbox| - 1], inbox[|inbox| - 1];
      assert inbox == rest + [p];
      RowsGroupedBySource(rest, world);
      AddPacket(rest, p, world);
      RowsAppend(rest, p);
    }
  }

  lemma {:induction false} NothingConcat<T>(world: seq<seq<T>>, k: nat)
    requires k <= |world| && forall r :: 0 <= r < k ==> world[r] == []
    ensures Concat(world, k) == []
  {
    if k > 0 {
      NothingConcat(world, k - 1);
    }
  }

  /** The push-back variant receives the same rows in every interleaving, up to order. */
  lemma PushBackRows<T>(parts: seq<seq<seq<T>>>, trace: seq<State<T>>, i: nat, d: nat)
    requires Run(parts, trace) && i < |trace| && Complete(parts, trace[i], d)
    ensures multiset(Rows(trace[i][d])) == multiset(Flatten(RowsSentTo(parts, d)))
  {
    ExactlyOnce(parts, trace, i, d);
    RowsGroupedBySource(trace[i][d], |parts|);
    assert RowsBySource(trace[i][d], |parts|) == RowsSentTo(parts, d);
  }

  /** Rank `d` leaves the exchange with `rows` at some moment of the run at which it may. */
  ghost predicate LeavesWith<T>(parts: seq<seq<seq<T>>>, trace: seq<State<T>>, d: nat, rows: seq<T>) {
    exists i :: 0 <= i < |trace| && Complete(parts, trace[i], d) && rows == Rows(trace[i][d])
  }

  /** All ranks leave the run `trace` of the exchange of `parts`, with the tables `out`. */
  ghost predicate RunEndsWith<T>(parts: seq<seq<seq<T>>>, trace: seq<State<T>>, out: seq<seq<T>>) {
    && |out| == |parts|
    && Run(parts, trace)
    && forall d :: 0 <= d < |parts| ==> LeavesWith(parts, trace, d, out[d])
  }

  ghost predicate Square<T>(parts: seq<seq<seq<T>>>) {
    forall s :: 0 <= s < |parts| ==> |parts[s]| == |parts|
  }

  /** Partition `d` of every rank, in rank order. */
  function Column<T>(parts: seq<seq<seq<T>>>, d: nat): seq<seq<T>>
    requires Square(parts) && d < |parts|
  {
    seq(|parts|, s requires 0 <= s < |parts| => parts[s][d])
  }

  lemma {:induction false} SquareQueue<T>(parts: seq<seq<seq<T>>>, s: nat, d: nat, k: nat)
    requires Square(parts) && s < |parts| && d < |parts| && k <= |parts|
    ensures Queue(parts, s, d, k) == if d < k then [Packet(s, d, parts[s][d])] else []
  {
    if k > 0 {
      SquareQueue(parts, s, d, k - 1);
    }
  }

  lemma SquareChannelRows<T>(parts: seq<seq<seq<T>>>, s: nat, d: nat)
    requires Square(parts) && d < |parts| && s < |parts|
    ensures Rows(Channel(parts, s, d)) == parts[s][d]
  {
    SquareQueue(parts, s, d, |parts|);
    RowsAppend([], Packet(s, d, parts[s][d]));
    assert [] + [Packet(s, d, parts[s][d])] == Channel(parts, s, d);
  }

  lemma SquareSent<T>(parts: seq<seq<seq<T>>>, d: nat)
    requires Square(parts) && d < |parts|
    ensures RowsSentTo(parts, d) == Column(parts, d)
  {
    forall s: nat | s < |parts|
      ensures Rows(Channel(parts, s, d)) == parts[s][d]
    {
      SquareChannelRows(parts, s, d);
    }
  }

  /** With as many partitions as ranks, rank `d` leaves every run with its column, in any order. */
  lemma LeavesWithColumn<T>(parts: seq<seq<seq<T>>>, trace: seq<State<T>>, d: nat, rows: seq<T>)
    requires Square(parts) && Run(parts, trace) && d < |parts| && LeavesWith(parts, trace, d, rows)
    ensures multiset(rows) == multiset(Flatten(Column(parts, d)))
  {
    var i :| 0 <= i < |trace| && Complete(parts, trace[i], d) && rows == Rows(trace[i][d]);
    PushBackRows(parts, trace, i, d);
    SquareSent(parts, d);
  }
}
