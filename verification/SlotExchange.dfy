/** The slot-per-source variant of the exchange (cpp/src/cylon/table.cpp:109-190): tables are
    written into one slot per source instead of being appended as they arrive. */
module SlotExchange {
  import opened Tables
  import opened Spreading
  import opened Exchange

  /** `received_tables` after the callbacks of `inbox`: a remote table is written at its
      source, the rank's own table at its partition number. `None` is a write past the end. */
  function Slots<T>(world: nat, d: nat, inbox: seq<Packet<T>>): Option<seq<Option<seq<T>>>> {
    if inbox == [] then Some(seq(world, _ => None))
    else
      var p := inbox[|inbox| - 1];
      var index := if p.source == d then p.partition else p.source;
      match Slots(world, d, inbox[..|inbox| - 1])
      case None => None
      case Some(slots) =>
        if index < |slots| then Some(slots[index := Some(p.rows)]) else None
  }

  /** Every slot holds a table, so the caller may dereference them all. */
  predicate Filled<T>(slots: Option<seq<Option<seq<T>>>>) {
    slots.Some? && forall i :: 0 <= i < |slots.value| ==> slots.value[i].Some?
  }

  /** The received tables in slot order, that is, in rank order. */
  function Unwrapped<T>(slots: seq<Option<seq<T>>>): seq<seq<T>>
    requires Filled(Some(slots))
  {
    seq(|slots|, i requires 0 <= i < |slots| => slots[i].value)
  }

  /** With as many partitions as ranks a slot holds the last table of its source. */
  lemma {:induction false} SlotsBySource<T>(world: nat, d: nat, inbox: seq<Packet<T>>)
    requires forall p :: p in inbox ==> p.source < world && p.partition == d
    ensures Slots(world, d, inbox).Some? && |Slots(world, d, inbox).value| == world
    ensures forall s :: 0 <= s < world ==>
              var from := FromSource(inbox, s);
              Slots(world, d, inbox).value[s] == if from == [] then None else Some(from[|from| - 1].rows)
  {
    if inbox != [] {
      var n := |inbox| - 1;
      assert inbox[n] in inbox;
      SlotsBySource(world, d, inbox[..n]);
    }
  }

  lemma SquareInbox<T>(parts: seq<seq<seq<T>>>, inbox: seq<Packet<T>>, d: nat)
    requires Square(parts) && d < |parts| && InboxInv(parts, inbox, d)
    ensures forall p :: p in inbox ==> p.source < |parts| && p.partition == d
  {
    forall p | p in inbox
      ensures p.source < |parts| && p.partition == d
    {
      OfItsChannel(parts, inbox, d, p);
      SquareQueue(parts, p.source, d, |parts|);
    }
  }

  /** The slot variant is deterministic: in every interleaving, slot `s` of rank `d` ends
      with partition `d` of rank `s`. */
  lemma SlotsExact<T>(parts: seq<seq<seq<T>>>, trace: seq<State<T>>, i: nat, d: nat)
    requires Square(parts) && Run(parts, trace) && i < |trace| && Complete(parts, trace[i], d)
    ensures var slots := Slots(|parts|, d, trace[i][d]);
            Filled(slots) && Unwrapped(slots.value) == Column(parts, d)
  {
    var inbox := trace[i][d];
    RunInv(parts, trace, i);
    SquareInbox(parts, inbox, d);
    SlotsBySource(|parts|, d, inbox);
    ExactlyOnce(parts, trace, i, d);
    forall s: nat | s < |parts|
      ensures FromSource(inbox, s) == [Packet(s, d, parts[s][d])]
    {
      SquareQueue(parts, s, d, |parts|);
    }
  }

  /** Whenever a rank may go on, in any run, its slots hold `received`, in rank order. */
  ghost predicate EveryRunDelivers<T(!new)>(parts: seq<seq<seq<T>>>, received: seq<seq<seq<T>>>)
    requires |received| == |parts|
  {
    forall trace: seq<State<T>>, i: nat, d: nat ::
      Run(parts, trace) && i < |trace| && d < |parts| && Complete(parts, trace[i], d) ==>
        var slots := Slots(|parts|, d, trace[i][d]);
        Filled(slots) && Unwrapped(slots.value) == received[d]
  }

  /** all_to_all_arrow_tables_separated_arrow_table with as many partitions as ranks: the
      tables that every run delivers, whatever the interleaving. */
  method AllToAllSeparated<T(!new)>(parts: seq<seq<seq<T>>>) returns (received: seq<seq<seq<T>>>)
    requires Square(parts)
    ensures |received| == |parts| && EveryRunDelivers(parts, received)
    ensures forall d :: 0 <= d < |parts| ==> received[d] == Column(parts, d)
  {
    received := seq(|parts|, d requires 0 <= d < |parts| => Column(parts, d));
    forall trace: seq<State<T>>, i: nat, d: nat |
        Run(parts, trace) && i < |trace| && d < |parts| && Complete(parts, trace[i], d)
      ensures var slots := Slots(|parts|, d, trace[i][d]);
              Filled(slots) && Unwrapped(slots.value) == received[d]
    {
      SlotsExact(parts, trace, i, d);
    }
  }

  lemma {:induction false} OwnWritePastEnd<T>(world: nat, d: nat, inbox: seq<Packet<T>>, p: Packet<T>)
    requires p in inbox && p.source == d && p.partition >= world
    ensures Slots(world, d, inbox).None?
  {
    var n := |inbox| - 1;
    if p in inbox[..n] {
      OwnWritePastEnd(world, d, inbox[..n], p);
    } else {
      assert inbox[n] == p;
      SlotsLength(world, d, inbox[..n]);
    }
  }

  lemma {:induction false} SlotsLength<T>(world: nat, d: nat, inbox: seq<Packet<T>>)
    ensures Slots(world, d, inbox).Some? ==> |Slots(world, d, inbox).value| == world
  {
    if inbox != [] {
      SlotsLength(world, d, inbox[..|inbox| - 1]);
    }
  }

  /** The slot variant fills the last rank's slots exactly when there are as many partitions
      as ranks, in every run; then it fills those of all ranks. */
  lemma SlotsNeedSquare<T>(parts: seq<seq<seq<T>>>, n: nat, trace: seq<State<T>>, i: nat)
    requires parts != [] && forall s :: 0 <= s < |parts| ==> |parts[s]| == n
    requires Run(parts, trace) && i < |trace| && |trace[i]| == |parts|
    ensures var last := |parts| - 1;
            Complete(parts, trace[i], last) ==>
              (n == |parts| <==> Filled(Slots(|parts|, last, trace[i][last])))
    ensures n == |parts| ==> forall d :: 0 <= d < |parts| && Complete(parts, trace[i], d) ==>
              Filled(Slots(|parts|, d, trace[i][d]))
  {
    var last := |parts| - 1;
    var inbox := trace[i][last];
    RunInv(parts, trace, i);
    assert InboxInv(parts, inbox, last);
    if n == |parts| {
      forall d: nat | d < |parts| && Complete(parts, trace[i], d)
        ensures Filled(Slots(|parts|, d, trace[i][d]))
      {
        SlotsExact(parts, trace, i, d);
      }
    } else if n > |parts| {
      LastTarget(|parts|, n);
      QueueSources(parts, last, last, n);
      var p := Packet(last, n - 1, parts[last][n - 1]);
      assert p in Channel(parts, last, last);
      OwnWritePastEnd(|parts|, last, inbox, p);
    } else {
      if inbox != [] {
        var p := inbox[0];
        OfItsChannel(parts, inbox, last, p);
        QueueSources(parts, p.source, last, n);
        LastTargetUnused(|parts|, n, p.partition);
        assert false;
      }
      assert Slots(|parts|, last, inbox).value[0] == None;
    }
  }

  /** One partition for two ranks: the last rank may go on at once, with no slot filled. */
  lemma TooFewPartitions<T>(x: T)
    ensures var parts := [[[x]], [[x]]];
            Run(parts, [Init(parts)]) && Complete(parts, Init(parts), 1) &&
            !Filled(Slots(2, 1, Init(parts)[1]))
  {
    var parts := [[[x]], [[x]]];
    assert Queue(parts, 0, 1, 1) == [] by { assert Queue(parts, 0, 1, 0) == []; }
    assert Queue(parts, 1, 1, 1) == [] by { assert Queue(parts, 1, 1, 0) == []; }
    SlotsNeedSquare(parts, 1, [Init(parts)], 0);
  }
}
