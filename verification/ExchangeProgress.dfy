/** The exchange always gets done: every step delivers one of finitely many outstanding
    packets, and while any is outstanding some channel can deliver. */
module ExchangeProgress {
  import opened Tables
  import opened Exchange

  /** The packets still owed to the inbox of rank `d` by the first `k` ranks. */
  ghost function OwedTo<T>(parts: seq<seq<seq<T>>>, inbox: seq<Packet<T>>, d: nat, k: nat): int
    requires k <= |parts|
  {
    if k == 0 then 0
    else OwedTo(parts, inbox, d, k - 1) + |Channel(parts, k - 1, d)| - |FromSource(inbox, k - 1)|
  }

  /** The packets still owed to the first `k` ranks. */
  ghost function Owed<T>(parts: seq<seq<seq<T>>>, st: State<T>, k: nat): int
    requires k <= |st|
  {
    if k == 0 then 0 else Owed(parts, st, k - 1) + OwedTo(parts, st[k - 1], k - 1, |parts|)
  }

  ghost function Outstanding<T>(parts: seq<seq<seq<T>>>, st: State<T>): int {
    Owed(parts, st, |st|)
  }

  lemma {:induction false} OwedToStep<T>(
      parts: seq<seq<seq<T>>>, inbox: seq<Packet<T>>, more: seq<Packet<T>>, s: nat, d: nat, k: nat)
    requires k <= |parts|
    requires forall r: nat :: |FromSource(more, r)| == |FromSource(inbox, r)| + if r == s then 1 else 0
    ensures OwedTo(parts, more, d, k) == OwedTo(parts, inbox, d, k) - if s < k then 1 else 0
  {
    if k > 0 {
      OwedToStep(parts, inbox, more, s, d, k - 1);
    }
  }

  lemma ArrivalCounts<T>(parts: seq<seq<seq<T>>>, inbox: seq<Packet<T>>, s: nat, d: nat)
    requires s < |parts| && Pending(parts, inbox, s, d)
    ensures forall r: nat :: |FromSource(Arrival(parts, inbox, s, d), r)| ==
                             |FromSource(inbox, r)| + if r == s then 1 else 0
  {
    var p := Channel(parts, s, d)[|FromSource(inbox, s)|];
    QueueSources(parts, s, d, |parts[s]|);
    assert p in Channel(parts, s, d);
    forall r: nat
      ensures FromSource(inbox + [p], r) == FromSource(inbox, r) + if r == s then [p] else []
    {
      FromSourceAppend(inbox, p, r);
    }
  }

  lemma {:induction false} OwedStep<T>(parts: seq<seq<seq<T>>>, a: State<T>, b: State<T>, s: nat, d: nat, k: nat)
    requires Deliver(parts, a, b, s, d) && k <= |a|
    ensures Owed(parts, b, k) == Owed(parts, a, k) - if d < k then 1 else 0
  {
    if k > 0 {
      OwedStep(parts, a, b, s, d, k - 1);
      if d == k - 1 {
        ArrivalCounts(parts, a[d], s, d);
        OwedToStep(parts, a[d], b[d], s, d, |parts|);
      }
    }
  }

  /** No channel has delivered more than it holds. */
  ghost predicate WithinChannels<T>(parts: seq<seq<seq<T>>>, inbox: seq<Packet<T>>, d: nat) {
    forall s :: 0 <= s < |parts| ==> |FromSource(inbox, s)| <= |Channel(parts, s, d)|
  }

  lemma InvWithinChannels<T>(parts: seq<seq<seq<T>>>, inbox: seq<Packet<T>>, d: nat)
    requires d < |parts| && InboxInv(parts, inbox, d)
    ensures WithinChannels(parts, inbox, d)
  {
    forall s: nat | s < |parts|
      ensures |FromSource(inbox, s)| <= |Channel(parts, s, d)|
    {
      assert FromSource(inbox, s) <= Channel(parts, s, d);
    }
  }

  lemma {:induction false} OwedToBounds<T>(parts: seq<seq<seq<T>>>, inbox: seq<Packet<T>>, d: nat, k: nat)
    requires WithinChannels(parts, inbox, d) && k <= |parts|
    ensures OwedTo(parts, inbox, d, k) >= 0
    ensures OwedTo(parts, inbox, d, k) == 0 <==> forall s :: 0 <= s < k ==> !Pending(parts, inbox, s, d)
  {
    if k > 0 {
      OwedToBounds(parts, inbox, d, k - 1);
      assert Pending(parts, inbox, k - 1, d) <==> |FromSource(inbox, k - 1)| < |Channel(parts, k - 1, d)|;
    }
  }

  ghost predicate NothingPending<T>(parts: seq<seq<seq<T>>>, inbox: seq<Packet<T>>, d: nat) {
    forall s :: 0 <= s < |parts| ==> !Pending(parts, inbox, s, d)
  }

  lemma {:induction false} OwedBounds<T>(parts: seq<seq<seq<T>>>, st: State<T>, k: nat)
    requires Inv(parts, st) && k <= |parts|
    ensures Owed(parts, st, k) >= 0
    ensures Owed(parts, st, k) == 0 <==> forall d :: 0 <= d < k ==> NothingPending(parts, st[d], d)
  {
    if k > 0 {
      OwedBounds(parts, st, k - 1);
      InvWithinChannels(parts, st[k - 1], k - 1);
      OwedToBounds(parts, st[k - 1], k - 1, |parts|);
    }
  }

  ghost predicate AllComplete<T>(parts: seq<seq<seq<T>>>, st: State<T>) {
    forall d :: 0 <= d < |parts| ==> Complete(parts, st, d)
  }

  lemma NothingPendingCompletes<T>(parts: seq<seq<seq<T>>>, st: State<T>, d: nat)
    requires |st| == |parts| && d < |parts|
    requires WithinChannels(parts, st[d], d) && NothingPending(parts, st[d], d)
    ensures Complete(parts, st, d)
  {
    forall s: nat | s < |parts|
      ensures |FromSource(st[d], s)| == |Channel(parts, s, d)|
    {
      assert !Pending(parts, st[d], s, d);
    }
  }

  /** A rank that may not go on has a channel that can deliver. */
  lemma SomethingPending<T>(parts: seq<seq<seq<T>>>, st: State<T>, d: nat) returns (s: nat)
    requires |st| == |parts| && d < |parts| && InboxInv(parts, st[d], d) && !Complete(parts, st, d)
    ensures s < |parts| && Pending(parts, st[d], s, d)
  {
    InvWithinChannels(parts, st[d], d);
    if NothingPending(parts, st[d], d) {
      NothingPendingCompletes(parts, st, d);
    }
    s :| s < |parts| && Pending(parts, st[d], s, d);
  }

  /** No deadlock: unless all ranks may go on, some delivery is possible. */
  lemma NoDeadlock<T>(parts: seq<seq<seq<T>>>, st: State<T>) returns (next: State<T>)
    requires Inv(parts, st) && !AllComplete(parts, st)
    ensures Next(parts, st, next) && Outstanding(parts, next) < Outstanding(parts, st)
  {
    var d: nat :| d < |parts| && !Complete(parts, st, d);
    assert InboxInv(parts, st[d], d);
    var s := SomethingPending(parts, st, d);
    next := DeliverNext(parts, st, s, d);
  }

  lemma DeliverNext<T>(parts: seq<seq<seq<T>>>, st: State<T>, s: nat, d: nat) returns (next: State<T>)
    requires |st| == |parts| && s < |parts| && d < |parts| && Pending(parts, st[d], s, d)
    ensures Next(parts, st, next) && Outstanding(parts, next) < Outstanding(parts, st)
  {
    next := st[d := Arrival(parts, st[d], s, d)];
    assert Deliver(parts, st, next, s, d);
    OwedStep(parts, st, next, s, d, |st|);
  }

  lemma OutstandingBounded<T>(parts: seq<seq<seq<T>>>, trace: seq<State<T>>)
    requires Run(parts, trace)
    ensures Inv(parts, trace[|trace| - 1]) && Outstanding(parts, trace[|trace| - 1]) >= 0
  {
    RunInv(parts, trace, |trace| - 1);
    OwedBounds(parts, trace[|trace| - 1], |parts|);
  }

  /** Every delivery reduces what is outstanding by one: a run has made exactly as many
      steps as packets have arrived, and so cannot be longer than the packets there are. */
  lemma {:induction false} RunLength<T>(parts: seq<seq<seq<T>>>, trace: seq<State<T>>, i: nat)
    requires Run(parts, trace) && i < |trace|
    ensures i + Outstanding(parts, trace[i]) == Outstanding(parts, Init(parts))
    ensures i <= Outstanding(parts, Init(parts))
  {
    RunInv(parts, trace, i);
    OwedBounds(parts, trace[i], |parts|);
    if i > 0 {
      RunLength(parts, trace, i - 1);
      assert StepAt(parts, trace, i - 1);
      var s, d :| Deliver(parts, trace[i - 1], trace[i], s, d);
      OwedStep(parts, trace[i - 1], trace[i], s, d, |trace[i]|);
    }
  }

  /** Every run can be continued until all ranks may go on. */
  lemma {:induction false} RunCompletes<T>(parts: seq<seq<seq<T>>>, trace: seq<State<T>>)
      returns (whole: seq<State<T>>)
    requires Run(parts, trace)
    ensures Run(parts, whole) && trace <= whole && AllComplete(parts, whole[|whole| - 1])
    decreases Outstanding(parts, trace[|trace| - 1])
  {
    OutstandingBounded(parts, trace);
    if AllComplete(parts, trace[|trace| - 1]) {
      return trace;
    }
    var longer := OneMoreDelivery(parts, trace);
    whole := RunCompletes(parts, longer);
  }

  lemma OneMoreDelivery<T>(parts: seq<seq<seq<T>>>, trace: seq<State<T>>) returns (longer: seq<State<T>>)
    requires Run(parts, trace) && !AllComplete(parts, trace[|trace| - 1])
    ensures Run(parts, longer) && trace <= longer
    ensures Outstanding(parts, longer[|longer| - 1]) < Outstanding(parts, trace[|trace| - 1])
  {
    OutstandingBounded(parts, trace);
    var next := NoDeadlock(parts, trace[|trace| - 1]);
    ExtendRun(parts, trace, next);
    longer := trace + [next];
  }

  lemma ExtendRun<T>(parts: seq<seq<seq<T>>>, trace: seq<State<T>>, next: State<T>)
    requires Run(parts, trace) && Next(parts, trace[|trace| - 1], next)
    ensures Run(parts, trace + [next])
  {
    var more := trace + [next];
    forall i | 0 <= i < |more| - 1
      ensures StepAt(parts, more, i)
    {
      if i < |trace| - 1 {
        assert StepAt(parts, trace, i);
        assert more[i] == trace[i] && more[i + 1] == trace[i + 1];
      }
    }
  }
}
