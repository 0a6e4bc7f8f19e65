/**
 * One writer, a fixed set of readers, and a network that loses, reorders and
 * repeats DELTAs and acks (core/replication.py:81-122, 183-233, 277-289).
 */
module ReplicationRuns {
  import opened Replication

  datatype Ack = Ack(node: string, lsn: int)

  /** An entry of `_ack_waiters`. */
  datatype Waiter = Waiter(expected: nat, received: nat)

  type Waiters = map<int, Waiter>

  // ---------------------------------------------------------------- the ack counter

  /** `_handle_delta_ack`: the waiters afterwards, and whether this ack completes one. */
  function HandleAck(ws: Waiters, lsn: int): (Waiters, bool) {
    if lsn !in ws then (ws, false)
    else
      var w := Waiter(ws[lsn].expected, ws[lsn].received + 1);
      if w.received >= w.expected then (ws - {lsn}, true) else (ws[lsn := w], false)
  }

  class AckCounter {
    var waiters: Waiters

    constructor ()
      ensures waiters == map[]
    {
      waiters := map[];
    }

    /** The registration in `replicate_tx`; without readers it has nothing to wait for. */
    method Await(lsn: int, readers: nat) returns (done: bool)
      modifies this
      ensures done <==> readers == 0
      ensures waiters == if readers == 0 then old(waiters) else old(waiters)[lsn := Waiter(readers, 0)]
    {
      if readers == 0 {
        return true;
      }
      waiters := waiters[lsn := Waiter(readers, 0)];
      return false;
    }

    /** Counts an ack; a completed waiter resumes `replicate_tx`, which removes it. */
    method HandleDeltaAck(lsn: int) returns (done: bool)
      modifies this
      ensures (waiters, done) == HandleAck(old(waiters), lsn)
    {
      if lsn !in waiters {
        return false;
      }
      var w := waiters[lsn];
      w := w.(received := w.received + 1);
      waiters := waiters[lsn := w];
      done := w.received >= w.expected;
      if done {
        Forget(lsn);
        assert waiters == old(waiters) - {lsn};
      }
    }

    /** The `finally` of `replicate_tx`, also after a timeout. */
    method Forget(lsn: int)
      modifies this
      ensures waiters == old(waiters) - {lsn}
    {
      waiters := waiters - {lsn};
    }
  }

  // ----------------------------------------------------------------- the whole system

  /**
   * `issued` are the DELTAs ever broadcast, all still deliverable any number of
   * times; `acks` are in flight; `counted` have arrived; `confirmed` are the LSNs for
   * which `replicate_tx` returned True.
   */
  datatype Net = Net(
    readers: map<string, Reader>,
    issued: map<int, Tx>,
    acks: multiset<Ack>,
    counted: set<Ack>,
    waiters: Waiters,
    confirmed: set<int>)

  datatype Event =
    | Broadcast(lsn: int, tx: Tx)
    | Await(lsn: int)
    | DeltaArrives(node: string, lsn: int)
    | SyncArrives(node: string, entries: seq<Delta>)
    | AckArrives(ack: Ack)
    | AckLost(ack: Ack)
    | AckRepeated(ack: Ack)
    | Timeout(lsn: int)

  ghost predicate Enabled(net: Net, e: Event) {
    match e
    case Broadcast(lsn, tx) => lsn in net.issued ==> net.issued[lsn] == tx
    case Await(lsn) => lsn in net.issued
    case DeltaArrives(node, lsn) => node in net.readers && lsn in net.issued
    case SyncArrives(node, entries) =>
      && node in net.readers
      && AllSourced(net.issued, entries)
      && forall i :: 0 <= i < |entries| ==> entries[i].lsn > net.readers[node].last - WINDOW
    case AckArrives(ack) => ack in net.acks
    case AckLost(ack) => ack in net.acks
    case AckRepeated(ack) => ack in net.acks || ack in net.counted
    case Timeout(lsn) => lsn in net.waiters
  }

  ghost predicate Sourced(issued: map<int, Tx>, d: Delta) { d.lsn in issued && issued[d.lsn] == d.tx }

  ghost predicate AllSourced(issued: map<int, Tx>, ds: seq<Delta>) {
    forall i :: 0 <= i < |ds| ==> Sourced(issued, ds[i])
  }

  function Next(net: Net, e: Event): Net
    requires Enabled(net, e)
  {
    match e
    case Broadcast(lsn, tx) => net.(issued := net.issued[lsn := tx])
    case Await(lsn) =>
      if |net.readers| == 0 then net.(confirmed := net.confirmed + {lsn})
      else net.(waiters := net.waiters[lsn := Waiter(|net.readers|, 0)])
    case DeltaArrives(node, lsn) =>
      var (r, acked) := HandleDelta(net.readers[node], Delta(lsn, net.issued[lsn]));
      net.(readers := net.readers[node := r],
           acks := if acked then net.acks + multiset{Ack(node, lsn)} else net.acks)
    case SyncArrives(node, entries) =>
      net.(readers := net.readers[node := HandleSync(net.readers[node], entries)])
    case AckArrives(ack) =>
      var (waiters, done) := HandleAck(net.waiters, ack.lsn);
      net.(acks := net.acks - multiset{ack}, counted := net.counted + {ack}, waiters := waiters,
           confirmed := if done then net.confirmed + {ack.lsn} else net.confirmed)
    case AckLost(ack) => net.(acks := net.acks - multiset{ack})
    case AckRepeated(ack) => net.(acks := net.acks + multiset{ack})
    case Timeout(lsn) => net.(waiters := net.waiters - {lsn})
  }

  ghost predicate Initial(net: Net) {
    && (forall n :: n in net.readers ==> net.readers[n] == FRESH)
    && net.issued == map[] && net.acks == multiset{} && net.counted == {}
    && net.waiters == map[] && net.confirmed == {}
  }

  ghost predicate IsRun(net: Net, events: seq<Event>)
    decreases |events|
  {
    events != [] ==> Enabled(net, events[0]) && IsRun(Next(net, events[0]), events[1..])
  }

  function Run(net: Net, events: seq<Event>): Net
    requires IsRun(net, events)
    decreases |events|
  {
    if events == [] then net else Run(Next(net, events[0]), events[1..])
  }

  // ------------------------------------------------------------------- the invariant

  ghost predicate ReaderGood(net: Net, n: string)
    requires n in net.readers
  {
    Good(net.readers[n]) && AllSourced(net.issued, net.readers[n].delivered)
  }

  /** An ack exists only after its apply. */
  ghost predicate AckGood(net: Net, a: Ack) {
    a in net.acks || a in net.counted ==> a.node in net.readers && Has(net.readers[a.node].delivered, a.lsn)
  }

  ghost predicate AppliedEverywhere(net: Net, lsn: int) {
    forall n :: n in net.readers ==> Has(net.readers[n].delivered, lsn)
  }

  /** What holds however often acks are repeated, as long as confirmations are right. */
  ghost predicate Base(net: Net) {
    && (forall n :: n in net.readers ==> ReaderGood(net, n))
    && (forall a :: AckGood(net, a))
    && (forall lsn :: lsn in net.confirmed ==> AppliedEverywhere(net, lsn))
  }

  /** The readers whose ack for this LSN has arrived. */
  function CountedBy(counted: set<Ack>, lsn: int): set<string> { set a | a in counted && a.lsn == lsn :: a.node }

  ghost predicate WaiterGood(net: Net, lsn: int)
    requires lsn in net.waiters
  {
    && net.waiters[lsn].expected == |net.readers|
    && net.waiters[lsn].received <= |CountedBy(net.counted, lsn)|
  }

  ghost predicate Inv(net: Net) { Base(net) && forall lsn :: lsn in net.waiters ==> WaiterGood(net, lsn) }

  /** A reader moves on without taking anything back; no ack moves. */
  lemma ReaderMoves(net: Net, node: string, r: Reader)
    requires Base(net) && node in net.readers && Good(r)
    requires net.readers[node].delivered <= r.delivered
    requires AllSourced(net.issued, r.delivered)
    ensures Base(net.(readers := net.readers[node := r]))
  {
    hide Good, AllSourced;
    var net' := net.(readers := net.readers[node := r]);
    forall n | n in net'.readers
      ensures ReaderGood(net', n)
    {
      assert ReaderGood(net, n);
    }
    forall a
      ensures AckGood(net', a)
    {
      assert AckGood(net, a);
    }
    forall lsn | lsn in net'.confirmed
      ensures AppliedEverywhere(net', lsn)
    {
      assert AppliedEverywhere(net, lsn);
    }
  }

  lemma {:induction false} SyncedAreSourced(r: Reader, entries: seq<Delta>, issued: map<int, Tx>)
    requires AllSourced(issued, entries) && AllSourced(issued, r.delivered)
    ensures AllSourced(issued, SyncLoop(r, entries).delivered)
    decreases |entries|
  {
    if entries != [] {
      assert Sourced(issued, entries[0]);
      SyncedAreSourced(if entries[0].lsn in r.applied then r else Deliver(r, entries[0]), entries[1..], issued);
    }
  }

  lemma DeltaKeepsBase(net: Net, node: string, lsn: int)
    requires Base(net) && Enabled(net, DeltaArrives(node, lsn))
    ensures Base(Next(net, DeltaArrives(node, lsn)))
  {
    var r, d := net.readers[node], Delta(lsn, net.issued[lsn]);
    assert ReaderGood(net, node);
    DeltaKeepsGood(r, d);
    var mid := net.(readers := net.readers[node := HandleDelta(r, d).0]);
    ReaderMoves(net, node, HandleDelta(r, d).0);
    if HandleDelta(r, d).1 {
      var net' := mid.(acks := mid.acks + multiset{Ack(node, lsn)});
      forall a
        ensures AckGood(net', a)
      {
        assert AckGood(mid, a);
      }
    }
  }

  lemma SyncKeepsBase(net: Net, node: string, entries: seq<Delta>)
    requires Base(net) && Enabled(net, SyncArrives(node, entries))
    ensures Base(Next(net, SyncArrives(node, entries)))
  {
    var r := net.readers[node];
    assert ReaderGood(net, node);
    SyncKeepsGood(r, entries);
    SyncedAreSourced(r, entries, net.issued);
    ReaderMoves(net, node, HandleSync(r, entries));
  }

  /** Readers keep what they have, and acks are in order, when only acks and waiters change. */
  lemma WriterKeepsBase(net: Net, e: Event)
    requires Base(net) && Enabled(net, e) && !e.DeltaArrives? && !e.SyncArrives?
    requires e.AckArrives? && HandleAck(net.waiters, e.ack.lsn).1 ==> AppliedEverywhere(net, e.ack.lsn)
    ensures Base(Next(net, e))
  {
    var net' := Next(net, e);
    forall n | n in net'.readers
      ensures ReaderGood(net', n)
    {
      assert ReaderGood(net, n);
    }
    forall a
      ensures AckGood(net', a)
    {
      assert AckGood(net, a);
    }
    forall lsn | lsn in net'.confirmed
      ensures AppliedEverywhere(net', lsn)
    {
      if lsn in net.confirmed {
        assert AppliedEverywhere(net, lsn);
      }
    }
  }

  /** Every event keeps the base, if the acks that complete a waiter mean what they should. */
  lemma EventKeepsBase(net: Net, e: Event)
    requires Base(net) && Enabled(net, e)
    requires e.AckArrives? && HandleAck(net.waiters, e.ack.lsn).1 ==> AppliedEverywhere(net, e.ack.lsn)
    ensures Base(Next(net, e)) && Next(net, e).readers.Keys == net.readers.Keys
  {
    hide Base;
    match e
    case DeltaArrives(node, lsn) => DeltaKeepsBase(net, node, lsn);
    case SyncArrives(node, entries) => SyncKeepsBase(net, node, entries);
    case _ => WriterKeepsBase(net, e);
  }

  // ------------------------------------------------------ counting each ack once

  lemma SubsetSize(a: set<string>, b: set<string>)
    requires a <= b
    ensures |a| <= |b|
    ensures |a| == |b| ==> a == b
  {
    var rest := b - a;
    assert b == a + rest;
    assert |b| == |a| + |rest|;
  }

  /** As many acks as readers, each from another reader that applied: all applied. */
  lemma EnoughAcks(net: Net, from: set<string>, lsn: int)
    requires Base(net) && |from| >= |net.readers|
    requires forall n :: n in from ==> Ack(n, lsn) in net.acks || Ack(n, lsn) in net.counted
    ensures AppliedEverywhere(net, lsn)
  {
    forall n | n in from
      ensures n in net.readers && Has(net.readers[n].delivered, lsn)
    {
      assert AckGood(net, Ack(n, lsn));
    }
    SubsetSize(from, net.readers.Keys);
    assert |net.readers.Keys| == |net.readers|;
  }

  /** An ack that had not arrived before adds its sender. */
  lemma CountAck(counted: set<Ack>, a: Ack, lsn: int)
    requires a !in counted
    ensures |CountedBy(counted + {a}, lsn)| == |CountedBy(counted, lsn)| + if a.lsn == lsn then 1 else 0
  {
    var before, after := CountedBy(counted, lsn), CountedBy(counted + {a}, lsn);
    if a.lsn == lsn {
      forall b | b in counted && b.lsn == lsn
        ensures b.node != a.node
      {
        assert b != a;
      }
      assert after == before + {a.node};
    } else {
      assert after == before;
    }
  }

  /** Every event keeps the invariant, but for an ack that arrives once more. */
  lemma EventKeepsInv(net: Net, e: Event)
    requires Inv(net) && Enabled(net, e) && (e.AckArrives? ==> e.ack !in net.counted)
    ensures Inv(Next(net, e)) && Next(net, e).readers.Keys == net.readers.Keys
  {
    hide Base, CountedBy;
    if e.AckArrives? {
      CountAck(net.counted, e.ack, e.ack.lsn);
      if HandleAck(net.waiters, e.ack.lsn).1 {
        assert WaiterGood(net, e.ack.lsn);
        CountedSenders(net, e.ack);
        EnoughAcks(net, CountedBy(net.counted + {e.ack}, e.ack.lsn), e.ack.lsn);
      }
    }
    EventKeepsBase(net, e);
    var net' := Next(net, e);
    assert |net'.readers.Keys| == |net'.readers| && |net.readers.Keys| == |net.readers|;
    forall lsn | lsn in net'.waiters
      ensures WaiterGood(net', lsn)
    {
      if lsn in net.waiters {
        assert WaiterGood(net, lsn);
      }
      if e.AckArrives? {
        CountAck(net.counted, e.ack, lsn);
      }
    }
  }

  lemma CountedSenders(net: Net, a: Ack)
    requires a in net.acks
    ensures forall n :: n in CountedBy(net.counted + {a}, a.lsn) ==> Ack(n, a.lsn) in net.acks || Ack(n, a.lsn) in net.counted
  {
  }

  /** No ack is received twice. */
  ghost predicate NoAckTwice(events: seq<Event>) {
    forall i, j :: 0 <= i < j < |events| && events[i].AckArrives? ==> events[j] != events[i]
  }

  lemma CountedIs(net: Net, e: Event)
    requires Enabled(net, e)
    ensures Next(net, e).counted == net.counted + if e.AckArrives? then {e.ack} else {}
  {
  }

  lemma {:induction false} RunKeepsInv(net: Net, events: seq<Event>)
    requires Inv(net) && IsRun(net, events) && NoAckTwice(events)
    requires forall i :: 0 <= i < |events| && events[i].AckArrives? ==> events[i].ack !in net.counted
    ensures Inv(Run(net, events)) && Run(net, events).readers.Keys == net.readers.Keys
    decreases |events|
  {
    if events != [] {
      var e, rest := events[0], events[1..];
      EventKeepsInv(net, e);
      CountedIs(net, e);
      hide Inv, Enabled, Next;
      forall i | 0 <= i < |rest| && rest[i].AckArrives?
        ensures rest[i].ack !in Next(net, e).counted
      {
        assert rest[i] == events[i + 1];
      }
      RunKeepsInv(Next(net, e), rest);
    }
  }

  lemma InitialIsGood(net: Net)
    requires Initial(net)
    ensures Inv(net)
  {
    forall n | n in net.readers
      ensures ReaderGood(net, n)
    {
    }
  }

  /**
   * In every run in which no ack is received twice, `replicate_tx(lsn)` returning True
   * means every reader has applied exactly the payload broadcast under that LSN, and
   * applied it once.
   */
  lemma ConfirmedMeansApplied(net: Net, events: seq<Event>, lsn: int, node: string)
    requires Initial(net) && IsRun(net, events) && NoAckTwice(events) && node in net.readers
    ensures var end := Run(net, events);
            && node in end.readers
            && AtMostOnce(end.readers[node].delivered)
            && (lsn in end.confirmed ==>
                  lsn in end.issued && Delta(lsn, end.issued[lsn]) in end.readers[node].delivered)
  {
    InitialIsGood(net);
    RunKeepsInv(net, events);
    var end := Run(net, events);
    assert ReaderGood(end, node);
    if lsn in end.confirmed {
      assert AppliedEverywhere(end, lsn);
      var ds := end.readers[node].delivered;
      var i :| 0 <= i < |ds| && ds[i].lsn == lsn;
      assert Sourced(end.issued, ds[i]);
      assert ds[i] == Delta(lsn, end.issued[lsn]);
    }
  }

  // ------------------------------------------------------------ enough acks confirm

  /** A delta that arrives is acked exactly when the reader takes it at once. */
  lemma ArrivalSendsAck(net: Net, node: string, lsn: int)
    requires Enabled(net, DeltaArrives(node, lsn))
    ensures var r := net.readers[node];
            Next(net, DeltaArrives(node, lsn)).acks ==
            if IsNew(r, lsn) && !WaitsFor(r, lsn) then net.acks + multiset{Ack(node, lsn)} else net.acks
  {
    DeltaOutcome(net.readers[node], Delta(lsn, net.issued[lsn]));
    hide HandleDelta;
  }

  /** The readers whose ack for this LSN arrives. */
  function Senders(events: seq<Event>, lsn: int): set<string> {
    set e | e in events && e.AckArrives? && e.ack.lsn == lsn :: e.ack.node
  }

  /** The wait neither times out nor begins anew. */
  predicate Undisturbed(events: seq<Event>, lsn: int) { Timeout(lsn) !in events && Await(lsn) !in events }

  lemma SendersCons(e: Event, rest: seq<Event>, lsn: int)
    ensures Senders([e] + rest, lsn) ==
            Senders(rest, lsn) + if e.AckArrives? && e.ack.lsn == lsn then {e.ack.node} else {}
  {
  }

  lemma {:induction false} ConfirmedStays(net: Net, events: seq<Event>, lsn: int)
    requires IsRun(net, events) && lsn in net.confirmed
    ensures lsn in Run(net, events).confirmed
    decreases |events|
  {
    if events != [] {
      ConfirmedStays(Next(net, events[0]), events[1..], lsn);
    }
  }

  lemma WaitGoesOn(net: Net, e: Event, lsn: int)
    requires Enabled(net, e) && lsn in net.waiters && e != Timeout(lsn) && e != Await(lsn)
    ensures var net' := Next(net, e);
            if e.AckArrives? && e.ack.lsn == lsn then
              if net.waiters[lsn].received + 1 >= net.waiters[lsn].expected then lsn in net'.confirmed
              else lsn in net'.waiters && net'.waiters[lsn] == Waiter(net.waiters[lsn].expected, net.waiters[lsn].received + 1)
            else lsn in net'.waiters && net'.waiters[lsn] == net.waiters[lsn]
  {
  }

  lemma {:induction false} WaiterFills(net: Net, events: seq<Event>, lsn: int)
    requires IsRun(net, events) && Undisturbed(events, lsn) && lsn in net.waiters
    requires net.waiters[lsn].received < net.waiters[lsn].expected
    requires net.waiters[lsn].received + |Senders(events, lsn)| >= net.waiters[lsn].expected
    ensures lsn in Run(net, events).confirmed
    decreases |events|
  {
    if events != [] {
      var e, rest := events[0], events[1..];
      assert events == [e] + rest;
      SendersCons(e, rest, lsn);
      WaitGoesOn(net, e, lsn);
      hide Senders, Next, Enabled;
      if lsn in Next(net, e).confirmed {
        ConfirmedStays(Next(net, e), rest, lsn);
      } else {
        WaiterFills(Next(net, e), rest, lsn);
      }
    }
  }

  /**
   * Whatever else happens in between: when the acks of all readers arrive after the
   * wait has begun and before it times out, `replicate_tx` returns True.
   */
  lemma AllAcksConfirm(net: Net, events: seq<Event>, lsn: int)
    requires IsRun(net, [Await(lsn)] + events) && Undisturbed(events, lsn)
    requires net.readers.Keys <= Senders(events, lsn)
    ensures lsn in Run(net, [Await(lsn)] + events).confirmed
  {
    var net' := Next(net, Await(lsn));
    assert ([Await(lsn)] + events)[1..] == events;
    if |net.readers| == 0 {
      ConfirmedStays(net', events, lsn);
    } else {
      SubsetSize(net.readers.Keys, Senders(events, lsn));
      assert |net.readers.Keys| == |net.readers|;
      WaiterFills(net', events, lsn);
    }
  }

  // -------------------------------------------------------------- repeated acks

  /** With one reader at most, an ack means all readers applied, however often it comes. */
  lemma {:induction false} FewReadersKeepBase(net: Net, events: seq<Event>)
    requires Base(net) && IsRun(net, events) && |net.readers| <= 1
    ensures Base(Run(net, events))
    decreases |events|
  {
    if events != [] {
      var e := events[0];
      if e.AckArrives? {
        EnoughAcks(net, {e.ack.node}, e.ack.lsn);
      }
      EventKeepsBase(net, e);
      var net' := Next(net, e);
      assert |net'.readers.Keys| == |net'.readers| && |net.readers.Keys| == |net.readers|;
      FewReadersKeepBase(net', events[1..]);
    }
  }

  /** The one ack of one reader, again and again, until the waiter has enough. */
  lemma {:induction false} RepeatUntilDone(net: Net, a: Ack) returns (events: seq<Event>)
    requires a in net.acks && a.lsn in net.waiters && net.waiters[a.lsn].received < net.waiters[a.lsn].expected
    ensures IsRun(net, events)
    ensures a.lsn in Run(net, events).confirmed && Run(net, events).readers == net.readers
    decreases net.waiters[a.lsn].expected - net.waiters[a.lsn].received
  {
    var again, arrives := AckRepeated(a), AckArrives(a);
    var mid := Next(net, again);
    var end := Next(mid, arrives);
    var rest: seq<Event> := [];
    if a.lsn in end.waiters {
      rest := RepeatUntilDone(end, a);
    }
    assert a.lsn in Run(end, rest).confirmed && Run(end, rest).readers == net.readers;
    hide Next;
    RunStep(mid, arrives, rest);
    RunStep(net, again, [arrives] + rest);
    events := [again] + ([arrives] + rest);
  }

  /** Two readers: one applies, its ack is repeated, and the transaction counts as replicated. */
  lemma RepeatedAckConfirmsEarly(net: Net) returns (events: seq<Event>)
    requires Initial(net) && |net.readers| >= 2
    ensures IsRun(net, events)
    ensures 1 in Run(net, events).confirmed && !AppliedEverywhere(Run(net, events), 1)
  {
    var a :| a in net.readers;
    var others := net.readers.Keys - {a};
    assert net.readers.Keys == others + {a} && |net.readers.Keys| == |net.readers|;
    var b :| b in others;
    var issue, wait, arrive := Broadcast(1, "x"), Await(1), DeltaArrives(a, 1);
    var n1 := Next(net, issue);
    var n2 := Next(n1, wait);
    FirstDeltaIsAcked("x");
    var n3 := Next(n2, arrive);
    assert n3.acks == multiset{Ack(a, 1)};
    var rest := RepeatUntilDone(n3, Ack(a, 1));
    events := [issue] + ([wait] + ([arrive] + rest));
    hide Next, Enabled, HandleDelta;
    RunStep(n2, arrive, rest);
    RunStep(n1, wait, [arrive] + rest);
    RunStep(net, issue, [wait] + ([arrive] + rest));
    assert Run(net, events).readers[b] == FRESH;
  }

  lemma FirstDeltaIsAcked(tx: Tx)
    ensures HandleDelta(FRESH, Delta(1, tx)).1
  {
  }

  lemma RunStep(net: Net, e: Event, rest: seq<Event>)
    requires Enabled(net, e) && IsRun(Next(net, e), rest)
    ensures IsRun(net, [e] + rest) && Run(net, [e] + rest) == Run(Next(net, e), rest)
  {
    assert ([e] + rest)[1..] == rest;
  }

  /** Whatever happens, what `replicate_tx` confirmed has been applied everywhere. */
  ghost predicate AlwaysApplied(net: Net) {
    forall events, lsn :: IsRun(net, events) && lsn in Run(net, events).confirmed ==> AppliedEverywhere(Run(net, events), lsn)
  }

  /**
   * If acks can be received twice, confirmation means application everywhere if and
   * only if there is at most one reader: the counter does not ask who sent an ack.
   */
  lemma RepeatedAcksAreSafeIff(net: Net)
    requires Initial(net)
    ensures AlwaysApplied(net) <==> |net.readers| <= 1
  {
    if |net.readers| <= 1 {
      InitialIsGood(net);
      forall events, lsn | IsRun(net, events) && lsn in Run(net, events).confirmed
        ensures AppliedEverywhere(Run(net, events), lsn)
      {
        FewReadersKeepBase(net, events);
      }
    } else {
      var events := RepeatedAckConfirmsEarly(net);
    }
  }
}
