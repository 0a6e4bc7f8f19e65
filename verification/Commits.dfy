/**
 * Concurrent commits (core/coordinator.py:114-184): the lock, apply, append and
 * release steps of many submits, interleaved in any order over one write node, one
 * lock manager and one log.
 */
module Commits {
  import opened Wrappers
  import opened CellIds
  import opened Store
  import opened CellWrites
  import opened Transactions
  import opened Locks
  import opened Wal

  /** A cell write as submitted and logged: its cell is a text. */
  datatype Write = Write(id: string, oldValue: Value, newValue: Value)

  function Ids(ws: seq<Write>): seq<string> { seq(|ws|, i requires 0 <= i < |ws| => ws[i].id) }

  predicate Parses(ws: seq<Write>) { forall w :: w in ws ==> Parse(w.id).Some? }

  function ToCell(w: Write): CellOp
    requires Parse(w.id).Some?
  {
    CellOp(Parse(w.id).value, w.oldValue, w.newValue)
  }

  /** The writes by cell; none of them when a text is no cell id. */
  function ToCells(ws: seq<Write>): (ops: seq<CellOp>)
    ensures |ops| == if Parses(ws) then |ws| else 0
  {
    if Parses(ws) then seq(|ws|, i requires 0 <= i < |ws| => ToCell(ws[i])) else []
  }

  /** Where a submit is: nothing done, cells locked, written, refused, logged, finished. */
  datatype Phase = Waiting | Holding | Written | Refused | Logged | Done

  datatype Submit = Submit(writes: seq<Write>, phase: Phase)

  datatype System = System(node: Node, owners: Owners, log: seq<Entry<Write>>, txs: map<string, Submit>)

  /** One atomic step of one of the threads. */
  datatype Event =
    | Begin(tx: string, writes: seq<Write>)
    | Acquire(tx: string)
    | Perform(tx: string)
    | Append(tx: string)
    | Release(tx: string)

  /** `write_node.apply`, with a ValueError for a text that is no cell id. */
  function Applied(n: Node, ws: seq<Write>): Progress
    requires Shaped(n)
  {
    if Parses(ws) then Apply(n, ToCells(ws)) else Progress(n, false)
  }

  predicate At(s: System, tx: string, p: Phase) { tx in s.txs && s.txs[tx].phase == p }

  function To(s: System, tx: string, p: Phase): System
    requires tx in s.txs
  {
    s.(txs := s.txs[tx := s.txs[tx].(phase := p)])
  }

  /** Two different texts of one cell: they are locked apart and written together. */
  predicate Aliases(a: string, b: string) {
    a != b && Parse(a).Some? && Parse(a).value.Cell? && Parse(b) == Parse(a)
  }

  ghost predicate Unambiguous(texts: iset<string>) {
    forall a, b :: a in texts && b in texts ==> !Aliases(a, b)
  }

  predicate Uses(ws: seq<Write>, id: string) { exists i :: 0 <= i < |ws| && ws[i].id == id }

  /** The texts in the writes of all submits. */
  ghost function Texts(s: System): iset<string> {
    iset tx, w | tx in s.txs && w in s.txs[tx].writes :: w.id
  }

  /** If the write step is refused, it leaves nothing behind in a new column. */
  ghost predicate CleanStep(s: System, e: Event) {
    e.Perform? && At(s, e.tx, Holding) && Shaped(s.node) && !Applied(s.node, s.txs[e.tx].writes).ok ==>
      LeavesNothing(s.node, ToCells(s.txs[e.tx].writes))
  }

  ghost predicate Step(s: System, e: Event, t: System) {
    match e
    case Begin(tx, writes) =>
      tx !in s.txs && t == s.(txs := s.txs[tx := Submit(writes, Waiting)])
    case Acquire(tx) =>
      && At(s, tx, Waiting)
      && t == if Free(s.owners, tx, Ids(s.txs[tx].writes))
              then To(s, tx, Holding).(owners := Granted(s.owners, tx, Ids(s.txs[tx].writes)))
              else To(s, tx, Refused)
    case Perform(tx) =>
      && At(s, tx, Holding) && Shaped(s.node)
      && var p := Applied(s.node, s.txs[tx].writes);
         t == To(s, tx, if p.ok then Written else Refused).(node := p.node)
    case Append(tx) =>
      && (At(s, tx, Written) || At(s, tx, Refused))
      && t == To(s, tx, Logged).(log := s.log + [Entry(|s.log| + 1, tx, s.txs[tx].writes,
                                                       if At(s, tx, Written) then COMMITTED else ROLLED_BACK)])
    case Release(tx) =>
      At(s, tx, Logged) && t == To(s, tx, Done).(owners := Released(s.owners, tx))
  }

  ghost predicate Run(n: Node, ss: seq<System>, es: seq<Event>) {
    && |ss| == |es| + 1 && ss[0] == System(n, map[], [], map[])
    && (forall i :: 0 <= i < |es| ==> Step(ss[i], es[i], ss[i + 1]))
    && (forall i :: 0 <= i < |es| ==> CleanStep(ss[i], es[i]))
  }

  /** Every write submitted in the run names its cell by one of the texts. */
  ghost predicate Over(es: seq<Event>, texts: iset<string>) {
    forall i, w :: 0 <= i < |es| && es[i].Begin? && w in es[i].writes ==> w.id in texts
  }

  /** The committed writes of the log, in order. */
  function History(log: seq<Entry<Write>>): seq<CellOp>
    decreases |log|
  {
    if log == [] then []
    else History(log[..|log| - 1]) + EntryOps(log[|log| - 1])
  }

  function EntryOps(e: Entry<Write>): seq<CellOp> {
    if e.state in {COMMITTED, SYNCED} then ToCells(e.ops) else []
  }

  // ------------------------------------------------------------------ histories

  /** Some write of `ops` is to the cell. */
  predicate Hits(ops: seq<CellOp>, c: Column, r: nat) { exists i :: 0 <= i < |ops| && ops[i].ref == Cell(c, r) }

  /** Every write finds the value it expects, when `ops` follows the history `hist`. */
  ghost predicate Expected(n: Node, hist: seq<CellOp>, ops: seq<CellOp>) {
    forall i :: 0 <= i < |ops| && ops[i].ref.Cell? ==>
      ops[i].oldValue == ValueAt(n, hist + ops[..i], ops[i].ref.col, ops[i].ref.row)
  }

  /** The log is a serial history: each committed transaction saw exactly what the log before it says. */
  ghost predicate Serial(n: Node, log: seq<Entry<Write>>) {
    forall i :: 0 <= i < |log| ==> Expected(n, History(log[..i]), EntryOps(log[i]))
  }

  lemma LastWriteIffHit(ops: seq<CellOp>, c: Column, r: nat)
    ensures LastWrite(ops, c, r).Some? <==> Hits(ops, c, r)
  {
    LastWriteStands(ops, c, r);
  }

  lemma {:induction false} LastWriteOfConcat(a: seq<CellOp>, b: seq<CellOp>, c: Column, r: nat)
    ensures LastWrite(a + b, c, r) == if LastWrite(b, c, r).Some? then LastWrite(b, c, r) else LastWrite(a, c, r)
    decreases |b|
  {
    if b == [] {
      assert a + b == a;
    } else {
      var k := |b| - 1;
      assert (a + b)[..|a| + k] == a + b[..k];
      LastWriteOfConcat(a, b[..k], c, r);
    }
  }

  lemma ValueAfter(n: Node, a: seq<CellOp>, b: seq<CellOp>, c: Column, r: nat)
    ensures ValueAt(n, a + b, c, r) == if LastWrite(b, c, r).Some? then LastWrite(b, c, r).value else ValueAt(n, a, c, r)
  {
    LastWriteOfConcat(a, b, c, r);
  }

  // ------------------------------------------------------------------ invariant

  function OpsOf(s: System, tx: string): seq<CellOp> { if tx in s.txs then ToCells(s.txs[tx].writes) else [] }

  ghost predicate InFlight(s: System, tx: string) { At(s, tx, Holding) || At(s, tx, Written) }

  ghost predicate HoldsAll(s: System, tx: string)
    requires tx in s.txs
  {
    forall w :: w in s.txs[tx].writes ==> w.id in s.owners && s.owners[w.id] == tx
  }

  /** No cell has two names, and an in-flight transaction owns its cells. */
  ghost predicate Guarded(s: System) {
    && Unambiguous(Texts(s))
    && (forall tx :: InFlight(s, tx) ==> HoldsAll(s, tx))
  }

  /** No transaction that was written but not logged wrote to the cell. */
  ghost predicate Settled(s: System, c: Column, r: nat) {
    forall tx :: At(s, tx, Written) ==> !Hits(OpsOf(s, tx), c, r)
  }

  /** The log, and the transactions not logged yet, explain every cell. */
  ghost predicate Explained(n: Node, s: System) {
    && (forall c, r: nat :: Settled(s, c, r) ==> Read(s.node, c, r) == ValueAt(n, History(s.log), c, r))
    && (forall tx, c, r: nat :: At(s, tx, Written) && Hits(OpsOf(s, tx), c, r) ==>
          LastWrite(OpsOf(s, tx), c, r) == Some(Read(s.node, c, r)))
    && (forall tx :: At(s, tx, Written) ==> Expected(n, History(s.log), OpsOf(s, tx)))
  }

  ghost predicate Inv(n: Node, s: System) {
    && Shaped(s.node) && Guarded(s) && Explained(n, s) && Serial(n, s.log)
  }

  /** A hit cell is held, under the text the transaction gave for it. */
  lemma HitIsHeld(s: System, tx: string, c: Column, r: nat) returns (id: string)
    requires Guarded(s) && InFlight(s, tx) && Hits(OpsOf(s, tx), c, r)
    ensures id in s.owners && s.owners[id] == tx && Parse(id) == Some(Cell(c, r)) && id in Texts(s)
  {
    hide Unambiguous, Parse;
    var ws := s.txs[tx].writes;
    var i :| 0 <= i < |ws| && OpsOf(s, tx)[i].ref == Cell(c, r);
    assert HoldsAll(s, tx) && ws[i] in ws;
    id := ws[i].id;
  }

  lemma OneText(s: System, a: string, b: string)
    requires Guarded(s) && a in Texts(s) && b in Texts(s) && Parse(a) == Parse(b)
    requires Parse(a).Some? && Parse(a).value.Cell?
    ensures a == b
  {
    hide Parse, Texts;
    assert !Aliases(a, b);
  }

  /** Two in-flight transactions never write the same cell. */
  lemma InFlightExclusive(s: System, a: string, b: string, c: Column, r: nat)
    requires Guarded(s) && InFlight(s, a) && InFlight(s, b) && a != b
    ensures !(Hits(OpsOf(s, a), c, r) && Hits(OpsOf(s, b), c, r))
  {
    hide Parse, Hits, Texts, HoldsAll, InFlight, OpsOf;
    if Hits(OpsOf(s, a), c, r) && Hits(OpsOf(s, b), c, r) {
      var x := HitIsHeld(s, a, c, r);
      var y := HitIsHeld(s, b, c, r);
      OneText(s, x, y);
    }
  }

  // ---------------------------------------------------------------------- steps

  /** Only a begin step adds texts. */
  lemma StepKeepsTexts(s: System, e: Event, t: System)
    requires Step(s, e, t)
    ensures Texts(t) == if e.Begin? then Texts(s) + (iset w | w in e.writes :: w.id) else Texts(s)
  {
    if e.Begin? {
      assert forall tx :: tx in t.txs ==> t.txs[tx].writes == if tx == e.tx then e.writes else s.txs[tx].writes;
    } else {
      assert t.txs.Keys == s.txs.Keys;
      assert forall tx :: tx in s.txs ==> t.txs[tx].writes == s.txs[tx].writes;
    }
  }

  /** Neither the node nor the log changed, and the same transactions are written but not logged. */
  ghost predicate SameWritten(s: System, t: System) {
    && t.node == s.node && t.log == s.log
    && (forall tx :: At(s, tx, Written) <==> At(t, tx, Written))
    && (forall tx :: tx in s.txs ==> tx in t.txs && t.txs[tx].writes == s.txs[tx].writes)
  }

  lemma SameWrittenKeeps(n: Node, s: System, t: System)
    requires Inv(n, s) && SameWritten(s, t) && Guarded(t)
    ensures Inv(n, t)
  {
    hide Serial, Expected, History, ValueAt, LastWrite, Hits, Guarded;
    assert forall tx :: At(s, tx, Written) ==> OpsOf(t, tx) == OpsOf(s, tx);
    forall c, r: nat | Settled(t, c, r)
      ensures Read(t.node, c, r) == ValueAt(n, History(t.log), c, r)
    {
      assert Settled(s, c, r);
    }
  }

  lemma BeginKeeps(n: Node, s: System, tx: string, ws: seq<Write>, t: System)
    requires Inv(n, s) && Step(s, Begin(tx, ws), t) && Unambiguous(Texts(t))
    ensures Inv(n, t)
  {
    hide Explained, Serial, Unambiguous, Texts;
    forall u | InFlight(t, u)
      ensures HoldsAll(t, u)
    {
      assert InFlight(s, u) && HoldsAll(s, u);
    }
    SameWrittenKeeps(n, s, t);
  }

  /** A grant gives the transaction its cells and takes nobody else's. */
  lemma GrantGives(owners: Owners, tx: string, ws: seq<Write>)
    requires Free(owners, tx, Ids(ws))
    ensures forall w :: w in ws ==> w.id in Granted(owners, tx, Ids(ws)) && Granted(owners, tx, Ids(ws))[w.id] == tx
    ensures forall id :: id in owners ==> id in Granted(owners, tx, Ids(ws))
    ensures forall id :: id in owners && owners[id] != tx ==> Granted(owners, tx, Ids(ws))[id] == owners[id]
  {
    forall w | w in ws
      ensures w.id in Ids(ws)
    {
      var i :| 0 <= i < |ws| && ws[i] == w;
      assert Ids(ws)[i] == w.id;
    }
  }

  lemma AcquireGuarded(s: System, tx: string, t: System)
    requires Guarded(s) && Step(s, Acquire(tx), t)
    ensures Guarded(t)
  {
    hide Unambiguous, Texts, Granted, Free, Ids;
    StepKeepsTexts(s, Acquire(tx), t);
    var ws := s.txs[tx].writes;
    if Free(s.owners, tx, Ids(ws)) {
      GrantGives(s.owners, tx, ws);
    }
    forall u | InFlight(t, u)
      ensures HoldsAll(t, u)
    {
      if u != tx {
        assert InFlight(s, u) && HoldsAll(s, u);
      }
    }
  }

  lemma AcquireKeeps(n: Node, s: System, tx: string, t: System)
    requires Inv(n, s) && Step(s, Acquire(tx), t)
    ensures Inv(n, t)
  {
    hide Step, Explained, Serial, Guarded, Shaped, SameWritten;
    AcquireGuarded(s, tx, t);
    LocksOnly(s, Acquire(tx), t);
    SameWrittenKeeps(n, s, t);
  }

  /** These steps change locks and phases only, and no phase from or to Written. */
  lemma LocksOnly(s: System, e: Event, t: System)
    requires Step(s, e, t) && (e.Begin? || e.Acquire? || e.Release?)
    ensures SameWritten(s, t)
  {
    hide Granted, Free, Released;
  }

  lemma ReleaseKeeps(n: Node, s: System, tx: string, t: System)
    requires Inv(n, s) && Step(s, Release(tx), t)
    ensures Inv(n, t)
  {
    hide Explained, Serial, Unambiguous, Texts;
    StepKeepsTexts(s, Release(tx), t);
    forall u | InFlight(t, u)
      ensures HoldsAll(t, u)
    {
      assert u != tx && InFlight(s, u) && HoldsAll(s, u);
    }
    SameWrittenKeeps(n, s, t);
  }

  /** A refused transaction that leaves nothing behind leaves every cell as it was. */
  lemma RefusedChangesNothing(s: System, tx: string)
    requires Guarded(s) && Shaped(s.node) && tx in s.txs && !Applied(s.node, s.txs[tx].writes).ok
    requires LeavesNothing(s.node, OpsOf(s, tx))
    ensures Shaped(Applied(s.node, s.txs[tx].writes).node)
    ensures forall c, r: nat :: Read(Applied(s.node, s.txs[tx].writes).node, c, r) == Read(s.node, c, r)
  {
    var ops := OpsOf(s, tx);
    if Parses(s.txs[tx].writes) {
      ApplyShaped(s.node, ops);
      hide Apply, Read, LeavesNothing;
      forall c, r: nat
        ensures Read(Apply(s.node, ops).node, c, r) == Read(s.node, c, r)
      {
        NothingLeftReads(s.node, ops, c, r);
      }
    }
  }

  lemma SameReadsKeep(n: Node, s: System, t: System)
    requires Inv(n, s) && SameWritten(s.(node := t.node), t) && Guarded(t)
    requires Shaped(t.node)
    requires forall c, r: nat :: Read(t.node, c, r) == Read(s.node, c, r)
    ensures Inv(n, t)
  {
    hide Serial, Expected, History, ValueAt, LastWrite, Hits, Guarded, Read;
    assert forall tx :: At(s, tx, Written) ==> OpsOf(t, tx) == OpsOf(s, tx);
    forall c, r: nat | Settled(t, c, r)
      ensures Read(t.node, c, r) == ValueAt(n, History(t.log), c, r)
    {
      assert Settled(s, c, r);
    }
  }

  lemma RefuseKeeps(n: Node, s: System, tx: string, t: System)
    requires Inv(n, s) && Step(s, Perform(tx), t) && !Applied(s.node, s.txs[tx].writes).ok
    requires CleanStep(s, Perform(tx))
    ensures Inv(n, t)
  {
    hide Explained, Serial, Unambiguous, Texts, Applied, Shaped, Read, Parses;
    RefusedChangesNothing(s, tx);
    PerformGuarded(s, tx, t);
    SameReadsKeep(n, s, t);
  }

  /** What an accepted write step does to the cells and what it found there. */
  lemma WrittenReads(s: System, tx: string, c: Column, r: nat)
    requires Guarded(s) && Shaped(s.node) && tx in s.txs
    requires Applied(s.node, s.txs[tx].writes).ok
    ensures var m := Applied(s.node, s.txs[tx].writes).node;
            && Shaped(m) && Read(m, c, r) == ValueAt(s.node, OpsOf(s, tx), c, r)
            && Expected(s.node, [], OpsOf(s, tx))
  {
    hide Parses, ToCells, Shaped, Read, ValueAt, Apply, Guarded, Expected;
    var ops := OpsOf(s, tx);
    ApplyShaped(s.node, ops);
    AcceptedWrites(s.node, ops, c, r);
    AcceptedExpected(s.node, ops);
  }

  lemma AcceptedExpected(n: Node, ops: seq<CellOp>)
    requires Shaped(n) && Apply(n, ops).ok
    ensures Expected(n, [], ops)
  {
    hide ValueAt, Apply;
    ApplyAcceptsIff(n, ops);
    forall i | 0 <= i < |ops|
      ensures [] + ops[..i] == ops[..i] && Passes(n, ops, i)
    {
    }
  }

  /** The two facts about a written but not logged transaction that a step has to keep. */
  ghost predicate Pending(n: Node, s: System, tx: string) {
    && (forall c, r: nat :: Hits(OpsOf(s, tx), c, r) ==> LastWrite(OpsOf(s, tx), c, r) == Some(Read(s.node, c, r)))
    && Expected(n, History(s.log), OpsOf(s, tx))
  }

  lemma ExplainedIs(n: Node, s: System)
    ensures Explained(n, s) <==>
            && (forall c, r: nat :: Settled(s, c, r) ==> Read(s.node, c, r) == ValueAt(n, History(s.log), c, r))
            && (forall tx :: At(s, tx, Written) ==> Pending(n, s, tx))
  {
    hide Settled, Expected, History, ValueAt, Hits, LastWrite;
  }

  /** The values a transaction finds are those of the log, as nobody else has its cells. */
  lemma ExpectedFromLog(n: Node, s: System, tx: string)
    requires Inv(n, s) && At(s, tx, Holding) && Expected(s.node, [], OpsOf(s, tx))
    ensures Expected(n, History(s.log), OpsOf(s, tx))
  {
    hide Serial, History, Guarded, Read, Shaped;
    var ops, hist := OpsOf(s, tx), History(s.log);
    forall i | 0 <= i < |ops| && ops[i].ref.Cell?
      ensures ops[i].oldValue == ValueAt(n, hist + ops[..i], ops[i].ref.col, ops[i].ref.row)
    {
      var c, r := ops[i].ref.col, ops[i].ref.row;
      assert [] + ops[..i] == ops[..i];
      ValueAfter(n, hist, ops[..i], c, r);
      HeldIsSettled(s, tx, c, r);
    }
  }

  lemma HeldIsSettled(s: System, tx: string, c: Column, r: nat)
    requires Guarded(s) && At(s, tx, Holding) && Hits(OpsOf(s, tx), c, r)
    ensures Settled(s, c, r)
  {
    hide Guarded, Hits;
    forall u | At(s, u, Written)
      ensures !Hits(OpsOf(s, u), c, r)
    {
      InFlightExclusive(s, tx, u, c, r);
    }
  }

  lemma PerformedPending(n: Node, s: System, tx: string, t: System, u: string)
    requires Inv(n, s) && Step(s, Perform(tx), t) && Applied(s.node, s.txs[tx].writes).ok && At(t, u, Written)
    ensures Pending(n, t, u)
  {
    hide Applied, Guarded, Explained, Serial, Shaped, Read, History, LastWrite, Hits, Expected;
    ExplainedIs(n, s);
    WrittenReads(s, tx, Plain(""), 0);
    if u == tx {
      assert OpsOf(t, tx) == OpsOf(s, tx);
      forall c, r: nat | Hits(OpsOf(t, tx), c, r)
        ensures LastWrite(OpsOf(t, tx), c, r) == Some(Read(t.node, c, r))
      {
        WrittenReads(s, tx, c, r);
        LastWriteIffHit(OpsOf(s, tx), c, r);
      }
      ExpectedFromLog(n, s, tx);
    } else {
      assert At(s, u, Written) && OpsOf(t, u) == OpsOf(s, u) && Pending(n, s, u);
      forall c, r: nat | Hits(OpsOf(t, u), c, r)
        ensures LastWrite(OpsOf(t, u), c, r) == Some(Read(t.node, c, r))
      {
        WrittenReads(s, tx, c, r);
        InFlightExclusive(s, tx, u, c, r);
        LastWriteIffHit(OpsOf(s, tx), c, r);
      }
    }
  }

  lemma PerformGuarded(s: System, tx: string, t: System)
    requires Guarded(s) && Step(s, Perform(tx), t)
    ensures Guarded(t)
  {
    hide Unambiguous, Texts, Applied, Parses;
    StepKeepsTexts(s, Perform(tx), t);
    forall u | InFlight(t, u)
      ensures HoldsAll(t, u)
    {
      assert InFlight(s, u) && HoldsAll(s, u);
    }
  }

  lemma PerformedReads(n: Node, s: System, tx: string, t: System, c: Column, r: nat)
    requires Inv(n, s) && Step(s, Perform(tx), t) && Applied(s.node, s.txs[tx].writes).ok && Settled(t, c, r)
    ensures Read(t.node, c, r) == ValueAt(n, History(t.log), c, r)
  {
    hide Applied, Guarded, Serial, Shaped, Read, History, LastWrite, Hits, Expected;
    WrittenReads(s, tx, c, r);
    LastWriteIffHit(OpsOf(s, tx), c, r);
    assert At(t, tx, Written) && OpsOf(t, tx) == OpsOf(s, tx);
    forall u | At(s, u, Written)
      ensures !Hits(OpsOf(s, u), c, r)
    {
      assert At(t, u, Written) && OpsOf(t, u) == OpsOf(s, u);
    }
    assert Settled(s, c, r);
  }

  lemma PerformKeeps(n: Node, s: System, tx: string, t: System)
    requires Inv(n, s) && Step(s, Perform(tx), t) && Applied(s.node, s.txs[tx].writes).ok
    ensures Inv(n, t)
  {
    hide Applied, Guarded, Serial, Shaped, Read, History, LastWrite, Hits, Pending, Settled, ValueAt, Explained, Expected;
    PerformGuarded(s, tx, t);
    WrittenReads(s, tx, Plain(""), 0);
    forall u | At(t, u, Written)
      ensures Pending(n, t, u)
    {
      PerformedPending(n, s, tx, t, u);
    }
    forall c, r: nat | Settled(t, c, r)
      ensures Read(t.node, c, r) == ValueAt(n, History(t.log), c, r)
    {
      PerformedReads(n, s, tx, t, c, r);
    }
    ExplainedIs(n, t);
  }

  /** Appending an entry keeps the history serial when its values were expected. */
  lemma SerialSnoc(n: Node, log: seq<Entry<Write>>, e: Entry<Write>)
    requires Serial(n, log) && Expected(n, History(log), EntryOps(e))
    ensures Serial(n, log + [e])
  {
    hide Expected, History;
    var all := log + [e];
    forall i | 0 <= i < |all|
      ensures Expected(n, History(all[..i]), EntryOps(all[i]))
    {
      assert all[..i] == log[..i];
      assert i == |log| ==> log[..i] == log;
    }
  }

  lemma AppendGuarded(s: System, tx: string, t: System)
    requires Guarded(s) && Step(s, Append(tx), t)
    ensures Guarded(t)
  {
    hide Unambiguous, Texts;
    StepKeepsTexts(s, Append(tx), t);
    forall u | InFlight(t, u)
      ensures HoldsAll(t, u)
    {
      assert InFlight(s, u) && HoldsAll(s, u);
    }
  }

  /** The log after an append step: longer by the transaction's writes, if they were carried out. */
  lemma AppendIs(n: Node, s: System, tx: string, t: System)
    requires Serial(n, s.log) && Step(s, Append(tx), t)
    requires At(s, tx, Written) ==> Expected(n, History(s.log), OpsOf(s, tx))
    ensures t.node == s.node && t.owners == s.owners && Serial(n, t.log)
    ensures History(t.log) == History(s.log) + if At(s, tx, Written) then OpsOf(s, tx) else []
  {
    var e := AppendedEntry(s, tx, t);
    hide Serial, Expected, History, EntryOps, OpsOf, Step;
    SerialSnoc(n, s.log, e);
  }

  lemma AppendedEntry(s: System, tx: string, t: System) returns (e: Entry<Write>)
    requires Step(s, Append(tx), t)
    ensures t.log == s.log + [e] && t.node == s.node && t.owners == s.owners
    ensures EntryOps(e) == if At(s, tx, Written) then OpsOf(s, tx) else []
  {
    e := Entry(|s.log| + 1, tx, s.txs[tx].writes, if At(s, tx, Written) then COMMITTED else ROLLED_BACK);
  }

  lemma RefusedFrame(s: System, tx: string, t: System)
    requires Step(s, Append(tx), t) && At(s, tx, Refused)
    ensures forall u :: (At(s, u, Written) <==> At(t, u, Written)) && OpsOf(t, u) == OpsOf(s, u)
  {
    hide ToCells;
  }

  lemma RollbackKeeps(n: Node, s: System, tx: string, t: System)
    requires Inv(n, s) && Step(s, Append(tx), t) && At(s, tx, Refused)
    ensures Inv(n, t)
  {
    AppendGuarded(s, tx, t);
    ExplainedIs(n, s);
    RefusedFrame(s, tx, t);
    hide Serial, Expected, History, ValueAt, LastWrite, Hits, Guarded, Read, Shaped, OpsOf, Settled, Explained, Step;
    AppendIs(n, s, tx, t);
    assert History(t.log) == History(s.log);
    forall u | At(t, u, Written)
      ensures Pending(n, t, u)
    {
      assert Pending(n, s, u);
    }
    forall c, r: nat | Settled(t, c, r)
      ensures Read(t.node, c, r) == ValueAt(n, History(t.log), c, r)
    {
    }
    ExplainedIs(n, t);
  }

  lemma ExpectedAfter(n: Node, hist: seq<CellOp>, added: seq<CellOp>, ops: seq<CellOp>)
    requires Expected(n, hist, ops)
    requires forall c, r: nat :: !(Hits(added, c, r) && Hits(ops, c, r))
    ensures Expected(n, hist + added, ops)
  {
    hide Hits, LastWrite;
    forall i | 0 <= i < |ops| && ops[i].ref.Cell?
      ensures ops[i].oldValue == ValueAt(n, (hist + added) + ops[..i], ops[i].ref.col, ops[i].ref.row)
    {
      var c, r := ops[i].ref.col, ops[i].ref.row;
      HitAt(ops, i);
      LastWriteIffHit(added, c, r);
      ValueAfter(n, hist, ops[..i], c, r);
      ValueAfter(n, hist + added, ops[..i], c, r);
      ValueAfter(n, hist, added, c, r);
    }
  }

  lemma HitAt(ops: seq<CellOp>, i: nat)
    requires i < |ops| && ops[i].ref.Cell?
    ensures Hits(ops, ops[i].ref.col, ops[i].ref.row)
  {
  }

  lemma LoggedPending(n: Node, s: System, tx: string, t: System, u: string)
    requires Inv(n, s) && Step(s, Append(tx), t) && At(s, tx, Written) && At(t, u, Written)
    requires History(t.log) == History(s.log) + OpsOf(s, tx)
    ensures Pending(n, t, u)
  {
    hide Guarded, Explained, Serial, Shaped, Read, History, LastWrite, Hits, Expected;
    ExplainedIs(n, s);
    assert u != tx && At(s, u, Written) && OpsOf(t, u) == OpsOf(s, u) && Pending(n, s, u);
    forall c, r: nat
      ensures !(Hits(OpsOf(s, tx), c, r) && Hits(OpsOf(s, u), c, r))
    {
      InFlightExclusive(s, tx, u, c, r);
    }
    ExpectedAfter(n, History(s.log), OpsOf(s, tx), OpsOf(s, u));
  }

  lemma CommitKeeps(n: Node, s: System, tx: string, t: System)
    requires Inv(n, s) && Step(s, Append(tx), t) && At(s, tx, Written)
    ensures Inv(n, t)
  {
    hide Guarded, Serial, Shaped, Read, History, LastWrite, Hits, Pending, Expected, Explained;
    AppendGuarded(s, tx, t);
    ExplainedIs(n, s);
    PendingExpected(n, s, tx);
    AppendIs(n, s, tx, t);
    forall u | At(t, u, Written)
      ensures Pending(n, t, u)
    {
      LoggedPending(n, s, tx, t, u);
    }
    forall c, r: nat | Settled(t, c, r)
      ensures Read(t.node, c, r) == ValueAt(n, History(t.log), c, r)
    {
      LoggedReads(n, s, tx, t, c, r);
    }
    ExplainedIs(n, t);
  }

  lemma PendingExpected(n: Node, s: System, tx: string)
    requires Pending(n, s, tx)
    ensures Expected(n, History(s.log), OpsOf(s, tx))
  {
  }

  lemma LoggedReads(n: Node, s: System, tx: string, t: System, c: Column, r: nat)
    requires Inv(n, s) && Step(s, Append(tx), t) && At(s, tx, Written) && Settled(t, c, r)
    requires History(t.log) == History(s.log) + OpsOf(s, tx)
    ensures Read(t.node, c, r) == ValueAt(n, History(t.log), c, r)
  {
    hide Guarded, Serial, Shaped, Read, History, LastWrite, Hits, Expected;
    ValueAfter(n, History(s.log), OpsOf(s, tx), c, r);
    LastWriteIffHit(OpsOf(s, tx), c, r);
    if !Hits(OpsOf(s, tx), c, r) {
      forall u | At(s, u, Written)
        ensures !Hits(OpsOf(s, u), c, r)
      {
        assert u != tx ==> At(t, u, Written) && OpsOf(t, u) == OpsOf(s, u);
      }
      assert Settled(s, c, r);
    }
  }

  lemma StepKeepsInv(n: Node, s: System, e: Event, t: System)
    requires Inv(n, s) && Step(s, e, t) && Unambiguous(Texts(t)) && CleanStep(s, e)
    ensures Inv(n, t)
  {
    hide Inv, Applied, Unambiguous, Texts, CleanStep;
    match e
    case Begin(tx, ws) => BeginKeeps(n, s, tx, ws, t);
    case Acquire(tx) => AcquireKeeps(n, s, tx, t);
    case Perform(tx) =>
      if Applied(s.node, s.txs[tx].writes).ok {
        PerformKeeps(n, s, tx, t);
      } else {
        RefuseKeeps(n, s, tx, t);
      }
    case Append(tx) =>
      if At(s, tx, Written) {
        CommitKeeps(n, s, tx, t);
      } else {
        RollbackKeeps(n, s, tx, t);
      }
    case Release(tx) => ReleaseKeeps(n, s, tx, t);
  }

  /** A refused transaction that leaves a value behind: no transaction explains that cell. */
  lemma DirtyIsUnexplained(n: Node, s: System, tx: string, t: System)
    requires Inv(n, s) && Step(s, Perform(tx), t) && !Applied(s.node, s.txs[tx].writes).ok
    requires !CleanStep(s, Perform(tx))
    ensures !Explained(n, t)
  {
    var ops := OpsOf(s, tx);
    var i := DirtyCell(s.node, ops);
    var c, r := ops[i].ref.col, ops[i].ref.row;
    HitAt(ops, i);
    HeldIsSettled(s, tx, c, r);
    hide Apply, Read, ValueAt, History, Hits, LeavesNothing;
    forall u | At(t, u, Written)
      ensures !Hits(OpsOf(t, u), c, r)
    {
      assert At(s, u, Written) && OpsOf(t, u) == OpsOf(s, u);
    }
    assert Settled(t, c, r);
    assert Read(t.node, c, r) != ValueAt(n, History(t.log), c, r);
  }

  /**
   * A refused transaction keeps the log in step with the node if and only if it leaves
   * nothing behind: otherwise some cell that nobody is about to log has another value.
   */
  lemma DirtyRefusalIsUnexplained(n: Node, s: System, tx: string, t: System)
    requires Inv(n, s) && Step(s, Perform(tx), t) && !Applied(s.node, s.txs[tx].writes).ok
    ensures Explained(n, t) <==> CleanStep(s, Perform(tx))
  {
    hide CleanStep, Applied, Step, Explained;
    if CleanStep(s, Perform(tx)) {
      RefuseKeeps(n, s, tx, t);
    } else {
      DirtyIsUnexplained(n, s, tx, t);
    }
  }

  /** A transaction on existing columns is clean. */
  lemma ExistingColumnsAreClean(s: System, tx: string)
    requires tx in s.txs && forall i :: 0 <= i < |OpsOf(s, tx)| && OpsOf(s, tx)[i].ref.Cell? ==>
               OpsOf(s, tx)[i].ref.col in s.node.cols
    ensures CleanStep(s, Perform(tx))
  {
    ExistingColumnsLeaveNothing(s.node, OpsOf(s, tx));
  }

  // ----------------------------------------------------------------------- runs

  /** The texts submitted so far are among those of the run. */
  lemma {:induction false} RunTexts(n: Node, texts: iset<string>, ss: seq<System>, es: seq<Event>, k: nat)
    requires Run(n, ss, es) && Over(es, texts) && k <= |es|
    ensures Texts(ss[k]) <= texts
  {
    if k > 0 {
      RunTexts(n, texts, ss, es, k - 1);
      hide Texts, CleanStep;
      assert Step(ss[k - 1], es[k - 1], ss[k]);
      StepKeepsTexts(ss[k - 1], es[k - 1], ss[k]);
    }
  }

  lemma {:induction false} RunKeepsInv(n: Node, texts: iset<string>, ss: seq<System>, es: seq<Event>, k: nat)
    requires Shaped(n) && Run(n, ss, es) && Over(es, texts) && Unambiguous(texts) && k <= |es|
    ensures Inv(n, ss[k])
  {
    hide Texts;
    RunTexts(n, texts, ss, es, k);
    assert Unambiguous(Texts(ss[k]));
    if k == 0 {
      assert History([]) == [];
    } else {
      RunKeepsInv(n, texts, ss, es, k - 1);
      hide Inv, Unambiguous, CleanStep;
      assert Step(ss[k - 1], es[k - 1], ss[k]);
      StepKeepsInv(n, ss[k - 1], es[k - 1], ss[k]);
    }
  }

  /** Nobody holds a text that names the cell. */
  ghost predicate Unheld(s: System, c: Column, r: nat) {
    forall id :: id in s.owners ==> Parse(id) != Some(Cell(c, r))
  }

  /**
   * In every interleaving, every cell that no in-flight transaction holds has the
   * value that the committed entries give it, replayed in log order.
   */
  lemma LogExplainsCells(n: Node, texts: iset<string>, ss: seq<System>, es: seq<Event>, k: nat, c: Column, r: nat)
    requires Shaped(n) && Run(n, ss, es) && Over(es, texts) && Unambiguous(texts)
    requires k <= |es| && Unheld(ss[k], c, r)
    ensures Read(ss[k].node, c, r) == ValueAt(n, History(ss[k].log), c, r)
  {
    RunKeepsInv(n, texts, ss, es, k);
    var s := ss[k];
    hide Run, Shaped, Serial, History, Read, ValueAt, Hits, Parse, Texts, Expected, LastWrite;
    forall tx | At(s, tx, Written)
      ensures !Hits(OpsOf(s, tx), c, r)
    {
      if Hits(OpsOf(s, tx), c, r) {
        var _ := HitIsHeld(s, tx, c, r);
      }
    }
    assert Settled(s, c, r);
  }

  /**
   * Every interleaving is equivalent to running the committed transactions one after
   * the other in log order: each of them saw, in every cell it wrote, the value that
   * the log before it gives.
   */
  lemma CommitsAreSerial(n: Node, texts: iset<string>, ss: seq<System>, es: seq<Event>, k: nat)
    requires Shaped(n) && Run(n, ss, es) && Over(es, texts) && Unambiguous(texts) && k <= |es|
    ensures Serial(n, ss[k].log)
  {
    RunKeepsInv(n, texts, ss, es, k);
  }

  // ------------------------------------------------------------ two texts of one cell

  /** Two transactions, "t" and "u". */
  function Two(node: Node, owners: Owners, log: seq<Entry<Write>>, t: Submit, u: Submit): System {
    System(node, owners, log, map["t" := t, "u" := u])
  }

  lemma TwoMove(s: System, t: Submit, u: Submit, p: Phase)
    requires s.txs == map["t" := t, "u" := u]
    ensures To(s, "t", p) == Two(s.node, s.owners, s.log, t.(phase := p), u)
    ensures To(s, "u", p) == Two(s.node, s.owners, s.log, t, u.(phase := p))
  {
    assert s.txs["t" := t.(phase := p)] == map["t" := t.(phase := p), "u" := u];
    assert s.txs["u" := u.(phase := p)] == map["t" := t, "u" := u.(phase := p)];
  }

  /** The two are begun, locked and written in turn, and logged the other way round. */
  function CrossedEvents(w: seq<Write>, x: seq<Write>): (es: seq<Event>)
    ensures |es| == 10
  {
    [Begin("t", w), Begin("u", x), Acquire("t"), Acquire("u"), Perform("t"), Perform("u"),
     Append("u"), Append("t"), Release("u"), Release("t")]
  }

  /** The states of that run: m after the first write, k after the second. */
  function CrossedStates(n: Node, m: Node, k: Node, w: seq<Write>, x: seq<Write>): (ss: seq<System>)
    ensures |ss| == 11
  {
    var first := Granted(map[], "t", Ids(w));
    var both := Granted(first, "u", Ids(x));
    var u := Entry(1, "u", x, COMMITTED);
    var t := Entry(2, "t", w, COMMITTED);
    [System(n, map[], [], map[]),
     System(n, map[], [], map["t" := Submit(w, Waiting)]),
     Two(n, map[], [], Submit(w, Waiting), Submit(x, Waiting)),
     Two(n, first, [], Submit(w, Holding), Submit(x, Waiting)),
     Two(n, both, [], Submit(w, Holding), Submit(x, Holding)),
     Two(m, both, [], Submit(w, Written), Submit(x, Holding)),
     Two(k, both, [], Submit(w, Written), Submit(x, Written)),
     Two(k, both, [u], Submit(w, Written), Submit(x, Logged)),
     Two(k, both, [u, t], Submit(w, Logged), Submit(x, Logged)),
     Two(k, Released(both, "u"), [u, t], Submit(w, Logged), Submit(x, Done)),
     Two(k, Released(Released(both, "u"), "t"), [u, t], Submit(w, Done), Submit(x, Done))]
  }

  /** Each begins in a system that has only the other, or nobody. */
  lemma TwoBegin(n: Node, w: seq<Write>, x: seq<Write>)
    ensures Step(System(n, map[], [], map[]), Begin("t", w), System(n, map[], [], map["t" := Submit(w, Waiting)]))
    ensures Step(System(n, map[], [], map["t" := Submit(w, Waiting)]), Begin("u", x),
                 Two(n, map[], [], Submit(w, Waiting), Submit(x, Waiting)))
  {
    assert map["t" := Submit(w, Waiting)]["u" := Submit(x, Waiting)] == map["t" := Submit(w, Waiting), "u" := Submit(x, Waiting)];
  }

  lemma CrossedBegins(n: Node, m: Node, k: Node, w: seq<Write>, x: seq<Write>)
    ensures var ss, es := CrossedStates(n, m, k, w, x), CrossedEvents(w, x);
            Step(ss[0], es[0], ss[1]) && Step(ss[1], es[1], ss[2])
  {
    hide Granted, Released, Step;
    TwoBegin(n, w, x);
  }

  /** A step of one of two transactions that goes on to phase p. */
  lemma TwoStep(s: System, e: Event, t: Submit, u: Submit, r: System, p: Phase)
    requires !e.Begin? && e.tx in {"t", "u"} && s.txs == map["t" := t, "u" := u]
    requires Step(s, e, To(s, e.tx, p).(node := r.node, owners := r.owners, log := r.log))
    requires r.txs == if e.tx == "t" then map["t" := t.(phase := p), "u" := u] else map["t" := t, "u" := u.(phase := p)]
    ensures Step(s, e, r)
  {
    hide Step;
    TwoMove(s, t, u, p);
  }

  lemma CrossedLocks(n: Node, m: Node, k: Node, w: seq<Write>, x: seq<Write>)
    requires forall v, y :: v in w && y in x ==> v.id != y.id
    ensures var ss, es := CrossedStates(n, m, k, w, x), CrossedEvents(w, x);
            Step(ss[2], es[2], ss[3]) && Step(ss[3], es[3], ss[4])
  {
    hide Granted, Released;
    var ss, es := CrossedStates(n, m, k, w, x), CrossedEvents(w, x);
    GrantedOnlyTo(w, x);
    TwoStep(ss[2], es[2], ss[2].txs["t"], ss[2].txs["u"], ss[3], Holding);
    TwoStep(ss[3], es[3], ss[3].txs["t"], ss[3].txs["u"], ss[4], Holding);
  }

  lemma CrossedWrites(n: Node, m: Node, k: Node, w: seq<Write>, x: seq<Write>)
    requires Shaped(n) && Shaped(m)
    requires Applied(n, w) == Progress(m, true) && Applied(m, x) == Progress(k, true)
    ensures var ss, es := CrossedStates(n, m, k, w, x), CrossedEvents(w, x);
            Step(ss[4], es[4], ss[5]) && Step(ss[5], es[5], ss[6])
  {
    hide Applied, Shaped, Granted, Released;
    var ss, es := CrossedStates(n, m, k, w, x), CrossedEvents(w, x);
    TwoStep(ss[4], es[4], ss[4].txs["t"], ss[4].txs["u"], ss[5], Written);
    TwoStep(ss[5], es[5], ss[5].txs["t"], ss[5].txs["u"], ss[6], Written);
  }

  lemma CrossedAppends(n: Node, m: Node, k: Node, w: seq<Write>, x: seq<Write>)
    ensures var ss, es := CrossedStates(n, m, k, w, x), CrossedEvents(w, x);
            Step(ss[6], es[6], ss[7]) && Step(ss[7], es[7], ss[8])
  {
    hide Granted, Released;
    var ss, es := CrossedStates(n, m, k, w, x), CrossedEvents(w, x);
    TwoStep(ss[6], es[6], ss[6].txs["t"], ss[6].txs["u"], ss[7], Logged);
    TwoStep(ss[7], es[7], ss[7].txs["t"], ss[7].txs["u"], ss[8], Logged);
  }

  lemma CrossedReleases(n: Node, m: Node, k: Node, w: seq<Write>, x: seq<Write>)
    ensures var ss, es := CrossedStates(n, m, k, w, x), CrossedEvents(w, x);
            Step(ss[8], es[8], ss[9]) && Step(ss[9], es[9], ss[10])
  {
    hide Granted, Released;
    var ss, es := CrossedStates(n, m, k, w, x), CrossedEvents(w, x);
    TwoStep(ss[8], es[8], ss[8].txs["t"], ss[8].txs["u"], ss[9], Done);
    TwoStep(ss[9], es[9], ss[9].txs["t"], ss[9].txs["u"], ss[10], Done);
  }

  lemma CrossedRun(n: Node, m: Node, k: Node, w: seq<Write>, x: seq<Write>)
    requires Shaped(n) && Shaped(m)
    requires Applied(n, w) == Progress(m, true) && Applied(m, x) == Progress(k, true)
    requires forall v, y :: v in w && y in x ==> v.id != y.id
    ensures Run(n, CrossedStates(n, m, k, w, x), CrossedEvents(w, x))
  {
    hide Applied, Shaped, Granted, Released, Step;
    CrossedBegins(n, m, k, w, x);
    CrossedLocks(n, m, k, w, x);
    CrossedWrites(n, m, k, w, x);
    CrossedAppends(n, m, k, w, x);
    CrossedReleases(n, m, k, w, x);
  }

  lemma CrossedOver(w: seq<Write>, x: seq<Write>, texts: iset<string>)
    requires forall v :: v in w || v in x ==> v.id in texts
    ensures Over(CrossedEvents(w, x), texts)
  {
  }

  lemma CrossedEnd(n: Node, m: Node, k: Node, w: seq<Write>, x: seq<Write>)
    requires forall v, y :: v in w && y in x ==> v.id != y.id
    ensures var s := CrossedStates(n, m, k, w, x)[10];
            && s.owners == map[] && s.node == k
            && s.log == [Entry(1, "u", x, COMMITTED), Entry(2, "t", w, COMMITTED)]
  {
    hide Granted, Released;
    GrantedOnlyTo(w, x);
  }

  lemma GrantedOnlyTo(w: seq<Write>, x: seq<Write>)
    requires forall v, y :: v in w && y in x ==> v.id != y.id
    ensures Free(Granted(map[], "t", Ids(w)), "u", Ids(x))
    ensures Released(Released(Granted(Granted(map[], "t", Ids(w)), "u", Ids(x)), "u"), "t") == map[]
  {
    forall id | id in Ids(x)
      ensures id !in Ids(w)
    {
      var j :| 0 <= j < |x| && x[j].id == id;
      assert x[j] in x;
      forall i | 0 <= i < |w|
        ensures w[i].id != id
      {
        assert w[i] in w;
      }
    }
  }

  /**
   * Two texts of one cell, on any node: a complete run of two accepted transactions
   * whose log gives the cell another value than the node, and is not serial.
   */
  lemma AliasesBreakTheLog(n: Node, a: string, b: string) returns (ss: seq<System>, es: seq<Event>)
    requires Shaped(n) && Aliases(a, b)
    ensures Run(n, ss, es) && Over(es, iset{a, b})
    ensures var s, ref := ss[|es|], Parse(a).value;
            && s.owners == map[]
            && Read(s.node, ref.col, ref.row) != ValueAt(n, History(s.log), ref.col, ref.row)
            && !Serial(n, s.log)
  {
    hide Read, Shaped, Parse, Run, Over, Serial, ValueAt, History, CrossedStates, ToCells, Applied;
    var c, r := Parse(a).value.col, Parse(a).value.row;
    var was := Read(n, c, r);
    var mid := if was == Val("x") then Val("y") else Val("x");
    var w, x := [Write(a, was, mid)], [Write(b, mid, Val("z"))];
    var p, q := CellOp(Cell(c, r), was, mid), CellOp(Cell(c, r), mid, Val("z"));
    var m := OneAccepted(n, w, p);
    var k := OneAccepted(m, x, q);
    ss, es := CrossedStates(n, m, k, w, x), CrossedEvents(w, x);
    CrossedRun(n, m, k, w, x);
    CrossedOver(w, x, iset{a, b});
    CrossedEnd(n, m, k, w, x);
    CrossedLog(n, w, x, p, q);
  }

  /** A single write that expects what the cell holds is accepted. */
  lemma OneAccepted(n: Node, ws: seq<Write>, op: CellOp) returns (m: Node)
    requires Shaped(n) && |ws| == 1 && Parse(ws[0].id).Some? && op == ToCell(ws[0]) && op.ref.Cell?
    requires op.oldValue == Read(n, op.ref.col, op.ref.row)
    ensures ToCells(ws) == [op] && Applied(n, ws) == Progress(m, true) && Shaped(m)
    ensures Read(m, op.ref.col, op.ref.row) == op.newValue
  {
    hide Read, Shaped, Apply, Parse;
    assert ToCells(ws) == [op];
    OneWrite(n, op);
    m := Applied(n, ws).node;
  }

  /** The crossed log ends with the first write, and begins with one that expects the other. */
  lemma CrossedLog(n: Node, w: seq<Write>, x: seq<Write>, p: CellOp, q: CellOp)
    requires ToCells(w) == [p] && ToCells(x) == [q] && p.ref.Cell? && q.ref == p.ref
    requires q.oldValue != Read(n, p.ref.col, p.ref.row)
    ensures var log := [Entry(1, "u", x, COMMITTED), Entry(2, "t", w, COMMITTED)];
            ValueAt(n, History(log), p.ref.col, p.ref.row) == p.newValue && !Serial(n, log)
  {
    hide Read, ToCells;
    var u, t := Entry(1, "u", x, COMMITTED), Entry(2, "t", w, COMMITTED);
    assert [u, t][..1] == [u] && [u][..0] == [];
    assert History([u]) == [] + EntryOps(u);
    assert History([u, t]) == [q] + [p];
    assert ([q] + [p])[..1] == [q];
    assert [] + [q][..0] == [] && History([]) == [] && !Expected(n, [], [q]);
    var log := [u, t];
    assert History(log[..0]) == [] && EntryOps(log[0]) == [q];
  }

  lemma OneWrite(n: Node, op: CellOp)
    requires Shaped(n) && op.ref.Cell? && op.oldValue == Read(n, op.ref.col, op.ref.row)
    ensures Apply(n, [op]).ok && Shaped(Apply(n, [op]).node)
    ensures Read(Apply(n, [op]).node, op.ref.col, op.ref.row) == op.newValue
  {
    hide Apply, Read;
    assert [op][..0] == [];
    assert LastWrite([], op.ref.col, op.ref.row) == None;
    ApplyAcceptsIff(n, [op]);
    ApplyShaped(n, [op]);
    AcceptedWrites(n, [op], op.ref.col, op.ref.row);
  }

  /** In every run over the texts, the log gives each unheld cell the value it has. */
  ghost predicate AlwaysExplained(n: Node, texts: iset<string>) {
    forall ss: seq<System>, es: seq<Event>, k: nat, c, r: nat ::
      Run(n, ss, es) && Over(es, texts) && k <= |es| && Unheld(ss[k], c, r) ==>
        Read(ss[k].node, c, r) == ValueAt(n, History(ss[k].log), c, r)
  }

  /** In every run over the texts, the log is a serial history. */
  ghost predicate AlwaysSerial(n: Node, texts: iset<string>) {
    forall ss: seq<System>, es: seq<Event>, k: nat :: Run(n, ss, es) && Over(es, texts) && k <= |es| ==> Serial(n, ss[k].log)
  }

  /**
   * From any node, the log explains the cells in every run over some texts, and is
   * serial in every such run, if and only if no two of the texts name the same cell.
   */
  lemma ExplainedIffUnambiguous(n: Node, texts: iset<string>)
    requires Shaped(n)
    ensures AlwaysExplained(n, texts) <==> Unambiguous(texts)
    ensures AlwaysSerial(n, texts) <==> Unambiguous(texts)
  {
    hide Step, CleanStep, Read, ValueAt, History, Serial, Shaped, Parse;
    if Unambiguous(texts) {
      forall ss: seq<System>, es: seq<Event>, k: nat | Run(n, ss, es) && Over(es, texts) && k <= |es|
        ensures Serial(n, ss[k].log)
      {
        CommitsAreSerial(n, texts, ss, es, k);
      }
      forall ss: seq<System>, es: seq<Event>, k: nat, c, r: nat | Run(n, ss, es) && Over(es, texts) && k <= |es| && Unheld(ss[k], c, r)
        ensures Read(ss[k].node, c, r) == ValueAt(n, History(ss[k].log), c, r)
      {
        LogExplainsCells(n, texts, ss, es, k, c, r);
      }
    } else {
      var a, b :| a in texts && b in texts && Aliases(a, b);
      var ss, es := AliasesBreakTheLog(n, a, b);
      assert Over(es, texts);
      assert Unheld(ss[|es|], Parse(a).value.col, Parse(a).value.row);
    }
  }

  /** Texts without spare zeros are unambiguous; "a_1" and "a_01" together are not. */
  lemma CanonicalTextsAreUnambiguous(texts: iset<string>)
    requires forall id :: id in texts ==> Canonical(id)
    ensures Unambiguous(texts)
    ensures !Unambiguous(iset{"a_1", "a_01"})
  {
    SpareZeroAliases();
    assert Aliases("a_1", "a_01");
  }
}
