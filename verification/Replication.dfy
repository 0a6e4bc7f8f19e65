/**
 * The reader and the ack counter of core/replication.py.
 *
 * `delivered` records the payloads handed to the `apply_entry` callback, in order.
 */
module Replication {

  type Tx = string

  const REORDER_SLOTS := 64
  const WINDOW := 128

  datatype Delta = Delta(lsn: int, tx: Tx)

  datatype Reader = Reader(last: nat, applied: set<int>, buffer: map<int, Tx>, delivered: seq<Delta>)

  const FRESH := Reader(0, {}, map[], [])

  // --------------------------------------------------------------- reader functions

  function Above(applied: set<int>, last: nat): set<int> { set s | s in applied && s > last }

  /** The contiguous pointer, moved over every LSN of `applied` that follows it. */
  function Advance(last: nat, applied: set<int>): (last': nat)
    ensures last <= last' && last' + 1 !in applied
    decreases Above(applied, last)
  {
    if last + 1 in applied then
      assert last + 1 in Above(applied, last) && last + 1 !in Above(applied, last + 1);
      Advance(last + 1, applied)
    else last
  }

  lemma {:induction false} AdvanceCrossesApplied(last: nat, applied: set<int>, s: int)
    requires last < s <= Advance(last, applied)
    ensures s in applied
    decreases Above(applied, last)
  {
    if last + 1 in applied {
      assert last + 1 in Above(applied, last) && last + 1 !in Above(applied, last + 1);
      if s > last + 1 {
        AdvanceCrossesApplied(last + 1, applied, s);
      }
    }
  }

  function Pruned(r: Reader): Reader {
    r.(applied := set s | s in r.applied && s > r.last - WINDOW)
  }

  /** Hands one entry to the callback and moves the pointer; no pruning yet. */
  function Deliver(r: Reader, d: Delta): Reader {
    var applied := r.applied + {d.lsn};
    r.(delivered := r.delivered + [d], applied := applied, last := Advance(r.last, applied))
  }

  /** The loop of `_drain_reorder_buffer`. */
  function DrainLoop(r: Reader): Reader
    decreases Above(r.applied, r.last)
  {
    var next := r.last + 1;
    if next in r.applied && next in r.buffer then
      assert next in Above(r.applied, r.last) && next !in Above(r.applied, next);
      DrainLoop(r.(buffer := r.buffer - {next}, last := next, delivered := r.delivered + [Delta(next, r.buffer[next])]))
    else r
  }

  function Drain(r: Reader): Reader {
    var r' := DrainLoop(r);
    if r'.last == r.last then r else Pruned(r')
  }

  /** `_handle_delta`: the reader afterwards, and whether an ack is sent. */
  function HandleDelta(r: Reader, d: Delta): (Reader, bool) {
    if d.lsn in r.applied || d.lsn <= r.last then (r, false)
    else if Buffers(r, d) then
      (r.(applied := r.applied + {d.lsn}, buffer := r.buffer[d.lsn := d.tx]), false)
    else (Drain(Pruned(Deliver(r, d))), true)
  }

  /** The delta is new, not next in line, and within the reorder window. */
  predicate Buffers(r: Reader, d: Delta) {
    d.lsn !in r.applied && 0 < d.lsn - (r.last + 1) <= REORDER_SLOTS
  }

  function SyncLoop(r: Reader, entries: seq<Delta>): Reader
    decreases |entries|
  {
    if entries == [] then r
    else SyncLoop(if entries[0].lsn in r.applied then r else Deliver(r, entries[0]), entries[1..])
  }

  /** `_handle_sync_response`. */
  function HandleSync(r: Reader, entries: seq<Delta>): Reader { Pruned(SyncLoop(r, entries)) }

  // --------------------------------------------------------------- reader invariant

  ghost predicate Has(ds: seq<Delta>, lsn: int) { exists i :: 0 <= i < |ds| && ds[i].lsn == lsn }

  /** No LSN was handed to the callback twice. */
  ghost predicate AtMostOnce(ds: seq<Delta>) {
    forall i, j :: 0 <= i < j < |ds| ==> ds[i].lsn != ds[j].lsn
  }

  lemma HasSnoc(ds: seq<Delta>, d: Delta, lsn: int)
    ensures Has(ds + [d], lsn) <==> Has(ds, lsn) || lsn == d.lsn
  {
    if Has(ds, lsn) {
      var i :| 0 <= i < |ds| && ds[i].lsn == lsn;
      assert (ds + [d])[i].lsn == lsn;
    }
    assert (ds + [d])[|ds|] == d;
  }

  lemma AtMostOnceSnoc(ds: seq<Delta>, d: Delta)
    ensures AtMostOnce(ds + [d]) <==> AtMostOnce(ds) && !Has(ds, d.lsn)
  {
    var all := ds + [d];
    if AtMostOnce(all) {
      forall i, j | 0 <= i < j < |ds|
        ensures ds[i].lsn != ds[j].lsn
      {
        assert all[i] == ds[i] && all[j] == ds[j];
      }
      forall i | 0 <= i < |ds|
        ensures ds[i].lsn != d.lsn
      {
        assert all[i] == ds[i] && all[|ds|] == d;
      }
    }
  }

  /** What the reader knows about one LSN; LSNs at or below `floor` may be forgotten. */
  ghost predicate Tracked(r: Reader, floor: int, s: int) {
    && (s in r.applied ==> s > floor && (s in r.buffer || Has(r.delivered, s)))
    && (Has(r.delivered, s) ==> s in r.applied || s <= floor)
    && (s in r.buffer ==> 0 < s && !Has(r.delivered, s) && (s in r.applied || s <= floor))
    && (0 < s <= r.last ==> (s in r.applied || s <= floor) && (s in r.buffer || Has(r.delivered, s)))
  }

  ghost predicate Fits(r: Reader, floor: int) {
    && r.last + 1 !in r.applied
    && floor <= r.last
    && AtMostOnce(r.delivered)
    && forall s :: Tracked(r, floor, s)
  }

  /**
   * The reader's invariant: the pointer is maximal; every LSN up to it was applied
   * or sits in the reorder buffer; nothing is both; nothing was applied twice; and
   * the applied set covers the last WINDOW LSNs.
   */
  ghost predicate Good(r: Reader) { Fits(r, r.last - WINDOW) }

  lemma PruneFits(r: Reader, floor: int)
    requires Fits(r, floor) && floor <= r.last - WINDOW
    ensures Good(Pruned(r))
  {
    var r', floor' := Pruned(r), r.last - WINDOW;
    forall s
      ensures Tracked(r', floor', s)
    {
      assert Tracked(r, floor, s);
    }
    assert Fits(r', floor');
  }

  /** Delivering an LSN that is above the floor and not in the applied set is its first delivery. */
  lemma DeliverFits(r: Reader, floor: int, d: Delta)
    requires Fits(r, floor) && d.lsn !in r.applied && d.lsn > floor
    ensures !Has(r.delivered, d.lsn) && Fits(Deliver(r, d), floor)
  {
    var r' := Deliver(r, d);
    assert Tracked(r, floor, d.lsn);
    AtMostOnceSnoc(r.delivered, d);
    forall s
      ensures Tracked(r', floor, s)
    {
      assert Tracked(r, floor, s);
      HasSnoc(r.delivered, d, s);
      if r.last < s <= r'.last {
        AdvanceCrossesApplied(r.last, r.applied + {d.lsn}, s);
      }
    }
  }

  lemma BufferFits(r: Reader, d: Delta)
    requires Good(r) && Buffers(r, d)
    ensures Good(HandleDelta(r, d).0)
  {
    var r', floor := HandleDelta(r, d).0, r.last - WINDOW;
    forall s
      ensures Tracked(r', floor, s)
    {
      assert Tracked(r, floor, s);
    }
  }

  /** After an apply the pointer is maximal, so the drain loop has nothing to do. */
  lemma DrainIsIdle(r: Reader, d: Delta)
    ensures Drain(Pruned(Deliver(r, d))) == Pruned(Deliver(r, d))
  {
  }

  /** One delta, whatever its LSN: the invariant holds, and an ack means a first apply. */
  lemma DeltaKeepsGood(r: Reader, d: Delta)
    requires Good(r)
    ensures Good(HandleDelta(r, d).0)
    ensures HandleDelta(r, d).1 ==> !Has(r.delivered, d.lsn) && Has(HandleDelta(r, d).0.delivered, d.lsn)
    ensures r.delivered <= HandleDelta(r, d).0.delivered
    ensures forall s :: s in r.buffer ==> s in HandleDelta(r, d).0.buffer
  {
    if d.lsn in r.applied || d.lsn <= r.last {
    } else if Buffers(r, d) {
      BufferFits(r, d);
    } else {
      DrainIsIdle(r, d);
      DeliverFits(r, r.last - WINDOW, d);
      HasSnoc(r.delivered, d, d.lsn);
      PruneFits(Deliver(r, d), r.last - WINDOW);
    }
  }

  // ----------------------------------------------------- what becomes of one delta

  /** Neither applied, nor reserved, nor passed by the pointer. */
  predicate IsNew(r: Reader, lsn: int) { lsn > r.last && lsn !in r.applied }

  /** Between 1 and 64 LSNs are still missing in front of it. */
  predicate WaitsFor(r: Reader, lsn: int) { 1 <= lsn - r.last - 1 <= 64 }

  /** The pointer went over applied LSNs only, as far as it could, and those 128 or more below it are forgotten. */
  ghost predicate Caught(r: Reader, applied: set<int>, r': Reader) {
    && r.last <= r'.last && r'.last + 1 !in applied
    && (forall s :: r.last < s <= r'.last ==> s in applied)
    && (forall s :: s in r'.applied <==> s in applied && s > r'.last - 128)
  }

  /**
   * A delta that is new and need not wait is applied at once and acked, however far
   * ahead it is; one that has to wait is put in the buffer; any other changes nothing.
   */
  ghost predicate Outcome(r: Reader, d: Delta, r': Reader, acked: bool) {
    && (acked <==> IsNew(r, d.lsn) && !WaitsFor(r, d.lsn))
    && (acked ==>
          r'.delivered == r.delivered + [d] && r'.buffer == r.buffer && Caught(r, r.applied + {d.lsn}, r'))
    && (!acked && IsNew(r, d.lsn) ==>
          r' == r.(applied := r.applied + {d.lsn}, buffer := r.buffer[d.lsn := d.tx]))
    && (!IsNew(r, d.lsn) ==> r' == r)
  }

  lemma DeltaOutcome(r: Reader, d: Delta)
    ensures Outcome(r, d, HandleDelta(r, d).0, HandleDelta(r, d).1)
  {
    var applied := r.applied + {d.lsn};
    DrainIsIdle(r, d);
    forall s | r.last < s <= Advance(r.last, applied)
      ensures s in applied
    {
      AdvanceCrossesApplied(r.last, applied, s);
    }
  }

  /** The next LSNs in order, one delta each. */
  ghost predicate InOrder(r: Reader, ds: seq<Delta>) {
    forall i :: 0 <= i < |ds| ==> ds[i].lsn == r.last + 1 + i
  }

  /** A reader that has reserved nothing applies deltas that come in order, every one of them. */
  lemma {:induction false} InOrderIsApplied(r: Reader, ds: seq<Delta>)
    requires InOrder(r, ds) && forall s :: s in r.applied ==> s <= r.last
    ensures RunDeltas(r, ds).delivered == r.delivered + ds && RunDeltas(r, ds).last == r.last + |ds|
    decreases |ds|
  {
    if ds != [] {
      var (r', acked) := HandleDelta(r, ds[0]);
      DeltaOutcome(r, ds[0]);
      hide HandleDelta;
      assert r.last + 1 in r.applied + {ds[0].lsn} && r.last + 2 !in r.applied + {ds[0].lsn};
      assert r'.last == r.last + 1;
      assert forall i :: 0 <= i < |ds[1..]| ==> ds[1..][i] == ds[i + 1];
      InOrderIsApplied(r', ds[1..]);
      assert r.delivered + [ds[0]] + ds[1..] == r.delivered + ds;
    }
  }

  // -------------------------------------------------------- runs of one reader

  function RunDeltas(r: Reader, ds: seq<Delta>): Reader
    decreases |ds|
  {
    if ds == [] then r else RunDeltas(HandleDelta(r, ds[0]).0, ds[1..])
  }

  /** Some delta of the run took the buffering branch with this LSN. */
  ghost predicate WasBuffered(r: Reader, ds: seq<Delta>, lsn: int)
    decreases |ds|
  {
    ds != [] && ((Buffers(r, ds[0]) && ds[0].lsn == lsn) || WasBuffered(HandleDelta(r, ds[0]).0, ds[1..], lsn))
  }

  lemma {:induction false} RunsAreGood(r: Reader, ds: seq<Delta>, lsn: int)
    requires Good(r)
    ensures Good(RunDeltas(r, ds))
    ensures lsn in RunDeltas(r, ds).buffer <==> lsn in r.buffer || WasBuffered(r, ds, lsn)
    decreases |ds|
  {
    if ds != [] {
      DeltaKeepsGood(r, ds[0]);
      DrainIsIdle(r, ds[0]);
      RunsAreGood(HandleDelta(r, ds[0]).0, ds[1..], lsn);
    }
  }

  /**
   * What becomes of an LSN up to the pointer, over every run of deltas: it was
   * applied if and only if no delta with this LSN was ever put in the reorder
   * buffer.  A buffered delta is passed over by the pointer and never applied.
   */
  lemma AppliedIffNeverBuffered(ds: seq<Delta>, lsn: int)
    ensures var r := RunDeltas(FRESH, ds);
            && AtMostOnce(r.delivered)
            && (WasBuffered(FRESH, ds, lsn) ==> !Has(r.delivered, lsn))
            && (0 < lsn <= r.last ==> (Has(r.delivered, lsn) <==> !WasBuffered(FRESH, ds, lsn)))
  {
    RunsAreGood(FRESH, ds, lsn);
    var r := RunDeltas(FRESH, ds);
    assert Tracked(r, r.last - WINDOW, lsn);
  }

  /** Two deltas that arrive in the wrong order: the pointer passes 2, which is never applied. */
  lemma SwappedPairLosesOne()
    ensures var r := RunDeltas(FRESH, [Delta(2, "b"), Delta(1, "a")]);
            r.last == 2 && r.delivered == [Delta(1, "a")]
  {
    var r1 := HandleDelta(FRESH, Delta(2, "b")).0;
    assert r1 == Reader(0, {2}, map[2 := "b"], []);
    var applied := {2} + {1};
    assert Advance(2, applied) == 2 && Advance(1, applied) == 2 && Advance(0, applied) == 2;
    DrainIsIdle(r1, Delta(1, "a"));
    assert [Delta(2, "b"), Delta(1, "a")][1..] == [Delta(1, "a")];
    assert RunDeltas(r1, [Delta(1, "a")]) == HandleDelta(r1, Delta(1, "a")).0;
  }

  // --------------------------------------------------------------- sync responses

  lemma {:induction false} SyncLoopFits(r: Reader, floor: int, entries: seq<Delta>)
    requires Fits(r, floor) && forall i :: 0 <= i < |entries| ==> entries[i].lsn > floor
    ensures Fits(SyncLoop(r, entries), floor) && r.last <= SyncLoop(r, entries).last
    ensures r.delivered <= SyncLoop(r, entries).delivered
    decreases |entries|
  {
    if entries != [] {
      if entries[0].lsn !in r.applied {
        DeliverFits(r, floor, entries[0]);
      }
      SyncLoopFits(if entries[0].lsn in r.applied then r else Deliver(r, entries[0]), floor, entries[1..]);
    }
  }

  /** Entries no more than WINDOW - 1 below the pointer keep the whole invariant. */
  lemma SyncKeepsGood(r: Reader, entries: seq<Delta>)
    requires Good(r) && forall i :: 0 <= i < |entries| ==> entries[i].lsn > r.last - WINDOW
    ensures Good(HandleSync(r, entries)) && r.delivered <= HandleSync(r, entries).delivered
  {
    SyncLoopFits(r, r.last - WINDOW, entries);
    var r' := SyncLoop(r, entries);
    PruneFits(r', r.last - WINDOW);
  }

  function Lsns(entries: seq<Delta>): set<int> { set d | d in entries :: d.lsn }

  lemma LsnsCons(e: Delta, rest: seq<Delta>)
    ensures Lsns([e] + rest) == {e.lsn} + Lsns(rest)
  {
  }

  lemma {:induction false} SyncLoopCatches(r: Reader, entries: seq<Delta>)
    ensures SyncLoop(r, entries).applied == r.applied + Lsns(entries)
    ensures r.last + 1 !in r.applied ==>
              var r' := SyncLoop(r, entries);
              && r.last <= r'.last && r'.last + 1 !in r'.applied
              && (forall s :: r.last < s <= r'.last ==> s in r'.applied)
    decreases |entries|
  {
    hide Lsns, Advance;
    if entries != [] {
      var e, rest := entries[0], entries[1..];
      assert entries == [e] + rest;
      LsnsCons(e, rest);
      if e.lsn in r.applied {
        SyncLoopCatches(r, rest);
      } else {
        DeliverCatches(r, e);
        SyncLoopCatches(Deliver(r, e), rest);
      }
    } else {
      assert Lsns([]) == {} by {
        NoLsns();
      }
    }
  }

  lemma NoLsns()
    ensures Lsns([]) == {}
  {
  }

  lemma DeliverCatches(r: Reader, d: Delta)
    ensures var r' := Deliver(r, d);
            && r.last <= r'.last && r'.last + 1 !in r'.applied
            && (forall s :: r.last < s <= r'.last ==> s in r'.applied)
  {
    var applied := r.applied + {d.lsn};
    forall s | r.last < s <= Advance(r.last, applied)
      ensures s in applied
    {
      AdvanceCrossesApplied(r.last, applied, s);
    }
  }

  /** The entries that the sync loop hands over. */
  lemma {:induction false} SyncLoopHands(r: Reader, entries: seq<Delta>) returns (handed: seq<Delta>)
    ensures SyncLoop(r, entries).delivered == r.delivered + handed && SyncLoop(r, entries).buffer == r.buffer
    ensures AtMostOnce(handed) && Lsns(handed) == Lsns(entries) - r.applied
    ensures forall d :: d in handed ==> d in entries
    decreases |entries|
  {
    hide Lsns, Advance, AtMostOnce;
    if entries == [] {
      assert AtMostOnce([]) && Lsns([]) == {} by {
        NoLsns();
        NoneTwice();
      }
      return [];
    }
    var e, rest := entries[0], entries[1..];
    assert entries == [e] + rest;
    LsnsCons(e, rest);
    if e.lsn in r.applied {
      handed := SyncLoopHands(r, rest);
    } else {
      var more := SyncLoopHands(Deliver(r, e), rest);
      handed := [e] + more;
      LsnsCons(e, more);
      OnceCons(e, more);
      assert r.delivered + [e] + more == r.delivered + handed;
    }
  }

  lemma NoneTwice()
    ensures AtMostOnce([])
  {
  }

  lemma OnceCons(e: Delta, rest: seq<Delta>)
    requires AtMostOnce(rest) && e.lsn !in Lsns(rest)
    ensures AtMostOnce([e] + rest)
  {
    assert forall d :: d in rest ==> d.lsn in Lsns(rest);
  }

  /**
   * A sync response hands over, once each, exactly the entries whose LSN is not in the
   * applied set, and leaves the buffer alone.
   */
  lemma SyncOutcome(r: Reader, entries: seq<Delta>) returns (handed: seq<Delta>)
    ensures var r' := HandleSync(r, entries);
            && r'.delivered == r.delivered + handed && r'.buffer == r.buffer
            && (r.last + 1 !in r.applied ==> Caught(r, r.applied + Lsns(entries), r'))
    ensures AtMostOnce(handed) && Lsns(handed) == Lsns(entries) - r.applied
    ensures forall d :: d in handed ==> d in entries
  {
    handed := SyncLoopHands(r, entries);
    SyncLoopCatches(r, entries);
    hide SyncLoop;
  }

  /** The entry is too old for the applied set to remember, and is not in the buffer. */
  predicate Forgotten(r: Reader, e: Delta) { e.lsn <= r.last - WINDOW && e.lsn !in r.buffer }

  lemma {:induction false} SyncOnceWithoutForgotten(r0: Reader, r: Reader, entries: seq<Delta>)
    requires Good(r0) && AtMostOnce(r.delivered)
    requires forall s :: Has(r.delivered, s) ==> Has(r0.delivered, s) || s in r.applied
    requires r0.applied <= r.applied
    requires forall i :: 0 <= i < |entries| ==> !Forgotten(r0, entries[i])
    ensures AtMostOnce(SyncLoop(r, entries).delivered)
    decreases |entries|
  {
    if entries != [] {
      var e := entries[0];
      var r' := if e.lsn in r.applied then r else Deliver(r, e);
      assert Tracked(r0, r0.last - WINDOW, e.lsn);
      AtMostOnceSnoc(r.delivered, e);
      forall s | Has(r'.delivered, s)
        ensures Has(r0.delivered, s) || s in r'.applied
      {
        HasSnoc(r.delivered, e, s);
      }
      SyncOnceWithoutForgotten(r0, r', entries[1..]);
    }
  }

  lemma {:induction false} SyncRepeatsForgotten(r: Reader, entries: seq<Delta>, k: nat)
    requires k < |entries|
    requires !AtMostOnce(r.delivered) || (Has(r.delivered, entries[k].lsn) && entries[k].lsn !in r.applied)
    ensures !AtMostOnce(SyncLoop(r, entries).delivered)
    decreases |entries|
  {
    var e := entries[0];
    var r' := if e.lsn in r.applied then r else Deliver(r, e);
    AtMostOnceSnoc(r.delivered, e);
    HasSnoc(r.delivered, e, entries[k].lsn);
    if k > 0 {
      SyncRepeatsForgotten(r', entries[1..], k - 1);
    } else {
      OnceBrokenStaysBroken(r', entries[1..]);
    }
  }

  lemma {:induction false} OnceBrokenStaysBroken(r: Reader, entries: seq<Delta>)
    requires !AtMostOnce(r.delivered)
    ensures !AtMostOnce(SyncLoop(r, entries).delivered)
    decreases |entries|
  {
    if entries != [] {
      AtMostOnceSnoc(r.delivered, entries[0]);
      OnceBrokenStaysBroken(if entries[0].lsn in r.applied then r else Deliver(r, entries[0]), entries[1..]);
    }
  }

  /**
   * A sync response applies some entry a second time if and only if it holds an
   * entry more than WINDOW - 1 below the pointer that is not in the reorder buffer.
   * (LSNs start at 1, core/wal.py:53.)
   */
  lemma SyncAppliesTwiceIff(r: Reader, entries: seq<Delta>)
    requires Good(r) && forall i :: 0 <= i < |entries| ==> entries[i].lsn > 0
    ensures AtMostOnce(HandleSync(r, entries).delivered) <==>
            forall i :: 0 <= i < |entries| ==> !Forgotten(r, entries[i])
  {
    if forall i :: 0 <= i < |entries| ==> !Forgotten(r, entries[i]) {
      SyncOnceWithoutForgotten(r, r, entries);
    } else {
      var k :| 0 <= k < |entries| && Forgotten(r, entries[k]);
      assert Tracked(r, r.last - WINDOW, entries[k].lsn);
      SyncRepeatsForgotten(r, entries, k);
    }
  }

  // ----------------------------------------------------------- the reader as a class

  class ReadReplica {
    var lastLsn: nat
    var appliedLsns: set<int>
    var reorderBuffer: map<int, Tx>
    var delivered: seq<Delta>

    function View(): Reader
      reads this
    {
      Reader(lastLsn, appliedLsns, reorderBuffer, delivered)
    }

    constructor ()
      ensures View() == FRESH && Good(View())
    {
      lastLsn, appliedLsns, reorderBuffer, delivered := 0, {}, map[], [];
    }

    /** Moves the pointer over the applied LSNs that follow it. */
    method AdvancePointer()
      modifies this`lastLsn
      ensures lastLsn == Advance(old(lastLsn), appliedLsns)
    {
      while lastLsn + 1 in appliedLsns
        invariant Advance(lastLsn, appliedLsns) == Advance(old(lastLsn), appliedLsns)
        decreases Above(appliedLsns, lastLsn)
      {
        assert lastLsn + 1 in Above(appliedLsns, lastLsn);
        lastLsn := lastLsn + 1;
      }
    }

    method Prune()
      modifies this`appliedLsns
      ensures View() == Pruned(old(View()))
    {
      appliedLsns := set s | s in appliedLsns && s > lastLsn - WINDOW;
    }

    method ApplyDeltaEntry(d: Delta)
      modifies this
      ensures View() == Pruned(Deliver(old(View()), d))
    {
      delivered := delivered + [d];
      appliedLsns := appliedLsns + {d.lsn};
      AdvancePointer();
      Prune();
    }

    method DrainReorderBuffer()
      modifies this
      ensures View() == Drain(old(View()))
    {
      var drained := 0;
      while lastLsn + 1 in appliedLsns
        invariant DrainLoop(View()) == DrainLoop(old(View()))
        invariant lastLsn == old(lastLsn) + drained
        invariant drained == 0 ==> View() == old(View())
        decreases Above(appliedLsns, lastLsn)
      {
        var next := lastLsn + 1;
        if next !in reorderBuffer {
          break;
        }
        assert next in Above(appliedLsns, lastLsn);
        delivered := delivered + [Delta(next, reorderBuffer[next])];
        reorderBuffer := reorderBuffer - {next};
        lastLsn := next;
        drained := drained + 1;
      }
      if drained > 0 {
        Prune();
      }
    }

    /** Applies, buffers or drops one delta; `acked` tells whether an ack goes out. */
    method HandleDeltaMessage(d: Delta) returns (acked: bool)
      modifies this
      ensures (View(), acked) == HandleDelta(old(View()), d)
      ensures Outcome(old(View()), d, View(), acked)
      ensures old(Good(View())) ==> Good(View())
      ensures old(Good(View())) && acked ==> !Has(old(delivered), d.lsn) && Has(delivered, d.lsn)
    {
      ghost var before := View();
      DeltaOutcome(before, d);
      if Good(before) {
        DeltaKeepsGood(before, d);
      }
      if d.lsn in appliedLsns || d.lsn <= lastLsn {
        return false;
      }
      var nextExpected := lastLsn + 1;
      if d.lsn != nextExpected && d.lsn - nextExpected <= REORDER_SLOTS {
        appliedLsns := appliedLsns + {d.lsn};
        reorderBuffer := reorderBuffer[d.lsn := d.tx];
        return false;
      }
      ApplyDeltaEntry(d);
      DrainReorderBuffer();
      return true;
    }

    method HandleSyncResponse(entries: seq<Delta>)
      modifies this
      ensures View() == HandleSync(old(View()), entries)
    {
      var i := 0;
      while i < |entries|
        invariant 0 <= i <= |entries|
        invariant SyncLoop(View(), entries[i..]) == SyncLoop(old(View()), entries)
      {
        assert entries[i..][1..] == entries[i + 1..];
        if entries[i].lsn !in appliedLsns {
          delivered := delivered + [entries[i]];
          appliedLsns := appliedLsns + {entries[i].lsn};
          AdvancePointer();
        }
        i := i + 1;
      }
      assert entries[i..] == [];
      Prune();
    }
  }
}
