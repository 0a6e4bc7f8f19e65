/**
 * When a checkpoint is stored as a delta, and how many automatic ones are kept
 * (core/dataframe.py:1629-1711).
 */
module CheckpointLimits {
  import opened Sequences
  import opened Wrappers
  import opened Store
  import opened Text
  import opened Transactions
  import opened Wal
  import opened Frames
  import opened Checkpoints
  import opened CheckpointRuns

  // --------------------------------------------------------------- whole or delta

  /** The log still has everything after `lsn`, and the first of it was committed. */
  ghost predicate Reaches(g: Log<Operation>, hist: seq<Entry<Operation>>, lsn: nat) {
    lsn == |hist| || (lsn < |hist| && |hist| - lsn <= |g.entries| && hist[lsn].state == COMMITTED)
  }

  lemma GapIff(g: Log<Operation>, hist: seq<Entry<Operation>>, lsn: nat)
    requires IsTail(g, hist) && lsn <= |hist|
    ensures !Gap(g, lsn) <==> Reaches(g, hist, lsn)
  {
    if g.nextLsn > lsn + 1 {
      TailIsContiguous(g, hist);
      var cut := NotBeforeCut(g, lsn + 1);
      hide NotBefore, Contiguous;
      if Reaches(g, hist, lsn) {
        NextIsRetained(g, hist, lsn, cut);
      }
      if !Gap(g, lsn) {
        var e :| e in g.entries[cut..] && e.state == COMMITTED && e.lsn <= lsn + 1;
        NextIsThere(g, lsn, cut, e);
        TailPlace(g, hist, lsn, e);
      }
    }
  }

  lemma NextIsRetained(g: Log<Operation>, hist: seq<Entry<Operation>>, lsn: nat, cut: nat)
    requires IsTail(g, hist) && lsn < |hist| && |hist| - lsn <= |g.entries| && cut <= |g.entries|
    requires forall i :: 0 <= i < |g.entries| ==> (i >= cut <==> g.entries[i].lsn >= lsn + 1)
    ensures hist[lsn] in g.entries[cut..] && hist[lsn].lsn == lsn + 1
  {
    var i := |g.entries| - (|hist| - lsn);
    assert g.entries[i] == hist[lsn];
    assert g.entries[cut..][i - cut] == hist[lsn];
  }

  lemma TailPlace(g: Log<Operation>, hist: seq<Entry<Operation>>, lsn: nat, e: Entry<Operation>)
    requires IsTail(g, hist) && e in g.entries && e.lsn == lsn + 1
    ensures lsn < |hist| && |hist| - lsn <= |g.entries| && hist[lsn] == e
  {
    var i :| 0 <= i < |g.entries| && g.entries[i] == e;
    assert e == hist[|hist| - |g.entries| + i];
  }

  /** A committed change of shape. */
  predicate Reshapes(e: Entry<Operation>) {
    e.state == COMMITTED && exists i :: 0 <= i < |e.ops| && e.ops[i].Reshape?
  }

  /** The number of committed operations. */
  function CommittedCount(es: seq<Entry<Operation>>): nat
    decreases |es|
  {
    if es == [] then 0
    else
      var last := es[|es| - 1];
      CommittedCount(es[..|es| - 1]) + if last.state == COMMITTED then |last.ops| else 0
  }

  lemma {:induction false} CellsIff(ops: seq<Operation>)
    ensures CellsOf(ops).Some? <==> forall i :: 0 <= i < |ops| ==> ops[i].SetCell?
    ensures CellsOf(ops).Some? ==> |CellsOf(ops).value| == |ops|
    decreases |ops|
  {
    if ops != [] {
      CellsIff(ops[..|ops| - 1]);
    }
  }

  lemma {:induction false} CommittedIff(es: seq<Entry<Operation>>)
    ensures CommittedOps(es).Some? <==> forall i :: 0 <= i < |es| ==> !Reshapes(es[i])
    ensures CommittedOps(es).Some? ==> |CommittedOps(es).value| == CommittedCount(es)
    decreases |es|
  {
    hide CellsOf;
    if es != [] {
      CommittedIff(es[..|es| - 1]);
      CellsIff(es[|es| - 1].ops);
    }
  }

  /** The LSN up to which the parent of the next checkpoint accounts for the log. */
  function ParentLsn(b: Book): nat
    requires b.order != []
  {
    var parent := b.order[|b.order| - 1];
    if parent in b.entries then b.entries[parent].lsn else 0
  }

  /** What `_ops_sejak` gives, in terms of the whole history. */
  lemma OpsSinceIff(g: Log<Operation>, hist: seq<Entry<Operation>>, lsn: nat)
    requires IsTail(g, hist) && lsn <= |hist|
    ensures OpsSince(g, lsn).Some? <==>
            && Reaches(g, hist, lsn)
            && (forall i :: lsn <= i < |hist| ==> !Reshapes(hist[i]))
            && CommittedCount(hist[lsn..]) <= 5000
  {
    hide Gap, Since, Reaches, CommittedOps, Reshapes, CommittedCount;
    var since := hist[lsn..];
    GapIff(g, hist, lsn);
    CommittedIff(since);
    if !Gap(g, lsn) {
      NoGapSince(g, hist, lsn);
    }
    assert forall i :: 0 <= i < |since| ==> since[i] == hist[lsn + i];
    assert forall i :: lsn <= i < |hist| ==> hist[i] == since[i - lsn];
  }

  /**
   * The next checkpoint is a delta on the one before it if and only if there is one, it
   * is not the turn of a whole frame (every fiftieth), the log reaches back to it
   * through a committed entry, and since then no committed transaction changed a shape
   * and at most 5000 cells were written.
   */
  lemma DeltaIff(b: Book, g: Log<Operation>, hist: seq<Entry<Operation>>, snapshot: Snapshot)
    requires IsTail(g, hist) && (b.order != [] ==> ParentLsn(b) <= |hist|)
    ensures NewBody(b, g, snapshot).Delta? <==>
            && b.order != [] && |b.entries| % 50 != 0
            && Reaches(g, hist, ParentLsn(b))
            && (forall i :: ParentLsn(b) <= i < |hist| ==> !Reshapes(hist[i]))
            && CommittedCount(hist[ParentLsn(b)..]) <= 5000
    ensures match NewBody(b, g, snapshot)
            case Full(fr) => fr == snapshot
            case Delta(parent, ops) => parent == b.order[|b.order| - 1]
  {
    hide OpsSince, IsTail, Reaches, Reshapes, CommittedCount;
    if b.order != [] {
      OpsSinceIff(g, hist, ParentLsn(b));
    }
  }

  // -------------------------------------------------------- automatic checkpoints

  /** Up to 30 automatic checkpoints nothing is pruned; one more leaves the last 30 and the manual ones. */
  lemma TookOutcome(b: Book, g: Log<Operation>, snapshot: Snapshot, id: string, auto: bool)
    requires Ordered(b) && id !in b.entries
    ensures var grown, took := Extended(b, g, snapshot, id, auto), Took(b, g, snapshot, id, auto);
            && grown.order == b.order + [id]
            && if auto && |Autos(b)| >= 30 then PruneOutcome(grown, 30, true, took, |b.order| + 1 - |took.order|)
               else took == grown
  {
    hide NewBody, Pruned, PruneOutcome, Ordered, Autos;
    var grown := Extended(b, g, snapshot, id, auto);
    GrownAutos(b, g, snapshot, id, auto);
    PruneKeepsExactly(grown, AUTO_MAX, true);
    TookPrunes(b, g, snapshot, id, auto);
  }

  lemma TookPrunes(b: Book, g: Log<Operation>, snapshot: Snapshot, id: string, auto: bool)
    requires Ordered(b) && id !in b.entries
    ensures Extended(b, g, snapshot, id, auto).order == b.order + [id]
    ensures Took(b, g, snapshot, id, auto) ==
            if auto && |Autos(Extended(b, g, snapshot, id, auto))| > 30 then Pruned(Extended(b, g, snapshot, id, auto), 30, true)
            else Extended(b, g, snapshot, id, auto)
  {
    hide NewBody, Pruned;
  }

  lemma GrownAutos(b: Book, g: Log<Operation>, snapshot: Snapshot, id: string, auto: bool)
    requires Ordered(b) && id !in b.entries
    ensures var grown := Extended(b, g, snapshot, id, auto);
            && Ordered(grown) && |Autos(grown)| == |Autos(b)| + if auto then 1 else 0
  {
    hide NewBody, Ordered;
    var grown := Extended(b, g, snapshot, id, auto);
    ExtendedIs(b, g, snapshot, id, auto);
    SnocOrdered(b, grown, id);
    assert Autos(grown) == Autos(b) + if auto then {id} else {};
  }

  lemma {:induction false} SeqSetSize(s: seq<string>)
    ensures |set id | id in s| <= |s|
  {
    if s != [] {
      var rest := s[1..];
      SeqSetSize(rest);
      assert (set id | id in s) == (set id | id in rest) + {s[0]};
    }
  }

  lemma SubsetIsSmaller(a: set<string>, b: set<string>)
    requires a <= b
    ensures |a| <= |b|
  {
    assert b == a + (b - a);
  }

  lemma PruneAutos(b: Book, keepLast: int, keepNamed: bool)
    requires Ordered(b)
    ensures var p := Pruned(b, keepLast, keepNamed);
            && Ordered(p) && Autos(p) <= Autos(b)
            && (keepLast < |b.order| ==> |Autos(p)| <= Max(0, keepLast))
  {
    hide Pruned, Stays;
    var p := Pruned(b, keepLast, keepNamed);
    PruneKeepsExactly(b, keepLast, keepNamed);
    PrunedStaysOrdered(b, keepLast, keepNamed);
    if keepLast < |b.order| {
      var from := |b.order| - Max(0, keepLast);
      var window := b.order[from..];
      forall id | id in Autos(p)
        ensures id in window
      {
        var i :| 0 <= i < |b.order| && b.order[i] == id;
        AutoStays(b, keepLast, keepNamed, i);
        assert window[i - from] == id;
      }
      SeqSetSize(window);
      SubsetIsSmaller(Autos(p), set id | id in window);
    }
  }

  lemma AutoStays(b: Book, keepLast: int, keepNamed: bool, i: nat)
    requires i < |b.order| && b.order[i] in b.entries && b.entries[b.order[i]].auto
    ensures Stays(b, keepLast, keepNamed, i) <==> i >= |b.order| - Max(0, keepLast)
  {
  }

  /** A pruned dict is still a dict with its keys in order. */
  lemma PrunedStaysOrdered(b: Book, keepLast: int, keepNamed: bool)
    requires Ordered(b)
    ensures Ordered(Pruned(b, keepLast, keepNamed))
  {
    hide Pruned;
    var p := Pruned(b, keepLast, keepNamed);
    PruneKeepsExactly(b, keepLast, keepNamed);
    if |b.order| > keepLast {
      var at :| Places(b.order, p.order, at);
      forall id
        ensures id in p.order <==> id in p.entries
      {
        if id in p.order {
          var j :| 0 <= j < |p.order| && p.order[j] == id;
          assert b.order[at[j]] == id;
        }
        if id in p.entries {
          var i :| 0 <= i < |b.order| && b.order[i] == id;
        }
      }
    }
  }

  /** In every run, at every moment, at most 30 automatic checkpoints are kept. */
  lemma {:induction false} AutosStayFew(f: string, ws: seq<World>, es: seq<Event>, k: nat)
    requires Run(f, ws, es) && k <= |es|
    ensures Ordered(ws[k].book) && |Autos(ws[k].book)| <= 30
  {
    hide Step, Pruned, Took, PruneOutcome;
    if k == 0 {
      assert Autos(NO_BOOK) == {};
    } else {
      AutosStayFew(f, ws, es, k - 1);
      RunKeepsInv(f, ws, es, k - 1);
      assert Step(f, ws[k - 1], es[k - 1], ws[k]);
      AutosStep(f, ws[k - 1], es[k - 1], ws[k]);
    }
  }

  lemma AutosStep(f: string, w: World, e: Event, v: World)
    requires Step(f, w, e, v) && Faithful(w.book.entries, w.frames)
    requires Ordered(w.book) && |Autos(w.book)| <= 30
    ensures Ordered(v.book) && |Autos(v.book)| <= 30
  {
    hide Pruned, Took, NewBody, Cached, FrameOf, FaithfulEntry;
    match e
    case Take(id, auto) => TookAutos(w.book, w.wal, Cached(w, f), id, auto);
    case Prune(k, named) =>
      PruneAutos(w.book, k, named);
      SubsetIsSmaller(Autos(v.book), Autos(w.book));
    case _ =>
  }

  lemma TookAutos(b: Book, g: Log<Operation>, snapshot: Snapshot, id: string, auto: bool)
    requires Ordered(b) && id !in b.entries && |Autos(b)| <= 30
    ensures Ordered(Took(b, g, snapshot, id, auto)) && |Autos(Took(b, g, snapshot, id, auto))| <= 30
  {
    hide NewBody, Pruned, Ordered, Autos;
    var grown := Extended(b, g, snapshot, id, auto);
    GrownAutos(b, g, snapshot, id, auto);
    PruneAutos(grown, AUTO_MAX, true);
    TookPrunes(b, g, snapshot, id, auto);
    hide Took, Extended;
    if |Autos(grown)| > AUTO_MAX {
      AutosInOrder(grown);
    }
  }

  lemma AutosInOrder(b: Book)
    requires Ordered(b)
    ensures |Autos(b)| <= |b.order|
  {
    SubsetIsSmaller(Autos(b), set x | x in b.order);
    SeqSetSize(b.order);
  }
}
