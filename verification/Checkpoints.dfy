/**
 * The checkpoint chain of a frame (core/dataframe.py:1629-1770, 1835-1882): entries
 * that hold the whole frame or only the writes since their parent, materialisation,
 * rebase and prune.
 */
module Checkpoints {
  import opened Sequences
  import opened Wrappers
  import opened Store
  import opened Text
  import opened Frames

  datatype Body = Full(snapshot: Snapshot) | Delta(parent: string, ops: seq<CellOp>)

  datatype Checkpoint = Checkpoint(lsn: nat, auto: bool, body: Body)

  type Entries = map<string, Checkpoint>

  /** A dict that remembers the order of its keys. */
  datatype Book = Book(order: seq<string>, entries: Entries)

  /** Keys in order, each once. */
  ghost predicate Ordered(b: Book) {
    && (forall id :: id in b.order <==> id in b.entries)
    && Distinct(b.order)
  }

  const FULL_INTERVAL := 50
  const AUTO_MAX := 30
  const DELTA_MAX_OPS := 5000

  // -------------------------------------------------------------- materialisation

  /** `_materialisasi_checkpoint`; None where the source raises KeyError. */
  function Materialise(entries: Entries, id: string, visited: set<string>): Option<Snapshot>
    decreases entries.Keys - visited
  {
    if id in visited || id !in entries then None
    else match entries[id].body
      case Full(snapshot) => Some(snapshot)
      case Delta(parent, ops) =>
        if parent == "" then None
        else match Materialise(entries, parent, visited + {id})
          case None => None
          case Some(base) => Some(Patch(base, ops))
  }

  function Materialised(entries: Entries, id: string): Option<Snapshot> { Materialise(entries, id, {}) }

  /** Following at most k links to a whole frame, and applying the writes on the way back. */
  function Resolve(entries: Entries, id: string, k: nat): Option<Snapshot>
    decreases k
  {
    if id !in entries then None
    else match entries[id].body
      case Full(snapshot) => Some(snapshot)
      case Delta(parent, ops) =>
        if parent == "" || k == 0 then None
        else match Resolve(entries, parent, k - 1)
          case None => None
          case Some(base) => Some(Patch(base, ops))
  }

  lemma {:induction false} ResolveMonotone(entries: Entries, id: string, j: nat, k: nat)
    requires j <= k && Resolve(entries, id, j).Some?
    ensures Resolve(entries, id, k) == Resolve(entries, id, j)
    decreases j
  {
    if id in entries && entries[id].body.Delta? && j > 0 {
      ResolveMonotone(entries, entries[id].body.parent, j - 1, k - 1);
    }
  }

  /** A materialised value was reached over finitely many links. */
  lemma {:induction false} MaterialisedResolves(entries: Entries, id: string, visited: set<string>) returns (k: nat)
    requires Materialise(entries, id, visited).Some?
    ensures Resolve(entries, id, k) == Materialise(entries, id, visited)
    decreases entries.Keys - visited
  {
    match entries[id].body
    case Full(_) => k := 0;
    case Delta(parent, _) =>
      k := MaterialisedResolves(entries, parent, visited + {id});
      k := k + 1;
  }

  /** The fewest links that reach a whole frame. */
  ghost predicate Depth(entries: Entries, id: string, k: nat) {
    Resolve(entries, id, k).Some? && (k > 0 ==> Resolve(entries, id, k - 1) == None)
  }

  lemma {:induction false} DepthExists(entries: Entries, id: string, k: nat) returns (d: nat)
    requires Resolve(entries, id, k).Some?
    ensures d <= k && Depth(entries, id, d) && Resolve(entries, id, d) == Resolve(entries, id, k)
  {
    if k > 0 && Resolve(entries, id, k - 1).Some? {
      d := DepthExists(entries, id, k - 1);
      ResolveMonotone(entries, id, d, k);
    } else {
      d := k;
    }
  }

  /** Every visited checkpoint is further from a whole frame than this one, so none is met again. */
  lemma {:induction false} ResolvedMaterialises(entries: Entries, id: string, k: nat, visited: set<string>)
    requires Depth(entries, id, k)
    requires forall v :: v in visited ==> Resolve(entries, v, k) == None
    ensures Materialise(entries, id, visited) == Resolve(entries, id, k)
    decreases k
  {
    if entries[id].body.Delta? {
      var parent := entries[id].body.parent;
      forall v | v in visited + {id}
        ensures Resolve(entries, v, k - 1) == None
      {
        if v in visited && Resolve(entries, v, k - 1).Some? {
          ResolveMonotone(entries, v, k - 1, k);
        }
      }
      ResolvedMaterialises(entries, parent, k - 1, visited + {id});
    }
  }

  /**
   * Materialisation ends on every store, cyclic or broken.  It gives a value exactly
   * when a whole frame is reached over finitely many links, and then that value.
   */
  lemma MaterialiseIff(entries: Entries, id: string, fr: Snapshot)
    ensures Materialised(entries, id) == Some(fr) <==> exists k: nat :: Resolve(entries, id, k) == Some(fr)
  {
    if Materialised(entries, id) == Some(fr) {
      var k := MaterialisedResolves(entries, id, {});
    }
    if k: nat :| Resolve(entries, id, k) == Some(fr) {
      ResolvedIsValue(entries, id, k);
    }
  }

  lemma ResolvedIsValue(entries: Entries, id: string, k: nat)
    requires Resolve(entries, id, k).Some?
    ensures Materialised(entries, id) == Resolve(entries, id, k)
  {
    var d := DepthExists(entries, id, k);
    ResolvedMaterialises(entries, id, d, {});
  }

  /** A checkpoint that is its own ancestor cannot be materialised. */
  lemma CyclesFail(entries: Entries, chain: seq<string>, i: nat)
    requires i < |chain| && chain[|chain| - 1] == chain[0] && |chain| > 1
    requires forall j :: 0 <= j < |chain| - 1 ==>
               chain[j] in entries && entries[chain[j]].body.Delta? && entries[chain[j]].body.parent == chain[j + 1]
    ensures Materialised(entries, chain[i]) == None
  {
    if Materialised(entries, chain[i]).Some? {
      var k := MaterialisedResolves(entries, chain[i], {});
      CycleNeverResolves(entries, chain, i, k);
    }
  }

  lemma {:induction false} CycleNeverResolves(entries: Entries, chain: seq<string>, i: nat, k: nat)
    requires i < |chain| && chain[|chain| - 1] == chain[0] && |chain| > 1
    requires forall j :: 0 <= j < |chain| - 1 ==>
               chain[j] in entries && entries[chain[j]].body.Delta? && entries[chain[j]].body.parent == chain[j + 1]
    ensures Resolve(entries, chain[i], k) == None
    decreases k
  {
    var j := if i == |chain| - 1 then 0 else i;
    if k > 0 {
      CycleNeverResolves(entries, chain, j + 1, k - 1);
    }
  }

  // ----------------------------------------------------------------------- rebase

  /** `_rebase_checkpoint`. */
  function Rebased(entries: Entries, id: string): Entries {
    if id in entries && entries[id].body.Delta? && Materialised(entries, id).Some?
    then entries[id := entries[id].(body := Full(Materialised(entries, id).value))]
    else entries
  }

  lemma {:induction false} RebaseForward(entries: Entries, id: string, x: string, k: nat)
    requires Resolve(entries, x, k).Some?
    ensures Resolve(Rebased(entries, id), x, k) == Resolve(entries, x, k)
    decreases k
  {
    if x == id {
      ResolvedIsValue(entries, x, k);
    } else if entries[x].body.Delta? {
      RebaseForward(entries, id, entries[x].body.parent, k - 1);
    }
  }

  lemma {:induction false} RebaseBackward(entries: Entries, id: string, x: string, k: nat) returns (j: nat)
    requires Resolve(Rebased(entries, id), x, k).Some?
    ensures Resolve(entries, x, j) == Resolve(Rebased(entries, id), x, k)
    decreases k
  {
    if x == id && Rebased(entries, id) != entries {
      j := MaterialisedResolves(entries, id, {});
    } else if Rebased(entries, id) == entries {
      j := k;
    } else if entries[x].body.Delta? {
      j := RebaseBackward(entries, id, entries[x].body.parent, k - 1);
      j := j + 1;
    } else {
      j := 0;
    }
  }

  /** Rebasing changes no checkpoint's value: not its own, and not that of any other. */
  lemma RebaseKeepsValues(entries: Entries, id: string, x: string)
    ensures Materialised(Rebased(entries, id), x) == Materialised(entries, x)
  {
    if Materialised(entries, x).Some? {
      var k := MaterialisedResolves(entries, x, {});
      RebaseForward(entries, id, x, k);
      ResolvedIsValue(Rebased(entries, id), x, k);
    } else if Materialised(Rebased(entries, id), x).Some? {
      var k := MaterialisedResolves(Rebased(entries, id), x, {});
      var j := RebaseBackward(entries, id, x, k);
      ResolvedIsValue(entries, x, j);
    }
  }

  // ------------------------------------------------------------------------ prune

  /** The manual checkpoints among the first k, rebased in order. */
  function NamedRebased(b: Book, k: nat): Entries
    requires k <= |b.order|
  {
    if k == 0 then b.entries
    else
      var es := NamedRebased(b, k - 1);
      if Named(b, k - 1) then Rebased(es, b.order[k - 1]) else es
  }

  predicate Named(b: Book, i: nat)
    requires i < |b.order|
  {
    !(b.order[i] in b.entries && b.entries[b.order[i]].auto)
  }

  /** The manual checkpoints among the first k, the latest first. */
  function NamedOlder(b: Book, k: nat): seq<string>
    requires k <= |b.order|
  {
    if k == 0 then []
    else (if Named(b, k - 1) then [b.order[k - 1]] else []) + NamedOlder(b, k - 1)
  }

  /** The keys of `order` that are kept, in order. */
  function Remaining(order: seq<string>, kept: seq<string>): (r: seq<string>)
    ensures |r| <= |order|
  {
    if order == [] then []
    else (if order[0] in kept then [order[0]] else []) + Remaining(order[1..], kept)
  }

  function Cut(b: Book, keepLast: int): nat { Max(0, |b.order| - Max(0, keepLast)) }

  /** The kept ids: the manual ones before the cut (if they are kept) and the window. */
  function KeptIds(b: Book, keepLast: int, keepNamed: bool): seq<string> {
    NamedOlder(b, if keepNamed then Cut(b, keepLast) else 0) + b.order[Cut(b, keepLast)..]
  }

  /** `prune_checkpoints`. */
  function Pruned(b: Book, keepLast: int, keepNamed: bool): Book {
    if |b.order| <= keepLast then b
    else
      var cut := Cut(b, keepLast);
      var older := if keepNamed then cut else 0;
      var kept := KeptIds(b, keepLast, keepNamed);
      Book(Remaining(b.order, kept), Restricted(HeadRebased(NamedRebased(b, older), kept), kept))
  }

  /** The first kept checkpoint made independent of its parent. */
  function HeadRebased(entries: Entries, kept: seq<string>): Entries {
    if kept != [] then Rebased(entries, kept[0]) else entries
  }

  function Restricted(entries: Entries, kept: seq<string>): Entries { map id | id in entries && id in kept :: entries[id] }

  // ------------------------------------------------------- what a chain stands for

  /** Every entry is in keeping with the frame its checkpoint was taken of. */
  ghost predicate Faithful(entries: Entries, frames: map<string, Snapshot>) {
    forall id :: id in entries ==> id in frames && FaithfulEntry(entries[id], frames, frames[id])
  }

  ghost predicate FaithfulEntry(e: Checkpoint, frames: map<string, Snapshot>, fr: Snapshot) {
    match e.body
    case Full(snapshot) => snapshot == fr
    case Delta(parent, ops) => parent in frames && fr == Patch(frames[parent], ops)
  }

  lemma {:induction false} FaithfulResolves(entries: Entries, frames: map<string, Snapshot>, id: string, k: nat)
    requires Faithful(entries, frames) && Resolve(entries, id, k).Some?
    ensures id in frames && Resolve(entries, id, k) == Some(frames[id])
    decreases k
  {
    assert FaithfulEntry(entries[id], frames, frames[id]);
    if entries[id].body.Delta? {
      FaithfulResolves(entries, frames, entries[id].body.parent, k - 1);
    }
  }

  lemma FaithfulValue(entries: Entries, frames: map<string, Snapshot>, id: string)
    requires Faithful(entries, frames) && Materialised(entries, id).Some?
    ensures id in frames && Materialised(entries, id) == Some(frames[id])
  {
    var k := MaterialisedResolves(entries, id, {});
    FaithfulResolves(entries, frames, id, k);
  }

  lemma RebaseStaysFaithful(entries: Entries, frames: map<string, Snapshot>, id: string)
    requires Faithful(entries, frames)
    ensures Faithful(Rebased(entries, id), frames)
  {
    hide Materialise, Patch;
    if id in entries && Materialised(entries, id).Some? {
      FaithfulValue(entries, frames, id);
    }
  }

  lemma {:induction false} NamedRebasedFaithful(b: Book, k: nat, frames: map<string, Snapshot>)
    requires k <= |b.order| && Faithful(b.entries, frames)
    ensures Faithful(NamedRebased(b, k), frames)
  {
    if k > 0 {
      NamedRebasedFaithful(b, k - 1, frames);
      RebaseStaysFaithful(NamedRebased(b, k - 1), frames, b.order[k - 1]);
    }
  }

  /** Pruning never makes a kept checkpoint stand for another frame. */
  lemma PruneStaysFaithful(b: Book, keepLast: int, keepNamed: bool, frames: map<string, Snapshot>)
    requires Faithful(b.entries, frames)
    ensures Faithful(Pruned(b, keepLast, keepNamed).entries, frames)
  {
    if |b.order| > keepLast {
      var cut := Cut(b, keepLast);
      var older := if keepNamed then cut else 0;
      var kept := KeptIds(b, keepLast, keepNamed);
      var es := NamedRebased(b, older);
      hide NamedRebased, NamedOlder, Remaining, Rebased, FaithfulEntry;
      NamedRebasedFaithful(b, older, frames);
      if kept != [] {
        RebaseStaysFaithful(es, frames, kept[0]);
      }
    }
  }

  // -------------------------------------------------------------- unbroken chains

  /** Each delta's parent is the checkpoint just before it. */
  ghost predicate Linked(b: Book) { Ordered(b) && forall i: nat :: i < |b.order| ==> LinkedAt(b, i) }

  ghost predicate LinkedAt(b: Book, i: nat)
    requires i < |b.order|
  {
    && b.order[i] != "" && b.order[i] in b.entries
    && (b.entries[b.order[i]].body.Delta? ==> i > 0 && b.entries[b.order[i]].body.parent == b.order[i - 1])
  }

  lemma {:induction false} LinkedResolves(b: Book, i: nat)
    requires Linked(b) && i < |b.order|
    ensures Resolve(b.entries, b.order[i], i).Some?
  {
    assert LinkedAt(b, i);
    if i > 0 {
      assert LinkedAt(b, i - 1);
      LinkedResolves(b, i - 1);
    }
  }

  /** Every checkpoint of an unbroken chain can be materialised. */
  lemma LinkedHasValues(b: Book, id: string)
    requires Linked(b) && id in b.entries
    ensures Materialised(b.entries, id).Some?
  {
    var i :| 0 <= i < |b.order| && b.order[i] == id;
    LinkedResolves(b, i);
    ResolvedIsValue(b.entries, id, i);
  }

  // -------------------------------------------------- exactly when pruning is safe

  /**
   * The window's first checkpoint is a delta whose parent is dropped, and it is not
   * rebased because an older manual checkpoint stands in front of it.
   */
  predicate Harmful(b: Book, keepLast: int, keepNamed: bool) {
    var cut := Cut(b, keepLast);
    && keepNamed && |b.order| > keepLast && 0 < cut < |b.order|
    && AnyNamed(b, cut)
    && b.order[cut] in b.entries && b.entries[b.order[cut]].body.Delta? && !Named(b, cut - 1)
  }

  lemma {:induction false} NamedOlderHas(b: Book, k: nat, id: string)
    requires k <= |b.order|
    ensures id in NamedOlder(b, k) <==> exists i :: 0 <= i < k && Named(b, i) && b.order[i] == id
  {
    if k > 0 {
      NamedOlderHas(b, k - 1, id);
    }
  }

  lemma {:induction false} RemainingConcat(x: seq<string>, y: seq<string>, kept: seq<string>)
    ensures Remaining(x + y, kept) == Remaining(x, kept) + Remaining(y, kept)
  {
    if x == [] {
      assert x + y == y;
    } else {
      assert (x + y)[1..] == x[1..] + y;
      RemainingConcat(x[1..], y, kept);
      var first := if x[0] in kept then [x[0]] else [];
      assert (first + Remaining(x[1..], kept)) + Remaining(y, kept) == first + (Remaining(x[1..], kept) + Remaining(y, kept));
    }
  }

  lemma {:induction false} RemainingAll(order: seq<string>, kept: seq<string>)
    requires forall i :: 0 <= i < |order| ==> order[i] in kept
    ensures Remaining(order, kept) == order
  {
    if order != [] {
      RemainingAll(order[1..], kept);
    }
  }

  /** The manual ones among the first k, in order. */
  function NamedInOrder(b: Book, k: nat): (ids: seq<string>)
    requires k <= |b.order|
    ensures |ids| <= k
  {
    if k == 0 then [] else NamedInOrder(b, k - 1) + (if Named(b, k - 1) then [b.order[k - 1]] else [])
  }

  lemma {:induction false} NamedInOrderHas(b: Book, k: nat)
    requires k <= |b.order|
    ensures forall id :: id in NamedInOrder(b, k) <==> exists i :: 0 <= i < k && Named(b, i) && b.order[i] == id
    ensures k > 0 && Named(b, k - 1) ==>
              NamedInOrder(b, k) != [] && NamedInOrder(b, k)[|NamedInOrder(b, k)| - 1] == b.order[k - 1]
  {
    if k > 0 {
      NamedInOrderHas(b, k - 1);
    }
  }

  lemma {:induction false} NamedInOrderDistinct(b: Book, k: nat)
    requires Ordered(b) && k <= |b.order|
    ensures forall i, j :: 0 <= i < j < |NamedInOrder(b, k)| ==> NamedInOrder(b, k)[i] != NamedInOrder(b, k)[j]
  {
    if k > 0 {
      NamedInOrderDistinct(b, k - 1);
      NamedInOrderHas(b, k - 1);
      assert b.order[k - 1] !in NamedInOrder(b, k - 1);
    }
  }

  lemma {:induction false} RemainingOlder(b: Book, k: nat, kept: seq<string>)
    requires k <= |b.order|
    requires forall i :: 0 <= i < k ==> (b.order[i] in kept <==> Named(b, i))
    ensures Remaining(b.order[..k], kept) == NamedInOrder(b, k)
  {
    if k > 0 {
      RemainingOlder(b, k - 1, kept);
      assert b.order[..k] == b.order[..k - 1] + [b.order[k - 1]];
      RemainingConcat(b.order[..k - 1], [b.order[k - 1]], kept);
      assert [b.order[k - 1]][1..] == [];
    }
  }

  lemma KeptIdsHave(b: Book, keepLast: int, keepNamed: bool, i: nat)
    requires Ordered(b) && i < |b.order|
    ensures b.order[i] in KeptIds(b, keepLast, keepNamed) <==>
            i >= Cut(b, keepLast) || (keepNamed && Named(b, i))
  {
    var cut := Cut(b, keepLast);
    NamedOlderHas(b, if keepNamed then cut else 0, b.order[i]);
    if i >= cut {
      assert b.order[cut..][i - cut] == b.order[i];
    }
  }

  /** What is left of the order. */
  lemma PrunedOrder(b: Book, keepLast: int, keepNamed: bool)
    requires Ordered(b) && |b.order| > keepLast
    ensures var cut := Cut(b, keepLast);
            Pruned(b, keepLast, keepNamed).order ==
            (if keepNamed then NamedInOrder(b, cut) else []) + b.order[cut..]
  {
    hide NamedOlder, NamedInOrder, Remaining, Ordered, Rebased, Named, KeptIds;
    var cut, kept := Cut(b, keepLast), KeptIds(b, keepLast, keepNamed);
    forall i: nat | i < |b.order|
      ensures b.order[i] in kept <==> i >= cut || (keepNamed && Named(b, i))
    {
      KeptIdsHave(b, keepLast, keepNamed, i);
    }
    assert b.order == b.order[..cut] + b.order[cut..];
    RemainingConcat(b.order[..cut], b.order[cut..], kept);
    forall i | 0 <= i < |b.order[cut..]|
      ensures b.order[cut..][i] in kept
    {
      assert b.order[cut..][i] == b.order[cut + i];
    }
    RemainingAll(b.order[cut..], kept);
    if keepNamed {
      RemainingOlder(b, cut, kept);
    } else {
      RemainingNone(b.order[..cut], kept);
    }
  }

  lemma {:induction false} RemainingNone(order: seq<string>, kept: seq<string>)
    requires forall i :: 0 <= i < |order| ==> order[i] !in kept
    ensures Remaining(order, kept) == []
  {
    if order != [] {
      RemainingNone(order[1..], kept);
    }
  }

  /** In an unbroken chain every rebase succeeds. */
  lemma RebasedEntry(entries: Entries, id: string, x: string)
    requires id in entries && Materialised(entries, id).Some? && x in entries
    ensures Rebased(entries, id).Keys == entries.Keys
    ensures Rebased(entries, id)[x] == if x == id then entries[x].(body := Full(Materialised(entries, id).value)) else entries[x]
  {
  }

  /** The entries once the first k manual checkpoints are rebased. */
  lemma {:induction false} NamedRebasedEntry(b: Book, k: nat, i: nat)
    requires Linked(b) && k <= |b.order| && i < |b.order|
    ensures NamedRebased(b, k).Keys == b.entries.Keys && LinkedAt(b, i) && Materialised(b.entries, b.order[i]).Some?
    ensures forall x :: Materialised(NamedRebased(b, k), x) == Materialised(b.entries, x)
    ensures NamedRebased(b, k)[b.order[i]] ==
            if i < k && Named(b, i) then b.entries[b.order[i]].(body := Full(Materialised(b.entries, b.order[i]).value))
            else b.entries[b.order[i]]
  {
    hide Materialise, Resolve;
    assert LinkedAt(b, i);
    LinkedHasValues(b, b.order[i]);
    if k > 0 {
      NamedRebasedEntry(b, k - 1, i);
      if Named(b, k - 1) {
        var es, id := NamedRebased(b, k - 1), b.order[k - 1];
        assert LinkedAt(b, k - 1);
        LinkedHasValues(b, id);
        RebasedEntry(es, id, b.order[i]);
        forall x
          ensures Materialised(NamedRebased(b, k), x) == Materialised(b.entries, x)
        {
          RebaseKeepsValues(es, id, x);
        }
      }
    }
  }

  predicate AnyNamed(b: Book, k: nat)
    requires k <= |b.order|
  {
    exists i :: 0 <= i < k && Named(b, i)
  }

  /** Pruning makes this kept checkpoint a whole frame: a manual one, or the window's first if none is manual. */
  predicate MadeWhole(b: Book, cut: nat, keepNamed: bool, i: nat)
    requires cut <= |b.order|
  {
    i < cut || (i == cut && !(keepNamed && AnyNamed(b, cut)))
  }

  /** The first kept id: the latest manual one before the cut, or else the window's first. */
  lemma KeptHead(b: Book, keepLast: int, keepNamed: bool) returns (h: nat)
    requires Ordered(b)
    ensures var kept, cut := KeptIds(b, keepLast, keepNamed), Cut(b, keepLast);
            && (kept == [] ==> cut == |b.order|)
            && (kept != [] ==> h < |b.order| && kept[0] == b.order[h] && b.order[h] in b.entries
                               && (if keepNamed && AnyNamed(b, cut) then h < cut && Named(b, h) else h == cut))
  {
    var kept, cut := KeptIds(b, keepLast, keepNamed), Cut(b, keepLast);
    var older := NamedOlder(b, if keepNamed then cut else 0);
    h := cut;
    if older != [] {
      assert older[0] in older && kept[0] == older[0];
      NamedOlderHas(b, if keepNamed then cut else 0, older[0]);
      h :| 0 <= h < cut && Named(b, h) && b.order[h] == older[0];
    } else if keepNamed {
      forall i | 0 <= i < cut
        ensures !Named(b, i)
      {
        NamedOlderHas(b, cut, b.order[i]);
      }
    }
  }

  /** The entries that pruning leaves. */
  lemma PrunedEntry(b: Book, keepLast: int, keepNamed: bool, i: nat)
    requires Linked(b) && |b.order| > keepLast && i < |b.order|
    ensures var p, cut := Pruned(b, keepLast, keepNamed), Cut(b, keepLast);
            && (b.order[i] in p.entries <==> i >= cut || (keepNamed && Named(b, i)))
            && LinkedAt(b, i) && Materialised(b.entries, b.order[i]).Some?
            && (b.order[i] in p.entries ==>
                  p.entries[b.order[i]] ==
                  if MadeWhole(b, cut, keepNamed, i)
                  then b.entries[b.order[i]].(body := Full(Materialised(b.entries, b.order[i]).value))
                  else b.entries[b.order[i]])
  {
    hide Materialise, Resolve, NamedRebased, Rebased, NamedOlder;
    var cut, kept := Cut(b, keepLast), KeptIds(b, keepLast, keepNamed);
    var older := if keepNamed then cut else 0;
    var es := NamedRebased(b, older);
    var h := KeptHead(b, keepLast, keepNamed);
    KeptIdsHave(b, keepLast, keepNamed, i);
    NamedRebasedEntry(b, older, i);
    if kept != [] {
      LinkedHasValues(b, kept[0]);
      RebasedEntry(es, kept[0], b.order[i]);
    }
  }

  /** A harmless prune leaves an unbroken chain. */
  lemma HarmlessStaysLinked(b: Book, keepLast: int, keepNamed: bool)
    requires Linked(b) && !Harmful(b, keepLast, keepNamed)
    ensures Linked(Pruned(b, keepLast, keepNamed))
  {
    if |b.order| > keepLast {
      PrunedOrdered(b, keepLast, keepNamed);
      hide Pruned, LinkedAt, Ordered, Harmful;
      forall j: nat | j < |Pruned(b, keepLast, keepNamed).order|
        ensures LinkedAt(Pruned(b, keepLast, keepNamed), j)
      {
        PlaceLinked(b, keepLast, keepNamed, j);
      }
    }
  }

  lemma PlaceLinked(b: Book, keepLast: int, keepNamed: bool, j: nat)
    requires Linked(b) && !Harmful(b, keepLast, keepNamed) && |b.order| > keepLast
    requires j < |Pruned(b, keepLast, keepNamed).order|
    ensures LinkedAt(Pruned(b, keepLast, keepNamed), j)
  {
    PrunedOrder(b, keepLast, keepNamed);
    var cut := Cut(b, keepLast);
    var older := if keepNamed then NamedInOrder(b, cut) else [];
    NamedInOrderHas(b, cut);
    hide Pruned, Harmful, NamedInOrder, Linked, Cut;
    if j < |older| {
      OlderLinked(b, keepLast, keepNamed, j);
    } else {
      var i := j - |older| + cut;
      if i > cut {
        WindowLinked(b, keepLast, keepNamed, i, j);
      } else {
        WindowHeadLinked(b, keepLast, keepNamed, j);
      }
    }
  }

  lemma OlderLinked(b: Book, keepLast: int, keepNamed: bool, j: nat)
    requires Linked(b) && |b.order| > keepLast && keepNamed
    requires var p, older := Pruned(b, keepLast, keepNamed), NamedInOrder(b, Cut(b, keepLast));
             j < |older| && j < |p.order| && p.order[j] == older[j]
    ensures LinkedAt(Pruned(b, keepLast, keepNamed), j)
  {
    var cut := Cut(b, keepLast);
    var older := NamedInOrder(b, cut);
    NamedInOrderHas(b, cut);
    hide Pruned, NamedInOrder, Linked, Cut;
    assert older[j] in older;
    var i :| 0 <= i < cut && Named(b, i) && b.order[i] == older[j];
    PrunedEntry(b, keepLast, keepNamed, i);
  }

  /** Later checkpoints of the window keep entry and predecessor. */
  lemma WindowLinked(b: Book, keepLast: int, keepNamed: bool, i: nat, j: nat)
    requires Linked(b) && |b.order| > keepLast && Cut(b, keepLast) < i < |b.order|
    requires var p := Pruned(b, keepLast, keepNamed);
             0 < j < |p.order| && p.order[j] == b.order[i] && p.order[j - 1] == b.order[i - 1]
    ensures LinkedAt(Pruned(b, keepLast, keepNamed), j)
  {
    hide Pruned, Materialised, Linked, Cut, AnyNamed;
    PrunedEntry(b, keepLast, keepNamed, i);
  }

  /** The window's first is whole, or its parent is the manual checkpoint kept just before it. */
  lemma WindowHeadLinked(b: Book, keepLast: int, keepNamed: bool, j: nat)
    requires Linked(b) && !Harmful(b, keepLast, keepNamed) && |b.order| > keepLast && Cut(b, keepLast) < |b.order|
    requires var p, cut := Pruned(b, keepLast, keepNamed), Cut(b, keepLast);
             && j < |p.order| && p.order[j] == b.order[cut]
             && (cut > 0 && keepNamed && Named(b, cut - 1) ==> j > 0 && p.order[j - 1] == b.order[cut - 1])
    ensures LinkedAt(Pruned(b, keepLast, keepNamed), j)
  {
    hide Pruned, Materialised, Linked, Cut, AnyNamed;
    PrunedEntry(b, keepLast, keepNamed, Cut(b, keepLast));
  }

  lemma PrunedOrdered(b: Book, keepLast: int, keepNamed: bool)
    requires Linked(b) && |b.order| > keepLast
    ensures Ordered(Pruned(b, keepLast, keepNamed))
  {
    var p, cut := Pruned(b, keepLast, keepNamed), Cut(b, keepLast);
    var older := if keepNamed then NamedInOrder(b, cut) else [];
    PrunedOrder(b, keepLast, keepNamed);
    NamedInOrderHas(b, cut);
    NamedInOrderDistinct(b, cut);
    hide NamedInOrder, Pruned, LinkedAt;
    assert Distinct(p.order) by {
      forall id | id in older
        ensures id !in b.order[cut..]
      {
        var i :| 0 <= i < cut && b.order[i] == id;
      }
      DistinctConcat(older, b.order[cut..]);
    }
    hide Ordered, Linked, Distinct, Cut;
    forall id
      ensures id in p.order <==> id in p.entries
    {
      PrunedMember(b, keepLast, keepNamed, older, id);
    }
  }

  lemma {:induction false} PrunedMember(b: Book, keepLast: int, keepNamed: bool, older: seq<string>, id: string)
    requires Linked(b) && |b.order| > keepLast && older == if keepNamed then NamedInOrder(b, Cut(b, keepLast)) else []
    requires Pruned(b, keepLast, keepNamed).order == older + b.order[Cut(b, keepLast)..]
    ensures id in Pruned(b, keepLast, keepNamed).order <==> id in Pruned(b, keepLast, keepNamed).entries
  {
    var cut := Cut(b, keepLast);
    PrunedSubset(b, keepLast, keepNamed);
    NamedInOrderHas(b, cut);
    InParts(older, b.order[cut..], id);
    hide Pruned, NamedInOrder, Cut;
    if id in b.order {
      var i :| 0 <= i < |b.order| && b.order[i] == id;
      PrunedEntry(b, keepLast, keepNamed, i);
    }
  }

  lemma DistinctConcat(x: seq<string>, y: seq<string>)
    requires Distinct(x) && Distinct(y) && forall id :: id in x ==> id !in y
    ensures Distinct(x + y)
  {
    var z := x + y;
    forall i, j | 0 <= i < j < |z|
      ensures z[i] != z[j]
    {
      assert i < |x| ==> z[i] in x;
      assert j >= |x| ==> z[j] in y;
    }
  }

  lemma InParts(x: seq<string>, y: seq<string>, id: string)
    ensures id in x + y <==> id in x || id in y
  {
  }

  lemma PrunedSubset(b: Book, keepLast: int, keepNamed: bool)
    requires Linked(b)
    ensures Pruned(b, keepLast, keepNamed).entries.Keys <= b.entries.Keys
  {
    if |b.order| > keepLast {
      var older := if keepNamed then Cut(b, keepLast) else 0;
      if b.order != [] {
        NamedRebasedEntry(b, older, 0);
      } else {
        assert older == 0;
      }
    }
  }

  /** The frames an unbroken chain stands for. */
  function FramesOf(b: Book): map<string, Snapshot> {
    map id | id in b.entries && Materialised(b.entries, id).Some? :: Materialised(b.entries, id).value
  }

  lemma LinkedIsFaithful(b: Book)
    requires Linked(b)
    ensures Faithful(b.entries, FramesOf(b))
  {
    hide Materialise, Resolve;
    forall id | id in b.entries
      ensures id in FramesOf(b) && FaithfulEntry(b.entries[id], FramesOf(b), FramesOf(b)[id])
    {
      LinkedHasValues(b, id);
      var i :| 0 <= i < |b.order| && b.order[i] == id;
      assert LinkedAt(b, i);
      if b.entries[id].body.Delta? {
        assert LinkedAt(b, i - 1);
        LinkedHasValues(b, b.order[i - 1]);
      }
      ValueOfEntry(b.entries, id);
    }
  }

  lemma ValueOfEntry(entries: Entries, id: string)
    requires Materialised(entries, id).Some?
    ensures match entries[id].body
            case Full(snapshot) => Materialised(entries, id) == Some(snapshot)
            case Delta(parent, ops) =>
              Materialised(entries, parent).Some? && Materialised(entries, id) == Some(Patch(Materialised(entries, parent).value, ops))
  {
    var k := MaterialisedResolves(entries, id, {});
    if entries[id].body.Delta? {
      ResolvedIsValue(entries, entries[id].body.parent, k - 1);
    }
  }

  /**
   * Pruning an unbroken chain leaves every kept checkpoint's value as it was if and
   * only if it is not harmful.
   */
  lemma PruneKeepsValuesIff(b: Book, keepLast: int, keepNamed: bool)
    requires Linked(b)
    ensures var p := Pruned(b, keepLast, keepNamed);
            (forall id :: id in p.entries ==> Materialised(p.entries, id) == Materialised(b.entries, id))
            <==> !Harmful(b, keepLast, keepNamed)
  {
    var p := Pruned(b, keepLast, keepNamed);
    LinkedIsFaithful(b);
    PruneStaysFaithful(b, keepLast, keepNamed, FramesOf(b));
    PrunedSubset(b, keepLast, keepNamed);
    if Harmful(b, keepLast, keepNamed) {
      var id := b.order[Cut(b, keepLast)];
      HarmBreaks(b, keepLast, keepNamed, Cut(b, keepLast));
      LinkedHasValues(b, id);
    } else {
      HarmlessStaysLinked(b, keepLast, keepNamed);
      hide Pruned, Linked, Faithful, Harmful, Materialised;
      forall id | id in p.entries
        ensures Materialised(p.entries, id) == Materialised(b.entries, id)
      {
        LinkedHasValues(p, id);
        LinkedHasValues(b, id);
        FaithfulValue(p.entries, FramesOf(b), id);
      }
    }
  }

  /**
   * After a harmful prune no checkpoint of the window can be materialised, up to the
   * next one that holds a whole frame: not even the newest, if all are deltas.
   */
  lemma {:induction false} HarmBreaks(b: Book, keepLast: int, keepNamed: bool, i: nat)
    requires Linked(b) && Harmful(b, keepLast, keepNamed) && Cut(b, keepLast) <= i < |b.order|
    requires forall j :: Cut(b, keepLast) <= j <= i ==> b.order[j] in b.entries && b.entries[b.order[j]].body.Delta?
    ensures b.order[i] in Pruned(b, keepLast, keepNamed).entries
    ensures Materialised(Pruned(b, keepLast, keepNamed).entries, b.order[i]) == None
  {
    hide Materialise, Resolve, Rebased, NamedRebased, NamedOlder, Remaining, Pruned, KeptIds;
    var p, cut := Pruned(b, keepLast, keepNamed), Cut(b, keepLast);
    PrunedEntry(b, keepLast, keepNamed, i);
    PrunedEntry(b, keepLast, keepNamed, i - 1);
    if i > cut {
      HarmBreaks(b, keepLast, keepNamed, i - 1);
    }
    if Materialised(p.entries, b.order[i]).Some? {
      ValueOfEntry(p.entries, b.order[i]);
      AbsentHasNoValue(p.entries, b.order[i - 1]);
    }
  }

  lemma AbsentHasNoValue(entries: Entries, id: string)
    ensures Materialised(entries, id).Some? ==> id in entries
  {
  }

  /**
   * One manual checkpoint followed by 31 automatic ones: the automatic prune then
   * leaves not even the newest checkpoint restorable.
   */
  lemma ManualThenAutosAreLost(b: Book)
    requires Linked(b) && |b.order| == AUTO_MAX + 2 && Named(b, 0)
    requires forall i :: 0 < i < |b.order| ==> !Named(b, i) && b.entries[b.order[i]].body.Delta?
    ensures b.order[AUTO_MAX + 1] in Pruned(b, AUTO_MAX, true).entries
    ensures Materialised(Pruned(b, AUTO_MAX, true).entries, b.order[AUTO_MAX + 1]) == None
  {
    hide Pruned, Linked, Materialise;
    assert Cut(b, AUTO_MAX) == 2 && AnyNamed(b, 2);
    HarmBreaks(b, AUTO_MAX, true, AUTO_MAX + 1);
  }

  // ------------------------------------------------------------- what a prune leaves

  /** Rebasing does not change what is known of a checkpoint besides its body. */
  lemma {:induction false} NamedKeepsAuto(b: Book, k: nat)
    requires k <= |b.order|
    ensures NamedRebased(b, k).Keys == b.entries.Keys
    ensures forall id :: id in b.entries ==> SameLabels(NamedRebased(b, k)[id], b.entries[id])
  {
    if k > 0 {
      NamedKeepsAuto(b, k - 1);
    }
  }

  predicate SameLabels(c: Checkpoint, d: Checkpoint) { c.lsn == d.lsn && c.auto == d.auto }

  /** One of the last `keepLast` checkpoints, or a manual one while those are kept. */
  predicate Stays(b: Book, keepLast: int, keepNamed: bool, i: nat)
    requires i < |b.order|
  {
    || i >= |b.order| - (if keepLast < 0 then 0 else keepLast)
    || (keepNamed && b.order[i] in b.entries && !b.entries[b.order[i]].auto)
  }

  /** The positions `at`, in order, of what is left. */
  predicate Places(order: seq<string>, left: seq<string>, at: seq<nat>) {
    && |at| == |left|
    && (forall j :: 0 <= j < |at| ==> at[j] < |order| && order[at[j]] == left[j])
    && (forall j, k :: 0 <= j < k < |at| ==> at[j] < at[k])
  }

  function Dropped(b: Book, keepLast: int, keepNamed: bool): set<nat> {
    set i: nat | i < |b.order| && !Stays(b, keepLast, keepNamed, i)
  }

  /**
   * Exactly what stays is left, under its labels and in its order, and the number of
   * the others is reported; a book that is not longer than `keepLast` is left alone.
   */
  ghost predicate PruneOutcome(b: Book, keepLast: int, keepNamed: bool, p: Book, dropped: int) {
    if |b.order| <= keepLast then p == b && dropped == 0
    else
      && (forall i: nat :: i < |b.order| ==> (b.order[i] in p.order <==> Stays(b, keepLast, keepNamed, i)))
      && (forall i: nat :: i < |b.order| ==> (b.order[i] in p.entries <==> Stays(b, keepLast, keepNamed, i)))
      && p.entries.Keys <= b.entries.Keys
      && (forall id :: id in p.entries ==> SameLabels(p.entries[id], b.entries[id]))
      && (exists at :: Places(b.order, p.order, at))
      && dropped == |Dropped(b, keepLast, keepNamed)|
  }

  lemma {:induction false} RemainingPlaces(order: seq<string>, kept: seq<string>) returns (at: seq<nat>)
    ensures Places(order, Remaining(order, kept), at)
    ensures forall i: nat :: i in at <==> i < |order| && order[i] in kept
    decreases |order|
  {
    if order == [] {
      return [];
    }
    var n := |order| - 1;
    var init, last := order[..n], [order[n]];
    assert order == init + last && last[1..] == [];
    RemainingConcat(init, last, kept);
    assert Remaining(last, kept) == if order[n] in kept then last else [];
    hide Remaining;
    at := RemainingPlaces(init, kept);
    if order[n] in kept {
      at := at + [n];
    }
  }

  /** Of n positions, those that are not among the |at| increasing ones. */
  lemma {:induction false} OthersCount(at: seq<nat>, n: nat)
    requires forall j, k :: 0 <= j < k < |at| ==> at[j] < at[k]
    requires forall j :: 0 <= j < |at| ==> at[j] < n
    ensures |set i: nat | i < n && i !in at| == n - |at|
  {
    var others := set i: nat | i < n && i !in at;
    if n == 0 {
      assert others == {};
    } else {
      var last := n - 1;
      if last in at {
        var k := |at| - 1;
        assert at[k] == last by {
          var j :| 0 <= j < |at| && at[j] == last;
        }
        OthersCount(at[..k], last);
        assert forall i: nat :: i in at <==> i in at[..k] || i == last by {
          assert at == at[..k] + [last];
        }
        assert others == set i: nat | i < last && i !in at[..k];
      } else {
        assert forall j :: 0 <= j < |at| ==> at[j] in at;
        OthersCount(at, last);
        assert others == (set i: nat | i < last && i !in at) + {last};
      }
    }
  }

  lemma PruneLeaves(b: Book, keepLast: int, keepNamed: bool) returns (at: seq<nat>)
    requires Ordered(b) && |b.order| > keepLast
    ensures Places(b.order, Pruned(b, keepLast, keepNamed).order, at)
    ensures forall i: nat :: i in at <==> i < |b.order| && Stays(b, keepLast, keepNamed, i)
  {
    hide NamedRebased, NamedOlder, Remaining, KeptIds, Rebased, Ordered, Stays;
    var kept := KeptIds(b, keepLast, keepNamed);
    at := RemainingPlaces(b.order, kept);
    forall i: nat | i < |b.order|
      ensures b.order[i] in kept <==> Stays(b, keepLast, keepNamed, i)
    {
      KeptStays(b, keepLast, keepNamed, i);
    }
  }

  lemma KeptStays(b: Book, keepLast: int, keepNamed: bool, i: nat)
    requires Ordered(b) && i < |b.order|
    ensures b.order[i] in KeptIds(b, keepLast, keepNamed) <==> Stays(b, keepLast, keepNamed, i)
  {
    hide KeptIds;
    KeptIdsHave(b, keepLast, keepNamed, i);
  }

  lemma PruneEntries(b: Book, keepLast: int, keepNamed: bool, i: nat)
    requires Ordered(b) && |b.order| > keepLast && i < |b.order|
    ensures b.order[i] in Pruned(b, keepLast, keepNamed).entries <==> Stays(b, keepLast, keepNamed, i)
  {
    hide NamedRebased, NamedOlder, Remaining, KeptIds, Stays;
    KeptStays(b, keepLast, keepNamed, i);
    NamedKeepsAuto(b, if keepNamed then Cut(b, keepLast) else 0);
  }

  lemma PruneLabels(b: Book, keepLast: int, keepNamed: bool)
    ensures var p := Pruned(b, keepLast, keepNamed);
            p.entries.Keys <= b.entries.Keys && forall id :: id in p.entries ==> SameLabels(p.entries[id], b.entries[id])
  {
    hide NamedRebased, NamedOlder, Remaining, KeptIds, Materialised;
    NamedKeepsAuto(b, if keepNamed then Cut(b, keepLast) else 0);
  }

  lemma PruneMembers(b: Book, keepLast: int, keepNamed: bool, at: seq<nat>)
    requires Ordered(b) && |b.order| > keepLast && Places(b.order, Pruned(b, keepLast, keepNamed).order, at)
    requires forall i: nat :: i in at <==> i < |b.order| && Stays(b, keepLast, keepNamed, i)
    ensures forall i: nat :: i < |b.order| ==>
              (b.order[i] in Pruned(b, keepLast, keepNamed).order <==> Stays(b, keepLast, keepNamed, i))
    ensures forall i: nat :: i < |b.order| ==>
              (b.order[i] in Pruned(b, keepLast, keepNamed).entries <==> Stays(b, keepLast, keepNamed, i))
  {
    hide Pruned, Stays, Places;
    var p := Pruned(b, keepLast, keepNamed);
    forall i: nat | i < |b.order|
      ensures b.order[i] in p.order <==> Stays(b, keepLast, keepNamed, i)
      ensures b.order[i] in p.entries <==> Stays(b, keepLast, keepNamed, i)
    {
      PlaceOf(b.order, p.order, at, i);
      PruneEntries(b, keepLast, keepNamed, i);
    }
  }

  lemma ShortBookStays(b: Book, keepLast: int, keepNamed: bool)
    ensures |b.order| <= keepLast ==> Pruned(b, keepLast, keepNamed) == b
  {
  }

  /** What `prune_checkpoints` leaves of any book, and how many it drops. */
  lemma PruneKeepsExactly(b: Book, keepLast: int, keepNamed: bool)
    requires Ordered(b)
    ensures var p := Pruned(b, keepLast, keepNamed);
            PruneOutcome(b, keepLast, keepNamed, p, |b.order| - |p.order|)
  {
    hide Pruned, Stays, SameLabels, Places, Ordered, Dropped;
    ShortBookStays(b, keepLast, keepNamed);
    if |b.order| > keepLast {
      PruneLabels(b, keepLast, keepNamed);
      var at := PruneLeaves(b, keepLast, keepNamed);
      DroppedCount(b, keepLast, keepNamed, Pruned(b, keepLast, keepNamed).order, at);
      PruneMembers(b, keepLast, keepNamed, at);
    }
  }

  lemma DroppedCount(b: Book, keepLast: int, keepNamed: bool, left: seq<string>, at: seq<nat>)
    requires Places(b.order, left, at)
    requires forall i: nat :: i in at <==> i < |b.order| && Stays(b, keepLast, keepNamed, i)
    ensures |Dropped(b, keepLast, keepNamed)| == |b.order| - |left|
  {
    hide Stays;
    OthersCount(at, |b.order|);
    assert Dropped(b, keepLast, keepNamed) == set i: nat | i < |b.order| && i !in at;
  }

  lemma PlaceOf(order: seq<string>, left: seq<string>, at: seq<nat>, i: nat)
    requires Distinct(order) && Places(order, left, at) && i < |order|
    ensures order[i] in left <==> i in at
  {
    if i in at {
      var j :| 0 <= j < |at| && at[j] == i;
      assert left[j] == order[i];
    }
    if order[i] in left {
      var j :| 0 <= j < |left| && left[j] == order[i];
      assert order[at[j]] == order[i];
      assert at[j] in at;
    }
  }
}
