/**
 * Runs of writes, row edits, log compactions, snapshot reads, checkpoints and prunes
 * on one frame (core/dataframe.py:1254-1263, 1629-1711, core/wal.py:80-132): what a
 * checkpoint materialises to, and what the snapshot cache returns.
 */
module CheckpointRuns {
  import opened Sequences
  import opened Wrappers
  import opened CellIds
  import opened Store
  import opened RowEdits
  import opened CellWrites
  import opened Transactions
  import opened Wal
  import opened Frames
  import opened Checkpoints

  /** An operation as logged. */
  datatype Operation = SetCell(op: CellOp) | Reshape(edit: Edit)

  /** The cell writes of an entry; None if it changed a frame's shape. */
  function CellsOf(ops: seq<Operation>): Option<seq<CellOp>>
    decreases |ops|
  {
    if ops == [] then Some([])
    else match CellsOf(ops[..|ops| - 1])
      case None => None
      case Some(cells) => match ops[|ops| - 1]
        case SetCell(op) => Some(cells + [op])
        case Reshape(_) => None
  }

  /** The committed cell writes of the entries; None if a committed one changed a shape. */
  function CommittedOps(es: seq<Entry<Operation>>): Option<seq<CellOp>>
    decreases |es|
  {
    if es == [] then Some([])
    else match CommittedOps(es[..|es| - 1])
      case None => None
      case Some(ops) =>
        var e := es[|es| - 1];
        if e.state != COMMITTED then Some(ops)
        else match CellsOf(e.ops)
          case None => None
          case Some(cells) => Some(ops + cells)
  }

  /** Entries were given out after `lsn`, and no committed one is the next. */
  predicate Gap(g: Log<Operation>, lsn: nat) {
    g.nextLsn > lsn + 1 && forall e :: e in Since(g.entries, lsn) && e.state == COMMITTED ==> e.lsn > lsn + 1
  }

  /** `_ops_sejak`; None where a delta would not do. */
  function OpsSince(g: Log<Operation>, lsn: nat): Option<seq<CellOp>> {
    if Gap(g, lsn) then None
    else match CommittedOps(Since(g.entries, lsn))
      case None => None
      case Some(ops) => if |ops| > DELTA_MAX_OPS then None else Some(ops)
  }

  /** `_bangun_entri_checkpoint`: the whole frame, or the writes since the parent. */
  function NewBody(b: Book, g: Log<Operation>, snapshot: Snapshot): Body {
    if b.order == [] || |b.entries| % FULL_INTERVAL == 0 then Full(snapshot)
    else
      var parent := b.order[|b.order| - 1];
      match OpsSince(g, if parent in b.entries then b.entries[parent].lsn else 0)
      case None => Full(snapshot)
      case Some(ops) => Delta(parent, ops)
  }

  function Put(b: Book, id: string, c: Checkpoint): Book {
    Book(if id in b.entries then b.order else b.order + [id], b.entries[id := c])
  }

  function Autos(b: Book): set<string> { set id | id in b.entries && b.entries[id].auto }

  /** The book with the new checkpoint, before automatic pruning. */
  function Extended(b: Book, g: Log<Operation>, snapshot: Snapshot, id: string, auto: bool): Book {
    Put(b, id, Checkpoint(Max(0, g.nextLsn - 1), auto, NewBody(b, g, snapshot)))
  }

  /** `checkpoint`. */
  function Took(b: Book, g: Log<Operation>, snapshot: Snapshot, id: string, auto: bool): Book {
    var grown := Extended(b, g, snapshot, id, auto);
    if auto && |Autos(grown)| > AUTO_MAX then Pruned(grown, AUTO_MAX, true) else grown
  }

  // ----------------------------------------------------------------------- worlds

  /**
   * One frame's view of its node.  `hist` and `frames` are history: every entry ever
   * appended, and the frame at the moment each checkpoint was taken.
   */
  datatype World = World(
    node: Node,
    wal: Log<Operation>,
    book: Book,
    cache: Option<(Snapshot, nat)>,
    hist: seq<Entry<Operation>>,
    frames: map<string, Snapshot>)

  datatype Event =
    | Write(tx: string, ops: seq<CellOp>)
    | Clash(tx: string, ops: seq<CellOp>)
    | Shape(tx: string, edit: Edit)
    | Compact(keepLast: int)
    | CompactBefore(lsn: int)
    | Look
    | Forget
    | Take(id: string, auto: bool)
    | Prune(keepLast: int, keepNamed: bool)

  function AsLogged(ops: seq<CellOp>): (r: seq<Operation>)
    ensures |r| == |ops| && forall i :: 0 <= i < |r| ==> r[i] == SetCell(ops[i])
  {
    seq(|ops|, i requires 0 <= i < |ops| => SetCell(ops[i]))
  }

  /** The end of a submit: committed or rolled back, one entry is appended. */
  function Logged(w: World, p: Progress, tx: string, ops: seq<Operation>): World {
    var state := if p.ok then COMMITTED else ROLLED_BACK;
    w.(node := p.node, wal := Appended(w.wal, tx, ops, state),
       hist := w.hist + [Entry(|w.hist| + 1, tx, ops, state)])
  }

  /** `_get_cached_snapshot`. */
  function Cached(w: World, f: string): Snapshot
    requires Shaped(w.node)
  {
    if w.cache.Some? && w.cache.value.1 == w.node.version then w.cache.value.0 else FrameOf(w.node, f)
  }

  function Looked(w: World, f: string): World
    requires Shaped(w.node)
  {
    w.(cache := Some((Cached(w, f), w.node.version)))
  }

  ghost predicate Step(f: string, w: World, e: Event, v: World) {
    Shaped(w.node) &&
    match e
    case Write(tx, ops) => OldColumnsOf(w.node, ops, f) && v == Logged(w, Apply(w.node, ops), tx, AsLogged(ops))
    case Clash(tx, ops) => v == Logged(w, Progress(w.node, false), tx, AsLogged(ops))
    case Shape(tx, edit) => v == Logged(w, ApplyEdit(w.node, edit), tx, [Reshape(edit)])
    case Compact(k) => v == w.(wal := w.wal.(entries := KeepLast(w.wal.entries, k)))
    case CompactBefore(lsn) => v == w.(wal := w.wal.(entries := NotBefore(w.wal.entries, lsn)))
    case Look => v == Looked(w, f)
    case Forget => v == w.(cache := None)
    case Take(id, auto) =>
      && id != "" && id !in w.frames
      && v == (if NewBody(w.book, w.wal, Cached(w, f)).Full? then Looked(w, f) else w)
              .(book := Took(w.book, w.wal, Cached(w, f), id, auto), frames := w.frames[id := FrameOf(w.node, f)])
    case Prune(k, named) => v == w.(book := Pruned(w.book, k, named))
  }

  const NO_BOOK := Book([], map[])

  ghost predicate Run(f: string, ws: seq<World>, es: seq<Event>) {
    && |ws| == |es| + 1
    && Tidy(ws[0].node, f) && ws[0] == World(ws[0].node, Log([], 1), NO_BOOK, None, [], map[])
    && forall i :: 0 <= i < |es| ==> Step(f, ws[i], es[i], ws[i + 1])
  }

  // ------------------------------------------------------------------- invariants

  /** The log holds the last of all entries appended, under consecutive numbers. */
  ghost predicate IsTail(g: Log<Operation>, hist: seq<Entry<Operation>>) {
    && g.nextLsn == |hist| + 1
    && |g.entries| <= |hist| && g.entries == hist[|hist| - |g.entries|..]
    && forall i :: 0 <= i < |hist| ==> hist[i].lsn == i + 1
  }

  /** Under the node's version, the cache holds the frame. */
  ghost predicate CacheGood(w: World, f: string)
    requires Shaped(w.node)
  {
    w.cache.Some? ==> w.cache.value.1 <= w.node.version
                      && (w.cache.value.1 == w.node.version ==> w.cache.value.0 == FrameOf(w.node, f))
  }

  /** The writes since a checkpoint lead from its frame to the frame now. */
  ghost predicate Tracks(fr: Snapshot, lsn: nat, hist: seq<Entry<Operation>>, now: Snapshot) {
    lsn <= |hist| && (CommittedOps(hist[lsn..]).Some? ==> now == Patch(fr, CommittedOps(hist[lsn..]).value))
  }

  ghost predicate Tracked(w: World, f: string)
    requires Shaped(w.node)
  {
    forall id :: id in w.book.entries ==>
      id in w.frames && Tracks(w.frames[id], w.book.entries[id].lsn, w.hist, FrameOf(w.node, f))
  }

  ghost predicate Covered(b: Book) { forall id :: id in b.order ==> id in b.entries }

  ghost predicate Inv(w: World, f: string) {
    && Tidy(w.node, f) && IsTail(w.wal, w.hist) && CacheGood(w, f)
    && Covered(w.book) && Faithful(w.book.entries, w.frames) && Tracked(w, f)
  }

  // ------------------------------------------------------------------------ deltas

  lemma TailIsContiguous(g: Log<Operation>, hist: seq<Entry<Operation>>)
    requires IsTail(g, hist)
    ensures Contiguous(g)
  {
    var k := |hist| - |g.entries|;
    forall i | 0 <= i < |g.entries|
      ensures g.entries[i].lsn == g.nextLsn - |g.entries| + i
    {
      assert g.entries[i] == hist[k + i];
    }
  }

  /** No gap after `lsn`: the log still has everything that was appended since. */
  lemma NoGapSince(g: Log<Operation>, hist: seq<Entry<Operation>>, lsn: nat)
    requires IsTail(g, hist) && lsn <= |hist| && !Gap(g, lsn)
    ensures Since(g.entries, lsn) == hist[lsn..]
  {
    TailIsContiguous(g, hist);
    if g.nextLsn == lsn + 1 {
      NotBeforeIsSuffix(g.entries, lsn + 1, |g.entries|);
    } else {
      var cut := NotBeforeCut(g, lsn + 1);
      hide NotBefore, Contiguous;
      var e :| e in g.entries[cut..] && e.state == COMMITTED && e.lsn <= lsn + 1;
      NextIsThere(g, lsn, cut, e);
      NoGapBehind(g, lsn);
      LastOfTail(g, hist, lsn);
    }
  }

  lemma LastOfTail(g: Log<Operation>, hist: seq<Entry<Operation>>, lsn: nat)
    requires IsTail(g, hist) && lsn <= |hist| && |hist| - lsn <= |g.entries|
    ensures g.entries[|g.entries| - (|hist| - lsn)..] == hist[lsn..]
  {
  }

  lemma NextIsThere(g: Log<Operation>, lsn: nat, cut: nat, e: Entry<Operation>)
    requires cut <= |g.entries| && e in g.entries[cut..] && e.lsn <= lsn + 1
    requires forall i :: cut <= i < |g.entries| ==> g.entries[i].lsn >= lsn + 1
    ensures e in g.entries && e.lsn == lsn + 1
  {
    var i :| 0 <= i < |g.entries[cut..]| && g.entries[cut..][i] == e;
    assert g.entries[cut + i] == e;
  }

  /** A delta's writes are all that was committed since the parent, and none of it changed a shape. */
  lemma OpsSinceIsComplete(g: Log<Operation>, hist: seq<Entry<Operation>>, lsn: nat)
    requires IsTail(g, hist) && lsn <= |hist| && OpsSince(g, lsn).Some?
    ensures CommittedOps(hist[lsn..]) == OpsSince(g, lsn)
  {
    NoGapSince(g, hist, lsn);
  }

  lemma {:induction false} LoggedCells(ops: seq<CellOp>)
    ensures CellsOf(AsLogged(ops)) == Some(ops)
    decreases |ops|
  {
    if ops != [] {
      LoggedCells(ops[..|ops| - 1]);
      assert AsLogged(ops)[..|ops| - 1] == AsLogged(ops[..|ops| - 1]);
      assert ops == ops[..|ops| - 1] + [ops[|ops| - 1]];
    }
  }

  lemma CommittedSnoc(es: seq<Entry<Operation>>, e: Entry<Operation>)
    ensures CommittedOps(es + [e]) ==
            match CommittedOps(es)
            case None => None
            case Some(ops) =>
              if e.state != COMMITTED then Some(ops)
              else match CellsOf(e.ops) case None => None case Some(cells) => Some(ops + cells)
  {
    assert (es + [e])[..|es|] == es;
  }

  // ------------------------------------------------------------------------- steps

  /** What a step of the log and the node must do for the checkpoints to stay tracked. */
  lemma AppendTracks(fr: Snapshot, lsn: nat, hist: seq<Entry<Operation>>, e: Entry<Operation>, now: Snapshot, after: Snapshot)
    requires Tracks(fr, lsn, hist, now)
    requires e.state == COMMITTED && CellsOf(e.ops).Some? ==> after == Patch(now, CellsOf(e.ops).value)
    requires e.state != COMMITTED ==> after == now
    ensures Tracks(fr, lsn, hist + [e], after)
  {
    hide Patch, CommittedOps, CellsOf;
    assert (hist + [e])[lsn..] == hist[lsn..] + [e];
    CommittedSnoc(hist[lsn..], e);
    if CommittedOps(hist[lsn..]).Some? && e.state == COMMITTED && CellsOf(e.ops).Some? {
      PatchConcat(fr, CommittedOps(hist[lsn..]).value, CellsOf(e.ops).value);
    }
  }

  /** The invariant after a logged transaction, from what it did to the frame. */
  lemma LoggedKeeps(w: World, f: string, p: Progress, tx: string, ops: seq<Operation>)
    requires Inv(w, f) && Tidy(p.node, f)
    requires p.node.version == w.node.version + (if p.ok then 1 else 0)
    requires !p.ok ==> FrameOf(p.node, f) == FrameOf(w.node, f)
    requires p.ok && CellsOf(ops).Some? ==> FrameOf(p.node, f) == Patch(FrameOf(w.node, f), CellsOf(ops).value)
    ensures Inv(Logged(w, p, tx, ops), f)
  {
    hide Faithful, FrameOf, Patch, CellsOf, CommittedOps, Tidy, IsTail, Tracks;
    var v := Logged(w, p, tx, ops);
    var e := v.hist[|w.hist|];
    LoggedIsTail(w, p, tx, ops);
    TidyIsShaped(w.node, f);
    TidyIsShaped(p.node, f);
    forall id | id in v.book.entries
      ensures id in v.frames && Tracks(v.frames[id], v.book.entries[id].lsn, v.hist, FrameOf(v.node, f))
    {
      AppendTracks(w.frames[id], w.book.entries[id].lsn, w.hist, e, FrameOf(w.node, f), FrameOf(p.node, f));
    }
  }

  lemma LoggedIsTail(w: World, p: Progress, tx: string, ops: seq<Operation>)
    requires IsTail(w.wal, w.hist)
    ensures IsTail(Logged(w, p, tx, ops).wal, Logged(w, p, tx, ops).hist)
  {
    var v := Logged(w, p, tx, ops);
    var k := |w.hist| - |w.wal.entries|;
    assert v.hist[k..] == w.hist[k..] + [v.hist[|w.hist|]];
  }

  lemma WriteKeeps(w: World, f: string, tx: string, ops: seq<CellOp>, v: World)
    requires Inv(w, f) && Step(f, w, Write(tx, ops), v)
    ensures Inv(v, f)
  {
    var p := Apply(w.node, ops);
    LoggedCells(ops);
    if p.ok {
      ApplyIsPatch(w.node, f, ops);
      AcceptedWrites(w.node, ops, Plain(""), 0);
    } else {
      RefusedSameFrame(w.node, f, ops);
    }
    hide Inv, Apply, FrameOf, Patch;
    LoggedKeeps(w, f, p, tx, AsLogged(ops));
  }

  lemma ShapeKeeps(w: World, f: string, tx: string, edit: Edit, v: World)
    requires Inv(w, f) && Step(f, w, Shape(tx, edit), v)
    ensures Inv(v, f)
  {
    hide ApplyEdit, FrameOf, Patch;
    EditedTidy(w.node, edit, f);
    assert CellsOf([Reshape(edit)]) == None;
    LoggedKeeps(w, f, ApplyEdit(w.node, edit), tx, [Reshape(edit)]);
  }

  lemma ClashKeeps(w: World, f: string, tx: string, ops: seq<CellOp>, v: World)
    requires Inv(w, f) && Step(f, w, Clash(tx, ops), v)
    ensures Inv(v, f)
  {
    hide FrameOf, Patch;
    LoggedKeeps(w, f, Progress(w.node, false), tx, AsLogged(ops));
  }

  lemma TrimmedIsTail(g: Log<Operation>, hist: seq<Entry<Operation>>, k: int)
    requires IsTail(g, hist)
    ensures IsTail(g.(entries := KeepLast(g.entries, k)), hist)
    ensures IsTail(g.(entries := NotBefore(g.entries, k)), hist)
  {
    hide NotBefore, Contiguous, KeepLast;
    TailIsContiguous(g, hist);
    var cut := NotBeforeCut(g, k);
    SuffixStaysTail(g, hist, cut);
    KeepLastIsSuffix(g.entries, k);
    var from :| 0 <= from <= |g.entries| && KeepLast(g.entries, k) == g.entries[from..];
    SuffixStaysTail(g, hist, from);
  }

  lemma KeepLastIsSuffix<T>(es: seq<Entry<T>>, k: int)
    ensures exists from: nat :: from <= |es| && KeepLast(es, k) == es[from..]
  {
    var from := if |es| <= k then 0 else if k > 0 then |es| - k else if -k <= |es| then -k else |es|;
    assert KeepLast(es, k) == es[from..];
  }

  lemma SuffixStaysTail(g: Log<Operation>, hist: seq<Entry<Operation>>, from: nat)
    requires IsTail(g, hist) && from <= |g.entries|
    ensures IsTail(g.(entries := g.entries[from..]), hist)
  {
  }

  lemma LookKeeps(w: World, f: string)
    requires Inv(w, f)
    ensures Cached(w, f) == FrameOf(w.node, f) && Inv(Looked(w, f), f)
  {
    hide FrameOf, Faithful, Tidy;
    TidyIsShaped(w.node, f);
  }

  lemma {:induction false} RemainingIn(order: seq<string>, kept: seq<string>)
    ensures forall id :: id in Remaining(order, kept) ==> id in order && id in kept
  {
    if order != [] {
      RemainingIn(order[1..], kept);
    }
  }

  lemma {:induction false} NamedRebasedKeys(b: Book, k: nat)
    requires k <= |b.order|
    ensures NamedRebased(b, k).Keys == b.entries.Keys
    ensures forall id :: id in b.entries ==> NamedRebased(b, k)[id].lsn == b.entries[id].lsn
  {
    if k > 0 {
      NamedRebasedKeys(b, k - 1);
    }
  }

  lemma PrunedKeys(b: Book, keepLast: int, keepNamed: bool)
    requires Covered(b)
    ensures var p := Pruned(b, keepLast, keepNamed);
            && Covered(p) && p.entries.Keys <= b.entries.Keys
            && forall id :: id in p.entries ==> p.entries[id].lsn == b.entries[id].lsn
  {
    hide Materialised, NamedOlder, NamedRebased, Remaining;
    if |b.order| > keepLast {
      var kept := KeptIds(b, keepLast, keepNamed);
      NamedRebasedKeys(b, if keepNamed then Cut(b, keepLast) else 0);
      RemainingIn(b.order, kept);
    }
  }

  lemma PruneKeeps(w: World, f: string, v: World, b: Book, keepLast: int, keepNamed: bool)
    requires Inv(w, f) && w.book == b && v == w.(book := Pruned(b, keepLast, keepNamed))
    ensures Inv(v, f)
  {
    hide Pruned, Faithful, FrameOf, Tidy, Tracks, IsTail;
    PruneStaysFaithful(b, keepLast, keepNamed, w.frames);
    PrunedKeys(b, keepLast, keepNamed);
    TidyIsShaped(w.node, f);
  }

  /** The new entry stands for the frame now. */
  lemma NewEntryFaithful(w: World, f: string)
    requires Inv(w, f)
    ensures Shaped(w.node)
    ensures FaithfulEntry(Checkpoint(0, false, NewBody(w.book, w.wal, FrameOf(w.node, f))), w.frames, FrameOf(w.node, f))
  {
    hide FrameOf, Patch, OpsSince, CommittedOps, Tidy, IsTail;
    var b := w.book;
    TidyIsShaped(w.node, f);
    if NewBody(b, w.wal, FrameOf(w.node, f)).Delta? {
      var parent := b.order[|b.order| - 1];
      assert parent in b.order && parent in b.entries;
      OpsSinceIsComplete(w.wal, w.hist, b.entries[parent].lsn);
      assert Tracks(w.frames[parent], b.entries[parent].lsn, w.hist, FrameOf(w.node, f));
    }
  }

  lemma TracksSelf(now: Snapshot, hist: seq<Entry<Operation>>)
    ensures Tracks(now, |hist|, hist, now)
  {
    assert hist[|hist|..] == [] && CommittedOps([]) == Some([]) && Patch(now, []) == now;
  }

  lemma ExtendKeeps(w: World, f: string, id: string, auto: bool)
    requires Inv(w, f) && id !in w.frames
    ensures Shaped(w.node)
    ensures Inv(w.(book := Extended(w.book, w.wal, FrameOf(w.node, f), id, auto),
                   frames := w.frames[id := FrameOf(w.node, f)]), f)
  {
    TidyIsShaped(w.node, f);
    var now := FrameOf(w.node, f);
    var v := w.(book := Extended(w.book, w.wal, now, id, auto), frames := w.frames[id := now]);
    NewEntryFaithful(w, f);
    TracksSelf(now, w.hist);
    hide FrameOf, Patch, NewBody, CommittedOps, Tidy, Tracks, IsTail;
    assert v.book.entries.Keys == w.book.entries.Keys + {id};
    assert v.book.entries[id].lsn == |w.hist|;
    assert id !in w.book.entries;
    forall x | x in v.book.entries
      ensures x in v.frames && FaithfulEntry(v.book.entries[x], v.frames, v.frames[x])
      ensures Tracks(v.frames[x], v.book.entries[x].lsn, v.hist, now)
    {
      if x != id {
        assert FaithfulEntry(w.book.entries[x], w.frames, w.frames[x]);
      }
    }
  }

  lemma TakeKeeps(w: World, f: string, id: string, auto: bool, v: World)
    requires Inv(w, f) && Step(f, w, Take(id, auto), v)
    ensures Inv(v, f)
  {
    LookKeeps(w, f);
    ExtendKeeps(w, f, id, auto);
    hide Inv, FrameOf, Extended, Looked;
    var now := FrameOf(w.node, f);
    var grown := w.(book := Extended(w.book, w.wal, now, id, auto), frames := w.frames[id := now]);
    if auto && |Autos(grown.book)| > AUTO_MAX {
      PruneKeeps(grown, f, grown.(book := Pruned(grown.book, AUTO_MAX, true)), grown.book, AUTO_MAX, true);
    }
    var u := w.(book := Took(w.book, w.wal, now, id, auto), frames := w.frames[id := now]);
    assert Inv(u, f);
    if v != u {
      LookKeeps(u, f);
    }
  }

  lemma StepKeeps(f: string, w: World, e: Event, v: World)
    requires Inv(w, f) && Step(f, w, e, v)
    ensures Inv(v, f)
  {
    match e
    case Write(tx, ops) => WriteKeeps(w, f, tx, ops, v);
    case Clash(tx, ops) => ClashKeeps(w, f, tx, ops, v);
    case Shape(tx, edit) => ShapeKeeps(w, f, tx, edit, v);
    case Compact(k) =>
      TrimmedIsTail(w.wal, w.hist, k);
    case CompactBefore(lsn) =>
      TrimmedIsTail(w.wal, w.hist, lsn);
    case Look => LookKeeps(w, f);
    case Forget =>
    case Take(id, auto) => TakeKeeps(w, f, id, auto, v);
    case Prune(k, named) => PruneKeeps(w, f, v, w.book, k, named);
  }

  // -------------------------------------------------------------------------- runs

  /** A frame that has no log, no checkpoint and no cache yet. */
  lemma StartIsGood(n: Node, f: string)
    requires Tidy(n, f)
    ensures Inv(World(n, Log([], 1), NO_BOOK, None, [], map[]), f)
  {
    hide Tidy;
  }

  lemma {:induction false} RunKeepsInv(f: string, ws: seq<World>, es: seq<Event>, k: nat)
    requires Run(f, ws, es) && k <= |es|
    ensures Inv(ws[k], f)
  {
    hide Inv, Step;
    if k == 0 {
      StartIsGood(ws[0].node, f);
    } else {
      RunKeepsInv(f, ws, es, k - 1);
      assert Step(f, ws[k - 1], es[k - 1], ws[k]);
      StepKeeps(f, ws[k - 1], es[k - 1], ws[k]);
    }
  }

  /** At every moment the snapshot cache returns what a rebuild would. */
  lemma CacheIsRebuild(f: string, ws: seq<World>, es: seq<Event>, k: nat)
    requires Run(f, ws, es) && k <= |es|
    ensures Shaped(ws[k].node) && Cached(ws[k], f) == FrameOf(ws[k].node, f)
  {
    RunKeepsInv(f, ws, es, k);
    LookKeeps(ws[k], f);
  }

  /** The frame remembered for a checkpoint stays the frame at the step that took it. */
  lemma {:induction false} FramesPersist(f: string, ws: seq<World>, es: seq<Event>, j: nat, k: nat)
    requires Run(f, ws, es) && j < k <= |es| && es[j].Take?
    ensures Shaped(ws[j].node)
    ensures es[j].id in ws[k].frames && ws[k].frames[es[j].id] == FrameOf(ws[j].node, f)
  {
    hide FrameOf, Step;
    assert Step(f, ws[j], es[j], ws[j + 1]) && Step(f, ws[k - 1], es[k - 1], ws[k]);
    FramesStep(f, ws[j], es[j], ws[j + 1]);
    FramesStep(f, ws[k - 1], es[k - 1], ws[k]);
    if j < k - 1 {
      FramesPersist(f, ws, es, j, k - 1);
    }
  }

  lemma FramesStep(f: string, w: World, e: Event, v: World)
    requires Step(f, w, e, v)
    ensures Shaped(w.node)
    ensures forall id :: id in w.frames ==> id in v.frames && v.frames[id] == w.frames[id]
    ensures e.Take? ==> e.id in v.frames && v.frames[e.id] == FrameOf(w.node, f)
  {
    hide FrameOf, Cached, Took, NewBody, Apply, ApplyEdit, Pruned, KeepLast, NotBefore;
  }

  /**
   * In every run, at every later moment, a checkpoint materialises to exactly the
   * frame at the moment it was taken, or it cannot be materialised at all.
   */
  lemma CheckpointsNeverLie(f: string, ws: seq<World>, es: seq<Event>, j: nat, k: nat)
    requires Run(f, ws, es) && j < k <= |es| && es[j].Take?
    ensures Shaped(ws[j].node)
    ensures Materialised(ws[k].book.entries, es[j].id) in {None, Some(FrameOf(ws[j].node, f))}
  {
    RunKeepsInv(f, ws, es, k);
    FramesPersist(f, ws, es, j, k);
    if Materialised(ws[k].book.entries, es[j].id).Some? {
      FaithfulValue(ws[k].book.entries, ws[k].frames, es[j].id);
    }
  }

  /** No prune in the step is harmful. */
  ghost predicate HarmlessStep(f: string, w: World, e: Event)
    requires Shaped(w.node)
  {
    match e
    case Take(id, auto) =>
      var grown := Extended(w.book, w.wal, Cached(w, f), id, auto);
      auto && |Autos(grown)| > AUTO_MAX ==> !Harmful(grown, AUTO_MAX, true)
    case Prune(k, named) => !Harmful(w.book, k, named)
    case _ => true
  }

  lemma ExtendLinks(b: Book, g: Log<Operation>, snapshot: Snapshot, id: string, auto: bool)
    requires Linked(b) && id !in b.entries && id != ""
    ensures Linked(Extended(b, g, snapshot, id, auto))
  {
    hide Extended;
    ExtendedIs(b, g, snapshot, id, auto);
    SnocLinked(b, Extended(b, g, snapshot, id, auto), id);
  }

  lemma SnocLinked(b: Book, c: Book, id: string)
    requires Linked(b) && id !in b.entries && id != ""
    requires c.order == b.order + [id] && c.entries.Keys == b.entries.Keys + {id}
    requires forall x :: x in b.entries ==> c.entries[x] == b.entries[x]
    requires c.entries[id].body.Delta? ==> b.order != [] && c.entries[id].body.parent == b.order[|b.order| - 1]
    ensures Linked(c)
  {
    hide Ordered;
    SnocOrdered(b, c, id);
    forall i: nat | i < |c.order|
      ensures LinkedAt(c, i)
    {
      if i < |b.order| {
        SameLink(b, c, i);
      }
    }
  }

  lemma SameLink(b: Book, c: Book, i: nat)
    requires Linked(b) && i < |b.order| && i < |c.order| && c.order[i] == b.order[i]
    requires i > 0 ==> c.order[i - 1] == b.order[i - 1]
    requires forall x :: x in b.entries ==> x in c.entries && c.entries[x] == b.entries[x]
    ensures LinkedAt(c, i)
  {
    assert LinkedAt(b, i);
  }

  lemma SnocOrdered(b: Book, c: Book, id: string)
    requires Ordered(b) && id !in b.entries && c.order == b.order + [id] && c.entries.Keys == b.entries.Keys + {id}
    ensures Ordered(c)
  {
    assert id !in b.order;
  }

  /** The new checkpoint is the last; a delta's parent is the one before it. */
  lemma ExtendedIs(b: Book, g: Log<Operation>, snapshot: Snapshot, id: string, auto: bool)
    requires id !in b.entries
    ensures var c := Extended(b, g, snapshot, id, auto);
            && c.order == b.order + [id] && c.entries.Keys == b.entries.Keys + {id}
            && (forall x :: x in b.entries ==> c.entries[x] == b.entries[x])
            && (c.entries[id].body.Delta? ==> b.order != [] && c.entries[id].body.parent == b.order[|b.order| - 1])
  {
  }

  lemma LinkedStep(f: string, w: World, e: Event, v: World)
    requires Inv(w, f) && Step(f, w, e, v) && Linked(w.book) && HarmlessStep(f, w, e)
    ensures Linked(v.book)
  {
    hide Linked, Harmful, FrameOf, Cached, NewBody, Apply, ApplyEdit, Pruned, KeepLast, NotBefore, Extended, Tidy;
    match e
    case Take(id, auto) =>
      assert id !in w.book.entries;
      ExtendLinks(w.book, w.wal, Cached(w, f), id, auto);
      HarmlessStaysLinkedIf(Extended(w.book, w.wal, Cached(w, f), id, auto));
    case Prune(k, named) => HarmlessStaysLinked(w.book, k, named);
    case _ =>
  }

  lemma HarmlessStaysLinkedIf(b: Book)
    requires Linked(b)
    ensures !Harmful(b, AUTO_MAX, true) ==> Linked(Pruned(b, AUTO_MAX, true))
  {
    if !Harmful(b, AUTO_MAX, true) {
      HarmlessStaysLinked(b, AUTO_MAX, true);
    }
  }

  lemma {:induction false} RunStaysLinked(f: string, ws: seq<World>, es: seq<Event>, k: nat)
    requires Run(f, ws, es) && k <= |es|
    requires forall i :: 0 <= i < k ==> Shaped(ws[i].node) && HarmlessStep(f, ws[i], es[i])
    ensures Linked(ws[k].book)
  {
    if k > 0 {
      RunStaysLinked(f, ws, es, k - 1);
      RunKeepsInv(f, ws, es, k - 1);
      hide Inv, Linked, HarmlessStep;
      assert Step(f, ws[k - 1], es[k - 1], ws[k]);
      LinkedStep(f, ws[k - 1], es[k - 1], ws[k]);
    }
  }

  /**
   * As long as no prune was harmful, every checkpoint still kept materialises to the
   * frame at the moment it was taken.
   */
  lemma KeptCheckpointsAreExact(f: string, ws: seq<World>, es: seq<Event>, j: nat, k: nat)
    requires Run(f, ws, es) && j < k <= |es| && es[j].Take? && es[j].id in ws[k].book.entries
    requires forall i :: 0 <= i < k ==> Shaped(ws[i].node) && HarmlessStep(f, ws[i], es[i])
    ensures Shaped(ws[j].node)
    ensures Materialised(ws[k].book.entries, es[j].id) == Some(FrameOf(ws[j].node, f))
  {
    RunStaysLinked(f, ws, es, k);
    LinkedHasValues(ws[k].book, es[j].id);
    CheckpointsNeverLie(f, ws, es, j, k);
  }

  /** A delta checkpoint is only ever built over a complete stretch of cell writes. */
  lemma DeltaNeedsCompleteLog(f: string, ws: seq<World>, es: seq<Event>, k: nat)
    requires Run(f, ws, es) && k <= |es|
    ensures Shaped(ws[k].node)
    ensures var w := ws[k];
            var body := NewBody(w.book, w.wal, Cached(w, f));
            body.Delta? ==>
              && body.parent in w.book.entries && w.book.entries[body.parent].lsn <= |w.hist|
              && CommittedOps(w.hist[w.book.entries[body.parent].lsn..]) == Some(body.ops)
  {
    hide FrameOf, CommittedOps, Tidy, Patch, IsTail;
    RunKeepsInv(f, ws, es, k);
    var w := ws[k];
    LookKeeps(w, f);
    TidyIsShaped(w.node, f);
    if NewBody(w.book, w.wal, Cached(w, f)).Delta? {
      var parent := w.book.order[|w.book.order| - 1];
      assert parent in w.book.order && parent in w.book.entries;
      assert Tracks(w.frames[parent], w.book.entries[parent].lsn, w.hist, FrameOf(w.node, f));
      OpsSinceIsComplete(w.wal, w.hist, w.book.entries[parent].lsn);
    }
  }
}
