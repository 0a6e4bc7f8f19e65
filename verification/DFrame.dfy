/**
 * The checkpoint methods of a frame (core/dataframe.py:1254-1263, 1629-1719,
 * 1835-1882), over its write node and log.
 */
module DFrame {
  import opened Sequences
  import opened Wrappers
  import opened Store
  import opened CellWrites
  import opened Transactions
  import opened Wal
  import opened WriteNode
  import opened Frames
  import opened Checkpoints
  import opened CheckpointRuns

  class DFrame {
    const frameId: string
    const node: WriteNode
    const wal: WriteAheadLog<Operation>
    var order: seq<string>
    var entries: Entries
    var cache: Option<(Snapshot, nat)>

    function Chain(): Book
      reads this
    {
      Book(order, entries)
    }

    constructor (frameId: string, node: WriteNode, wal: WriteAheadLog<Operation>)
      ensures this.frameId == frameId && this.node == node && this.wal == wal
      ensures Chain() == NO_BOOK && cache == None
    {
      this.frameId, this.node, this.wal := frameId, node, wal;
      order, entries, cache := [], map[], None;
    }

    /** `_get_cached_snapshot`. */
    method CachedSnapshot() returns (snapshot: Snapshot)
      requires Shaped(node.View())
      modifies `cache
      ensures snapshot == if old(cache).Some? && old(cache).value.1 == node.version then old(cache).value.0
                          else FrameOf(node.View(), frameId)
      ensures cache == Some((snapshot, node.version))
    {
      if cache.Some? && cache.value.1 == node.version {
        return cache.value.0;
      }
      snapshot := FrameOf(node.View(), frameId);
      cache := Some((snapshot, node.version));
    }

    /** `_ops_sejak`. */
    method WritesSince(lsn: nat) returns (r: Option<seq<CellOp>>)
      requires wal.Valid()
      ensures r == OpsSince(wal.View(), lsn)
    {
      hide Since, CommittedOps;
      var es := wal.GetSince(lsn);
      if wal.nextLsn > lsn + 1 && forall e :: e in es && e.state == COMMITTED ==> e.lsn > lsn + 1 {
        return None;
      }
      r := CollectWrites(es);
    }

    /** The outer loop of `_ops_sejak`: the cell writes of the committed entries, up to the limit. */
    method CollectWrites(es: seq<Entry<Operation>>) returns (r: Option<seq<CellOp>>)
      ensures r == match CommittedOps(es)
                   case None => None
                   case Some(ops) => if |ops| > DELTA_MAX_OPS then None else Some(ops)
    {
      assert CommittedOps(es[..0]) == Some([]);
      hide CellsOf, CommittedOps;
      var ops: seq<CellOp> := [];
      var i := 0;
      while i < |es|
        invariant 0 <= i <= |es| && CommittedOps(es[..i]) == Some(ops)
        invariant |ops| <= DELTA_MAX_OPS
      {
        CommittedStep(es, i);
        if es[i].state == COMMITTED {
          var more := AddCells(ops, es[i].ops);
          if more == None {
            TooManyCommitted(es, i + 1, ops);
            return None;
          }
          ops := more.value;
        }
        i := i + 1;
      }
      assert es[..|es|] == es;
      r := Some(ops);
    }

    /** The inner loop of `_ops_sejak`: the cell writes of one entry, up to the limit. */
    method AddCells(before: seq<CellOp>, logged: seq<Operation>) returns (r: Option<seq<CellOp>>)
      requires |before| <= DELTA_MAX_OPS
      ensures r == match CellsOf(logged)
                   case None => None
                   case Some(cells) => if |before| + |cells| > DELTA_MAX_OPS then None else Some(before + cells)
    {
      var ops := before;
      var j := 0;
      assert logged[..0] == [];
      while j < |logged|
        invariant 0 <= j <= |logged| && CellsOf(logged[..j]).Some?
        invariant ops == before + CellsOf(logged[..j]).value && |ops| <= DELTA_MAX_OPS
      {
        CellsStep(logged, j);
        if logged[j].Reshape? {
          CellsStop(logged, j + 1);
          return None;
        }
        ops := ops + [logged[j].op];
        if |ops| > DELTA_MAX_OPS {
          TooManyCells(logged, j + 1);
          return None;
        }
        j := j + 1;
      }
      assert logged[..|logged|] == logged;
      r := Some(ops);
    }

    /** `_bangun_entri_checkpoint`. */
    method BuildBody() returns (body: Body)
      requires Shaped(node.View()) && wal.Valid()
      modifies `cache
      ensures var snapshot := if old(cache).Some? && old(cache).value.1 == node.version then old(cache).value.0
                              else FrameOf(node.View(), frameId);
              && body == NewBody(Chain(), wal.View(), snapshot)
              && cache == if body.Full? then Some((snapshot, node.version)) else old(cache)
    {
      hide FrameOf, OpsSince;
      if order == [] || |entries| % FULL_INTERVAL == 0 {
        var snapshot := CachedSnapshot();
        return Full(snapshot);
      }
      var parent := order[|order| - 1];
      var ops := WritesSince(if parent in entries then entries[parent].lsn else 0);
      if ops == None {
        var snapshot := CachedSnapshot();
        return Full(snapshot);
      }
      body := Delta(parent, ops.value);
    }

    /** `checkpoint`. */
    method TakeCheckpoint(id: string, auto: bool)
      requires Shaped(node.View()) && wal.Valid()
      modifies this
      ensures var snapshot := if old(cache).Some? && old(cache).value.1 == node.version then old(cache).value.0
                              else FrameOf(node.View(), frameId);
              && Chain() == Took(old(Chain()), wal.View(), snapshot, id, auto)
              && cache == if NewBody(old(Chain()), wal.View(), snapshot).Full? then Some((snapshot, node.version))
                          else old(cache)
    {
      hide FrameOf, NewBody, Pruned, Shaped;
      var body := BuildBody();
      var entry := Checkpoint(Max(0, wal.nextLsn - 1), auto, body);
      if id !in entries {
        order := order + [id];
      }
      entries := entries[id := entry];
      if auto && |Autos(Chain())| > AUTO_MAX {
        var _ := Prune(AUTO_MAX, true);
      }
    }

    /** `_rebase_checkpoint`. */
    method Rebase(id: string)
      modifies `entries
      ensures entries == Rebased(old(entries), id)
    {
      if id !in entries || !entries[id].body.Delta? {
        return;
      }
      var snapshot := Materialised(entries, id);
      if snapshot == None {
        return;
      }
      entries := entries[id := entries[id].(body := Full(snapshot.value))];
    }

    /** `prune_checkpoints`; returns how many were dropped. */
    method Prune(keepLast: int, keepNamed: bool) returns (dropped: nat)
      modifies `order, `entries
      ensures Chain() == Pruned(old(Chain()), keepLast, keepNamed)
      ensures dropped == |old(order)| - |order|
    {
      if |order| <= keepLast {
        return 0;
      }
      hide Rebased, NamedRebased, NamedOlder, Remaining;
      ghost var b := Chain();
      var cut := Max(0, |order| - Max(0, keepLast));
      var kept := order[cut..];
      if keepNamed {
        var named := RebaseNamed(cut);
        kept := named + kept;
      } else {
        assert [] + kept == kept;
      }
      assert kept == KeptIds(b, keepLast, keepNamed);
      if kept != [] {
        Rebase(kept[0]);
      }
      var left := DropOthers(kept);
      dropped := |order| - |left|;
      order := left;
      entries := map id | id in entries && id in kept :: entries[id];
    }

    /** The manual checkpoints before the cut: each is rebased, and they are collected latest first. */
    method RebaseNamed(cut: nat) returns (named: seq<string>)
      requires cut <= |order|
      modifies `entries
      ensures entries == NamedRebased(old(Chain()), cut) && named == NamedOlder(old(Chain()), cut)
    {
      hide Rebased;
      named := [];
      var i := 0;
      while i < cut
        invariant 0 <= i <= cut && order == old(order)
        invariant entries == NamedRebased(old(Chain()), i) && named == NamedOlder(old(Chain()), i)
      {
        NamedKeepsAuto(old(Chain()), i);
        if !(order[i] in entries && entries[order[i]].auto) {
          Rebase(order[i]);
          named := [order[i]] + named;
        }
        i := i + 1;
      }
    }

    /** The keys that stay, in order. */
    method DropOthers(kept: seq<string>) returns (left: seq<string>)
      ensures left == Remaining(order, kept)
    {
      left := [];
      var i := |order|;
      assert order[i..] == [];
      while i > 0
        invariant 0 <= i <= |order| && left == Remaining(order[i..], kept)
      {
        i := i - 1;
        assert order[i..][1..] == order[i + 1..];
        if order[i] in kept {
          left := [order[i]] + left;
        }
      }
      assert order[0..] == order;
    }
  }

  lemma CellsStep(ops: seq<Operation>, j: nat)
    requires j < |ops|
    ensures CellsOf(ops[..j + 1]) ==
            match CellsOf(ops[..j])
            case None => None
            case Some(cells) => match ops[j] case SetCell(op) => Some(cells + [op]) case Reshape(_) => None
  {
    assert ops[..j + 1][..j] == ops[..j];
  }

  lemma {:induction false} CellsStop(ops: seq<Operation>, j: nat)
    requires j <= |ops| && CellsOf(ops[..j]) == None
    ensures CellsOf(ops) == None
    decreases |ops|
  {
    if j == |ops| {
      assert ops[..j] == ops;
    } else {
      assert ops[..|ops| - 1][..j] == ops[..j];
      CellsStop(ops[..|ops| - 1], j);
    }
  }

  lemma CommittedStep(es: seq<Entry<Operation>>, i: nat)
    requires i < |es|
    ensures CommittedOps(es[..i + 1]) ==
            match CommittedOps(es[..i])
            case None => None
            case Some(ops) =>
              if es[i].state != COMMITTED then Some(ops)
              else match CellsOf(es[i].ops) case None => None case Some(cells) => Some(ops + cells)
  {
    assert es[..i + 1][..i] == es[..i];
  }

  lemma {:induction false} CommittedStop(es: seq<Entry<Operation>>, i: nat)
    requires i <= |es| && CommittedOps(es[..i]) == None
    ensures CommittedOps(es) == None
    decreases |es|
  {
    if i == |es| {
      assert es[..i] == es;
    } else {
      assert es[..|es| - 1][..i] == es[..i];
      CommittedStop(es[..|es| - 1], i);
    }
  }

  /** More writes only follow. */
  lemma {:induction false} TooManyCells(ops: seq<Operation>, j: nat)
    requires j <= |ops| && CellsOf(ops[..j]).Some?
    ensures CellsOf(ops).Some? ==> |CellsOf(ops).value| >= |CellsOf(ops[..j]).value|
    decreases |ops|
  {
    if j == |ops| {
      assert ops[..j] == ops;
    } else {
      assert ops[..|ops| - 1][..j] == ops[..j];
      TooManyCells(ops[..|ops| - 1], j);
    }
  }

  lemma {:induction false} CommittedGrows(es: seq<Entry<Operation>>, i: nat)
    requires i <= |es| && CommittedOps(es[..i]).Some?
    ensures CommittedOps(es).Some? ==> |CommittedOps(es).value| >= |CommittedOps(es[..i]).value|
    decreases |es|
  {
    if i == |es| {
      assert es[..i] == es;
    } else {
      assert es[..|es| - 1][..i] == es[..i];
      CommittedGrows(es[..|es| - 1], i);
    }
  }

  lemma TooManyCommitted(es: seq<Entry<Operation>>, i: nat, before: seq<CellOp>)
    requires 0 < i <= |es| && CommittedOps(es[..i - 1]) == Some(before) && es[i - 1].state == COMMITTED
    requires CellsOf(es[i - 1].ops).Some? ==> |before| + |CellsOf(es[i - 1].ops).value| > DELTA_MAX_OPS
    ensures CommittedOps(es).Some? ==> |CommittedOps(es).value| > DELTA_MAX_OPS
  {
    CommittedStep(es, i - 1);
    if CommittedOps(es[..i]).Some? {
      CommittedGrows(es, i);
    } else {
      CommittedStop(es, i);
    }
  }
}
