/**
 * The transaction coordinator (core/coordinator.py:114-184, 276-306, 342-374): one
 * submit from validation to release, and one turn of the replay loop.
 */
module Coordinator {
  import opened Sequences
  import opened Wrappers
  import opened CellIds
  import opened Store
  import opened CellWrites
  import opened Transactions
  import opened Locks
  import opened Wal
  import opened WriteNode
  import opened Commits
  import opened Replay
  import opened Frames

  /** A committed entry names only cells: replaying it cannot raise. */
  ghost predicate CommittedParse(entries: seq<Entry<Write>>) {
    forall i :: 0 <= i < |entries| && entries[i].state in {COMMITTED, SYNCED} ==> Parses(entries[i].ops)
  }

  lemma AppendParses(g: Log<Write>, id: string, ws: seq<Write>, state: TxState)
    requires CommittedParse(g.entries) && (state in {COMMITTED, SYNCED} ==> Parses(ws))
    ensures CommittedParse(Appended(g, id, ws, state).entries)
  {
  }

  lemma NothingToRelease(owners: Owners, id: string)
    requires forall k :: k in owners ==> owners[k] != id
    ensures Released(owners, id) == owners
  {
  }

  lemma ReplayNone(n: Node)
    requires Shaped(n)
    ensures ReplayAll(n, []) == n
  {
  }

  lemma ReplayOneMore(n: Node, log: seq<Entry<Write>>, i: nat)
    requires Shaped(n) && i < |log|
    ensures var m := ReplayAll(n, log[..i]);
            Shaped(m) && ReplayAll(n, log[..i + 1]) ==
                         if log[i].state in {COMMITTED, SYNCED} then ReplayOps(m, ToCells(log[i].ops)) else m
  {
    assert log[..i + 1][..i] == log[..i];
  }

  /**
   * A committed write to "frame::name_row" is seen in that frame: it has the column, its
   * cell holds the value of the last write to it, and the frame reaches down to the row.
   */
  lemma CommittedWriteShows(n: Node, ws: seq<Write>, i: nat, f: string, name: string, row: nat)
    requires Shaped(n) && Applied(n, ws).ok && Nameable(Framed(f, name))
    requires i < |ws| && ws[i].id == Print(Framed(f, name), row)
    requires forall j :: i < j < |ws| ==> Parse(ws[j].id) != Parse(ws[i].id)
    ensures var m, c := Applied(n, ws).node, Framed(f, name);
            && c in FrameCols(m, f) && Read(m, c, row) == ws[i].newValue
            && (f != "" ==> f in m.frameRows && m.frameRows[f] >= row + 1)
  {
    var c := Framed(f, name);
    PrintedReadsIff(c, row);
    WriteIsCell(n, ws, i);
    hide Nameable, Print, Parse, ToCells, Parses, Applied;
    var ops := ToCells(ws);
    assert Applied(n, ws) == Apply(n, ops) && ops[i].ref == Cell(c, row) && ops[i].newValue == ws[i].newValue;
    assert forall j :: i < j < |ops| ==> ops[j].ref != Cell(c, row);
    WriteShows(n, ops, i);
  }

  lemma WriteIsCell(n: Node, ws: seq<Write>, i: nat)
    requires Shaped(n) && Applied(n, ws).ok && i < |ws| && Parse(ws[i].id).Some?
    ensures |ToCells(ws)| == |ws| && Applied(n, ws) == Apply(n, ToCells(ws))
    ensures ToCells(ws)[i].ref == Parse(ws[i].id).value && ToCells(ws)[i].newValue == ws[i].newValue
    ensures forall j :: i < j < |ws| && Parse(ws[j].id) != Parse(ws[i].id) ==> ToCells(ws)[j].ref != Parse(ws[i].id).value
  {
    hide Parse, Apply;
    assert forall j :: 0 <= j < |ws| ==> ws[j] in ws;
  }

  /** The last write to a cell of a frame, after an accepted transaction. */
  lemma WriteShows(n: Node, ops: seq<CellOp>, i: nat)
    requires Shaped(n) && Apply(n, ops).ok && i < |ops| && ops[i].ref.Cell? && ops[i].ref.col.Framed?
    requires forall j :: i < j < |ops| ==> ops[j].ref != ops[i].ref
    ensures var m, c, row := Apply(n, ops).node, ops[i].ref.col, ops[i].ref.row;
            && c in FrameCols(m, c.frame) && Read(m, c, row) == ops[i].newValue
            && (c.frame != "" ==> c.frame in m.frameRows && m.frameRows[c.frame] >= row + 1)
  {
    var m, w, c, row := Apply(n, ops).node, SetCells(n, ops).node, ops[i].ref.col, ops[i].ref.row;
    AcceptedRecords(n, ops);
    AcceptedWrites(n, ops, c, row);
    LastWriteStands(ops, c, row);
    if Reach(ops, c.frame) <= row {
      BeyondReach(ops, c.frame, c, row);
    }
    TouchedExist(n, ops);
    assert Touches(ops, c);
    hide Apply, SetCells, Recorded, Reach, Read, LastWrite;
    if c.frame != "" {
      WrittenFrameIsRecorded(w, ops, c.frame);
    }
  }

  class Coordinator {
    const node: WriteNode
    const locks: LockManager
    const wal: WriteAheadLog<Write>
    /** `_wal_replay_last_lsn`. */
    var cursor: nat

    ghost predicate Valid()
      reads this, node, locks, wal
    {
      Shaped(node.View()) && locks.Valid() && wal.Valid() && CommittedParse(wal.entries)
    }

    constructor (node: WriteNode, locks: LockManager, wal: WriteAheadLog<Write>)
      ensures this.node == node && this.locks == locks && this.wal == wal && cursor == 0
      ensures Shaped(node.View()) && locks.Valid() && wal.Valid() && CommittedParse(wal.entries) ==> Valid()
    {
      this.node, this.locks, this.wal, cursor := node, locks, wal, 0;
    }

    /** `_advance_wal_replay_cursor`: never backwards. */
    method AdvanceCursor(lsn: nat)
      modifies `cursor
      ensures cursor == Max(old(cursor), lsn)
    {
      if lsn <= cursor {
        return;
      }
      cursor := lsn;
    }

    /**
     * `submit`, undisturbed by others.  Whatever happens, the cells are unlocked again,
     * one entry is logged, and it is a committed one exactly when the cells were free
     * and the write node accepted the writes.
     */
    method Submit(id: string, writes: seq<Write>) returns (tx: Transaction)
      requires Valid() && id !in locks.txToCells
      modifies this, node, locks, wal
      ensures Valid() && fresh(tx) && tx.Valid()
      ensures locks.cellToTx == old(locks.cellToTx)
      ensures var free := Free(old(locks.cellToTx), id, Ids(writes));
              var p := Applied(old(node.View()), writes);
              && node.View() == (if free then p.node else old(node.View()))
              && tx.state == (if free && p.ok then SYNCED else ROLLED_BACK)
              && wal.View() == Appended(old(wal.View()), id, writes, if free && p.ok then COMMITTED else ROLLED_BACK)
      ensures cursor == Max(old(cursor), old(wal.nextLsn))
    {
      assert forall k :: k in locks.cellToTx ==> locks.cellToTx[k] != id;
      NothingToRelease(locks.cellToTx, id);
      if Free(locks.cellToTx, id, Ids(writes)) {
        ReleaseUndoesGrant(locks.cellToTx, id, Ids(writes));
      }
      hide Shaped, Applied, Free, Granted, Released, Ids, CommittedParse, Parses, Contiguous, Appended, LeadsTo;
      tx := new Transaction();
      var _ := tx.Transition(VALIDATING);
      var applied := Attempt(tx, id, writes);
      if applied {
        Commit(tx, id, writes);
      } else {
        Abort(tx, id, writes);
      }
      locks.Release(id);
    }

    /** The steps of `submit` up to the write node's answer. */
    method Attempt(tx: Transaction, id: string, writes: seq<Write>) returns (applied: bool)
      requires Shaped(node.View()) && locks.Valid() && tx.Valid() && tx.state == VALIDATING
      modifies node, locks, tx
      ensures Shaped(node.View()) && locks.Valid() && tx.Valid()
      ensures var free := Free(old(locks.cellToTx), id, Ids(writes));
              var p := Applied(old(node.View()), writes);
              && applied == (free && p.ok) && (applied ==> Parses(writes))
              && node.View() == (if free then p.node else old(node.View()))
              && locks.cellToTx == (if free then Granted(old(locks.cellToTx), id, Ids(writes)) else old(locks.cellToTx))
              && tx.state == if free then APPLYING else VALIDATING
    {
      hide Shaped, Applied, Free, Granted, Ids, Parses;
      var locked := locks.Acquire(id, Ids(writes));
      if !locked {
        return false;
      }
      var _ := tx.Transition(LOCKED);
      var _ := tx.Transition(APPLYING);
      applied := ApplyWrites(writes);
    }

    /** The end of `submit` once the node has accepted. */
    method Commit(tx: Transaction, id: string, writes: seq<Write>)
      requires wal.Valid() && CommittedParse(wal.entries) && Parses(writes)
      requires tx.Valid() && tx.state == APPLYING
      modifies `cursor, wal, tx
      ensures wal.Valid() && CommittedParse(wal.entries) && tx.Valid() && tx.state == SYNCED
      ensures wal.View() == Appended(old(wal.View()), id, writes, COMMITTED)
      ensures cursor == Max(old(cursor), old(wal.nextLsn))
    {
      AppendParses(wal.View(), id, writes, COMMITTED);
      hide CommittedParse, Parses, Contiguous, Appended, LeadsTo;
      var _ := tx.Transition(COMMITTED);
      var lsn := wal.Append(id, writes, tx.state);
      AdvanceCursor(lsn);
      var _ := tx.Transition(SYNCING);
      var _ := tx.Transition(SYNCED);
    }

    /** The exception handler of `submit`. */
    method Abort(tx: Transaction, id: string, writes: seq<Write>)
      requires wal.Valid() && CommittedParse(wal.entries)
      requires tx.Valid() && tx.state !in {FAILED, ROLLED_BACK}
      modifies `cursor, wal, tx
      ensures wal.Valid() && CommittedParse(wal.entries) && tx.Valid() && tx.state == ROLLED_BACK
      ensures wal.View() == Appended(old(wal.View()), id, writes, ROLLED_BACK)
      ensures cursor == Max(old(cursor), old(wal.nextLsn))
    {
      AppendParses(wal.View(), id, writes, ROLLED_BACK);
      hide CommittedParse, Parses, Contiguous, Appended, LeadsTo;
      tx.Fail();
      var lsn := wal.Append(id, writes, tx.state);
      AdvanceCursor(lsn);
    }

    /** `write_node.apply`; a text that is no cell id raises before anything is written. */
    method ApplyWrites(writes: seq<Write>) returns (ok: bool)
      requires Shaped(node.View())
      modifies node
      ensures Progress(node.View(), ok) == Applied(old(node.View()), writes)
      ensures Shaped(node.View()) && (ok ==> Parses(writes))
    {
      if !Parses(writes) {
        return false;
      }
      ApplyShaped(node.View(), ToCells(writes));
      ok := node.Apply(ToCells(writes));
    }

    /** `_apply_wal_entry`. */
    method ReplayEntry(ops: seq<CellOp>)
      requires Shaped(node.View())
      modifies node
      ensures node.View() == ReplayOps(old(node.View()), ops) && Shaped(node.View())
    {
      ReplayShaped(node.View(), ops);
      var changes: seq<CellOp> := [];
      var i := 0;
      while i < |ops|
        invariant 0 <= i <= |ops| && node.View() == old(node.View())
        invariant changes == Changes(node.View(), ops[..i])
      {
        assert ops[..i + 1][..i] == ops[..i];
        var current := Current(node.View(), ops[i]);
        if current != ops[i].newValue {
          changes := changes + [ops[i].(oldValue := current)];
        }
        i := i + 1;
      }
      assert ops[..|ops|] == ops;
      if changes == [] {
        return;
      }
      var _ := node.Apply(changes);
    }

    /** One turn of `_wal_replay_loop`; the entries come in log order, so its sort leaves them alone. */
    method ReplayTurn()
      requires Valid()
      modifies this, node
      ensures Valid()
      ensures node.View() == ReplayAll(old(node.View()), Since(wal.entries, old(cursor)))
      ensures cursor == if Since(wal.entries, old(cursor)) == [] then old(cursor) else wal.nextLsn - 1
    {
      hide Shaped, ReplayAll, ReplayOps, ToCells, Parses, CommittedParse, Changes, NotBefore;
      var entries := wal.GetSince(cursor);
      ghost var cut := NotBeforeCut(wal.View(), cursor + 1);
      assert forall i :: 0 <= i < |entries| ==> entries[i] == wal.entries[cut + i];
      ghost var n := node.View();
      ReplayNone(n);
      var i := 0;
      while i < |entries|
        invariant 0 <= i <= |entries| && Valid()
        invariant node.View() == ReplayAll(n, entries[..i])
        invariant cursor == if i == 0 then old(cursor) else entries[i - 1].lsn
      {
        ReplayOneMore(n, entries, i);
        var e := entries[i];
        if e.lsn > cursor {
          if e.state in {COMMITTED, SYNCED} {
            ReplayEntry(ToCells(e.ops));
          }
          AdvanceCursor(e.lsn);
        }
        i := i + 1;
      }
      assert entries[..|entries|] == entries;
    }
  }
}
