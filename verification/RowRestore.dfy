/**
 * Deleting a row and restoring it (core/cluster_runtime.py:730-753): the row comes
 * back at its position, with its identity, and its cells are written anew.
 */
module RowRestore {
  import opened Sequences
  import opened Wrappers
  import opened CellIds
  import opened Store
  import opened RowEdits
  import opened CellWrites

  /** The cell writes of a restore: over null, the former contents of row p, each column once. */
  ghost predicate Restores(n: Node, f: string, p: nat, ops: seq<CellOp>) {
    && (forall i :: 0 <= i < |ops| ==> RestoresCell(n, f, p, ops[i]))
    && (forall i, j :: 0 <= i < j < |ops| ==> ops[i].ref != ops[j].ref)
    && (forall c :: c in FrameCols(n, f) && Read(n, c, p) != Null ==> Touches(ops, c))
  }

  ghost predicate RestoresCell(n: Node, f: string, p: nat, op: CellOp) {
    op.ref.Cell? && op.ref.col in FrameCols(n, f) && op.ref.row == p && op.oldValue == Null
    && op.newValue == Read(n, op.ref.col, p)
  }

  function Reinserted(n: Node, f: string, p: nat, id: RowId): Node
    requires Shaped(n) && Shaped(Delete(n, f, [p], []).0)
  {
    Insert(Delete(n, f, [p], []).0, f, 1, Some(p), Null, [id])
  }

  lemma {:induction false} KeptOne(n: nat, p: nat)
    requires p < n
    ensures |Kept(n, {p})| == n - 1
    ensures forall i :: 0 <= i < n - 1 ==> Kept(n, {p})[i] == if i < p then i else i + 1
  {
    if p == n - 1 {
      KeptSame(n - 1, {p}, {});
      KeptAll(n - 1);
    } else {
      KeptOne(n - 1, p);
    }
  }

  lemma PutBack<T>(s: seq<T>, p: nat, x: T)
    requires p < |s|
    ensures |RemoveAt(s, {p})| == |s| - 1
    ensures Splice(RemoveAt(s, {p}), p, [x]) == s[p := x]
  {
    KeptOne(|s|, p);
  }

  lemma WantedOne(id: RowId, ids: seq<RowId>)
    requires id != Named("") && id !in ids
    ensures Wanted([id], 1, ids) == [id]
    ensures NewIds([id], 1, ids, 0) == [id] && forall seqNo: nat :: NewIds([id], 1, ids, seqNo) == [id]
  {
    assert [id][1..] == [];
    assert NonEmpty([id]) == [id];
    assert Filter([id], ids) == [id];
  }

  lemma TakenOne(n: Node, f: string, p: nat)
    requires p < RowsOf(n, f)
    ensures Taken(n, f, [p], []) == {p}
  {
  }

  lemma DeletedOne(n: Node, f: string, p: nat)
    requires Good(n) && p < RowsOf(n, f) && FrameCols(n, f) != {}
    ensures var d := Delete(n, f, [p], []).0;
            && Good(d) && Confined(n, d, f) && FrameCols(d, f) == FrameCols(n, f)
            && Content(d, f) == RemoveAt(Content(n, f), {p}) && Ids(d, f) == RemoveAt(Ids(n, f), {p})
            && |Ids(n, f)| == RowsOf(n, f) && RowsOf(d, f) == RowsOf(n, f) - 1
            && Ids(n, f)[p] != Named("") && Ids(n, f)[p] !in Ids(d, f)
            && IdBelow(Ids(n, f)[p], NextSeq(d, f))
  {
    assert IdsGood(n, f);
    IdsCount(n, f);
    TakenOne(n, f, p);
    DeleteIsRemoval(n, f, [p], []);
    var d, id := Delete(n, f, [p], []).0, Ids(n, f)[p];
    RemovedIsGone(Ids(n, f), p);
    PutBack(Content(n, f), p, BlankRow(n, f, Null));
    assert |Content(d, f)| == RowsOf(d, f);
    assert IdBelow(id, NextSeq(n, f));
    assert StoredSeq(d, f) <= NextSeq(d, f);
  }

  /** Deleted and inserted again: the identities are back, the row itself is blank. */
  lemma ReinsertedBlank(n: Node, f: string, p: nat)
    requires Good(n) && p < RowsOf(n, f) && FrameCols(n, f) != {}
    ensures Shaped(Delete(n, f, [p], []).0) && p < |Ids(n, f)|
    ensures var m := Reinserted(n, f, p, Ids(n, f)[p]);
            && Good(m) && Confined(n, m, f) && RowsOf(m, f) == RowsOf(n, f) && f in m.frameRows
            && FrameCols(m, f) == FrameCols(n, f)
            && Content(m, f) == Content(n, f)[p := BlankRow(n, f, Null)]
            && Ids(m, f) == Ids(n, f)
  {
    hide Delete, Insert, Row, Ids, RowsOf, Confined, RemoveAt, Splice, NextSeq, FrameCols, TailNull, Content, IdBelow;
    hide BlankRow, IdsGood;
    DeletedOne(n, f, p);
    var d, id := Delete(n, f, [p], []).0, Ids(n, f)[p];
    InsertOne(d, f, p, id);
    SameBlank(n, d, f);
    PutBack(Ids(n, f), p, id);
    assert |Content(n, f)| == RowsOf(n, f);
    PutBack(Content(n, f), p, BlankRow(n, f, Null));
    ConfinedCompose(n, d, Reinserted(n, f, p, id), f);
  }

  lemma SameBlank(n: Node, m: Node, f: string)
    requires FrameCols(n, f) == FrameCols(m, f)
    ensures BlankRow(n, f, Null) == BlankRow(m, f, Null)
  {
  }

  lemma InsertOne(d: Node, f: string, p: nat, id: RowId)
    requires Good(d) && p <= RowsOf(d, f) && id != Named("") && id !in Ids(d, f) && IdBelow(id, NextSeq(d, f))
    ensures var m := Insert(d, f, 1, Some(p), Null, [id]);
            && Good(m) && Confined(d, m, f) && RowsOf(m, f) == RowsOf(d, f) + 1 && f in m.frameRows
            && p <= |Ids(d, f)| && FrameCols(m, f) == FrameCols(d, f)
            && Content(m, f) == Splice(Content(d, f), p, [BlankRow(d, f, Null)])
            && Ids(m, f) == Splice(Ids(d, f), p, [id])
  {
    WantedOne(id, Ids(d, f));
    hide Insert, Row, Ids, RowsOf, Confined, Splice, NextSeq, FrameCols, TailNull, Content, IdBelow, Wanted, NewIds, BlankRow;
    hide IdsGood, Shaped;
    InsertIsSplice(d, f, 1, Some(p), Null, [id]);
    InsertKeepsGood(d, f, 1, Some(p), Null, [id]);
    InsertShape(d, f, 1, Some(p), Null, [id]);
    assert seq(1, _ => BlankRow(d, f, Null)) == [BlankRow(d, f, Null)];
  }

  lemma RemovedIsGone(ids: seq<RowId>, p: nat)
    requires p < |ids| && DistinctIds(ids)
    ensures ids[p] !in RemoveAt(ids, {p})
  {
    KeptOne(|ids|, p);
  }

  /** Writes to existing columns of one frame add no column. */
  lemma WritesKeepColumns(m: Node, f: string, ops: seq<CellOp>)
    requires Shaped(m) && forall i :: 0 <= i < |ops| ==> ops[i].ref.Cell? && ops[i].ref.col in FrameCols(m, f)
    ensures Apply(m, ops).ok ==> Apply(m, ops).node.cols.Keys == m.cols.Keys
    ensures Apply(m, ops).ok ==> FrameCols(Apply(m, ops).node, f) == FrameCols(m, f)
    ensures forall c :: !InFrame(c, f) ==> !Touches(ops, c)
  {
    hide Read, Apply, Shaped;
    SetCellsKeeps(m, ops);
    if Apply(m, ops).ok {
      AcceptedRecords(m, ops);
    }
    forall c | Touches(ops, c)
      ensures c in m.cols && InFrame(c, f)
    {
      assert c in FrameCols(m, f);
    }
  }

  /** Writing into existing cells of one frame changes those cells and nothing else. */
  lemma WritesInPlace(m: Node, f: string, ops: seq<CellOp>)
    requires Good(m) && f in m.frameRows && Apply(m, ops).ok
    requires forall i :: 0 <= i < |ops| ==> ops[i].ref.Cell? && ops[i].ref.col in FrameCols(m, f) && ops[i].ref.row < RowsOf(m, f)
    ensures var k := Apply(m, ops).node;
            && Shaped(k) && Confined(m, k, f) && RowsOf(k, f) == RowsOf(m, f) && FrameCols(k, f) == FrameCols(m, f)
            && Ids(k, f) == Ids(m, f)
  {
    hide TailNull, IdsGood, SetCells, Read, Reach, Recorded, Touches, Apply, Shaped;
    var k, w := Apply(m, ops).node, SetCells(m, ops).node;
    ApplyShaped(m, ops);
    AcceptedRecords(m, ops);
    ReachBelow(ops, f, RowsOf(m, f));
    RecordedRows(w, ops, f);
    WritesKeepColumns(m, f, ops);
    hide FrameCols;
    forall c, r: nat | !InFrame(c, f)
      ensures Read(k, c, r) == Read(m, c, r)
    {
      AcceptedWrites(m, ops, c, r);
      UntouchedHasNoWrite(ops, c, r);
    }
    forall g | g != f
      ensures g in m.frameRows <==> g in k.frameRows
      ensures g in m.frameRows ==> m.frameRows[g] == k.frameRows[g]
    {
      ReachBelow(ops, g, 0);
      RecordedElsewhere(w, ops, g);
    }
  }

  /** The writes of a restore are accepted and fill row p as it was. */
  lemma RestoreFills(n: Node, m: Node, f: string, p: nat, ops: seq<CellOp>, c: Column, r: nat)
    requires Shaped(n) && Shaped(m) && Restores(n, f, p, ops) && FrameCols(m, f) == FrameCols(n, f)
    requires forall d :: d in FrameCols(m, f) ==> Read(m, d, p) == Null
    requires c in FrameCols(m, f)
    ensures Apply(m, ops).ok
    ensures Read(Apply(m, ops).node, c, r) == if r == p then Read(n, c, p) else Read(m, c, r)
  {
    hide Apply, FrameCols;
    forall i | 0 <= i < |ops|
      ensures Passes(m, ops, i)
    {
      assert RestoresCell(n, f, p, ops[i]);
      NoEarlierWrite(ops, i);
    }
    ApplyAcceptsIff(m, ops);
    AcceptedWrites(m, ops, c, r);
    LastWriteStands(ops, c, r);
    if r == p && LastWrite(ops, c, r) == None {
      assert !Touches(ops, c) by {
        forall i | 0 <= i < |ops| && ops[i].ref.Cell?
          ensures ops[i].ref.col != c
        {
          assert RestoresCell(n, f, p, ops[i]);
        }
      }
    }
  }

  lemma NoEarlierWrite(ops: seq<CellOp>, i: nat)
    requires i < |ops| && ops[i].ref.Cell? && forall j, k :: 0 <= j < k < |ops| ==> ops[j].ref != ops[k].ref
    ensures LastWrite(ops[..i], ops[i].ref.col, ops[i].ref.row) == None
  {
    LastWriteStands(ops[..i], ops[i].ref.col, ops[i].ref.row);
  }

  /**
   * Deleting a row and restoring it gives back the frame's contents and identities
   * and touches no other frame, if and only if the frame has a column.
   */
  lemma RestoreUndoesDeleteIff(n: Node, f: string, p: nat, ops: seq<CellOp>)
    requires Good(n) && p < RowsOf(n, f) && Restores(n, f, p, ops)
    ensures Good(Delete(n, f, [p], []).0) && p < |Ids(n, f)|
    ensures var m := Apply(Reinserted(n, f, p, Ids(n, f)[p]), ops);
            && (Content(m.node, f) == Content(n, f) && Ids(m.node, f) == Ids(n, f) && m.ok <==> FrameCols(n, f) != {})
            && (FrameCols(n, f) != {} ==> forall g :: g != f ==> FrameUntouched(n, m.node, g))
  {
    assert IdsGood(n, f);
    IdsCount(n, f);
    DeleteIsRemoval(n, f, [p], []);
    if FrameCols(n, f) != {} {
      RestoreUndoesDelete(n, f, p, ops);
    } else {
      RestoreWithoutColumns(n, f, p, ops);
    }
  }

  lemma RestoreUndoesDelete(n: Node, f: string, p: nat, ops: seq<CellOp>)
    requires Good(n) && p < RowsOf(n, f) && Restores(n, f, p, ops) && FrameCols(n, f) != {}
    ensures Shaped(Delete(n, f, [p], []).0) && p < |Ids(n, f)|
    ensures Shaped(Reinserted(n, f, p, Ids(n, f)[p]))
    ensures var m := Apply(Reinserted(n, f, p, Ids(n, f)[p]), ops);
            && m.ok && Content(m.node, f) == Content(n, f) && Ids(m.node, f) == Ids(n, f)
            && forall g :: g != f ==> FrameUntouched(n, m.node, g)
  {
    ReinsertedBlank(n, f, p);
    hide Good, Reinserted, Apply, Restores, Confined, FrameUntouched, FrameCols, RowsOf, Ids, Read, Delete, BlankRow, Row;
    var m := Reinserted(n, f, p, Ids(n, f)[p]);
    GoodIsShaped(n);
    GoodIsShaped(m);
    RestoreReads(n, m, f, p, ops);
    RestoredInPlace(n, m, f, p, ops);
    var k := Apply(m, ops).node;
    ConfinedCompose(n, m, k, f);
    forall g | g != f
      ensures FrameUntouched(n, k, g)
    {
      ConfinedLeavesOthers(n, k, f, g);
    }
    SameReadsSameContent(n, k, f);
  }

  lemma GoodIsShaped(n: Node)
    requires Good(n)
    ensures Shaped(n)
  {
  }

  lemma SameReadsSameContent(n: Node, m: Node, f: string)
    requires RowsOf(m, f) == RowsOf(n, f) && FrameCols(m, f) == FrameCols(n, f)
    requires forall c, r: nat :: c in FrameCols(n, f) && r < RowsOf(n, f) ==> Read(m, c, r) == Read(n, c, r)
    ensures Content(m, f) == Content(n, f)
  {
    hide RowsOf, FrameCols, Read;
    forall r: nat | r < RowsOf(n, f)
      ensures Row(m, f, r) == Row(n, f, r)
    {
    }
  }

  lemma RestoreReads(n: Node, m: Node, f: string, p: nat, ops: seq<CellOp>)
    requires Shaped(n) && Shaped(m) && Restores(n, f, p, ops) && FrameCols(m, f) == FrameCols(n, f) && p < RowsOf(n, f)
    requires RowsOf(m, f) == RowsOf(n, f) && Content(m, f) == Content(n, f)[p := BlankRow(n, f, Null)]
    requires FrameCols(n, f) != {}
    ensures Apply(m, ops).ok
    ensures forall c, r: nat :: c in FrameCols(n, f) && r < RowsOf(n, f) ==> Read(Apply(m, ops).node, c, r) == Read(n, c, r)
  {
    hide Apply, Restores, FrameCols, RowsOf, Read;
    forall d | d in FrameCols(m, f)
      ensures Read(m, d, p) == Null
    {
      BlankedRead(n, m, f, p, d, p);
    }
    forall d, r: nat | d in FrameCols(n, f) && r < RowsOf(n, f)
      ensures Apply(m, ops).ok && Read(Apply(m, ops).node, d, r) == Read(n, d, r)
    {
      BlankedRead(n, m, f, p, d, r);
      RestoreFills(n, m, f, p, ops, d, r);
    }
    var d :| d in FrameCols(n, f);
    RestoreFills(n, m, f, p, ops, d, p);
  }

  lemma BlankedRead(n: Node, m: Node, f: string, p: nat, d: Column, r: nat)
    requires p < RowsOf(n, f) && r < RowsOf(n, f) && FrameCols(m, f) == FrameCols(n, f) && d in FrameCols(n, f)
    requires RowsOf(m, f) == RowsOf(n, f) && Content(m, f) == Content(n, f)[p := BlankRow(n, f, Null)]
    ensures Read(m, d, r) == if r == p then Null else Read(n, d, r)
  {
    hide RowsOf, FrameCols, Read;
    assert Content(m, f)[r] == Row(m, f, r) && Content(n, f)[r] == Row(n, f, r);
    assert Row(m, f, r)[d] == Read(m, d, r);
  }

  lemma RestoredInPlace(n: Node, m: Node, f: string, p: nat, ops: seq<CellOp>)
    requires Good(m) && f in m.frameRows && Apply(m, ops).ok && Restores(n, f, p, ops)
    requires FrameCols(m, f) == FrameCols(n, f) && p < RowsOf(m, f)
    ensures var k := Apply(m, ops).node;
            && Shaped(k) && Confined(m, k, f) && RowsOf(k, f) == RowsOf(m, f) && FrameCols(k, f) == FrameCols(m, f)
            && Ids(k, f) == Ids(m, f)
  {
    hide Good, Confined, RowsOf, FrameCols, Ids, Apply;
    forall i | 0 <= i < |ops|
      ensures ops[i].ref.Cell? && ops[i].ref.col in FrameCols(m, f) && ops[i].ref.row < RowsOf(m, f)
    {
      assert RestoresCell(n, f, p, ops[i]);
    }
    WritesInPlace(m, f, ops);
  }

  lemma FirstRestores(n: Node, f: string, p: nat, ops: seq<CellOp>)
    requires Restores(n, f, p, ops)
    ensures |ops| > 0 ==> RestoresCell(n, f, p, ops[0])
  {
  }

  /** Without columns nothing is deleted, so the "restored" row is one too many. */
  lemma RestoreWithoutColumns(n: Node, f: string, p: nat, ops: seq<CellOp>)
    requires Good(n) && p < RowsOf(n, f) && Restores(n, f, p, ops) && FrameCols(n, f) == {}
    ensures Good(Delete(n, f, [p], []).0) && p < |Ids(n, f)|
    ensures Content(Apply(Reinserted(n, f, p, Ids(n, f)[p]), ops).node, f) != Content(n, f)
  {
    assert IdsGood(n, f);
    IdsCount(n, f);
    DeleteIsRemoval(n, f, [p], []);
    var d := Delete(n, f, [p], []).0;
    RemoveNothing(Content(n, f));
    assert |Content(d, f)| == RowsOf(d, f) == RowsOf(n, f);
    FirstRestores(n, f, p, ops);
    assert ops == [];
    hide Delete, Insert, Good, Content;
    InsertShape(d, f, 1, Some(p), Null, [Ids(n, f)[p]]);
    var m := Reinserted(n, f, p, Ids(n, f)[p]);
    assert RowsOf(Apply(m, ops).node, f) == RowsOf(n, f) + 1;
  }
}
