/**
 * Runs of a write node that mix cell transactions with row edits (core/write_node.py:60-153,
 * 272-334, 389-420): what a cell transaction does to row counts and identities.
 */
module NodeRuns {
  import opened Sequences
  import opened Wrappers
  import opened CellIds
  import opened Store
  import opened RowEdits
  import opened CellWrites
  import RowRuns

  /** The frame with the empty name has neither a row record nor identities. */
  ghost predicate NoBlank(n: Node) { "" !in n.frameRows && StoredIds(n, "") == [] }

  ghost predicate Sound(n: Node) { Good(n) && NoBlank(n) }

  lemma EmptyIsSound()
    ensures Sound(EMPTY)
  {
  }

  /** Accepted, or refused without leaving a value in a new column. */
  ghost predicate Clean(n: Node, ops: seq<CellOp>)
    requires Shaped(n)
  {
    Apply(n, ops).ok || LeavesNothing(n, ops)
  }

  // -------------------------------------------------------------- row counts

  /** The row count of a named frame after the records of a transaction. */
  lemma {:induction false} RecordedCount(n: Node, ops: seq<CellOp>, f: string)
    ensures RowsOf(Recorded(n, ops), f) == if f == "" then RowsOf(n, f) else Max(RowsOf(n, f), Reach(ops, f))
    ensures "" in Recorded(n, ops).frameRows <==> "" in n.frameRows
    decreases |ops|
  {
    if ops != [] {
      var init := ops[..|ops| - 1];
      RecordedCount(n, init, f);
      RecordedKeeps(n, init);
      RecordedKeeps(n, ops);
      SameCellsSameExtent(Recorded(n, init), Recorded(n, ops), f, n.len);
    }
  }

  lemma {:induction false} SameCellsSameExtent(n: Node, m: Node, f: string, k: nat)
    requires n.cols == m.cols
    ensures ExtentTo(n, f, k) == ExtentTo(m, f, k)
  {
    if k > 0 {
      SameCellsSameExtent(n, m, f, k - 1);
      assert Filled(n, f, k - 1) <==> Filled(m, f, k - 1);
    }
  }

  /** A row behind what is written in the frame keeps its values. */
  lemma FilledStays(n: Node, ops: seq<CellOp>, f: string, r: nat)
    requires Shaped(n) && Apply(n, ops).ok && Filled(n, f, r) && Reach(ops, f) <= r
    ensures var w := SetCells(n, ops).node;
            Filled(w, f, r) && r < w.len
  {
    hide Apply, SetCells, Recorded, Reach, LastWrite;
    var m, w := Apply(n, ops).node, SetCells(n, ops).node;
    var c :| c in n.cols && InFrame(c, f) && Read(n, c, r) != Null;
    AcceptedRecords(n, ops);
    AcceptedWrites(n, ops, c, r);
    BeyondReach(ops, f, c, r);
    SetCellsKeeps(n, ops);
    assert Read(w, c, r) == Read(m, c, r);
  }

  /** A transaction that clears the last row of an unrecorded frame has written that row. */
  lemma ExtentOrReach(n: Node, ops: seq<CellOp>, f: string)
    requires Shaped(n) && Apply(n, ops).ok
    ensures var w := SetCells(n, ops).node;
            ExtentTo(n, f, n.len) <= Max(ExtentTo(w, f, w.len), Reach(ops, f))
  {
    hide Apply, SetCells, Reach, Filled, Shaped, ExtentTo;
    var w, e := SetCells(n, ops).node, ExtentTo(n, f, n.len);
    if e > Reach(ops, f) {
      ExtentIsLastFilled(n, f, n.len, 0);
      FilledStays(n, ops, f, e - 1);
      ExtentIsLastFilled(w, f, w.len, e - 1);
    }
  }

  /** Rows are never lost, and a named frame has all rows written. */
  lemma AcceptedCount(n: Node, ops: seq<CellOp>, f: string)
    requires Shaped(n) && Apply(n, ops).ok && f != ""
    ensures RowsOf(Apply(n, ops).node, f) >= Max(RowsOf(n, f), Reach(ops, f))
    ensures "" in Apply(n, ops).node.frameRows <==> "" in n.frameRows
  {
    var m, w := Apply(n, ops).node, SetCells(n, ops).node;
    AcceptedRecords(n, ops);
    RecordedCount(w, ops, f);
    RecordedKeeps(w, ops);
    SameCellsSameExtent(Recorded(w, ops), m, f, m.len);
    ExtentOrReach(n, ops, f);
  }

  /** A row behind the extent of a frame is blank. */
  lemma BehindExtent(n: Node, f: string, c: Column, r: nat)
    requires Shaped(n) && f !in n.frameRows && c in n.cols && InFrame(c, f) && RowsOf(n, f) <= r
    ensures Read(n, c, r) == Null
  {
    if Read(n, c, r) != Null {
      assert Filled(n, f, r);
      ExtentIsLastFilled(n, f, n.len, r);
    }
  }

  // -------------------------------------------------------------- the invariant

  lemma AcceptedTailNull(n: Node, ops: seq<CellOp>)
    requires Shaped(n) && TailNull(n) && "" !in n.frameRows && Apply(n, ops).ok
    ensures Shaped(Apply(n, ops).node) && TailNull(Apply(n, ops).node)
  {
    hide Apply, Reach;
    var m := Apply(n, ops).node;
    ApplyShaped(n, ops);
    forall c, r: nat | c in m.cols && c.Framed? && RowsOf(m, c.frame) <= r
      ensures Read(m, c, r) == Null
    {
      if c.frame != "" {
        AcceptedCount(n, ops, c.frame);
        AcceptedWrites(n, ops, c, r);
        BeyondReach(ops, c.frame, c, r);
      } else {
        AcceptedCount(n, ops, "x");
        BehindExtent(m, "", c, r);
      }
    }
  }

  /** An accepted transaction keeps what row edits rely on. */
  lemma AcceptedKeepsSound(n: Node, ops: seq<CellOp>)
    requires Sound(n) && Apply(n, ops).ok
    ensures Sound(Apply(n, ops).node)
  {
    hide Apply, SetCells, Recorded, TailNull;
    var m := Apply(n, ops).node;
    AcceptedTailNull(n, ops);
    AcceptedRecords(n, ops);
    AcceptedCount(n, ops, "x");
    forall f
      ensures IdsGood(m, f)
    {
      assert IdsGood(n, f);
      if f != "" {
        AcceptedCount(n, ops, f);
      }
    }
  }

  lemma RefusedCount(n: Node, ops: seq<CellOp>, f: string)
    requires Shaped(n) && !Apply(n, ops).ok && LeavesNothing(n, ops)
    ensures RowsOf(Apply(n, ops).node, f) == RowsOf(n, f)
  {
    var m := Apply(n, ops).node;
    FailureRestoresIff(n, ops);
    SetCellsKeeps(n, ops);
    assert n.cols.Keys <= m.cols.Keys;
    hide Apply, LeavesNothing;
    forall r: nat
      ensures Filled(m, f, r) <==> Filled(n, f, r)
    {
      if Filled(n, f, r) {
        var c :| c in n.cols && InFrame(c, f) && Read(n, c, r) != Null;
        assert c in m.cols && Read(m, c, r) != Null;
      }
      if Filled(m, f, r) {
        var c :| c in m.cols && InFrame(c, f) && Read(m, c, r) != Null;
        assert Read(n, c, r) != Null;
        assert c in n.cols;
      }
    }
    SameFilledSameExtent(n, m, f, n.len);
  }

  lemma {:induction false} SameFilledSameExtent(n: Node, m: Node, f: string, k: nat)
    requires forall r: nat :: Filled(m, f, r) <==> Filled(n, f, r)
    ensures ExtentTo(m, f, k) == ExtentTo(n, f, k)
  {
    if k > 0 {
      SameFilledSameExtent(n, m, f, k - 1);
    }
  }

  lemma RefusedKeepsSound(n: Node, ops: seq<CellOp>)
    requires Sound(n) && !Apply(n, ops).ok && LeavesNothing(n, ops)
    ensures Sound(Apply(n, ops).node)
  {
    hide Apply, LeavesNothing;
    var m := Apply(n, ops).node;
    ApplyShaped(n, ops);
    FailureRestoresIff(n, ops);
    forall c, r: nat | c in m.cols && c.Framed? && RowsOf(m, c.frame) <= r
      ensures Read(m, c, r) == Null
    {
      RefusedCount(n, ops, c.frame);
      assert Read(m, c, r) == Read(n, c, r);
    }
    forall f
      ensures IdsGood(m, f)
    {
      assert IdsGood(n, f);
      RefusedCount(n, ops, f);
    }
  }

  /** The identities that rows had stay in front, in place; new rows get theirs behind them. */
  lemma WritesKeepIds(n: Node, ops: seq<CellOp>, f: string)
    requires Sound(n) && Clean(n, ops) && f != ""
    ensures var m := Apply(n, ops).node;
            |Ids(n, f)| <= |Ids(m, f)| && Ids(m, f)[..|Ids(n, f)|] == Ids(n, f)
  {
    hide Apply, LeavesNothing, SetCells, Recorded;
    var m := Apply(n, ops).node;
    if Apply(n, ops).ok {
      AcceptedRecords(n, ops);
      AcceptedCount(n, ops, f);
    } else {
      FailureRestoresIff(n, ops);
      RefusedCount(n, ops, f);
    }
    assert IdsGood(n, f);
  }

  // ----------------------------------------------------------------------- runs

  datatype Change = Rows(edit: Edit) | Cells(ops: seq<CellOp>)

  /** One transaction: a legal row edit, or cell writes that leave nothing behind. */
  ghost predicate Step(n: Node, ch: Change, m: Node) {
    && Shaped(n)
    && match ch
       case Rows(e) => RowRuns.Legal(n, e) && m == ApplyEdit(n, e).node
       case Cells(ops) => Clean(n, ops) && m == Apply(n, ops).node
  }

  ghost predicate Run(ns: seq<Node>, chs: seq<Change>) {
    |ns| == |chs| + 1 && forall i :: 0 <= i < |chs| ==> Step(ns[i], chs[i], ns[i + 1])
  }

  lemma EditKeepsSound(n: Node, e: Edit)
    requires Sound(n) && RowRuns.Legal(n, e)
    ensures Sound(ApplyEdit(n, e).node)
    ensures forall f :: RowRuns.Carries(n, ApplyEdit(n, e).node, f)
  {
    var m := ApplyEdit(n, e).node;
    if e.frame == "" {
      forall f
        ensures RowRuns.Carries(n, m, f)
      {
        RowRuns.UntouchedSelf(n, f);
        assert IdsGood(n, f);
        RowRuns.UntouchedCarries(n, n, f);
      }
    } else {
      RowRuns.EditedKeeps(n, e);
      var k := RowRuns.Edited(n, e);
      assert RowRuns.Step(n, e, m);
      hide ApplyEdit, RowRuns.Edited, RowRuns.Carries, Good;
      forall f
        ensures Good(m) && RowRuns.Carries(n, m, f)
        ensures f != e.frame ==> FrameUntouched(n, m, f)
      {
        RowRuns.StepKeeps(n, e, m, f);
      }
      assert FrameUntouched(n, m, "");
    }
  }

  lemma StepKeepsSound(n: Node, ch: Change, m: Node)
    requires Sound(n) && Step(n, ch, m)
    ensures Sound(m)
  {
    hide Sound, ApplyEdit, Apply, RowRuns.Legal, RowRuns.Carries;
    match ch
    case Rows(e) => EditKeepsSound(n, e);
    case Cells(ops) =>
      if Apply(n, ops).ok {
        AcceptedKeepsSound(n, ops);
      } else {
        RefusedKeepsSound(n, ops);
      }
  }

  lemma {:induction false} RunStaysSound(ns: seq<Node>, chs: seq<Change>, k: nat)
    requires Run(ns, chs) && Sound(ns[0]) && k <= |chs|
    ensures Sound(ns[k])
  {
    hide Sound, Step;
    if k > 0 {
      RunStaysSound(ns, chs, k - 1);
      StepKeepsSound(ns[k - 1], chs[k - 1], ns[k]);
    }
  }

  /**
   * In every run of cell transactions and row edits from the empty node, at every
   * moment: the rows of every frame have distinct identities, one each, and behind
   * them all cells are null.
   */
  lemma IdsStayDistinct(ns: seq<Node>, chs: seq<Change>, k: nat, f: string)
    requires Run(ns, chs) && ns[0] == EMPTY && k <= |chs|
    ensures DistinctIds(Ids(ns[k], f)) && |Ids(ns[k], f)| == RowsOf(ns[k], f)
    ensures TailNull(ns[k])
  {
    EmptyIsSound();
    RunStaysSound(ns, chs, k);
    assert IdsGood(ns[k], f);
    IdsCount(ns[k], f);
  }

  lemma PrefixKeepsOrder(n: Node, m: Node, f: string, a: RowId, b: RowId)
    requires RowRuns.Before(n, f, a, b)
    requires |Ids(n, f)| <= |Ids(m, f)| && Ids(m, f)[..|Ids(n, f)|] == Ids(n, f)
    ensures RowRuns.Before(m, f, a, b)
  {
    FirstInPrefix(Ids(n, f), Ids(m, f), a);
    FirstInPrefix(Ids(n, f), Ids(m, f), b);
  }

  lemma {:induction false} FirstInPrefix(p: seq<RowId>, s: seq<RowId>, id: RowId)
    requires |p| <= |s| && s[..|p|] == p && id in p
    ensures id in s && FirstIndex(s, id) == FirstIndex(p, id)
  {
    if p[0] != id {
      assert s[1..][..|p| - 1] == p[1..];
      FirstInPrefix(p[1..], s[1..], id);
    }
  }

  /** Two rows of a named frame that are never deleted keep their order, whatever is written and inserted. */
  lemma {:induction false} SurvivorsKeepOrder(ns: seq<Node>, chs: seq<Change>, k: nat, f: string, a: RowId, b: RowId)
    requires Run(ns, chs) && Sound(ns[0]) && k <= |chs| && f != "" && RowRuns.Before(ns[0], f, a, b)
    requires forall j :: 0 <= j <= k ==> a in Ids(ns[j], f) && b in Ids(ns[j], f)
    ensures RowRuns.Before(ns[k], f, a, b)
  {
    hide Sound, Ids, RowRuns.Legal, ApplyEdit, Apply, Clean, RowRuns.Before;
    if k > 0 {
      SurvivorsKeepOrder(ns, chs, k - 1, f, a, b);
      RunStaysSound(ns, chs, k - 1);
      var n, m := ns[k - 1], ns[k];
      assert Step(n, chs[k - 1], m);
      match chs[k - 1]
      case Rows(e) =>
        EditKeepsSound(n, e);
        assert RowRuns.Carries(n, m, f);
      case Cells(ops) =>
        WritesKeepIds(n, ops, f);
        PrefixKeepsOrder(n, m, f, a, b);
    }
  }

  lemma ElsewhereKeepsColumns(n: Node, ops: seq<CellOp>, f: string)
    requires Shaped(n) && forall c :: InFrame(c, f) ==> !Touches(ops, c)
    ensures FrameCols(Apply(n, ops).node, f) == FrameCols(n, f)
  {
    var m := Apply(n, ops).node;
    SetCellsKeeps(n, ops);
    if Apply(n, ops).ok {
      AcceptedRecords(n, ops);
    }
    assert m.cols.Keys == SetCells(n, ops).node.cols.Keys;
    hide Apply, SetCells, Touches;
  }

  lemma ElsewhereKeepsRow(n: Node, ops: seq<CellOp>, f: string, i: nat)
    requires Shaped(n) && Clean(n, ops) && forall c :: InFrame(c, f) ==> !Touches(ops, c)
    ensures Row(Apply(n, ops).node, f, i) == Row(n, f, i)
  {
    hide Apply, LeavesNothing, Read, Touches, FrameCols, Shaped, LastWrite;
    var m := Apply(n, ops).node;
    ElsewhereKeepsColumns(n, ops, f);
    forall c | c in FrameCols(n, f)
      ensures Read(m, c, i) == Read(n, c, i)
    {
      assert InFrame(c, f) by {
        ColumnInFrame(n, f, c);
      }
      if Apply(n, ops).ok {
        AcceptedWrites(n, ops, c, i);
        UntouchedHasNoWrite(ops, c, i);
      } else {
        NothingLeftReads(n, ops, c, i);
      }
    }
  }

  lemma ColumnInFrame(n: Node, f: string, c: Column)
    requires c in FrameCols(n, f)
    ensures InFrame(c, f)
  {
  }

  /** Writes to other frames leave every row of f under its identity. */
  lemma WritesElsewhereKeepRow(n: Node, ops: seq<CellOp>, f: string, id: RowId)
    requires Sound(n) && Clean(n, ops) && f != "" && id in Ids(n, f)
    requires forall c :: InFrame(c, f) ==> !Touches(ops, c)
    ensures RowRuns.RowNamed(Apply(n, ops).node, f, id) == RowRuns.RowNamed(n, f, id)
  {
    WritesKeepIds(n, ops, f);
    hide Ids, Row, Apply, Clean, Touches, Good;
    FirstInPrefix(Ids(n, f), Ids(Apply(n, ops).node, f), id);
    ElsewhereKeepsRow(n, ops, f, FirstIndex(Ids(n, f), id));
  }

  /** While nobody writes cells of the frame, an identity that is never deleted names the same contents. */
  lemma {:induction false} SurvivorsKeepContents(ns: seq<Node>, chs: seq<Change>, k: nat, f: string, id: RowId)
    requires Run(ns, chs) && Sound(ns[0]) && k <= |chs| && f != ""
    requires forall j :: 0 <= j <= k ==> id in Ids(ns[j], f)
    requires forall j, c :: 0 <= j < k && chs[j].Cells? && InFrame(c, f) ==> !Touches(chs[j].ops, c)
    ensures RowRuns.RowNamed(ns[k], f, id) == RowRuns.RowNamed(ns[0], f, id)
  {
    hide Sound, Ids, RowRuns.Legal, ApplyEdit, Apply, Clean, RowRuns.RowNamed, Touches;
    if k > 0 {
      SurvivorsKeepContents(ns, chs, k - 1, f, id);
      RunStaysSound(ns, chs, k - 1);
      var n, m := ns[k - 1], ns[k];
      assert Step(n, chs[k - 1], m);
      match chs[k - 1]
      case Rows(e) =>
        EditKeepsSound(n, e);
        assert RowRuns.Carries(n, m, f);
      case Cells(ops) => WritesElsewhereKeepRow(n, ops, f, id);
    }
  }
}
