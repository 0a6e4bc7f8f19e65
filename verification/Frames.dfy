/**
 * The snapshot of one frame and cell writes applied to a snapshot
 * (core/dataframe.py:500-504, 1233-1252, 1750-1770).
 */
module Frames {
  import opened Sequences
  import opened Wrappers
  import opened CellIds
  import opened Store
  import opened RowEdits
  import opened CellWrites

  /** A frame cut out of the shared table; columns keep their full name. */
  datatype Frame = Frame(rows: nat, cols: map<Column, seq<Value>>)

  predicate Square(fr: Frame) { forall c :: c in fr.cols ==> |fr.cols[c]| == fr.rows }

  /** All columns have the frame's length. */
  type Snapshot = fr: Frame | Square(fr) witness Frame(0, map[])

  function At(fr: Frame, c: Column, r: nat): Value {
    if c in fr.cols && r < |fr.cols[c]| then fr.cols[c][r] else Null
  }

  /** `_build_local_snapshot`. */
  function FrameOf(n: Node, f: string): Snapshot
    requires Shaped(n)
  {
    var cs := FrameCols(n, f);
    if cs == {} then Frame(0, map[])
    else
      var k := if f in n.frameRows && n.len > n.frameRows[f] then n.frameRows[f] else n.len;
      Frame(k, map c | c in cs :: n.cols[c][..k])
  }

  /** One operation of `_terapkan_ops_ke_snapshot`; columns the snapshot lacks are skipped. */
  function PatchOne(fr: Snapshot, op: CellOp): Snapshot
  {
    if op.ref.Marker? || op.ref.col !in fr.cols then fr
    else
      var c, i := op.ref.col, op.ref.row;
      var grown := if i < fr.rows then fr else Frame(i + 1, map d | d in fr.cols :: Fit(fr.cols[d], i + 1));
      grown.(cols := grown.cols[c := grown.cols[c][i := op.newValue]])
  }

  function Patch(fr: Snapshot, ops: seq<CellOp>): Snapshot
    decreases |ops|
  {
    if ops == [] then fr else PatchOne(Patch(fr, ops[..|ops| - 1]), ops[|ops| - 1])
  }

  lemma {:induction false} PatchConcat(fr: Snapshot, a: seq<CellOp>, b: seq<CellOp>)
    ensures Patch(fr, a + b) == Patch(Patch(fr, a), b)
    decreases |b|
  {
    if b == [] {
      assert a + b == a;
    } else {
      var k := |b| - 1;
      assert (a + b)[..|a + b| - 1] == a + b[..k];
      PatchConcat(fr, a, b[..k]);
    }
  }

  /** One past the last row written in a column of the set. */
  function Extent(ops: seq<CellOp>, cs: set<Column>): (k: nat)
    decreases |ops|
  {
    if ops == [] then 0
    else
      var k, ref := Extent(ops[..|ops| - 1], cs), ops[|ops| - 1].ref;
      if ref.Cell? && ref.col in cs then Max(k, ref.row + 1) else k
  }

  /** A patched snapshot, cell by cell. */
  lemma {:induction false} PatchReads(fr: Snapshot, ops: seq<CellOp>, c: Column, r: nat)
    ensures Patch(fr, ops).cols.Keys == fr.cols.Keys
    ensures Patch(fr, ops).rows == Max(fr.rows, Extent(ops, fr.cols.Keys))
    ensures c in fr.cols ==>
              At(Patch(fr, ops), c, r) == if LastWrite(ops, c, r).Some? then LastWrite(ops, c, r).value else At(fr, c, r)
    decreases |ops|
  {
    if ops != [] {
      PatchReads(fr, ops[..|ops| - 1], c, r);
    }
  }

  lemma SameFrame(a: Snapshot, b: Snapshot)
    requires a.rows == b.rows && a.cols.Keys == b.cols.Keys
    requires forall c, r: nat :: c in a.cols && r < a.rows ==> At(a, c, r) == At(b, c, r)
    ensures a == b
  {
    forall c | c in a.cols
      ensures a.cols[c] == b.cols[c]
    {
      forall r: nat | r < a.rows
        ensures a.cols[c][r] == b.cols[c][r]
      {
        assert At(a, c, r) == At(b, c, r);
      }
    }
  }

  /** The frame has a row record and nothing but nulls behind it. */
  ghost predicate Tidy(n: Node, f: string) { Shaped(n) && f != "" && f in n.frameRows && TailNullIn(n, f) }

  lemma FrameOfReads(n: Node, f: string, c: Column, r: nat)
    requires Tidy(n, f)
    ensures FrameOf(n, f).cols.Keys == FrameCols(n, f)
    ensures FrameOf(n, f).rows == if FrameCols(n, f) == {} then 0 else n.frameRows[f]
    ensures c in FrameCols(n, f) ==> At(FrameOf(n, f), c, r) == Read(n, c, r)
  {
    if c in FrameCols(n, f) && r >= n.frameRows[f] {
      assert RowsOf(n, f) <= r;
    }
  }

  /** A snapshot depends on the frame's columns, its row record and its cells only. */
  lemma SameCellsSameFrame(n: Node, m: Node, f: string)
    requires Tidy(n, f) && Tidy(m, f) && FrameCols(m, f) == FrameCols(n, f) && m.frameRows[f] == n.frameRows[f]
    requires forall c, r: nat :: c in FrameCols(n, f) ==> Read(m, c, r) == Read(n, c, r)
    ensures FrameOf(m, f) == FrameOf(n, f)
  {
    hide FrameOf, Read, FrameCols, Tidy, At;
    TidyIsShaped(n, f);
    TidyIsShaped(m, f);
    FrameOfReads(n, f, Plain(""), 0);
    FrameOfReads(m, f, Plain(""), 0);
    forall c, r: nat | c in FrameCols(n, f)
      ensures At(FrameOf(n, f), c, r) == At(FrameOf(m, f), c, r)
    {
      FrameOfReads(n, f, c, r);
      FrameOfReads(m, f, c, r);
    }
    SameFrame(FrameOf(n, f), FrameOf(m, f));
  }

  lemma {:induction false} ExtentIsReach(ops: seq<CellOp>, n: Node, f: string)
    requires OldColumnsOf(n, ops, f)
    ensures Extent(ops, FrameCols(n, f)) == Reach(ops, f)
    decreases |ops|
  {
    if ops != [] {
      var init := ops[..|ops| - 1];
      assert forall i :: 0 <= i < |init| ==> init[i] == ops[i];
      ExtentIsReach(init, n, f);
    }
  }

  ghost predicate OldColumns(n: Node, ops: seq<CellOp>) {
    forall i :: 0 <= i < |ops| && ops[i].ref.Cell? ==> ops[i].ref.col in n.cols
  }

  /** No column of the frame is new. */
  ghost predicate OldColumnsOf(n: Node, ops: seq<CellOp>, f: string) {
    forall i :: 0 <= i < |ops| && ops[i].ref.Cell? && InFrame(ops[i].ref.col, f) ==> ops[i].ref.col in n.cols
  }

  /** An accepted transaction keeps the frame tidy and its record in step. */
  lemma {:induction false} AcceptedTidy(n: Node, f: string, ops: seq<CellOp>)
    requires Tidy(n, f) && Apply(n, ops).ok
    ensures var m := Apply(n, ops).node;
            && Tidy(m, f) && n.cols.Keys <= m.cols.Keys && (OldColumns(n, ops) ==> m.cols.Keys == n.cols.Keys)
            && (FrameCols(m, f) == FrameCols(n, f) <==> OldColumnsOf(n, ops, f))
            && m.frameRows[f] == Max(n.frameRows[f], Reach(ops, f))
  {
    var w, m := SetCells(n, ops).node, Apply(n, ops).node;
    ApplyShaped(n, ops);
    SetCellsKeeps(n, ops);
    RecordedKeeps(w, ops);
    RecordedRows(w, ops, f);
    TouchedExist(n, ops);
    AcceptedColumnsOf(n, m, ops, f);
    hide SetCells, Apply, Recorded, Read, LastWrite, Reach, Touches;
    forall c, r: nat | c in m.cols && InFrame(c, f) && RowsOf(m, f) <= r
      ensures Read(m, c, r) == Null
    {
      AcceptedWrites(n, ops, c, r);
      BeyondReach(ops, f, c, r);
      assert RowsOf(n, f) <= r;
    }
  }

  lemma {:induction false} TouchedExist(n: Node, ops: seq<CellOp>)
    requires Shaped(n) && SetCells(n, ops).ok
    ensures forall c :: Touches(ops, c) ==> c in SetCells(n, ops).node.cols
    decreases |ops|
  {
    if ops != [] {
      var k := |ops| - 1;
      TouchedExist(n, ops[..k]);
      SetCellKeeps(SetCells(n, ops[..k]).node, ops[k]);
      forall c | Touches(ops, c)
        ensures c in SetCells(n, ops).node.cols
      {
        if !(ops[k].ref.Cell? && ops[k].ref.col == c) {
          var i :| 0 <= i < |ops| && ops[i].ref.Cell? && ops[i].ref.col == c;
          assert ops[..k][i] == ops[i];
          assert Touches(ops[..k], c);
        }
      }
    }
  }

  lemma AcceptedColumnsOf(n: Node, m: Node, ops: seq<CellOp>, f: string)
    requires n.cols.Keys <= m.cols.Keys
    requires forall c :: c in m.cols ==> c in n.cols || Touches(ops, c)
    requires forall c :: Touches(ops, c) ==> c in m.cols
    ensures OldColumns(n, ops) ==> m.cols.Keys == n.cols.Keys
    ensures FrameCols(m, f) == FrameCols(n, f) <==> OldColumnsOf(n, ops, f)
  {
    forall i | 0 <= i < |ops| && ops[i].ref.Cell? && InFrame(ops[i].ref.col, f)
      ensures ops[i].ref.col in FrameCols(m, f)
    {
      assert Touches(ops, ops[i].ref.col);
    }
  }

  /**
   * The snapshot after an accepted transaction is the snapshot before it, patched
   * with the transaction's writes, if and only if no column of the frame is new.
   */
  lemma ApplyIsPatchIff(n: Node, f: string, ops: seq<CellOp>)
    requires Tidy(n, f) && Apply(n, ops).ok
    ensures Tidy(Apply(n, ops).node, f)
    ensures FrameOf(Apply(n, ops).node, f) == Patch(FrameOf(n, f), ops) <==> OldColumnsOf(n, ops, f)
  {
    AcceptedTidy(n, f, ops);
    FrameOfReads(n, f, Plain(""), 0);
    if OldColumnsOf(n, ops, f) {
      ApplyIsPatch(n, f, ops);
    } else {
      FrameOfReads(Apply(n, ops).node, f, Plain(""), 0);
      PatchReads(FrameOf(n, f), ops, Plain(""), 0);
    }
  }

  lemma ApplyIsPatch(n: Node, f: string, ops: seq<CellOp>)
    requires Tidy(n, f) && OldColumnsOf(n, ops, f) && Apply(n, ops).ok
    ensures Tidy(Apply(n, ops).node, f)
    ensures FrameOf(Apply(n, ops).node, f) == Patch(FrameOf(n, f), ops)
  {
    var m, fr := Apply(n, ops).node, FrameOf(n, f);
    AcceptedTidy(n, f, ops);
    FrameOfReads(n, f, Plain(""), 0);
    FrameOfReads(m, f, Plain(""), 0);
    PatchReads(fr, ops, Plain(""), 0);
    ExtentIsReach(ops, n, f);
    ExtentOfNone(ops);
    TidyIsShaped(n, f);
    TidyIsShaped(m, f);
    hide FrameOf, Read, FrameCols, Apply, Patch, At, LastWrite, Reach, Extent, OldColumnsOf, Tidy, Shaped;
    forall c, r: nat | c in FrameCols(n, f)
      ensures At(FrameOf(m, f), c, r) == At(Patch(fr, ops), c, r)
    {
      FrameOfReads(n, f, c, r);
      FrameOfReads(m, f, c, r);
      PatchReads(fr, ops, c, r);
      AcceptedWrites(n, ops, c, r);
    }
    SameFrame(FrameOf(m, f), Patch(fr, ops));
  }

  lemma TidyIsShaped(n: Node, f: string)
    requires Tidy(n, f)
    ensures Shaped(n)
  {
  }

  lemma {:induction false} ExtentOfNone(ops: seq<CellOp>)
    ensures Extent(ops, {}) == 0
    decreases |ops|
  {
    if ops != [] {
      ExtentOfNone(ops[..|ops| - 1]);
    }
  }

  /** A refused transaction that names no new column of the frame leaves its snapshot as it was. */
  lemma RefusedSameFrame(n: Node, f: string, ops: seq<CellOp>)
    requires Tidy(n, f) && OldColumnsOf(n, ops, f) && !Apply(n, ops).ok
    ensures var m := Apply(n, ops).node;
            Tidy(m, f) && m.version == n.version && FrameOf(m, f) == FrameOf(n, f)
  {
    hide Apply, FrameOf, Read;
    var m := Apply(n, ops).node;
    ApplyShaped(n, ops);
    RefusedColumnsOf(n, f, ops);
    FailureRestoresIff(n, ops);
    forall c, r: nat | c in FrameCols(n, f)
      ensures Read(m, c, r) == Read(n, c, r)
    {
      FailedReads(n, ops, c, r);
    }
    assert forall c :: c in m.cols && InFrame(c, f) ==> c in FrameCols(n, f);
    assert TailNullIn(m, f);
    SameCellsSameFrame(n, m, f);
  }

  lemma RefusedColumnsOf(n: Node, f: string, ops: seq<CellOp>)
    requires Shaped(n) && OldColumnsOf(n, ops, f) && !Apply(n, ops).ok
    ensures FrameCols(Apply(n, ops).node, f) == FrameCols(n, f)
  {
    SetCellsKeeps(n, ops);
    assert forall c :: Touches(ops, c) && InFrame(c, f) ==> c in n.cols;
  }

  // -------------------------------------------------------------------- row edits

  /** The version counter does not show in a snapshot. */
  lemma TidyVersion(n: Node, m: Node, f: string)
    requires Tidy(n, f) && m == n.(version := m.version)
    ensures Tidy(m, f) && FrameOf(m, f) == FrameOf(n, f)
  {
    assert forall c, r: nat :: Read(m, c, r) == Read(n, c, r);
    assert FrameCols(m, f) == FrameCols(n, f);
  }

  lemma EditedTidy(n: Node, e: Edit, f: string)
    requires Tidy(n, f)
    ensures var p := ApplyEdit(n, e);
            && Tidy(p.node, f) && p.node.cols.Keys == n.cols.Keys
            && p.node.version == n.version + (if p.ok then 1 else 0)
            && (!p.ok ==> FrameOf(p.node, f) == FrameOf(n, f))
  {
    if e.frame != "" {
      var m := if e.InsertRows? then Insert(n, e.frame, e.count, e.at, e.default, e.asked)
               else Delete(n, e.frame, e.rows, e.ids).0;
      match e {
        case InsertRows(g, count, at, default, asked) => InsertTidy(n, g, count, at, default, asked, f);
        case DeleteRows(g, rows, ids) => DeleteTidy(n, g, rows, ids, f);
      }
      TidyVersion(m, ApplyEdit(n, e).node, f);
    }
  }

  lemma InsertTidy(n: Node, g: string, count: int, at: Option<int>, default: Value, asked: seq<RowId>, f: string)
    requires Tidy(n, f)
    ensures var m := Insert(n, g, count, at, default, asked);
            Tidy(m, f) && m.cols.Keys == n.cols.Keys && m.version == n.version
  {
    if count > 0 {
      var m := Insert(n, g, count, at, default, asked);
      InsertShape(n, g, count, at, default, asked);
      assert g == f ==> f in m.frameRows;
      hide Insert, Read, Position;
      forall c, r: nat | c in m.cols && InFrame(c, f) && RowsOf(m, f) <= r
        ensures Read(m, c, r) == Null
      {
        if g == f {
          InsertReads(n, g, count, at, default, asked, c, r);
        }
      }
    }
  }

  /** Nor do identities. */
  lemma IdsAreTidy(n: Node, m: Node, f: string)
    requires Tidy(n, f) && m == n.(rowIds := m.rowIds, rowSeq := m.rowSeq)
    ensures Tidy(m, f) && FrameOf(m, f) == FrameOf(n, f)
  {
    assert forall c, r: nat :: Read(m, c, r) == Read(n, c, r);
    assert FrameCols(m, f) == FrameCols(n, f);
  }

  lemma DeleteTidy(n: Node, g: string, byRow: seq<int>, byId: seq<RowId>, f: string)
    requires Tidy(n, f)
    ensures var m := Delete(n, g, byRow, byId).0;
            Tidy(m, f) && m.cols.Keys == n.cols.Keys && m.version == n.version
    ensures !Delete(n, g, byRow, byId).1 ==> FrameOf(Delete(n, g, byRow, byId).0, f) == FrameOf(n, f)
  {
    var rows, e := RowsOf(n, g), EnsureIds(n, g, RowsOf(n, g));
    RowsFit(n, g);
    IdsAreTidy(n, e, f);
    var out := Positions(rows, e.rowIds[g], byRow, byId);
    var m := Delete(n, g, byRow, byId).0;
    if m != e {
      DroppedTidy(e, g, rows, out, f);
    }
  }

  lemma DroppedTidy(e: Node, g: string, rows: nat, out: set<nat>, f: string)
    requires Tidy(e, f) && rows <= e.len && forall p :: p in out ==> p < rows
    ensures var m := DeleteFrom(e, g, rows, out);
            Tidy(m, f) && m.cols.Keys == e.cols.Keys
  {
    var m := DeleteFrom(e, g, rows, out);
    KeptSize(rows, out);
    forall c, r: nat | c in m.cols && InFrame(c, f) && RowsOf(m, f) <= r
      ensures Read(m, c, r) == Null
    {
      if g == f {
        FromReads(e, g, rows, out, c, r);
      } else {
        assert Read(e, c, r) == Null;
      }
    }
  }

  // -------------------------------------------------- frames without a row record

  /** The table grows exactly when some write is to a row it does not have. */
  lemma WritesGrowTable(n: Node, ops: seq<CellOp>)
    requires Shaped(n) && Apply(n, ops).ok
    ensures Apply(n, ops).node.len == n.len <==> forall i :: 0 <= i < |ops| && ops[i].ref.Cell? ==> ops[i].ref.row < n.len
  {
    AcceptedRecords(n, ops);
    if i :| 0 <= i < |ops| && ops[i].ref.Cell? && ops[i].ref.row >= n.len {
      SetCellsReach(n, ops, i);
    } else {
      InsideKeepsLength(n, ops);
    }
  }

  lemma {:induction false} InsideKeepsLength(n: Node, ops: seq<CellOp>)
    requires Shaped(n) && forall i :: 0 <= i < |ops| && ops[i].ref.Cell? ==> ops[i].ref.row < n.len
    ensures SetCells(n, ops).node.len == n.len
    decreases |ops|
  {
    if ops != [] {
      var init := ops[..|ops| - 1];
      assert forall i :: 0 <= i < |init| ==> init[i] == ops[i];
      InsideKeepsLength(n, init);
      SetCellLength(SetCells(n, init).node, ops[|ops| - 1]);
    }
  }

  lemma SetCellLength(n: Node, op: CellOp)
    requires Shaped(n)
    ensures SetCell(n, op).node.len == if op.ref.Cell? then Max(n.len, op.ref.row + 1) else n.len
  {
  }

  /** Writes to other frames leave the columns of an unrecorded frame, and give it no record. */
  lemma ElsewhereKeepsCells(n: Node, f: string, ops: seq<CellOp>)
    requires Shaped(n) && f !in n.frameRows && Apply(n, ops).ok
    requires forall i :: 0 <= i < |ops| && ops[i].ref.Cell? ==> !InFrame(ops[i].ref.col, f)
    ensures var m := Apply(n, ops).node;
            && Shaped(m) && f !in m.frameRows && FrameCols(m, f) == FrameCols(n, f)
            && (forall c, r: nat :: c in FrameCols(n, f) ==> Read(m, c, r) == Read(n, c, r))
  {
    hide Apply, SetCells, Recorded, Reach, Read, Shaped;
    var m, w := Apply(n, ops).node, SetCells(n, ops).node;
    ApplyShaped(n, ops);
    AcceptedRecords(n, ops);
    SetCellsKeeps(n, ops);
    ReachBelow(ops, f, 0);
    RecordedElsewhere(w, ops, f);
    assert forall c :: Touches(ops, c) ==> !InFrame(c, f);
    forall c, r: nat | c in FrameCols(n, f)
      ensures Read(m, c, r) == Read(n, c, r)
    {
      AcceptedWrites(n, ops, c, r);
      UntouchedHasNoWrite(ops, c, r);
    }
  }

  /**
   * A frame without a row record reads as long as the shared table: a transaction on
   * other frames leaves its snapshot if and only if it stays within the table.
   */
  lemma UnrecordedFrameKeptIff(n: Node, f: string, ops: seq<CellOp>)
    requires Shaped(n) && f !in n.frameRows && Apply(n, ops).ok && Shaped(Apply(n, ops).node)
    requires forall i :: 0 <= i < |ops| && ops[i].ref.Cell? ==> !InFrame(ops[i].ref.col, f)
    ensures FrameOf(Apply(n, ops).node, f) == FrameOf(n, f) <==>
            FrameCols(n, f) == {} || forall i :: 0 <= i < |ops| && ops[i].ref.Cell? ==> ops[i].ref.row < n.len
  {
    var m := Apply(n, ops).node;
    ElsewhereKeepsCells(n, f, ops);
    WritesGrowTable(n, ops);
    hide Apply, FrameCols;
    if m.len == n.len {
      forall c, r: nat | c in FrameCols(n, f)
        ensures At(FrameOf(m, f), c, r) == At(FrameOf(n, f), c, r)
      {
        assert Read(m, c, r) == Read(n, c, r);
      }
      SameFrame(FrameOf(m, f), FrameOf(n, f));
    }
  }

  /** One write to row 2 of frame "g" makes the unrecorded one-row frame "f" three rows long. */
  lemma UnrecordedFrameDrifts()
    ensures var n := Node(map[Framed("f", "x") := [Val("1")], Framed("g", "y") := [Null]], 1, map["g" := 1], map[], map[], 0);
            var ops := [CellOp(Cell(Framed("g", "y"), 2), Null, Val("2"))];
            && Shaped(n) && Apply(n, ops).ok && Shaped(Apply(n, ops).node)
            && FrameOf(Apply(n, ops).node, "f") != FrameOf(n, "f")
  {
    hide Apply;
    var c, d := Framed("f", "x"), Framed("g", "y");
    var n := Node(map[c := [Val("1")], d := [Null]], 1, map["g" := 1], map[], map[], 0);
    var op := CellOp(Cell(d, 2), Null, Val("2"));
    assert [op][..0] == [] && LastWrite([], d, 2) == None;
    ApplyAcceptsIff(n, [op]);
    ApplyShaped(n, [op]);
    assert c in FrameCols(n, "f") && [op][0] == op;
    UnrecordedFrameKeptIff(n, "f", [op]);
  }
}
