/**
 * A transaction of cell writes: optimistic checks, rollback and row records
 * (core/write_node.py:60-153, 228-251, 389-420).
 */
module CellWrites {
  import opened Sequences
  import opened Wrappers
  import opened CellIds
  import opened Store
  import opened RowEdits

  // ------------------------------------------------------------------- cell writes

  function Prepared(n: Node, c: Column, r: nat): Node { WithColumn(Grow(n, r + 1), c) }

  function Put(n: Node, c: Column, r: nat, v: Value): Node
    requires c in n.cols && r < |n.cols[c]|
  {
    n.(cols := n.cols[c := n.cols[c][r := v]])
  }

  lemma PreparedKeeps(n: Node, c: Column, r: nat)
    requires Shaped(n)
    ensures var p := Prepared(n, c, r);
            && Shaped(p) && c in p.cols && r < p.len && n.len <= p.len
            && p.cols.Keys == n.cols.Keys + {c}
            && (forall d, k: nat :: Read(p, d, k) == Read(n, d, k))
  {
    GrowKeeps(n, r + 1);
    WithColumnKeeps(Grow(n, r + 1), c);
  }

  /** One cell write: refused when the cell does not hold the expected value. */
  function SetCell(n: Node, op: CellOp): Progress
    requires Shaped(n)
  {
    if op.ref.Marker? then Progress(n, true)
    else
      var c, r := op.ref.col, op.ref.row;
      var p := Prepared(n, c, r);
      PreparedKeeps(n, c, r);
      if Read(p, c, r) != op.oldValue then Progress(p, false) else Progress(Put(p, c, r, op.newValue), true)
  }

  /** Only cells, columns and the length differ. */
  ghost predicate SameRecords(n: Node, m: Node) {
    m.frameRows == n.frameRows && m.rowIds == n.rowIds && m.rowSeq == n.rowSeq && m.version == n.version
  }

  lemma SetCellKeeps(n: Node, op: CellOp)
    requires Shaped(n)
    ensures var m := SetCell(n, op).node;
            && Shaped(m) && SameRecords(n, m) && n.len <= m.len
            && m.cols.Keys == n.cols.Keys + (if op.ref.Cell? then {op.ref.col} else {})
  {
    if op.ref.Cell? {
      var d, k := op.ref.col, op.ref.row;
      PreparedKeeps(n, d, k);
      var p := Prepared(n, d, k);
      assert |p.cols[d]| == p.len;
      hide Prepared, Read, Put, Shaped;
      PutKeeps(p, d, k, op.newValue);
    }
  }

  lemma PutKeeps(n: Node, c: Column, r: nat, v: Value)
    requires Shaped(n) && c in n.cols && r < n.len
    ensures Shaped(Put(n, c, r, v)) && SameRecords(n, Put(n, c, r, v))
    ensures Put(n, c, r, v).len == n.len && Put(n, c, r, v).cols.Keys == n.cols.Keys
  {
  }

  lemma PutReads(n: Node, c: Column, r: nat, v: Value, d: Column, k: nat)
    requires Shaped(n) && c in n.cols && r < n.len
    ensures Read(Put(n, c, r, v), d, k) == if d == c && k == r then v else Read(n, d, k)
  {
  }

  lemma SetCellReads(n: Node, op: CellOp, c: Column, r: nat)
    requires Shaped(n)
    ensures var p := SetCell(n, op);
            && (p.ok <==> op.ref.Marker? || Read(n, op.ref.col, op.ref.row) == op.oldValue)
            && Read(p.node, c, r) == if p.ok && op.ref == Cell(c, r) then op.newValue else Read(n, c, r)
  {
    if op.ref.Cell? {
      var d, k := op.ref.col, op.ref.row;
      PreparedKeeps(n, d, k);
      var p := Prepared(n, d, k);
      assert |p.cols[d]| == p.len;
      hide Prepared, Read, Put, Shaped;
      PutReads(p, d, k, op.newValue, c, r);
    }
  }

  /** The writes of a transaction in order, up to the first refused one. */
  function SetCells(n: Node, ops: seq<CellOp>): (p: Progress)
    requires Shaped(n)
    ensures Shaped(p.node)
    decreases |ops|
  {
    if ops == [] then Progress(n, true)
    else
      var p := SetCells(n, ops[..|ops| - 1]);
      SetCellKeeps(p.node, ops[|ops| - 1]);
      if p.ok then SetCell(p.node, ops[|ops| - 1]) else p
  }

  /** The value of the last write to a cell. */
  function LastWrite(ops: seq<CellOp>, c: Column, r: nat): Option<Value>
    decreases |ops|
  {
    if ops == [] then None
    else if ops[|ops| - 1].ref == Cell(c, r) then Some(ops[|ops| - 1].newValue)
    else LastWrite(ops[..|ops| - 1], c, r)
  }

  /** What a cell holds after the writes `ops` on top of n. */
  function ValueAt(n: Node, ops: seq<CellOp>, c: Column, r: nat): Value {
    var last := LastWrite(ops, c, r);
    if last.Some? then last.value else Read(n, c, r)
  }

  /** The expected value of write i is what the writes before it leave. */
  predicate Passes(n: Node, ops: seq<CellOp>, i: nat)
    requires i < |ops|
  {
    ops[i].ref.Marker? || ops[i].oldValue == ValueAt(n, ops[..i], ops[i].ref.col, ops[i].ref.row)
  }

  /** How many writes are carried out: all, or those before the first refused one. */
  function Reached(n: Node, ops: seq<CellOp>): (k: nat)
    ensures k <= |ops|
    decreases |ops|
  {
    if ops == [] then 0
    else
      var i := |ops| - 1;
      var k := Reached(n, ops[..i]);
      if k < i then k else if Passes(n, ops, i) then i + 1 else i
  }

  lemma {:induction false} SetCellsKeeps(n: Node, ops: seq<CellOp>)
    requires Shaped(n)
    ensures var m := SetCells(n, ops).node;
            && SameRecords(n, m) && n.len <= m.len && n.cols.Keys <= m.cols.Keys
            && (forall c :: c in m.cols ==> c in n.cols || Touches(ops, c))
    decreases |ops|
  {
    if ops != [] {
      var i := |ops| - 1;
      SetCellsKeeps(n, ops[..i]);
      SetCellKeeps(SetCells(n, ops[..i]).node, ops[i]);
      assert forall c :: Touches(ops[..i], c) ==> Touches(ops, c);
      assert ops[i].ref.Cell? ==> Touches(ops, ops[i].ref.col);
    }
  }

  lemma SetMarker(n: Node, op: CellOp)
    requires Shaped(n) && op.ref.Marker?
    ensures SetCell(n, op) == Progress(n, true)
  {
  }

  lemma SetCellsStep(n: Node, ops: seq<CellOp>, i: nat)
    requires Shaped(n) && i < |ops|
    ensures var p := SetCells(n, ops[..i]);
            SetCells(n, ops[..i + 1]) == if p.ok then SetCell(p.node, ops[i]) else p
  {
    assert ops[..i + 1][..i] == ops[..i];
  }

  /** Nothing is carried out after a refused write. */
  lemma {:induction false} SetCellsStop(n: Node, ops: seq<CellOp>, i: nat)
    requires Shaped(n) && i <= |ops| && !SetCells(n, ops[..i]).ok
    ensures SetCells(n, ops) == SetCells(n, ops[..i])
    decreases |ops|
  {
    if i == |ops| {
      assert ops[..i] == ops;
    } else {
      assert ops[..|ops| - 1][..i] == ops[..i];
      SetCellsStop(n, ops[..|ops| - 1], i);
    }
  }

  predicate Touches(ops: seq<CellOp>, c: Column) {
    exists i :: 0 <= i < |ops| && ops[i].ref.Cell? && ops[i].ref.col == c
  }

  /** Cell by cell: the writes carried out are those reached, and they say what each cell holds. */
  lemma {:induction false} SetCellsReads(n: Node, ops: seq<CellOp>, c: Column, r: nat)
    requires Shaped(n)
    ensures SetCells(n, ops).ok <==> Reached(n, ops) == |ops|
    ensures Read(SetCells(n, ops).node, c, r) == ValueAt(n, ops[..Reached(n, ops)], c, r)
    decreases |ops|
  {
    if ops == [] {
      assert ops[..0] == [];
    } else {
      var i := |ops| - 1;
      var init, last := ops[..i], ops[i];
      var p := SetCells(n, init);
      SetCellsReads(n, init, c, r);
      assert init[..i] == init;
      if p.ok {
        if last.ref.Cell? {
          SetCellsReads(n, init, last.ref.col, last.ref.row);
        }
        SetCellReads(p.node, last, c, r);
        assert ops[..i + 1] == ops;
      } else {
        assert init[..Reached(n, init)] == ops[..Reached(n, init)];
      }
    }
  }

  // ------------------------------------------------------- rollback and row records

  /** `_rollback`: columns that existed are restored, all are cut to the old length. */
  function RolledBack(n: Node, m: Node, ops: seq<CellOp>): Node {
    m.(len := n.len,
       cols := map c | c in m.cols :: if c in n.cols && Touches(ops, c) then n.cols[c] else Fit(m.cols[c], n.len))
  }

  /** `_catat_baris` for each cell write. */
  function Recorded(n: Node, ops: seq<CellOp>): Node
    decreases |ops|
  {
    if ops == [] then n
    else
      var m, ref := Recorded(n, ops[..|ops| - 1]), ops[|ops| - 1].ref;
      if ref.Cell? && ref.col.Framed? then Record(m, ref.col.frame, ref.row + 1) else m
  }

  /** `apply` of a transaction of cell writes. */
  function Apply(n: Node, ops: seq<CellOp>): Progress
    requires Shaped(n)
  {
    var p := SetCells(n, ops);
    if p.ok then
      var m := Recorded(p.node, ops);
      Progress(m.(version := m.version + 1), true)
    else Progress(RolledBack(n, p.node, ops), false)
  }

  lemma {:induction false} RecordedKeeps(n: Node, ops: seq<CellOp>)
    ensures var m := Recorded(n, ops);
            && m.cols == n.cols && m.len == n.len && m.rowIds == n.rowIds && m.rowSeq == n.rowSeq
            && m.version == n.version
    decreases |ops|
  {
    if ops != [] {
      RecordedKeeps(n, ops[..|ops| - 1]);
    }
  }

  /** What an accepted transaction leaves beside the cells it writes. */
  lemma AcceptedRecords(n: Node, ops: seq<CellOp>)
    requires Shaped(n) && Apply(n, ops).ok
    ensures var k, w := Apply(n, ops).node, SetCells(n, ops).node;
            && k.cols == w.cols && k.len == w.len && k.rowIds == n.rowIds && k.rowSeq == n.rowSeq
            && k.frameRows == Recorded(w, ops).frameRows && k.version == n.version + 1
            && w.frameRows == n.frameRows
  {
    SetCellsKeeps(n, ops);
    RecordedKeeps(SetCells(n, ops).node, ops);
  }

  /** One past the last row of frame f that is written. */
  function Reach(ops: seq<CellOp>, f: string): (k: nat)
    decreases |ops|
  {
    if ops == [] then 0
    else
      var k, ref := Reach(ops[..|ops| - 1], f), ops[|ops| - 1].ref;
      if ref.Cell? && InFrame(ref.col, f) then Max(k, ref.row + 1) else k
  }

  /** A recorded row count grows to what was written. */
  lemma {:induction false} RecordedRows(n: Node, ops: seq<CellOp>, f: string)
    requires f in n.frameRows
    ensures f in Recorded(n, ops).frameRows
    ensures Recorded(n, ops).frameRows[f] == if f == "" then n.frameRows[f] else Max(n.frameRows[f], Reach(ops, f))
    decreases |ops|
  {
    if ops != [] {
      RecordedRows(n, ops[..|ops| - 1], f);
    }
  }

  lemma {:induction false} BeyondReach(ops: seq<CellOp>, f: string, c: Column, r: nat)
    requires InFrame(c, f) && Reach(ops, f) <= r
    ensures LastWrite(ops, c, r) == None
    decreases |ops|
  {
    if ops != [] {
      BeyondReach(ops[..|ops| - 1], f, c, r);
    }
  }

  lemma {:induction false} ReachBelow(ops: seq<CellOp>, f: string, k: nat)
    requires forall i :: 0 <= i < |ops| && ops[i].ref.Cell? && InFrame(ops[i].ref.col, f) ==> ops[i].ref.row < k
    ensures Reach(ops, f) <= k
    decreases |ops|
  {
    if ops != [] {
      var init := ops[..|ops| - 1];
      assert forall i :: 0 <= i < |init| ==> init[i] == ops[i];
      ReachBelow(init, f, k);
    }
  }

  /** Frames that are not written to keep their record, or have none. */
  lemma {:induction false} RecordedElsewhere(n: Node, ops: seq<CellOp>, f: string)
    requires Reach(ops, f) == 0
    ensures f in Recorded(n, ops).frameRows <==> f in n.frameRows
    ensures f in n.frameRows ==> Recorded(n, ops).frameRows[f] == n.frameRows[f]
    decreases |ops|
  {
    if ops != [] {
      RecordedElsewhere(n, ops[..|ops| - 1], f);
    }
  }

  /** Rows are only recorded once the table has them. */
  lemma {:induction false} RecordedFits(n: Node, ops: seq<CellOp>)
    requires Shaped(n) && forall i :: 0 <= i < |ops| && ops[i].ref.Cell? ==> ops[i].ref.row < n.len
    ensures Shaped(Recorded(n, ops))
    decreases |ops|
  {
    if ops != [] {
      var init := ops[..|ops| - 1];
      assert forall i :: 0 <= i < |init| ==> init[i] == ops[i];
      RecordedFits(n, init);
      RecordedKeeps(n, init);
      if ops[|ops| - 1].ref.Cell? && ops[|ops| - 1].ref.col.Framed? {
        RowsFit(Recorded(n, init), ops[|ops| - 1].ref.col.frame);
      }
    }
  }

  /** A frame with a name that is written to has a row record, down to the last row written. */
  lemma {:induction false} WrittenFrameIsRecorded(n: Node, ops: seq<CellOp>, f: string)
    requires f != "" && Reach(ops, f) > 0
    ensures f in Recorded(n, ops).frameRows && Recorded(n, ops).frameRows[f] >= Reach(ops, f)
    decreases |ops|
  {
    var init := ops[..|ops| - 1];
    if Reach(init, f) > 0 {
      WrittenFrameIsRecorded(n, init, f);
    }
  }

  /** After all writes the table is long enough for each of them. */
  lemma {:induction false} SetCellsReach(n: Node, ops: seq<CellOp>, i: nat)
    requires Shaped(n) && SetCells(n, ops).ok && i < |ops| && ops[i].ref.Cell?
    ensures ops[i].ref.row < SetCells(n, ops).node.len
    decreases |ops|
  {
    var k := |ops| - 1;
    if i < k {
      SetCellsReach(n, ops[..k], i);
    } else {
      PreparedKeeps(SetCells(n, ops[..k]).node, ops[k].ref.col, ops[k].ref.row);
    }
    SetCellKeeps(SetCells(n, ops[..k]).node, ops[k]);
  }

  lemma ApplyShaped(n: Node, ops: seq<CellOp>)
    requires Shaped(n)
    ensures Shaped(Apply(n, ops).node)
  {
    var p := SetCells(n, ops);
    SetCellsKeeps(n, ops);
    if p.ok {
      forall i | 0 <= i < |ops| && ops[i].ref.Cell?
        ensures ops[i].ref.row < p.node.len
      {
        SetCellsReach(n, ops, i);
      }
      RecordedFits(p.node, ops);
    }
  }

  /** A transaction is accepted exactly when every expected value is current. */
  lemma ApplyAcceptsIff(n: Node, ops: seq<CellOp>)
    requires Shaped(n)
    ensures Apply(n, ops).ok <==> forall i :: 0 <= i < |ops| ==> Passes(n, ops, i)
  {
    SetCellsReads(n, ops, Plain(""), 0);
    ReachedIsFirstFailure(n, ops);
  }

  lemma {:induction false} ReachedIsFirstFailure(n: Node, ops: seq<CellOp>)
    ensures var k := Reached(n, ops);
            && (forall i :: 0 <= i < k ==> Passes(n, ops, i))
            && (k < |ops| ==> !Passes(n, ops, k))
    decreases |ops|
  {
    if ops != [] {
      var init := ops[..|ops| - 1];
      ReachedIsFirstFailure(n, init);
      forall i: nat | i < |init|
        ensures Passes(n, init, i) == Passes(n, ops, i)
      {
        assert init[..i] == ops[..i];
      }
    }
  }

  /** An accepted transaction leaves its last write in every cell it names, and no other change. */
  lemma AcceptedWrites(n: Node, ops: seq<CellOp>, c: Column, r: nat)
    requires Shaped(n) && Apply(n, ops).ok
    ensures var m := Apply(n, ops).node;
            && Read(m, c, r) == ValueAt(n, ops, c, r)
            && m.version == n.version + 1 && m.rowIds == n.rowIds && m.rowSeq == n.rowSeq
  {
    SetCellsReads(n, ops, c, r);
    SetCellsKeeps(n, ops);
    RecordedKeeps(SetCells(n, ops).node, ops);
    assert ops[..|ops|] == ops;
  }

  // --------------------------------------------------------------- failed transactions

  /** Write i was carried out and none of the later ones carried out hits the same cell. */
  predicate Stands(n: Node, ops: seq<CellOp>, i: nat) {
    && i < Reached(n, ops) && ops[i].ref.Cell?
    && forall j :: i < j < Reached(n, ops) ==> ops[j].ref != ops[i].ref
  }

  /**
   * Before the refused write, no write left a value in an existing row of a column
   * that did not exist.
   */
  predicate LeavesNothing(n: Node, ops: seq<CellOp>) {
    forall i :: 0 <= i < |ops| && Stands(n, ops, i) && ops[i].ref.col !in n.cols && ops[i].ref.row < n.len ==>
                  ops[i].newValue == Null
  }

  lemma {:induction false} LastWriteStands(ops: seq<CellOp>, c: Column, r: nat)
    ensures LastWrite(ops, c, r).Some? ==>
              exists i :: 0 <= i < |ops| && ops[i].ref == Cell(c, r) && LastWrite(ops, c, r).value == ops[i].newValue
                          && forall j :: i < j < |ops| ==> ops[j].ref != ops[i].ref
    ensures LastWrite(ops, c, r) == None ==> forall i :: 0 <= i < |ops| ==> ops[i].ref != Cell(c, r)
    decreases |ops|
  {
    if ops != [] {
      var n := |ops| - 1;
      LastWriteStands(ops[..n], c, r);
      if ops[n].ref != Cell(c, r) && LastWrite(ops[..n], c, r).Some? {
        var i :| 0 <= i < n && ops[..n][i].ref == Cell(c, r) && LastWrite(ops[..n], c, r).value == ops[..n][i].newValue
                 && forall j :: i < j < n ==> ops[..n][j].ref != ops[..n][i].ref;
        assert ops[i].ref == Cell(c, r);
        assert forall j :: i < j < n ==> ops[j] == ops[..n][j];
      }
    }
  }

  /** What a cell reads after a failed transaction. */
  lemma FailedReads(n: Node, ops: seq<CellOp>, c: Column, r: nat)
    requires Shaped(n) && !Apply(n, ops).ok
    ensures Read(Apply(n, ops).node, c, r) ==
            if c in n.cols || r >= n.len then Read(n, c, r)
            else ValueAt(n, ops[..Reached(n, ops)], c, r)
  {
    var m := SetCells(n, ops).node;
    SetCellsReads(n, ops, c, r);
    SetCellsKeeps(n, ops);
    if c in n.cols && !Touches(ops, c) {
      UntouchedHasNoWrite(ops[..Reached(n, ops)], c, r);
    }
  }

  lemma {:induction false} UntouchedHasNoWrite(ops: seq<CellOp>, c: Column, r: nat)
    requires !Touches(ops, c)
    ensures LastWrite(ops, c, r) == None
    decreases |ops|
  {
    if ops != [] {
      var init := ops[..|ops| - 1];
      assert ops[|ops| - 1].ref.Marker? || ops[|ops| - 1].ref.col != c;
      assert forall i :: 0 <= i < |init| ==> init[i] == ops[i];
      UntouchedHasNoWrite(init, c, r);
    }
  }

  /**
   * A failed transaction always restores length, row records, identities and the
   * version.  It restores every cell if and only if it left nothing behind in a
   * column it had to create: `_rollback` does not drop new columns.
   */
  lemma FailureRestoresIff(n: Node, ops: seq<CellOp>)
    requires Shaped(n) && !Apply(n, ops).ok
    ensures SameRecords(n, Apply(n, ops).node) && Apply(n, ops).node.len == n.len
    ensures (forall c, r: nat :: Read(Apply(n, ops).node, c, r) == Read(n, c, r)) <==> LeavesNothing(n, ops)
  {
    SetCellsKeeps(n, ops);
    if LeavesNothing(n, ops) {
      forall c, r: nat
        ensures Read(Apply(n, ops).node, c, r) == Read(n, c, r)
      {
        NothingLeftReads(n, ops, c, r);
      }
    } else {
      var i := DirtyCell(n, ops);
    }
  }

  /** A cell that a refused transaction leaves changed. */
  lemma DirtyCell(n: Node, ops: seq<CellOp>) returns (i: nat)
    requires Shaped(n) && !Apply(n, ops).ok && !LeavesNothing(n, ops)
    ensures i < |ops| && ops[i].ref.Cell?
    ensures Read(Apply(n, ops).node, ops[i].ref.col, ops[i].ref.row) != Read(n, ops[i].ref.col, ops[i].ref.row)
  {
    i :| 0 <= i < |ops| && Stands(n, ops, i) && ops[i].ref.col !in n.cols && ops[i].ref.row < n.len
         && ops[i].newValue != Null;
    FailedReads(n, ops, ops[i].ref.col, ops[i].ref.row);
    StandingWriteIsLast(ops[..Reached(n, ops)], i);
  }

  /** Transactions on existing columns leave nothing. */
  lemma ExistingColumnsLeaveNothing(n: Node, ops: seq<CellOp>)
    requires forall c :: Touches(ops, c) ==> c in n.cols
    ensures LeavesNothing(n, ops)
  {
    forall i | 0 <= i < |ops| && ops[i].ref.Cell?
      ensures ops[i].ref.col in n.cols
    {
      assert Touches(ops, ops[i].ref.col);
    }
  }

  lemma NothingLeftReads(n: Node, ops: seq<CellOp>, c: Column, r: nat)
    requires Shaped(n) && !Apply(n, ops).ok && LeavesNothing(n, ops)
    ensures Read(Apply(n, ops).node, c, r) == Read(n, c, r)
  {
    FailedReads(n, ops, c, r);
    var done := ops[..Reached(n, ops)];
    LastWriteStands(done, c, r);
    if c !in n.cols && r < n.len && LastWrite(done, c, r).Some? {
      var i :| 0 <= i < |done| && done[i].ref == Cell(c, r) && LastWrite(done, c, r).value == done[i].newValue
               && forall j :: i < j < |done| ==> done[j].ref != done[i].ref;
      assert forall j :: 0 <= j < |done| ==> done[j] == ops[j];
      assert Stands(n, ops, i);
    }
  }

  lemma {:induction false} StandingWriteIsLast(ops: seq<CellOp>, i: nat)
    requires i < |ops| && ops[i].ref.Cell? && forall j :: i < j < |ops| ==> ops[j].ref != ops[i].ref
    ensures LastWrite(ops, ops[i].ref.col, ops[i].ref.row) == Some(ops[i].newValue)
    decreases |ops|
  {
    var n := |ops| - 1;
    if i < n {
      assert ops[n].ref != ops[i].ref;
      StandingWriteIsLast(ops[..n], i);
    }
  }

  /** All columns exist: a failed transaction changes nothing that can be read. */
  lemma FailureIsInvisible(n: Node, ops: seq<CellOp>)
    requires Shaped(n) && !Apply(n, ops).ok && forall c :: Touches(ops, c) ==> c in n.cols
    ensures var m := Apply(n, ops).node;
            && SameRecords(n, m) && m.len == n.len && m.cols.Keys == n.cols.Keys
            && forall c, r: nat :: Read(m, c, r) == Read(n, c, r)
  {
    ExistingColumnsLeaveNothing(n, ops);
    SetCellsKeeps(n, ops);
    FailureRestoresIff(n, ops);
  }

  /** A write to a new column survives the conflict that follows it. */
  lemma DirtyColumnSurvives()
    ensures var n := Node(map[Plain("a") := [Val("1")]], 1, map[], map[], map[], 0);
            var ops := [CellOp(Cell(Plain("b"), 0), Null, Val("x")), CellOp(Cell(Plain("a"), 0), Null, Val("2"))];
            && !Apply(n, ops).ok
            && Read(n, Plain("b"), 0) == Null && Read(Apply(n, ops).node, Plain("b"), 0) == Val("x")
  {
    var n := Node(map[Plain("a") := [Val("1")]], 1, map[], map[], map[], 0);
    var ops := [CellOp(Cell(Plain("b"), 0), Null, Val("x")), CellOp(Cell(Plain("a"), 0), Null, Val("2"))];
    assert ops[..1] == [ops[0]] && ops[..0] == [] && ops[..1][..0] == [];
    assert LastWrite(ops[..1], Plain("b"), 0) == Some(Val("x"));
    assert LastWrite(ops[..1], Plain("a"), 0) == LastWrite([], Plain("a"), 0);
    assert Passes(n, ops[..1], 0) && !Passes(n, ops, 1);
    assert Reached(n, ops[..1]) == 1 && Reached(n, ops) == 1;
    SetCellsReads(n, ops, Plain("b"), 0);
    FailedReads(n, ops, Plain("b"), 0);
  }
}
