/**
 * The write node itself (core/write_node.py): the methods that change its fields,
 * each proved equal to the function of the old state that the other modules reason
 * about.  A transaction holds cell writes or one row edit, as core/dataframe.py
 * submits them.
 */
module WriteNode {
  import opened Sequences
  import opened Wrappers
  import opened CellIds
  import opened Store
  import opened RowEdits
  import opened CellWrites

  /** `base` with the columns of `done` taken from `other`. */
  ghost function Overlay(base: map<Column, seq<Value>>, other: map<Column, seq<Value>>, done: set<Column>)
      : map<Column, seq<Value>>
  {
    map c | c in base :: if c in done && c in other then other[c] else base[c]
  }

  lemma OverlayNone(base: map<Column, seq<Value>>, other: map<Column, seq<Value>>)
    ensures forall todo :: todo == other.Keys ==> Overlay(base, other, other.Keys - todo) == base
  {
  }

  lemma OverlayStep(base: map<Column, seq<Value>>, other: map<Column, seq<Value>>, done: set<Column>, c: Column)
    requires c in base && c in other
    ensures Overlay(base, other, done + {c}) == Overlay(base, other, done)[c := other[c]]
    ensures c in Overlay(base, other, done) && (c !in done ==> Overlay(base, other, done)[c] == base[c])
    ensures Overlay(base, other, done + {c}).Keys == base.Keys
  {
  }

  lemma RolledBackIs(n: Node, m: Node, ops: seq<CellOp>)
    requires n.cols.Keys <= m.cols.Keys
    ensures var snapshots := map c | c in n.cols && Touches(ops, c) :: n.cols[c];
            RolledBack(n, m, ops) ==
            m.(len := n.len, cols := Overlay(map c | c in m.cols :: Fit(m.cols[c], n.len), snapshots, snapshots.Keys))
  {
  }

  lemma IssuedSnoc(ids: seq<RowId>, from: nat, k: nat)
    ensures ids + Issued(from, k + 1) == ids + Issued(from, k) + [R(from + k)]
  {
  }

  /** What the id loop has reached when every row has an identity. */
  lemma EnsuredIs(n: Node, f: string, rows: nat, ids: seq<RowId>, seqNo: nat)
    requires |ids| == Max(|StoredIds(n, f)|, rows) && seqNo == StoredSeq(n, f) + |ids| - |StoredIds(n, f)|
    requires ids == StoredIds(n, f) + Issued(StoredSeq(n, f), |ids| - |StoredIds(n, f)|)
    ensures EnsureIds(n, f, rows) == n.(rowIds := n.rowIds[f := ids], rowSeq := n.rowSeq[f := Max(seqNo, |ids|)])
  {
    hide Issued;
    assert Missing(n, f, rows) == |ids| - |StoredIds(n, f)|;
  }

  class WriteNode {
    var cols: map<Column, seq<Value>>
    var len: nat
    var frameRows: map<string, nat>
    var rowIds: map<string, seq<RowId>>
    var rowSeq: map<string, nat>
    var version: nat

    function View(): Node
      reads this
    {
      Node(cols, len, frameRows, rowIds, rowSeq, version)
    }

    constructor ()
      ensures View() == EMPTY
    {
      cols, len, frameRows, rowIds, rowSeq, version := map[], 0, map[], map[], map[], 0;
    }

    /** `_ensure_row`. */
    method EnsureRow(r: nat)
      modifies `cols, `len
      ensures View() == Grow(old(View()), r + 1)
    {
      if len < r + 1 {
        cols := map c | c in cols :: Fit(cols[c], r + 1);
        len := r + 1;
      }
    }

    /** `_catat_baris`. */
    method RecordRows(frame: string, rows: int)
      modifies `frameRows
      ensures View() == Record(old(View()), frame, rows)
    {
      if frame == "" || rows <= 0 {
        return;
      }
      if frame !in frameRows {
        frameRows := frameRows[frame := Max(ExtentTo(View(), frame, len), rows)];
      } else if rows > frameRows[frame] {
        frameRows := frameRows[frame := rows];
      } else {
        assert frameRows == frameRows[frame := frameRows[frame]];
      }
    }

    /** `_pastikan_row_ids`: every row gets an identity, in order. */
    method EnsureRowIds(frame: string, rows: nat) returns (ids: seq<RowId>)
      modifies `rowIds, `rowSeq
      ensures View() == EnsureIds(old(View()), frame, rows)
      ensures frame in rowIds && frame in rowSeq && ids == rowIds[frame]
    {
      ids := if frame in rowIds then rowIds[frame] else [];
      var seqNo := if frame in rowSeq then rowSeq[frame] else 0;
      ghost var stored, from := ids, seqNo;
      NoneIssued(stored, from);
      hide Issued, EnsuredIds, EnsuredSeq, Missing, EnsureIds;
      while |ids| < rows
        invariant View() == old(View())
        invariant |stored| <= |ids| <= |stored| + Max(0, rows - |stored|)
        invariant seqNo == from + |ids| - |stored|
        invariant ids == stored + Issued(from, |ids| - |stored|)
      {
        IssuedSnoc(stored, from, |ids| - |stored|);
        ids, seqNo := ids + [R(seqNo)], seqNo + 1;
      }
      EnsuredIs(View(), frame, rows, ids, seqNo);
      rowIds := rowIds[frame := ids];
      rowSeq := rowSeq[frame := Max(seqNo, |ids|)];
    }

    /** `_next_row_id`. */
    method NextRowId(frame: string) returns (id: RowId)
      modifies `rowSeq
      ensures var s := StoredSeq(old(View()), frame);
              id == R(s) && View() == old(View()).(rowSeq := old(rowSeq)[frame := s + 1])
    {
      var s := if frame in rowSeq then rowSeq[frame] else 0;
      rowSeq := rowSeq[frame := s + 1];
      id := R(s);
    }

    /** `restore_row_ids`. */
    method RestoreRowIds(frame: string, ids: seq<RowId>)
      modifies `rowIds, `rowSeq
      ensures View() == IdsRestored(old(View()), frame, ids)
    {
      var given := NonEmpty(ids);
      if given == [] {
        return;
      }
      rowIds := rowIds[frame := given];
      var seqNo := 0;
      var i := 0;
      while i < |given|
        invariant 0 <= i <= |given| && seqNo == Highest(given[..i])
      {
        assert given[..i + 1][..i] == given[..i];
        seqNo := Max(seqNo, NumberAfter(given[i]));
        i := i + 1;
      }
      assert given[..|given|] == given;
      rowSeq := rowSeq[frame := Max(seqNo, |given|)];
    }

    // ------------------------------------------------------------ cell transactions

    /** `_rollback`. */
    method Rollback(snapshots: map<Column, seq<Value>>, origLen: nat)
      requires Shaped(View()) && origLen <= len && snapshots.Keys <= cols.Keys
      modifies `cols, `len
      ensures len == origLen
      ensures cols == Overlay(map c | c in old(cols) :: Fit(old(cols)[c], origLen), snapshots, snapshots.Keys)
    {
      if len > origLen {
        cols := map c | c in cols :: cols[c][..origLen];
        len := origLen;
      }
      ghost var cut := map c | c in old(cols) :: Fit(old(cols)[c], origLen);
      forall c | c in cut
        ensures c in cols && cols[c] == cut[c]
      {
        assert |old(cols)[c]| == old(len);
      }
      assert cols == cut;
      hide Overlay, Fit;
      var todo := snapshots.Keys;
      OverlayNone(cut, snapshots);
      while todo != {}
        invariant todo <= snapshots.Keys && snapshots.Keys <= cols.Keys && len == origLen
        invariant cols == Overlay(cut, snapshots, snapshots.Keys - todo)
      {
        var c :| c in todo;
        OverlayStep(cut, snapshots, snapshots.Keys - todo, c);
        assert snapshots.Keys - todo + {c} == snapshots.Keys - (todo - {c});
        cols := cols[c := snapshots[c]];
        todo := todo - {c};
      }
      assert snapshots.Keys - {} == snapshots.Keys;
    }

    /** One write of `apply`: the optimistic check, then the assignment. */
    method WriteCell(op: CellOp) returns (ok: bool)
      requires Shaped(View()) && op.ref.Cell?
      modifies `cols, `len
      ensures Progress(View(), ok) == SetCell(old(View()), op)
    {
      var c, r := op.ref.col, op.ref.row;
      hide SetCell, Shaped, Grow;
      EnsureRow(r);
      if c !in cols {
        cols := cols[c := Repeat(Null, len)];
      }
      assert View() == Prepared(old(View()), c, r);
      if cols[c][r] != op.oldValue {
        return false;
      }
      cols := cols[c := cols[c][r := op.newValue]];
      return true;
    }

    /** The write loop of `apply`, up to the first refused write. */
    method WriteCells(ops: seq<CellOp>) returns (ok: bool)
      requires Shaped(View())
      modifies `cols, `len
      ensures Progress(View(), ok) == SetCells(old(View()), ops)
    {
      hide SetCell, Shaped;
      var i := 0;
      assert ops[..0] == [];
      while i < |ops|
        invariant 0 <= i <= |ops|
        invariant SetCells(old(View()), ops[..i]) == Progress(View(), true)
      {
        SetCellsStep(old(View()), ops, i);
        if ops[i].ref.Cell? {
          ok := WriteCell(ops[i]);
          if !ok {
            SetCellsStop(old(View()), ops, i + 1);
            return;
          }
        } else {
          SetMarker(View(), ops[i]);
        }
        i := i + 1;
      }
      assert ops[..|ops|] == ops;
      ok := true;
    }

    /** The second loop of `apply`: row counts of the frames written to. */
    method RecordAll(ops: seq<CellOp>)
      modifies `frameRows
      ensures View() == Recorded(old(View()), ops)
    {
      hide Record;
      var i := 0;
      while i < |ops|
        invariant 0 <= i <= |ops|
        invariant View() == Recorded(old(View()), ops[..i])
      {
        assert ops[..i + 1][..i] == ops[..i];
        if ops[i].ref.Cell? && ops[i].ref.col.Framed? {
          RecordRows(ops[i].ref.col.frame, ops[i].ref.row + 1);
        }
        i := i + 1;
      }
      assert ops[..|ops|] == ops;
    }

    /** `apply` of cell writes: all of them, or none and a rollback. */
    method Apply(ops: seq<CellOp>) returns (ok: bool)
      requires Shaped(View())
      modifies this
      ensures Progress(View(), ok) == CellWrites.Apply(old(View()), ops)
    {
      var snapshots := map c | c in cols && Touches(ops, c) :: cols[c];
      var origLen := len;
      SetCellsKeeps(View(), ops);
      hide Overlay, Fit, SetCells, Shaped, Touches, Recorded;
      ok := WriteCells(ops);
      if ok {
        RecordAll(ops);
        version := version + 1;
      } else {
        RolledBackIs(old(View()), View(), ops);
        Rollback(snapshots, origLen);
      }
    }

    // ------------------------------------------------------------------- row edits

    /** Rows [p, rows) of every frame column move down by `count`. */
    method ShiftColumns(frameCols: set<Column>, rows: nat, p: nat, count: nat)
      requires Shaped(View()) && frameCols <= cols.Keys && p < rows && rows + count <= len
      modifies `cols
      ensures cols == Overlay(old(cols), map c | c in frameCols :: Moved(old(cols)[c], rows, p, count), frameCols)
    {
      ghost var was, goal := cols, map c | c in frameCols :: Moved(cols[c], rows, p, count);
      hide Overlay, Fit, Repeat, Shaped;
      var todo := frameCols;
      OverlayNone(was, goal);
      while todo != {}
        invariant todo <= frameCols
        invariant cols == Overlay(was, goal, frameCols - todo)
      {
        var c :| c in todo;
        OverlayStep(was, goal, frameCols - todo, c);
        assert frameCols - todo + {c} == frameCols - (todo - {c});
        cols := cols[c := Fit(cols[c][..p] + Repeat(Null, count) + cols[c][p..rows], len)];
        todo := todo - {c};
      }
      assert frameCols - {} == frameCols;
    }

    /** Rows [p, p + count) of every frame column get the default. */
    method FillColumns(frameCols: set<Column>, p: nat, count: nat, default: Value)
      requires Shaped(View()) && frameCols <= cols.Keys && p + count <= len
      modifies `cols
      ensures cols == Overlay(old(cols), map c | c in frameCols :: Filling(old(cols)[c], p, count, default), frameCols)
    {
      ghost var was, goal := cols, map c | c in frameCols :: Filling(cols[c], p, count, default);
      hide Overlay, Fit, Repeat, Shaped, Filling;
      var todo := frameCols;
      OverlayNone(was, goal);
      while todo != {}
        invariant todo <= frameCols
        invariant cols == Overlay(was, goal, frameCols - todo)
      {
        var c :| c in todo;
        OverlayStep(was, goal, frameCols - todo, c);
        assert frameCols - todo + {c} == frameCols - (todo - {c});
        cols := cols[c := Filling(cols[c], p, count, default)];
        todo := todo - {c};
      }
      assert frameCols - {} == frameCols;
    }

    /** `insert_rows` of `_apply_structural`. */
    method InsertRows(frame: string, count: int, at: Option<int>, default: Value, asked: seq<RowId>)
      requires Shaped(View())
      modifies `cols, `len, `frameRows, `rowIds, `rowSeq
      ensures View() == Insert(old(View()), frame, count, at, default, asked)
    {
      hide Insert, InsertInto, RowsOf, Position, Shaped, Grow;
      if count <= 0 {
        InsertNone(View(), frame, count, at, default, asked);
        return;
      }
      InsertIs(View(), frame, count, at, default, asked);
      var rows := RowsOf(View(), frame);
      EnsureRow(rows + count - 1);
      PlaceRows(frame, rows, Position(rows, at), count, default, asked);
    }

    /** `insert_rows` once the table is long enough. */
    method PlaceRows(frame: string, rows: nat, p: nat, count: nat, default: Value, asked: seq<RowId>)
      requires Shaped(View()) && p <= rows && rows + count <= len
      modifies `cols, `frameRows, `rowIds, `rowSeq
      ensures View() == InsertInto(old(View()), frame, rows, p, count, default, asked)
    {
      hide InsertInto, FrameCols, InsertedCols, EnsuredIds, EnsuredSeq, Wanted, Issued, Shaped;
      var ids := EnsureRowIds(frame, rows);
      SameTable(old(View()), View(), frame, rows, p, count, default);
      InsertColumns(frame, FrameCols(View(), frame), rows, p, count, default);
      var wanted := Wanted(asked, count, ids);
      var issued := IssueIds(frame, count - |wanted|);
      InsertIntoIs(old(View()), frame, rows, p, count, default, asked, ids, issued);
      rowIds := rowIds[frame := ids[..p] + (wanted + issued) + ids[p..]];
      frameRows := frameRows[frame := rows + count];
    }

    /** The column loops of `insert_rows`. */
    method InsertColumns(frame: string, frameCols: set<Column>, rows: nat, p: nat, count: nat, default: Value)
      requires Shaped(View()) && p <= rows && rows + count <= len && frameCols == FrameCols(View(), frame)
      modifies `cols
      ensures cols == InsertedCols(old(View()), frame, rows, p, count, default)
    {
      ghost var g := View();
      if p < rows {
        ShiftColumns(frameCols, rows, p, count);
      }
      ghost var moved := cols;
      if default != Null {
        FillColumns(frameCols, p, count, default);
      }
      InsertedIs(g, frame, rows, p, count, default, moved, cols);
    }

    /** The new identities of an insertion, one `_next_row_id` at a time. */
    method IssueIds(frame: string, k: nat) returns (ids: seq<RowId>)
      requires frame in rowSeq
      modifies `rowSeq
      ensures ids == Issued(old(rowSeq)[frame], k)
      ensures rowSeq == old(rowSeq)[frame := old(rowSeq)[frame] + k]
    {
      ids := [];
      while |ids| < k
        invariant |ids| <= k && ids == Issued(old(rowSeq)[frame], |ids|)
        invariant rowSeq == old(rowSeq)[frame := old(rowSeq)[frame] + |ids|]
      {
        var id := NextRowId(frame);
        ids := ids + [id];
      }
    }

    /** The rows `out` taken out of every frame column. */
    method DropFromColumns(frameCols: set<Column>, rows: nat, out: set<nat>)
      requires Shaped(View()) && frameCols <= cols.Keys && rows <= len
      modifies `cols
      ensures cols == Overlay(old(cols), map c | c in frameCols :: Fit(RemoveAt(old(cols)[c][..rows], out), len), frameCols)
    {
      ghost var was, goal := cols, map c | c in frameCols :: Fit(RemoveAt(cols[c][..rows], out), len);
      hide Overlay, Fit, RemoveAt;
      var todo := frameCols;
      OverlayNone(was, goal);
      while todo != {}
        invariant todo <= frameCols
        invariant cols == Overlay(was, goal, frameCols - todo)
      {
        var c :| c in todo;
        OverlayStep(was, goal, frameCols - todo, c);
        assert frameCols - todo + {c} == frameCols - (todo - {c});
        cols := cols[c := Fit(RemoveAt(cols[c][..rows], out), len)];
        todo := todo - {c};
      }
      assert frameCols - {} == frameCols;
    }

    /** `delete_rows` of `_apply_structural`; false where pandas refuses a row that does not exist. */
    method DeleteRows(frame: string, byRow: seq<int>, byId: seq<RowId>) returns (ok: bool)
      requires Shaped(View())
      modifies `cols, `frameRows, `rowIds, `rowSeq
      ensures (View(), ok) == Delete(old(View()), frame, byRow, byId)
    {
      hide Shaped, DeleteFrom, EnsuredIds, EnsuredSeq, Overlay, RowsOf, Positions, RemoveAt;
      var frameCols, rows := FrameCols(View(), frame), RowsOf(View(), frame);
      RowsFit(View(), frame);
      var ids := EnsureRowIds(frame, rows);
      var out := Positions(rows, ids, byRow, byId);
      if out == {} || frameCols == {} {
        return true;
      }
      if exists p :: p in out && p >= rows {
        return false;
      }
      ghost var g := View();
      IdsLeaveTable(old(View()), g);
      hide FrameCols;
      DropFromColumns(frameCols, rows, out);
      DeletedIs(g, frame, rows, out);
      ids := PopAll(ids, out);
      DeleteFromIs(g, frame, rows, out, ids);
      rowIds := rowIds[frame := ids];
      frameRows := frameRows[frame := Max(0, rows - |out|)];
      return true;
    }

    /** `apply` of a transaction with one row edit. */
    method ApplyEdit(e: Edit) returns (ok: bool)
      requires Shaped(View())
      modifies this
      ensures Progress(View(), ok) == RowEdits.ApplyEdit(old(View()), e)
    {
      if e.frame == "" {
        return false;
      }
      hide Insert, Delete, Shaped;
      match e {
        case InsertRows(frame, count, at, default, asked) =>
          InsertRows(frame, count, at, default, asked);
          ok := true;
        case DeleteRows(frame, rows, ids) =>
          ok := DeleteRows(frame, rows, ids);
      }
      if ok {
        version := version + 1;
      }
    }
  }

  /** Removing positions one by one, the last first. */
  method PopAll(all: seq<RowId>, out: set<nat>) returns (ids: seq<RowId>)
    ensures ids == RemoveAt(all, out)
  {
    PopEnds(all, out);
    hide Picked, Indices, RemoveAt, Kept;
    ids := all;
    ghost var tail: seq<nat> := [];
    var i := |all|;
    while i > 0
      invariant 0 <= i <= |all| && Indices(tail, |all|)
      invariant Kept(i, out) + tail == Kept(|all|, out)
      invariant ids == all[..i] + Picked(all, tail)
    {
      i := i - 1;
      PopStep(all, i, tail);
      KeptStep(i, out, tail);
      if i in out {
        ids := ids[..i] + ids[i + 1..];
      } else {
        tail := [i] + tail;
      }
    }
    assert tail == Kept(|all|, out);
  }

  ghost predicate Indices(at: seq<nat>, n: nat) { forall k :: 0 <= k < |at| ==> at[k] < n }

  lemma KeptStep(i: nat, out: set<nat>, tail: seq<nat>)
    ensures Kept(i + 1, out) + tail == Kept(i, out) + if i in out then tail else [i] + tail
  {
  }

  lemma PopEnds(all: seq<RowId>, out: set<nat>)
    ensures Indices([], |all|) && Indices(Kept(|all|, out), |all|)
    ensures all == all[..|all|] + Picked(all, [])
    ensures all[..0] + Picked(all, Kept(|all|, out)) == RemoveAt(all, out)
    ensures Kept(0, out) == []
  {
  }

  lemma PopStep(all: seq<RowId>, i: nat, tail: seq<nat>)
    requires i < |all| && Indices(tail, |all|)
    ensures Indices([i] + tail, |all|)
    ensures var ids := all[..i + 1] + Picked(all, tail);
            && ids[..i] + ids[i + 1..] == all[..i] + Picked(all, tail)
            && ids == all[..i] + Picked(all, [i] + tail)
  {
    hide Picked, Indices;
    PickedCons(all, i, tail);
    assert all[..i + 1] == all[..i] + [all[i]];
    CutOne(all[..i], all[i], Picked(all, tail));
  }

  lemma PickedCons(all: seq<RowId>, i: nat, tail: seq<nat>)
    requires i < |all| && Indices(tail, |all|)
    ensures Indices([i] + tail, |all|) && Picked(all, [i] + tail) == [all[i]] + Picked(all, tail)
  {
  }

  lemma CutOne<T>(a: seq<T>, x: T, b: seq<T>)
    ensures (a + [x] + b)[..|a|] == a && (a + [x] + b)[|a| + 1..] == b
    ensures a + [x] + b == a + ([x] + b)
  {
  }

  ghost function Picked(all: seq<RowId>, at: seq<nat>): (ids: seq<RowId>)
    requires Indices(at, |all|)
    ensures |ids| == |at| && forall k :: 0 <= k < |at| ==> ids[k] == all[at[k]]
  {
    seq(|at|, k requires 0 <= k < |at| => all[at[k]])
  }

  lemma IdsLeaveTable(n: Node, m: Node)
    requires Shaped(n) && m == n.(rowIds := m.rowIds, rowSeq := m.rowSeq)
    ensures Shaped(m)
  {
  }

  lemma DeleteFromIs(g: Node, f: string, rows: nat, out: set<nat>, ids: seq<RowId>)
    requires Shaped(g) && rows <= g.len && f in g.rowIds && ids == RemoveAt(g.rowIds[f], out)
    ensures DeleteFrom(g, f, rows, out) ==
            g.(cols := DeleteFrom(g, f, rows, out).cols, rowIds := g.rowIds[f := ids],
               frameRows := g.frameRows[f := Max(0, rows - |out|)])
  {
  }

  /** Identities do not matter to the columns. */
  lemma SameTable(g: Node, h: Node, f: string, rows: nat, p: nat, count: nat, default: Value)
    requires Shaped(g) && h == g.(rowIds := h.rowIds, rowSeq := h.rowSeq) && p <= rows && rows + count <= g.len
    ensures Shaped(h) && FrameCols(h, f) == FrameCols(g, f)
    ensures InsertedCols(h, f, rows, p, count, default) == InsertedCols(g, f, rows, p, count, default)
  {
    hide Shifted;
  }

  lemma NoneIssued(ids: seq<RowId>, from: nat)
    ensures ids == ids + Issued(from, 0)
  {
  }

  lemma InsertNone(n: Node, f: string, count: int, at: Option<int>, default: Value, asked: seq<RowId>)
    requires Shaped(n) && count <= 0
    ensures Insert(n, f, count, at, default, asked) == n
  {
  }

  /** All fields after an insertion, as the statements of `insert_rows` assign them. */
  lemma InsertIntoIs(g: Node, f: string, rows: nat, p: nat, count: nat, default: Value, asked: seq<RowId>,
                     ids: seq<RowId>, issued: seq<RowId>)
    requires Shaped(g) && p <= rows && rows + count <= g.len
    requires ids == EnsuredIds(g, f, rows)
    requires issued == Issued(EnsuredSeq(g, f, rows), count - |Wanted(asked, count, ids)|)
    ensures var wanted, seqNo := Wanted(asked, count, ids), EnsuredSeq(g, f, rows);
            InsertInto(g, f, rows, p, count, default, asked) ==
            g.(cols := InsertedCols(g, f, rows, p, count, default),
               rowIds := g.rowIds[f := ids][f := ids[..p] + (wanted + issued) + ids[p..]],
               rowSeq := g.rowSeq[f := seqNo][f := seqNo + (count - |wanted|)],
               frameRows := g.frameRows[f := rows + count])
  {
    hide InsertedCols, Wanted, EnsuredIds, EnsuredSeq, Issued;
  }

  lemma InsertedIs(g: Node, frame: string, rows: nat, p: nat, count: nat, default: Value,
                   moved: map<Column, seq<Value>>, final: map<Column, seq<Value>>)
    requires Shaped(g) && p <= rows && rows + count <= g.len
    requires moved == if p < rows then Overlay(g.cols, map c | c in FrameCols(g, frame) :: Moved(g.cols[c], rows, p, count),
                                               FrameCols(g, frame)) else g.cols
    requires default == Null ==> final == moved
    requires forall c :: c in moved ==> |moved[c]| == g.len
    requires default != Null ==>
               final == Overlay(moved, map c | c in FrameCols(g, frame) :: Filling(moved[c], p, count, default), FrameCols(g, frame))
    ensures final == InsertedCols(g, frame, rows, p, count, default)
  {
    hide Filling, Fit;
    assert forall c :: c in FrameCols(g, frame) <==> c in g.cols && InFrame(c, frame);
    assert final.Keys == g.cols.Keys;
    forall c | c in g.cols
      ensures final[c] == if InFrame(c, frame) then Shifted(g.cols[c], rows, p, count, default) else g.cols[c]
    {
    }
  }

  lemma DeletedIs(g: Node, frame: string, rows: nat, out: set<nat>)
    requires Shaped(g) && rows <= g.len
    ensures var goal := map c | c in FrameCols(g, frame) :: Fit(RemoveAt(g.cols[c][..rows], out), g.len);
            DeleteFrom(g, frame, rows, out).cols == Overlay(g.cols, goal, FrameCols(g, frame))
  {
    hide RemoveAt, Fit;
  }
}
