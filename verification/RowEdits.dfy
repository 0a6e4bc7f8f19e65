/**
 * Inserting and deleting rows with stable row identities
 * (core/write_node.py:253-334, 422-460).
 */
module RowEdits {
  import opened Sequences
  import opened Wrappers
  import opened CellIds
  import opened Digits
  import opened Store

  // -------------------------------------------------------------- row identities

  /** The ids "r<seq>", "r<seq + 1>", ... */
  function Issued(from: nat, k: nat): (ids: seq<RowId>)
    ensures |ids| == k && forall i :: 0 <= i < k ==> ids[i] == R(from + i)
  {
    seq(k, i requires 0 <= i => R(from + i))
  }

  function StoredIds(n: Node, f: string): seq<RowId> { if f in n.rowIds then n.rowIds[f] else [] }

  function StoredSeq(n: Node, f: string): nat { if f in n.rowSeq then n.rowSeq[f] else 0 }

  function Missing(n: Node, f: string, k: nat): nat { Max(0, k - |StoredIds(n, f)|) }

  /** The list `_pastikan_row_ids` returns. */
  function EnsuredIds(n: Node, f: string, k: nat): (ids: seq<RowId>)
    ensures |ids| >= k
  {
    StoredIds(n, f) + Issued(StoredSeq(n, f), Missing(n, f, k))
  }

  function EnsuredSeq(n: Node, f: string, k: nat): nat {
    Max(StoredSeq(n, f) + Missing(n, f, k), |EnsuredIds(n, f, k)|)
  }

  /** `_pastikan_row_ids`. */
  function EnsureIds(n: Node, f: string, k: nat): Node {
    n.(rowIds := n.rowIds[f := EnsuredIds(n, f, k)], rowSeq := n.rowSeq[f := EnsuredSeq(n, f, k)])
  }

  /** The identities of a frame's rows: `row_ids`. */
  function Ids(n: Node, f: string): seq<RowId> { EnsuredIds(n, f, RowsOf(n, f)) }

  /** The counter once every row has an identity. */
  function NextSeq(n: Node, f: string): nat { EnsuredSeq(n, f, RowsOf(n, f)) }

  ghost predicate DistinctIds(ids: seq<RowId>) {
    forall i, j :: 0 <= i < j < |ids| ==> ids[i] != ids[j]
  }

  /** Ids that were issued before the counter reached `seqNo`, or other non-empty text. */
  ghost predicate Below(ids: seq<RowId>, seqNo: nat) {
    forall i :: 0 <= i < |ids| ==> IdBelow(ids[i], seqNo)
  }

  predicate IdBelow(id: RowId, seqNo: nat) { if id.R? then id.n < seqNo else id.text != "" }

  /** One more than the number in "r<digits>"; other texts say nothing. */
  function NumberAfter(id: RowId): nat {
    if id.R? then id.n + 1
    else if id.text != "" && id.text[0] == 'r' && AllDigits(id.text[1..]) then DigitsValue(id.text[1..]) + 1
    else 0
  }

  function Highest(ids: seq<RowId>): nat
    decreases |ids|
  {
    if ids == [] then 0 else Max(Highest(ids[..|ids| - 1]), NumberAfter(ids[|ids| - 1]))
  }

  /** `restore_row_ids`. */
  function IdsRestored(n: Node, f: string, ids: seq<RowId>): Node {
    var given := NonEmpty(ids);
    if given == [] then n
    else n.(rowIds := n.rowIds[f := given], rowSeq := n.rowSeq[f := Max(Highest(given), |given|)])
  }

  lemma {:induction false} BelowHighest(ids: seq<RowId>, i: nat)
    requires i < |ids|
    ensures NumberAfter(ids[i]) <= Highest(ids)
    decreases |ids|
  {
    if i < |ids| - 1 {
      BelowHighest(ids[..|ids| - 1], i);
    }
  }

  lemma {:induction false} NonEmptyAreNonEmpty(ids: seq<RowId>, i: nat)
    requires i < |NonEmpty(ids)|
    ensures NonEmpty(ids)[i] != Named("")
  {
    if ids != [] && (ids[0] == Named("") || i > 0) {
      NonEmptyAreNonEmpty(ids[1..], if ids[0] == Named("") then i else i - 1);
    }
  }

  /** After restoring identities the counter is past all of them: none will be issued again. */
  lemma RestoredAreBelow(n: Node, f: string, ids: seq<RowId>)
    requires NonEmpty(ids) != []
    ensures var m := IdsRestored(n, f, ids);
            StoredIds(m, f) == NonEmpty(ids) && Below(StoredIds(m, f), StoredSeq(m, f))
  {
    var given := NonEmpty(ids);
    forall i | 0 <= i < |given|
      ensures IdBelow(given[i], Max(Highest(given), |given|))
    {
      BelowHighest(given, i);
      NonEmptyAreNonEmpty(ids, i);
    }
  }

  // ---------------------------------------------------------------------- edits

  function Position(rows: nat, at: Option<int>): (p: nat)
    ensures p <= rows
  {
    if at.None? then rows else Max(0, Min(at.value, rows))
  }

  function Filter(asked: seq<RowId>, ids: seq<RowId>): (r: seq<RowId>)
    ensures |r| <= |asked|
  {
    if asked == [] then []
    else (if asked[0] in ids then [] else [asked[0]]) + Filter(asked[1..], ids)
  }

  function NonEmpty(asked: seq<RowId>): seq<RowId> {
    if asked == [] then []
    else (if asked[0] == Named("") then [] else [asked[0]]) + NonEmpty(asked[1..])
  }

  /** The requested ids that are used: non-empty, the first `count`, not present yet. */
  function Wanted(asked: seq<RowId>, count: nat, ids: seq<RowId>): (r: seq<RowId>)
    ensures |r| <= count
  {
    var given := NonEmpty(asked);
    Filter(if |given| > count then given[..count] else given, ids)
  }

  lemma {:induction false} FilteredAreNew(asked: seq<RowId>, ids: seq<RowId>)
    ensures forall i :: 0 <= i < |Filter(asked, ids)| ==> Filter(asked, ids)[i] !in ids
  {
    if asked != [] {
      FilteredAreNew(asked[1..], ids);
    }
  }

  /** The rows from p on moved down by `count`. */
  function Moved(s: seq<Value>, rows: nat, p: nat, count: nat): (r: seq<Value>)
    requires p <= rows && rows + count <= |s|
    ensures |r| == |s|
  {
    if p < rows then Fit(s[..p] + Repeat(Null, count) + s[p..rows], |s|) else s
  }

  /** Rows [p, p + count) set to the default. */
  function Filling(s: seq<Value>, p: nat, count: nat, default: Value): (r: seq<Value>)
    requires p + count <= |s|
    ensures |r| == |s|
  {
    s[..p] + Repeat(default, count) + s[p + count..]
  }

  /** A column after `count` rows were inserted at `p` into its first `rows` rows. */
  function Shifted(s: seq<Value>, rows: nat, p: nat, count: nat, default: Value): (r: seq<Value>)
    requires p <= rows && rows + count <= |s|
    ensures |r| == |s|
  {
    var moved := Moved(s, rows, p, count);
    if default == Null then moved else Filling(moved, p, count, default)
  }

  function InsertedCols(g: Node, f: string, rows: nat, p: nat, count: nat, default: Value)
      : (cols: map<Column, seq<Value>>)
    requires Shaped(g) && p <= rows && rows + count <= g.len
    ensures cols.Keys == g.cols.Keys
    ensures forall c :: c in cols ==> |cols[c]| == g.len
  {
    map c | c in g.cols :: if InFrame(c, f) then Shifted(g.cols[c], rows, p, count, default) else g.cols[c]
  }

  function Splice<T>(s: seq<T>, p: nat, x: seq<T>): seq<T>
    requires p <= |s|
  {
    s[..p] + x + s[p..]
  }

  /** The new identities; `ids` and `seqNo` are those of the rows before the insertion. */
  function NewIds(asked: seq<RowId>, count: nat, ids: seq<RowId>, seqNo: nat): (r: seq<RowId>)
    ensures |r| == count
  {
    var wanted := Wanted(asked, count, ids);
    wanted + Issued(seqNo, count - |wanted|)
  }

  /** An insertion into a table that was already made long enough. */
  function InsertInto(g: Node, f: string, rows: nat, p: nat, count: nat, default: Value, asked: seq<RowId>): Node
    requires Shaped(g) && p <= rows && rows + count <= g.len
  {
    var ids, seqNo := EnsuredIds(g, f, rows), EnsuredSeq(g, f, rows);
    g.(cols := InsertedCols(g, f, rows, p, count, default),
       rowIds := g.rowIds[f := Splice(ids, p, NewIds(asked, count, ids, seqNo))],
       rowSeq := g.rowSeq[f := seqNo + count - |Wanted(asked, count, ids)|],
       frameRows := g.frameRows[f := rows + count])
  }

  function Insert(n: Node, f: string, count: int, at: Option<int>, default: Value, asked: seq<RowId>): Node
    requires Shaped(n)
  {
    if count <= 0 then n
    else
      var rows := RowsOf(n, f);
      GrowKeeps(n, rows + count);
      InsertInto(Grow(n, rows + count), f, rows, Position(rows, at), count, default, asked)
  }

  /** The indices below n that are not in `out`, in order. */
  function Kept(n: nat, out: set<nat>): (ks: seq<nat>)
    ensures forall i :: 0 <= i < |ks| ==> ks[i] < n
  {
    if n == 0 then [] else Kept(n - 1, out) + (if n - 1 in out then [] else [n - 1])
  }

  lemma {:induction false} KeptIsOrdered(n: nat, out: set<nat>)
    ensures forall i :: 0 <= i < |Kept(n, out)| ==> Kept(n, out)[i] !in out
    ensures forall i, j :: 0 <= i < j < |Kept(n, out)| ==> Kept(n, out)[i] < Kept(n, out)[j]
  {
    if n > 0 {
      KeptIsOrdered(n - 1, out);
    }
  }

  /** `s` without the indices in `out`. */
  function RemoveAt<T>(s: seq<T>, out: set<nat>): (r: seq<T>)
    ensures |r| == |Kept(|s|, out)|
    ensures forall i :: 0 <= i < |r| ==> r[i] == s[Kept(|s|, out)[i]]
  {
    var ks := Kept(|s|, out);
    seq(|ks|, i requires 0 <= i < |ks| => s[ks[i]])
  }

  function FirstIndex(ids: seq<RowId>, id: RowId): (k: nat)
    requires id in ids
    ensures k < |ids| && ids[k] == id
  {
    if ids[0] == id then 0 else 1 + FirstIndex(ids[1..], id)
  }

  /** The rows named by position or by identity. */
  function Positions(rows: nat, ids: seq<RowId>, byRow: seq<int>, byId: seq<RowId>): set<nat> {
    (set i: nat | i < rows && i in byRow) + (set id | id in byId && id in ids :: FirstIndex(ids, id))
  }

  /** The rows `out` taken out of a frame whose identities are all stored. */
  function DeleteFrom(g: Node, f: string, rows: nat, out: set<nat>): Node
    requires Shaped(g) && rows <= g.len
  {
    g.(cols := map c | c in g.cols :: if InFrame(c, f) then Fit(RemoveAt(g.cols[c][..rows], out), g.len) else g.cols[c],
       rowIds := g.rowIds[f := RemoveAt(StoredIds(g, f), out)],
       frameRows := g.frameRows[f := Max(0, rows - |out|)])
  }

  function Delete(n: Node, f: string, byRow: seq<int>, byId: seq<RowId>): (Node, bool)
    requires Shaped(n)
  {
    var rows := RowsOf(n, f);
    var g := EnsureIds(n, f, rows);
    var out := Positions(rows, g.rowIds[f], byRow, byId);
    RowsFit(n, f);
    if out == {} || FrameCols(g, f) == {} then (g, true)
    else if exists p :: p in out && p >= rows then (g, false)
    else (DeleteFrom(g, f, rows, out), true)
  }

  /** `apply` of a transaction with one row edit. */
  function ApplyEdit(n: Node, e: Edit): Progress
    requires Shaped(n)
  {
    if e.frame == "" then Progress(n, false)
    else
      var (m, ok) := if e.InsertRows? then (Insert(n, e.frame, e.count, e.at, e.default, e.asked), true)
                     else Delete(n, e.frame, e.rows, e.ids);
      if ok then Progress(m.(version := m.version + 1), true) else Progress(m, false)
  }

  // ----------------------------------------------------------------- the invariant

  ghost predicate IdsGood(n: Node, f: string) {
    && |StoredIds(n, f)| <= RowsOf(n, f)
    && DistinctIds(StoredIds(n, f))
    && Below(StoredIds(n, f), StoredSeq(n, f))
  }

  ghost predicate Good(n: Node) { Shaped(n) && TailNull(n) && forall f :: IdsGood(n, f) }

  /** Row i of a frame, as a record of its columns. */
  function Row(n: Node, f: string, i: nat): map<Column, Value> {
    map c | c in FrameCols(n, f) :: Read(n, c, i)
  }

  /** The contents of a frame, row by row. */
  function Content(n: Node, f: string): (rows: seq<map<Column, Value>>)
    ensures |rows| == RowsOf(n, f)
    ensures forall i :: 0 <= i < |rows| ==> rows[i] == Row(n, f, i)
  {
    seq(RowsOf(n, f), i requires 0 <= i => Row(n, f, i))
  }

  /** All that can be asked of frame f stayed as it was. */
  ghost predicate FrameUntouched(n: Node, m: Node, f: string) {
    && RowsOf(m, f) == RowsOf(n, f) && FrameCols(m, f) == FrameCols(n, f)
    && Content(m, f) == Content(n, f)
    && StoredIds(m, f) == StoredIds(n, f) && StoredSeq(m, f) == StoredSeq(n, f)
  }

  /** The edit wrote no cell, record or id outside frame f. */
  ghost predicate Confined(n: Node, m: Node, f: string) {
    && m.cols.Keys == n.cols.Keys
    && (forall c, r: nat :: !InFrame(c, f) ==> Read(m, c, r) == Read(n, c, r))
    && (forall g :: g != f ==>
          && (g in n.frameRows <==> g in m.frameRows)
          && (g in n.frameRows ==> n.frameRows[g] == m.frameRows[g])
          && StoredIds(m, g) == StoredIds(n, g) && StoredSeq(m, g) == StoredSeq(n, g))
  }

  lemma ConfinedLeavesOthers(n: Node, m: Node, f: string, g: string)
    requires Shaped(n) && Shaped(m) && Confined(n, m, f) && g != f
    ensures FrameUntouched(n, m, g)
  {
    assert FrameCols(n, g) == FrameCols(m, g);
    SameRows(n, m, g);
    assert forall i: nat :: Row(m, g, i) == Row(n, g, i);
  }

  /** A confined edit keeps the invariant as soon as it keeps it for its own frame. */
  lemma ConfinedStaysGood(n: Node, m: Node, f: string)
    requires Good(n) && Shaped(m) && Confined(n, m, f) && IdsGood(m, f)
    requires forall c, r: nat :: c in m.cols && InFrame(c, f) && RowsOf(m, f) <= r ==> Read(m, c, r) == Null
    ensures Good(m)
  {
    forall g
      ensures IdsGood(m, g)
    {
      assert IdsGood(n, g);
      if g != f {
        ConfinedLeavesOthers(n, m, f, g);
      }
    }
    forall c, r: nat | c in m.cols && c.Framed? && RowsOf(m, c.frame) <= r
      ensures Read(m, c, r) == Null
    {
      if c.frame != f {
        ConfinedLeavesOthers(n, m, f, c.frame);
        assert Read(n, c, r) == Null;
      }
    }
  }

  // ------------------------------------------------------------------ insert_rows

  lemma ShiftedReads(s: seq<Value>, rows: nat, p: nat, count: nat, default: Value, r: nat)
    requires p <= rows && rows + count <= |s| && r < |s|
    requires forall i :: rows <= i < |s| ==> s[i] == Null
    ensures Shifted(s, rows, p, count, default)[r] ==
            if r < p then s[r] else if r < p + count then default
            else if r < rows + count then s[r - count] else Null
  {
    hide Moved;
    MovedReads(s, rows, p, count, r);
  }

  lemma MovedReads(s: seq<Value>, rows: nat, p: nat, count: nat, r: nat)
    requires p <= rows && rows + count <= |s| && r < |s|
    requires forall i :: rows <= i < |s| ==> s[i] == Null
    ensures Moved(s, rows, p, count)[r] ==
            if r < p then s[r] else if r < p + count then Null
            else if r < rows + count then s[r - count] else Null
  {
  }

  function BlankRow(n: Node, f: string, default: Value): map<Column, Value> {
    map c | c in FrameCols(n, f) :: default
  }

  /** What the source promises of an insertion, for the frame's contents and identities. */
  ghost predicate Spliced(n: Node, m: Node, f: string, p: nat, count: nat, default: Value, newIds: seq<RowId>) {
    && p <= RowsOf(n, f) && p <= |Ids(n, f)|
    && FrameCols(m, f) == FrameCols(n, f)
    && Content(m, f) == Splice(Content(n, f), p, seq(count, _ => BlankRow(n, f, default)))
    && Ids(m, f) == Splice(Ids(n, f), p, newIds)
  }

  lemma InsertedReads(g: Node, f: string, rows: nat, p: nat, count: nat, default: Value, c: Column, r: nat)
    requires Shaped(g) && p <= rows && rows + count <= g.len && c in g.cols && InFrame(c, f)
    requires forall i: nat :: rows <= i ==> Read(g, c, i) == Null
    ensures var cols := InsertedCols(g, f, rows, p, count, default);
            Read(g.(cols := cols), c, r) ==
            if r < p then Read(g, c, r)
            else if r < p + count then default
            else if r < rows + count then Read(g, c, r - count) else Null
  {
    var s := g.cols[c];
    forall i | rows <= i < |s|
      ensures s[i] == Null
    {
      assert Read(g, c, i) == Null;
    }
    if r < |s| {
      ShiftedReads(s, rows, p, count, default, r);
    }
  }

  lemma IntoFields(g: Node, f: string, rows: nat, p: nat, count: nat, default: Value, asked: seq<RowId>)
    requires Shaped(g) && p <= rows && rows + count <= g.len
    ensures var m := InsertInto(g, f, rows, p, count, default, asked);
            && Shaped(m) && m.len == g.len
            && m.cols == InsertedCols(g, f, rows, p, count, default)
            && RowsOf(m, f) == rows + count
            && StoredIds(m, f) == Splice(EnsuredIds(g, f, rows), p,
                                         NewIds(asked, count, EnsuredIds(g, f, rows), EnsuredSeq(g, f, rows)))
            && StoredSeq(m, f) == EnsuredSeq(g, f, rows) + count - |Wanted(asked, count, EnsuredIds(g, f, rows))|
            && Confined(g, m, f) && FrameCols(m, f) == FrameCols(g, f)
  {
  }

  /** `Insert` by its name only: later lemmas need not look inside. */
  lemma InsertIs(n: Node, f: string, count: nat, at: Option<int>, default: Value, asked: seq<RowId>)
    requires Shaped(n) && count > 0
    ensures var rows := RowsOf(n, f);
            && Shaped(Grow(n, rows + count)) && rows + count <= Grow(n, rows + count).len
            && Insert(n, f, count, at, default, asked) ==
               InsertInto(Grow(n, rows + count), f, rows, Position(rows, at), count, default, asked)
  {
    hide InsertInto, RowsOf, Position;
    GrowKeeps(n, RowsOf(n, f) + count);
  }

  /** The table that `insert_rows` works on; growing it changed nothing that can be asked. */
  lemma GrownIsSame(n: Node, f: string, k: nat)
    requires Shaped(n)
    ensures var g := Grow(n, k);
            && Shaped(g) && k <= g.len
            && EnsuredIds(g, f, RowsOf(n, f)) == Ids(n, f) && EnsuredSeq(g, f, RowsOf(n, f)) == NextSeq(n, f)
            && Confined(n, g, f) && FrameCols(g, f) == FrameCols(n, f)
  {
    GrowKeeps(n, k);
  }

  /** Cell r of a frame's column after `insert_rows`, in terms of the cells before. */
  lemma InsertReads(n: Node, f: string, count: nat, at: Option<int>, default: Value, asked: seq<RowId>,
                    c: Column, r: nat)
    requires Shaped(n) && TailNullIn(n, f) && count > 0 && InFrame(c, f) && c in n.cols
    ensures var m := Insert(n, f, count, at, default, asked);
            var rows, p := RowsOf(n, f), Position(RowsOf(n, f), at);
            Read(m, c, r) ==
            if r < p then Read(n, c, r)
            else if r < p + count then default
            else if r < rows + count then Read(n, c, r - count) else Null
  {
    hide Insert, InsertInto, RowsOf, Position, InsertedCols, Grow, Confined, Splice, NewIds, Wanted, EnsuredIds, EnsuredSeq;
    var rows, p := RowsOf(n, f), Position(RowsOf(n, f), at);
    var g := Grow(n, rows + count);
    InsertIs(n, f, count, at, default, asked);
    GrowKeeps(n, rows + count);
    IntoFields(g, f, rows, p, count, default, asked);
    forall i: nat | rows <= i
      ensures Read(g, c, i) == Null
    {
    }
    InsertedReads(g, f, rows, p, count, default, c, r);
  }

  lemma ConfinedCompose(a: Node, b: Node, c: Node, f: string)
    requires Confined(a, b, f) && Confined(b, c, f)
    ensures Confined(a, c, f)
  {
  }

  lemma InsertShape(n: Node, f: string, count: nat, at: Option<int>, default: Value, asked: seq<RowId>)
    requires Shaped(n) && count > 0
    ensures var m := Insert(n, f, count, at, default, asked);
            && Shaped(m) && Confined(n, m, f) && RowsOf(m, f) == RowsOf(n, f) + count
            && FrameCols(m, f) == FrameCols(n, f)
  {
    hide Insert, InsertInto, RowsOf, Position, InsertedCols, Grow, Confined, Splice, NewIds, Wanted, EnsuredIds, EnsuredSeq;
    hide FrameCols;
    var rows, p := RowsOf(n, f), Position(RowsOf(n, f), at);
    var g := Grow(n, rows + count);
    InsertIs(n, f, count, at, default, asked);
    GrownIsSame(n, f, rows + count);
    IntoFields(g, f, rows, p, count, default, asked);
    ConfinedCompose(n, g, Insert(n, f, count, at, default, asked), f);
  }

  lemma IdsCount(n: Node, f: string)
    requires IdsGood(n, f)
    ensures |Ids(n, f)| == RowsOf(n, f) && DistinctIds(Ids(n, f)) && Below(Ids(n, f), NextSeq(n, f))
  {
  }

  lemma InsertIds(n: Node, f: string, count: nat, at: Option<int>, default: Value, asked: seq<RowId>)
    requires Shaped(n) && IdsGood(n, f) && count > 0
    ensures var m := Insert(n, f, count, at, default, asked);
            var p := Position(RowsOf(n, f), at);
            && p <= |Ids(n, f)| == RowsOf(n, f)
            && StoredIds(m, f) == Splice(Ids(n, f), p, NewIds(asked, count, Ids(n, f), NextSeq(n, f)))
            && StoredSeq(m, f) == NextSeq(n, f) + count - |Wanted(asked, count, Ids(n, f))|
            && Ids(m, f) == StoredIds(m, f)
  {
    hide Insert, InsertInto, RowsOf, Position, InsertedCols, Grow, Confined, NewIds, Wanted, EnsuredIds, EnsuredSeq;
    hide FrameCols, StoredIds, StoredSeq, Splice, Below, DistinctIds, Ids, NextSeq, IdsGood, Shaped;
    var rows, p := RowsOf(n, f), Position(RowsOf(n, f), at);
    var m, g := Insert(n, f, count, at, default, asked), Grow(n, rows + count);
    IdsCount(n, f);
    SpliceAt(Ids(n, f), p, NewIds(asked, count, Ids(n, f), NextSeq(n, f)));
    InsertIs(n, f, count, at, default, asked);
    GrownIsSame(n, f, rows + count);
    IntoFields(g, f, rows, p, count, default, asked);
    AllStored(m, f);
  }

  lemma SpliceAt<T>(s: seq<T>, p: nat, x: seq<T>)
    requires p <= |s|
    ensures |Splice(s, p, x)| == |s| + |x|
  {
  }

  lemma AllStored(n: Node, f: string)
    requires |StoredIds(n, f)| == RowsOf(n, f)
    ensures Ids(n, f) == StoredIds(n, f)
    ensures NextSeq(n, f) == Max(StoredSeq(n, f), |StoredIds(n, f)|)
  {
    assert StoredIds(n, f) + [] == StoredIds(n, f);
  }

  lemma InsertRow(n: Node, f: string, count: nat, at: Option<int>, default: Value, asked: seq<RowId>, i: nat)
    requires Shaped(n) && TailNullIn(n, f) && count > 0 && i < RowsOf(n, f) + count
    ensures var m := Insert(n, f, count, at, default, asked);
            var p := Position(RowsOf(n, f), at);
            Row(m, f, i) == if i < p then Row(n, f, i) else if i < p + count then BlankRow(n, f, default)
                            else Row(n, f, i - count)
  {
    hide Insert, TailNullIn;
    InsertShape(n, f, count, at, default, asked);
    forall c | c in FrameCols(n, f)
      ensures Row(Insert(n, f, count, at, default, asked), f, i)[c] ==
              var p := Position(RowsOf(n, f), at);
              if i < p then Read(n, c, i) else if i < p + count then default else Read(n, c, i - count)
    {
      InsertReads(n, f, count, at, default, asked, c, i);
    }
  }

  lemma InsertContent(n: Node, f: string, count: nat, at: Option<int>, default: Value, asked: seq<RowId>)
    requires Shaped(n) && TailNullIn(n, f) && count > 0
    ensures Content(Insert(n, f, count, at, default, asked), f) ==
            Splice(Content(n, f), Position(RowsOf(n, f), at), seq(count, _ => BlankRow(n, f, default)))
  {
    hide Insert, Position, FrameCols, Row, BlankRow, Confined, Shaped, TailNullIn, RowsOf;
    var m, p := Insert(n, f, count, at, default, asked), Position(RowsOf(n, f), at);
    InsertShape(n, f, count, at, default, asked);
    var want := Splice(Content(n, f), p, seq(count, _ => BlankRow(n, f, default)));
    assert |Content(m, f)| == |want|;
    forall i | 0 <= i < |want|
      ensures Content(m, f)[i] == want[i]
    {
      InsertRow(n, f, count, at, default, asked, i);
    }
  }

  /**
   * `insert_rows` splices `count` new rows into the frame at the position: every
   * other row keeps its contents, its identity and its place in the order.
   */
  lemma InsertIsSplice(n: Node, f: string, count: nat, at: Option<int>, default: Value, asked: seq<RowId>)
    requires Good(n) && count > 0
    ensures Spliced(n, Insert(n, f, count, at, default, asked), f, Position(RowsOf(n, f), at), count, default,
                    NewIds(asked, count, Ids(n, f), NextSeq(n, f)))
  {
    assert IdsGood(n, f) && TailNullIn(n, f);
    hide Insert, IdsGood, TailNull, TailNullIn, Shaped, Content, Ids, NewIds, NextSeq, Position, RowsOf, Confined, FrameCols, BlankRow;
    InsertShape(n, f, count, at, default, asked);
    InsertIds(n, f, count, at, default, asked);
    InsertContent(n, f, count, at, default, asked);
  }

  /** The requested ids do not repeat and none is one the counter is about to issue. */
  ghost predicate AskedIsFree(asked: seq<RowId>, count: nat, ids: seq<RowId>, seqNo: nat) {
    var wanted := Wanted(asked, count, ids);
    && DistinctIds(wanted)
    && forall i :: 0 <= i < |wanted| && wanted[i].R? ==> !(seqNo <= wanted[i].n < seqNo + count - |wanted|)
  }

  lemma SpliceDistinct(ids: seq<RowId>, p: nat, x: seq<RowId>)
    requires p <= |ids| && DistinctIds(ids) && forall i :: 0 <= i < |x| ==> x[i] !in ids
    ensures DistinctIds(Splice(ids, p, x)) <==> DistinctIds(x)
  {
    var s := Splice(ids, p, x);
    if DistinctIds(s) {
      forall i, j | 0 <= i < j < |x|
        ensures x[i] != x[j]
      {
        assert s[p + i] == x[i] && s[p + j] == x[j];
      }
    }
    if DistinctIds(x) {
      forall i, j | 0 <= i < j < |s|
        ensures s[i] != s[j]
      {
        var left := if i < p then ids[i] else if i < p + |x| then x[i - p] else ids[i - |x|];
        var right := if j < p then ids[j] else if j < p + |x| then x[j - p] else ids[j - |x|];
        assert s[i] == left && s[j] == right;
      }
    }
  }

  lemma NewIdsAreNew(asked: seq<RowId>, count: nat, ids: seq<RowId>, seqNo: nat)
    requires Below(ids, seqNo)
    ensures forall i :: 0 <= i < count ==> NewIds(asked, count, ids, seqNo)[i] !in ids
  {
    var given := NonEmpty(asked);
    FilteredAreNew(if |given| > count then given[..count] else given, ids);
  }

  lemma NewIdsDistinctIff(asked: seq<RowId>, count: nat, ids: seq<RowId>, seqNo: nat)
    ensures DistinctIds(NewIds(asked, count, ids, seqNo)) <==> AskedIsFree(asked, count, ids, seqNo)
  {
    hide Wanted;
    var wanted := Wanted(asked, count, ids);
    var all := NewIds(asked, count, ids, seqNo);
    var k := |wanted|;
    assert forall i :: 0 <= i < count ==> all[i] == if i < k then wanted[i] else R(seqNo + i - k);
    if DistinctIds(all) {
      forall i, j | 0 <= i < j < k
        ensures wanted[i] != wanted[j]
      {
        assert all[i] != all[j];
      }
      forall i | 0 <= i < k && wanted[i].R?
        ensures wanted[i].n < seqNo || wanted[i].n >= seqNo + count - k
      {
        if seqNo <= wanted[i].n < seqNo + count - k {
          FreshIdAt(all, seqNo, k, wanted[i].n);
        }
      }
    }
  }

  lemma FreshIdAt(all: seq<RowId>, seqNo: nat, k: nat, x: nat)
    requires k <= |all| && seqNo <= x < seqNo + |all| - k
    requires forall i :: k <= i < |all| ==> all[i] == R(seqNo + i - k)
    ensures exists j :: k <= j < |all| && all[j] == R(x)
  {
    assert all[k + x - seqNo] == R(x);
  }

  /** An insertion keeps identities distinct exactly when the requested ones are free. */
  lemma InsertKeepsIdsDistinctIff(n: Node, f: string, count: nat, at: Option<int>, default: Value, asked: seq<RowId>)
    requires Good(n) && count > 0
    ensures DistinctIds(Ids(Insert(n, f, count, at, default, asked), f)) <==>
            AskedIsFree(asked, count, Ids(n, f), NextSeq(n, f))
  {
    assert IdsGood(n, f);
    InsertIds(n, f, count, at, default, asked);
    NewIdsAreNew(asked, count, Ids(n, f), NextSeq(n, f));
    NewIdsDistinctIff(asked, count, Ids(n, f), NextSeq(n, f));
    SpliceDistinct(Ids(n, f), Position(RowsOf(n, f), at), NewIds(asked, count, Ids(n, f), NextSeq(n, f)));
  }

  /** The used requested ids were issued before, or are no "r<n>" at all, and do not repeat. */
  ghost predicate AskedIsOld(asked: seq<RowId>, count: nat, ids: seq<RowId>, seqNo: nat) {
    DistinctIds(Wanted(asked, count, ids)) && Below(Wanted(asked, count, ids), seqNo)
  }

  lemma InsertKeepsGood(n: Node, f: string, count: nat, at: Option<int>, default: Value, asked: seq<RowId>)
    requires Good(n) && count > 0 && AskedIsOld(asked, count, Ids(n, f), NextSeq(n, f))
    ensures Good(Insert(n, f, count, at, default, asked))
  {
    hide Insert, NewIds;
    var m := Insert(n, f, count, at, default, asked);
    assert IdsGood(n, f);
    InsertShape(n, f, count, at, default, asked);
    InsertIds(n, f, count, at, default, asked);
    InsertKeepsIdsDistinctIff(n, f, count, at, default, asked);
    forall c, r: nat | c in m.cols && InFrame(c, f) && RowsOf(m, f) <= r
      ensures Read(m, c, r) == Null
    {
      InsertReads(n, f, count, at, default, asked, c, r);
    }
    NewIdsBelow(asked, count, Ids(n, f), NextSeq(n, f), Position(RowsOf(n, f), at));
    ConfinedStaysGood(n, m, f);
  }

  lemma NewIdsBelow(asked: seq<RowId>, count: nat, ids: seq<RowId>, seqNo: nat, p: nat)
    requires p <= |ids| && Below(ids, seqNo) && Below(Wanted(asked, count, ids), seqNo)
    ensures Below(Splice(ids, p, NewIds(asked, count, ids, seqNo)), seqNo + count - |Wanted(asked, count, ids)|)
  {
    var s, x := Splice(ids, p, NewIds(asked, count, ids, seqNo)), NewIds(asked, count, ids, seqNo);
    forall i | 0 <= i < |s|
      ensures IdBelow(s[i], seqNo + count - |Wanted(asked, count, ids)|)
    {
      assert s[i] == if i < p then ids[i] else if i < p + count then x[i - p] else ids[i - count];
    }
  }

  // ------------------------------------------------------------------ delete_rows

  lemma {:induction false} KeptSize(n: nat, out: set<nat>)
    requires forall p :: p in out ==> p < n
    ensures |Kept(n, out)| == n - |out|
  {
    if n == 0 {
      assert out == {};
    } else {
      var rest := out - {n - 1};
      KeptSize(n - 1, rest);
      KeptSame(n - 1, out, rest);
      if n - 1 in out {
        assert |rest| == |out| - 1;
      } else {
        assert rest == out;
      }
    }
  }

  lemma {:induction false} KeptSame(n: nat, a: set<nat>, b: set<nat>)
    requires forall i: nat :: i < n ==> (i in a <==> i in b)
    ensures Kept(n, a) == Kept(n, b)
  {
    if n > 0 {
      KeptSame(n - 1, a, b);
    }
  }

  lemma {:induction false} KeptHas(n: nat, out: set<nat>, i: nat) returns (k: nat)
    requires i < n && i !in out
    ensures k < |Kept(n, out)| && Kept(n, out)[k] == i
  {
    if i == n - 1 {
      k := |Kept(n - 1, out)|;
    } else {
      k := KeptHas(n - 1, out, i);
    }
  }

  /** The rows a deletion takes out. */
  function Taken(n: Node, f: string, byRow: seq<int>, byId: seq<RowId>): set<nat> {
    Positions(RowsOf(n, f), Ids(n, f), byRow, byId)
  }

  lemma TakenAreRows(n: Node, f: string, byRow: seq<int>, byId: seq<RowId>)
    requires Good(n)
    ensures |Ids(n, f)| == RowsOf(n, f)
    ensures forall p :: p in Taken(n, f, byRow, byId) ==> p < RowsOf(n, f)
    ensures |Kept(RowsOf(n, f), Taken(n, f, byRow, byId))| == RowsOf(n, f) - |Taken(n, f, byRow, byId)|
  {
    assert IdsGood(n, f);
    KeptSize(RowsOf(n, f), Taken(n, f, byRow, byId));
  }

  lemma EnsureIdsKeepsGood(n: Node, f: string)
    requires Good(n)
    ensures var g := EnsureIds(n, f, RowsOf(n, f));
            Good(g) && Confined(n, g, f) && RowsOf(g, f) == RowsOf(n, f) && FrameCols(g, f) == FrameCols(n, f)
            && Content(g, f) == Content(n, f) && Ids(g, f) == Ids(n, f) == StoredIds(g, f)
            && NextSeq(g, f) == NextSeq(n, f)
  {
    var g := EnsureIds(n, f, RowsOf(n, f));
    assert IdsGood(n, f);
    SameRows(n, g, f);
    assert Missing(g, f, RowsOf(n, f)) == 0;
    assert StoredIds(g, f) + [] == StoredIds(g, f);
    assert forall c, r: nat :: Read(g, c, r) == Read(n, c, r);
    forall c, r: nat | c in g.cols && InFrame(c, f) && RowsOf(g, f) <= r
      ensures Read(g, c, r) == Null
    {
      assert Read(n, c, r) == Null;
    }
    ConfinedStaysGood(n, g, f);
    assert forall i: nat :: Row(g, f, i) == Row(n, f, i);
  }

  /** Nothing is taken out: only missing identities were written down. */
  predicate DeletesNothing(n: Node, f: string, byRow: seq<int>, byId: seq<RowId>) {
    Taken(n, f, byRow, byId) == {} || FrameCols(n, f) == {}
  }

  lemma DeleteIs(n: Node, f: string, byRow: seq<int>, byId: seq<RowId>)
    requires Good(n)
    ensures var g := EnsureIds(n, f, RowsOf(n, f));
            && Shaped(g) && RowsOf(n, f) <= g.len
            && Delete(n, f, byRow, byId) ==
               (if DeletesNothing(n, f, byRow, byId) then g
                else DeleteFrom(g, f, RowsOf(n, f), Taken(n, f, byRow, byId)), true)
  {
    hide DeleteFrom, RowsOf, EnsuredIds, EnsuredSeq, Positions, TailNull, IdsGood;
    TakenAreRows(n, f, byRow, byId);
    RowsFit(n, f);
    var g := EnsureIds(n, f, RowsOf(n, f));
    assert FrameCols(g, f) == FrameCols(n, f);
  }

  lemma FromFields(g: Node, f: string, rows: nat, out: set<nat>)
    requires Shaped(g) && rows <= g.len && |StoredIds(g, f)| == rows && forall p :: p in out ==> p < rows
    ensures var m := DeleteFrom(g, f, rows, out);
            && Shaped(m) && Confined(g, m, f) && FrameCols(m, f) == FrameCols(g, f)
            && RowsOf(m, f) == rows - |out| == |Kept(rows, out)|
            && StoredIds(m, f) == RemoveAt(StoredIds(g, f), out) && StoredSeq(m, f) == StoredSeq(g, f)
  {
    KeptSize(rows, out);
  }

  lemma {:induction false} FromReads(g: Node, f: string, rows: nat, out: set<nat>, c: Column, r: nat)
    requires Shaped(g) && rows <= g.len && c in g.cols && InFrame(c, f)
    ensures Read(DeleteFrom(g, f, rows, out), c, r) ==
            if r < |Kept(rows, out)| then Read(g, c, Kept(rows, out)[r]) else Null
  {
    KeptFits(rows, out);
  }

  lemma {:induction false} KeptFits(n: nat, out: set<nat>)
    ensures |Kept(n, out)| <= n
  {
    if n > 0 {
      KeptFits(n - 1, out);
    }
  }

  lemma FromContent(g: Node, f: string, rows: nat, out: set<nat>)
    requires Shaped(g) && rows <= g.len && |StoredIds(g, f)| == rows && forall p :: p in out ==> p < rows
    requires RowsOf(g, f) == rows
    ensures Content(DeleteFrom(g, f, rows, out), f) == RemoveAt(Content(g, f), out)
  {
    hide DeleteFrom, Confined, StoredIds, RowsOf;
    var m, want := DeleteFrom(g, f, rows, out), RemoveAt(Content(g, f), out);
    FromFields(g, f, rows, out);
    forall i | 0 <= i < |want|
      ensures Content(m, f)[i] == want[i]
    {
      forall c | c in FrameCols(g, f)
        ensures Row(m, f, i)[c] == want[i][c]
      {
        FromReads(g, f, rows, out, c, i);
      }
      assert Row(m, f, i).Keys == want[i].Keys;
    }
  }

  lemma FromKeepsGood(g: Node, f: string, rows: nat, out: set<nat>)
    requires Good(g) && rows <= g.len && |StoredIds(g, f)| == rows == RowsOf(g, f)
    requires forall p :: p in out ==> p < rows
    ensures Good(DeleteFrom(g, f, rows, out))
  {
    hide DeleteFrom, RowsOf, Confined, StoredIds, TailNull;
    assert IdsGood(g, f);
    var m := DeleteFrom(g, f, rows, out);
    FromFields(g, f, rows, out);
    forall c, r: nat | c in m.cols && InFrame(c, f) && RowsOf(m, f) <= r
      ensures Read(m, c, r) == Null
    {
      assert c in FrameCols(m, f) && c in FrameCols(g, f);
      FromReads(g, f, rows, out, c, r);
    }
    RemovedIdsStayGood(StoredIds(g, f), out, StoredSeq(g, f));
    ConfinedStaysGood(g, m, f);
  }

  lemma RemovedIdsStayGood(ids: seq<RowId>, out: set<nat>, seqNo: nat)
    requires DistinctIds(ids) && Below(ids, seqNo)
    ensures DistinctIds(RemoveAt(ids, out)) && Below(RemoveAt(ids, out), seqNo)
  {
    KeptIsOrdered(|ids|, out);
    var r, ks := RemoveAt(ids, out), Kept(|ids|, out);
    forall i, j | 0 <= i < j < |r|
      ensures r[i] != r[j]
    {
      assert ids[ks[i]] != ids[ks[j]];
    }
  }

  /**
   * `delete_rows` takes out exactly the named rows and their identities; the others
   * keep contents, identity and order.  (A frame without columns is left alone.)
   */
  lemma DeleteIsRemoval(n: Node, f: string, byRow: seq<int>, byId: seq<RowId>)
    requires Good(n)
    ensures var (m, ok) := Delete(n, f, byRow, byId);
            var out := if FrameCols(n, f) == {} then {} else Taken(n, f, byRow, byId);
            && ok && Good(m) && Confined(n, m, f) && FrameCols(m, f) == FrameCols(n, f)
            && Content(m, f) == RemoveAt(Content(n, f), out)
            && Ids(m, f) == RemoveAt(Ids(n, f), out)
            && StoredSeq(m, f) == NextSeq(n, f)
  {
    var rows, g := RowsOf(n, f), EnsureIds(n, f, RowsOf(n, f));
    assert StoredSeq(g, f) == NextSeq(n, f);
    hide Good, Delete, DeleteFrom, EnsureIds, RowsOf, Content, Ids, NextSeq, StoredIds, StoredSeq, Taken, FrameCols;
    hide Confined, RemoveAt, EnsuredIds, EnsuredSeq;
    DeleteIs(n, f, byRow, byId);
    EnsureIdsKeepsGood(n, f);
    TakenAreRows(n, f, byRow, byId);
    if DeletesNothing(n, f, byRow, byId) {
      RemoveNothing(Content(n, f));
      RemoveNothing(Ids(n, f));
    } else {
      var out := Taken(n, f, byRow, byId);
      var m := DeleteFrom(g, f, rows, out);
      FromFields(g, f, rows, out);
      FromContent(g, f, rows, out);
      FromKeepsGood(g, f, rows, out);
      ConfinedCompose(n, g, m, f);
      RemovedSize(Ids(n, f), out);
      AllStored(m, f);
    }
  }

  lemma RemovedSize<T>(s: seq<T>, out: set<nat>)
    requires forall p :: p in out ==> p < |s|
    ensures |RemoveAt(s, out)| == |s| - |out|
  {
    KeptSize(|s|, out);
  }

  lemma RemoveNothing<T>(s: seq<T>)
    ensures RemoveAt(s, {}) == s
  {
    KeptAll(|s|);
  }

  lemma {:induction false} KeptAll(n: nat)
    ensures |Kept(n, {})| == n && forall i :: 0 <= i < n ==> Kept(n, {})[i] == i
  {
    if n > 0 {
      KeptAll(n - 1);
    }
  }
}
