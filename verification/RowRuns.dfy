/**
 * Runs of row edits on a write node, and the undoing of a row deletion
 * (core/write_node.py:272-334, 422-438, core/cluster_runtime.py:730-753).
 */
module RowRuns {
  import opened Sequences
  import opened Wrappers
  import opened CellIds
  import opened Store
  import opened RowEdits

  /** Requested identities were issued before, or are free text, and do not repeat. */
  ghost predicate Legal(n: Node, e: Edit) {
    e.InsertRows? && e.count > 0 ==> AskedIsOld(e.asked, e.count, Ids(n, e.frame), NextSeq(n, e.frame))
  }

  /** An accepted edit. */
  ghost predicate Step(n: Node, e: Edit, m: Node) {
    Shaped(n) && Legal(n, e) && ApplyEdit(n, e) == Progress(m, true)
  }

  ghost predicate Run(ns: seq<Node>, es: seq<Edit>) {
    |ns| == |es| + 1 && forall i :: 0 <= i < |es| ==> Step(ns[i], es[i], ns[i + 1])
  }

  /** Row `id` of the frame, if it has one. */
  function RowNamed(n: Node, f: string, id: RowId): Option<map<Column, Value>> {
    if id in Ids(n, f) then Some(Row(n, f, FirstIndex(Ids(n, f), id))) else None
  }

  predicate Before(n: Node, f: string, a: RowId, b: RowId) {
    a in Ids(n, f) && b in Ids(n, f) && FirstIndex(Ids(n, f), a) < FirstIndex(Ids(n, f), b)
  }

  /** Rows that both states have kept their contents and their order. */
  ghost predicate Carries(n: Node, m: Node, f: string) {
    && (forall id :: id in Ids(n, f) && id in Ids(m, f) ==> RowNamed(m, f, id) == RowNamed(n, f, id))
    && (forall a, b :: Before(n, f, a, b) && a in Ids(m, f) && b in Ids(m, f) ==> Before(m, f, a, b))
  }

  /** The position in `n` of each row of `m`: increasing, and the contents agree. */
  ghost predicate Traces(n: Node, m: Node, f: string, at: seq<int>) {
    && |at| == |Ids(m, f)|
    && (forall j :: 0 <= j < |at| && Ids(m, f)[j] in Ids(n, f) ==>
          0 <= at[j] < |Ids(n, f)| && Ids(n, f)[at[j]] == Ids(m, f)[j] && Row(m, f, j) == Row(n, f, at[j]))
    && (forall j, k :: 0 <= j < k < |at| && Ids(m, f)[j] in Ids(n, f) && Ids(m, f)[k] in Ids(n, f) ==> at[j] < at[k])
  }

  lemma TracedRow(n: Node, m: Node, f: string, at: seq<int>, id: RowId)
    requires DistinctIds(Ids(n, f)) && Traces(n, m, f, at) && id in Ids(n, f) && id in Ids(m, f)
    ensures var j := FirstIndex(Ids(m, f), id);
            at[j] == FirstIndex(Ids(n, f), id) && Row(m, f, j) == Row(n, f, at[j])
  {
    hide Row, Ids;
    var j := FirstIndex(Ids(m, f), id);
  }

  lemma TracesCarries(n: Node, m: Node, f: string, at: seq<int>)
    requires DistinctIds(Ids(n, f)) && DistinctIds(Ids(m, f)) && Traces(n, m, f, at)
    ensures Carries(n, m, f)
  {
    hide Row, Ids, Traces, DistinctIds;
    forall id | id in Ids(n, f) && id in Ids(m, f)
      ensures RowNamed(m, f, id) == RowNamed(n, f, id)
    {
      TracedRow(n, m, f, at, id);
    }
    forall a, b | Before(n, f, a, b) && a in Ids(m, f) && b in Ids(m, f)
      ensures Before(m, f, a, b)
    {
      TracedOrder(n, m, f, at, a, b);
    }
  }

  lemma TracedOrder(n: Node, m: Node, f: string, at: seq<int>, a: RowId, b: RowId)
    requires DistinctIds(Ids(n, f)) && Traces(n, m, f, at) && Before(n, f, a, b) && a in Ids(m, f) && b in Ids(m, f)
    ensures Before(m, f, a, b)
  {
    hide Row, Ids;
    TracedRow(n, m, f, at, a);
    TracedRow(n, m, f, at, b);
    var j, k := FirstIndex(Ids(m, f), a), FirstIndex(Ids(m, f), b);
  }

  // ------------------------------------------------------------------- one edit

  lemma InsertTraces(n: Node, f: string, count: nat, at: Option<int>, default: Value, asked: seq<RowId>)
      returns (places: seq<int>)
    requires Good(n) && count > 0
    ensures Traces(n, Insert(n, f, count, at, default, asked), f, places)
  {
    var m, p := Insert(n, f, count, at, default, asked), Position(RowsOf(n, f), at);
    var issued := NewIds(asked, count, Ids(n, f), NextSeq(n, f));
    assert IdsGood(n, f);
    IdsCount(n, f);
    NewIdsAreNew(asked, count, Ids(n, f), NextSeq(n, f));
    InsertIsSplice(n, f, count, at, default, asked);
    hide Insert, Good, Row, Position, Ids, NewIds, RowsOf, FrameCols, DistinctIds, Below, NextSeq, IdsGood, BlankRow, Splice;
    places := seq(|Ids(m, f)|, j requires 0 <= j => SplicePlace(p, count, j));
    hide Traces;
    SpliceAt(Ids(n, f), p, issued);
    var blank := seq(count, _ => BlankRow(n, f, default));
    forall j: nat | j < |Ids(m, f)| && Ids(m, f)[j] in Ids(n, f)
      ensures 0 <= places[j] < |Ids(n, f)| && Ids(n, f)[places[j]] == Ids(m, f)[j] && Row(m, f, j) == Row(n, f, places[j])
    {
      SplicedRow(Ids(n, f), Content(n, f), p, issued, blank, j);
      assert Content(m, f)[j] == Row(m, f, j);
    }
    SpliceTraces(n, m, f, p, count, places);
  }

  lemma SpliceIndex<T>(s: seq<T>, p: nat, x: seq<T>, j: nat)
    requires p <= |s| && j < |s| + |x|
    ensures |Splice(s, p, x)| == |s| + |x|
    ensures Splice(s, p, x)[j] == if j < p then s[j] else if j < p + |x| then x[j - p] else s[j - |x|]
  {
  }

  /** Where row j was before `count` rows were put in front of row p. */
  function SplicePlace(p: nat, count: nat, j: nat): int { if j < p then j else if j < p + count then -1 else j - count }

  lemma SplicedRow<A, B>(ids: seq<A>, rows: seq<B>, p: nat, x: seq<A>, y: seq<B>, j: nat)
    requires |ids| == |rows| && |x| == |y| && p <= |ids| && j < |ids| + |x|
    requires Splice(ids, p, x)[j] in ids && forall i :: 0 <= i < |x| ==> x[i] !in ids
    ensures var k := SplicePlace(p, |x|, j);
            0 <= k < |ids| && ids[k] == Splice(ids, p, x)[j] && rows[k] == Splice(rows, p, y)[j]
  {
    SpliceIndex(ids, p, x, j);
    SpliceIndex(rows, p, y, j);
  }

  lemma SpliceTraces(n: Node, m: Node, f: string, p: nat, count: nat, at: seq<int>)
    requires |at| == |Ids(m, f)| && forall j :: 0 <= j < |at| ==> at[j] == SplicePlace(p, count, j)
    requires forall j :: 0 <= j < |at| && Ids(m, f)[j] in Ids(n, f) ==>
               0 <= at[j] < |Ids(n, f)| && Ids(n, f)[at[j]] == Ids(m, f)[j] && Row(m, f, j) == Row(n, f, at[j])
    ensures Traces(n, m, f, at)
  {
    hide Ids, Row;
  }

  lemma DeleteTraces(n: Node, f: string, byRow: seq<int>, byId: seq<RowId>) returns (places: seq<int>)
    requires Good(n)
    ensures Traces(n, Delete(n, f, byRow, byId).0, f, places)
  {
    var m := Delete(n, f, byRow, byId).0;
    var out := if FrameCols(n, f) == {} then {} else Taken(n, f, byRow, byId);
    assert IdsGood(n, f);
    IdsCount(n, f);
    DeleteIsRemoval(n, f, byRow, byId);
    hide Delete, Good, Row, Ids, RowsOf, FrameCols, DistinctIds, Below, NextSeq, IdsGood, Taken, Confined;
    var rows := |Ids(n, f)|;
    KeptIsOrdered(rows, out);
    places := Kept(rows, out);
    forall j | 0 <= j < |places|
      ensures Ids(n, f)[places[j]] == Ids(m, f)[j] && Row(m, f, j) == Row(n, f, places[j])
    {
      assert Content(m, f)[j] == Row(m, f, j);
      assert Content(n, f)[places[j]] == Row(n, f, places[j]);
    }
  }

  lemma SameButVersion(n: Node, m: Node, f: string)
    requires Shaped(n) && m == n.(version := m.version)
    ensures Shaped(m) && FrameUntouched(n, m, f)
  {
    assert Confined(n, m, f + "x");
    ConfinedLeavesOthers(n, m, f + "x", f);
  }

  lemma GoodButVersion(n: Node, m: Node)
    requires Good(n) && m == n.(version := m.version)
    ensures Good(m)
  {
    forall f
      ensures IdsGood(m, f) && RowsOf(m, f) == RowsOf(n, f)
    {
      SameButVersion(n, m, f);
      assert IdsGood(n, f);
    }
    assert forall c, r: nat :: Read(m, c, r) == Read(n, c, r);
  }

  /** Untouched frames keep all rows; a frame that only changed version as well. */
  lemma UntouchedCarries(n: Node, m: Node, f: string)
    requires FrameUntouched(n, m, f) && IdsGood(n, f)
    ensures Ids(m, f) == Ids(n, f) && Carries(n, m, f)
  {
    assert Ids(m, f) == Ids(n, f);
    IdsCount(n, f);
    forall i | 0 <= i < RowsOf(n, f)
      ensures Row(m, f, i) == Row(n, f, i)
    {
      assert Content(m, f)[i] == Row(m, f, i) && Content(n, f)[i] == Row(n, f, i);
    }
  }

  /** The node the edit leaves, before the version is counted up. */
  function Edited(n: Node, e: Edit): Node
    requires Shaped(n)
  {
    if e.InsertRows? then Insert(n, e.frame, e.count, e.at, e.default, e.asked)
    else Delete(n, e.frame, e.rows, e.ids).0
  }

  lemma EditedKeeps(n: Node, e: Edit)
    requires Good(n) && Legal(n, e)
    ensures var m := Edited(n, e);
            Good(m) && Confined(n, m, e.frame) && Carries(n, m, e.frame) && (e.DeleteRows? ==> Delete(n, e.frame, e.rows, e.ids).1)
  {
    hide Insert, Delete, Carries, Confined, TailNull;
    assert IdsGood(n, e.frame);
    match e
    case InsertRows(f, count, at, default, asked) =>
      if count > 0 {
        var places := InsertTraces(n, f, count, at, default, asked);
        InsertKeepsGood(n, f, count, at, default, asked);
        InsertShape(n, f, count, at, default, asked);
        IdsCount(n, f);
        assert IdsGood(Insert(n, f, count, at, default, asked), f);
        IdsCount(Insert(n, f, count, at, default, asked), f);
        TracesCarries(n, Insert(n, f, count, at, default, asked), f, places);
      } else {
        NoInsertion(n, f, count, at, default, asked);
        UntouchedCarries(n, n, f);
      }
    case DeleteRows(f, rows, ids) =>
      var places := DeleteTraces(n, f, rows, ids);
      DeleteIsRemoval(n, f, rows, ids);
      IdsCount(n, f);
      assert IdsGood(Delete(n, f, rows, ids).0, f);
      IdsCount(Delete(n, f, rows, ids).0, f);
      TracesCarries(n, Delete(n, f, rows, ids).0, f, places);
  }

  lemma NoInsertion(n: Node, f: string, count: int, at: Option<int>, default: Value, asked: seq<RowId>)
    requires Shaped(n) && count <= 0
    ensures Insert(n, f, count, at, default, asked) == n && Confined(n, n, f)
  {
  }

  /** The steps of a run: the invariant, the surviving rows, and the other frames. */
  lemma StepKeeps(n: Node, e: Edit, m: Node, f: string)
    requires Good(n) && Step(n, e, m)
    ensures Good(m) && Carries(n, m, f)
    ensures f != e.frame ==> FrameUntouched(n, m, f)
  {
    var k := Edited(n, e);
    EditedKeeps(n, e);
    assert m == k.(version := m.version);
    hide Carries, Confined, FrameUntouched, Shaped, Edited, Insert, Delete, ApplyEdit;
    GoodButVersion(k, m);
    SameButVersion(k, m, f);
    assert IdsGood(k, f) && IdsGood(n, f);
    UntouchedCarries(k, m, f);
    if f != e.frame {
      ConfinedLeavesOthers(n, k, e.frame, f);
      UntouchedTwice(n, k, m, f);
      UntouchedCarries(n, m, f);
    } else {
      CarriesOn(n, k, m, f);
    }
  }

  lemma UntouchedSelf(n: Node, f: string)
    ensures FrameUntouched(n, n, f)
  {
  }

  lemma UntouchedTwice(a: Node, b: Node, c: Node, f: string)
    requires FrameUntouched(a, b, f) && FrameUntouched(b, c, f)
    ensures FrameUntouched(a, c, f)
  {
  }

  lemma CarriesOn(a: Node, b: Node, c: Node, f: string)
    requires Carries(a, b, f) && Carries(b, c, f) && Ids(c, f) == Ids(b, f)
    ensures Carries(a, c, f)
  {
    hide Ids, Row, RowNamed, Before;
  }

  // ----------------------------------------------------------------------- runs

  lemma {:induction false} RunStaysGood(ns: seq<Node>, es: seq<Edit>, k: nat)
    requires Run(ns, es) && Good(ns[0]) && k <= |es|
    ensures Good(ns[k])
  {
    hide Good, Legal, ApplyEdit, Carries, FrameUntouched;
    if k > 0 {
      RunStaysGood(ns, es, k - 1);
      assert Step(ns[k - 1], es[k - 1], ns[k]);
      StepKeeps(ns[k - 1], es[k - 1], ns[k], "");
    }
  }

  /** At every moment of every run, the rows of every frame have distinct identities, one each. */
  lemma IdsStayDistinct(ns: seq<Node>, es: seq<Edit>, k: nat, f: string)
    requires Run(ns, es) && Good(ns[0]) && k <= |es|
    ensures DistinctIds(Ids(ns[k], f)) && |Ids(ns[k], f)| == RowsOf(ns[k], f)
    ensures TailNull(ns[k])
  {
    RunStaysGood(ns, es, k);
    assert IdsGood(ns[k], f);
    IdsCount(ns[k], f);
  }

  /** An identity that is never deleted names the same contents throughout the run. */
  lemma {:induction false} SurvivorsKeepContents(ns: seq<Node>, es: seq<Edit>, k: nat, f: string, id: RowId)
    requires Run(ns, es) && Good(ns[0]) && k <= |es|
    requires forall j :: 0 <= j <= k ==> id in Ids(ns[j], f)
    ensures RowNamed(ns[k], f, id) == RowNamed(ns[0], f, id)
  {
    hide Good, Ids, Row, Legal, ApplyEdit;
    if k > 0 {
      SurvivorsKeepContents(ns, es, k - 1, f, id);
      RunStaysGood(ns, es, k - 1);
      assert Step(ns[k - 1], es[k - 1], ns[k]);
      StepKeeps(ns[k - 1], es[k - 1], ns[k], f);
    }
  }

  /** Two identities that are never deleted keep their order. */
  lemma {:induction false} SurvivorsKeepOrder(ns: seq<Node>, es: seq<Edit>, k: nat, f: string, a: RowId, b: RowId)
    requires Run(ns, es) && Good(ns[0]) && k <= |es| && Before(ns[0], f, a, b)
    requires forall j :: 0 <= j <= k ==> a in Ids(ns[j], f) && b in Ids(ns[j], f)
    ensures Before(ns[k], f, a, b)
  {
    hide Good, Ids, Row, Legal, ApplyEdit;
    if k > 0 {
      SurvivorsKeepOrder(ns, es, k - 1, f, a, b);
      RunStaysGood(ns, es, k - 1);
      assert Step(ns[k - 1], es[k - 1], ns[k]);
      StepKeeps(ns[k - 1], es[k - 1], ns[k], f);
    }
  }

  /** A frame that no edit names is untouched, whatever happened to the others. */
  lemma {:induction false} OthersUntouched(ns: seq<Node>, es: seq<Edit>, k: nat, f: string)
    requires Run(ns, es) && Good(ns[0]) && k <= |es|
    requires forall j :: 0 <= j < k ==> es[j].frame != f
    ensures FrameUntouched(ns[0], ns[k], f)
  {
    hide Good, FrameUntouched, Legal, ApplyEdit;
    if k == 0 {
      UntouchedSelf(ns[0], f);
    } else {
      OthersUntouched(ns, es, k - 1, f);
      RunStaysGood(ns, es, k - 1);
      assert Step(ns[k - 1], es[k - 1], ns[k]);
      StepKeeps(ns[k - 1], es[k - 1], ns[k], f);
      UntouchedTwice(ns[0], ns[k - 1], ns[k], f);
    }
  }
}
