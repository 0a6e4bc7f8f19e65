/**
 * What row edits do to positions and identities (core/write_node.py:272-334,
 * 440-455), said by position and by identity.
 */
module EditMeaning {
  import opened Sequences
  import opened Wrappers
  import opened CellIds
  import opened Store
  import opened RowEdits
  import opened Digits
  import RowRuns

  // ------------------------------------------------------------------- insertions

  /** Where an insertion goes: to the end without a position, and never outside the frame. */
  function Place(rows: nat, at: Option<int>): nat {
    match at
    case None => rows
    case Some(k) => if k < 0 then 0 else if k > rows then rows else k
  }

  /** Rows and identities in front of the place stay, the others move down as they are, and the new rows hold the default. */
  lemma InsertOpensGap(n: Node, f: string, count: nat, at: Option<int>, default: Value, asked: seq<RowId>)
    requires Good(n) && count > 0
    ensures var m, p, rows := Insert(n, f, count, at, default, asked), Place(RowsOf(n, f), at), RowsOf(n, f);
            && RowsOf(m, f) == rows + count && |Ids(m, f)| == rows + count && |Ids(n, f)| == rows
            && Content(m, f)[..p] == Content(n, f)[..p] && Ids(m, f)[..p] == Ids(n, f)[..p]
            && Content(m, f)[p + count..] == Content(n, f)[p..] && Ids(m, f)[p + count..] == Ids(n, f)[p..]
            && (forall i :: p <= i < p + count ==> Content(m, f)[i] == BlankRow(n, f, default))
            && Ids(m, f)[p..p + count] == NewIds(asked, count, Ids(n, f), NextSeq(n, f))
  {
    var m, p := Insert(n, f, count, at, default, asked), Place(RowsOf(n, f), at);
    assert IdsGood(n, f);
    IdsCount(n, f);
    assert Position(RowsOf(n, f), at) == p;
    InsertIsSplice(n, f, count, at, default, asked);
    hide Insert, Ids, Content, NewIds, BlankRow, Good, IdsGood, NextSeq, RowsOf, FrameCols, Spliced;
    GapOf(n, m, f, p, count, default, NewIds(asked, count, Ids(n, f), NextSeq(n, f)));
  }

  lemma GapOf(n: Node, m: Node, f: string, p: nat, count: nat, default: Value, newIds: seq<RowId>)
    requires Spliced(n, m, f, p, count, default, newIds) && |newIds| == count && |Ids(n, f)| == RowsOf(n, f)
    ensures RowsOf(m, f) == RowsOf(n, f) + count && |Ids(m, f)| == RowsOf(n, f) + count
    ensures Content(m, f)[..p] == Content(n, f)[..p] && Ids(m, f)[..p] == Ids(n, f)[..p]
    ensures Content(m, f)[p + count..] == Content(n, f)[p..] && Ids(m, f)[p + count..] == Ids(n, f)[p..]
    ensures forall i :: p <= i < p + count ==> Content(m, f)[i] == BlankRow(n, f, default)
    ensures Ids(m, f)[p..p + count] == newIds
  {
    hide Ids, Content, BlankRow, RowsOf, FrameCols, Splice;
    var blank := seq(count, _ => BlankRow(n, f, default));
    SplicedParts(Content(n, f), p, blank);
    SplicedParts(Ids(n, f), p, newIds);
    forall i | p <= i < p + count
      ensures Content(m, f)[i] == BlankRow(n, f, default)
    {
      assert Content(m, f)[i] == Content(m, f)[p..p + count][i - p] == blank[i - p];
    }
  }

  lemma SplicedParts<T>(s: seq<T>, p: nat, x: seq<T>)
    requires p <= |s|
    ensures var r := Splice(s, p, x);
            |r| == |s| + |x| && r[..p] == s[..p] && r[p..p + |x|] == x && r[p + |x|..] == s[p..]
  {
  }

  /** Without a position an insertion appends. */
  lemma InsertAppends(n: Node, f: string, count: nat, default: Value, asked: seq<RowId>)
    requires Good(n) && count > 0
    ensures var m := Insert(n, f, count, None, default, asked);
            && Content(n, f) <= Content(m, f) && |Content(m, f)| == |Content(n, f)| + count
            && Ids(n, f) <= Ids(m, f)
  {
    InsertOpensGap(n, f, count, None, default, asked);
    hide Insert, Ids, NewIds, Good, NextSeq;
    assert Content(n, f)[..|Content(n, f)|] == Content(n, f);
  }

  // ------------------------------------------------------------------- identities

  lemma {:induction false} AllNonEmpty(ids: seq<RowId>)
    requires Named("") !in ids
    ensures NonEmpty(ids) == ids
  {
    if ids != [] {
      AllNonEmpty(ids[1..]);
    }
  }

  lemma {:induction false} NonEmptyHas(ids: seq<RowId>, id: RowId)
    ensures id in NonEmpty(ids) <==> id in ids && id != Named("")
  {
    if ids != [] {
      NonEmptyHas(ids[1..], id);
    }
  }

  lemma {:induction false} AllFiltered(asked: seq<RowId>, ids: seq<RowId>)
    requires forall id :: id in asked ==> id !in ids
    ensures Filter(asked, ids) == asked
  {
    if asked != [] {
      AllFiltered(asked[1..], ids);
    }
  }

  lemma {:induction false} FilterHas(asked: seq<RowId>, ids: seq<RowId>, id: RowId)
    ensures id in Filter(asked, ids) <==> id in asked && id !in ids
  {
    if asked != [] {
      FilterHas(asked[1..], ids, id);
    }
  }

  /** Requested identities that are all usable come first, in their order; the rest is issued by the counter. */
  lemma AskedAreUsed(asked: seq<RowId>, count: nat, ids: seq<RowId>, seqNo: nat)
    requires |asked| <= count && Named("") !in asked && forall id :: id in asked ==> id !in ids
    ensures NewIds(asked, count, ids, seqNo) == asked + seq(count - |asked|, i requires 0 <= i => R(seqNo + i))
  {
    AllNonEmpty(asked);
    AllFiltered(asked, ids);
    hide NonEmpty, Filter;
    IssuedAre(seqNo, count - |asked|);
  }

  lemma {:induction false} IssuedAre(seqNo: nat, k: nat)
    ensures Issued(seqNo, k) == seq(k, i requires 0 <= i => R(seqNo + i))
  {
    if k > 0 {
      IssuedAre(seqNo, k - 1);
    }
  }

  /** A requested identity is used if and only if it is not empty, not in the frame yet, and among the first `count`. */
  lemma WantedIff(asked: seq<RowId>, count: nat, ids: seq<RowId>, id: RowId)
    ensures id in Wanted(asked, count, ids) ==> id in asked && id != Named("") && id !in ids
    ensures id in asked && id != Named("") && id !in ids && |asked| <= count ==> id in Wanted(asked, count, ids)
  {
    var given := NonEmpty(asked);
    NonEmptyHas(asked, id);
    NonEmptyIsShorter(asked);
    hide NonEmpty, Filter;
    FilterHas(if |given| > count then given[..count] else given, ids, id);
  }

  lemma {:induction false} NonEmptyIsShorter(ids: seq<RowId>)
    ensures |NonEmpty(ids)| <= |ids|
  {
    if ids != [] {
      NonEmptyIsShorter(ids[1..]);
    }
  }

  /** Restoring non-empty identities stores exactly them; without any nothing changes. */
  lemma RestoredAre(n: Node, f: string, ids: seq<RowId>)
    ensures Named("") !in ids && ids != [] ==> StoredIds(IdsRestored(n, f, ids), f) == ids
    ensures (forall id :: id in ids ==> id == Named("")) ==> IdsRestored(n, f, ids) == n
  {
    hide Highest;
    if Named("") !in ids {
      AllNonEmpty(ids);
    }
    if forall id :: id in ids ==> id == Named("") {
      if NonEmpty(ids) != [] {
        NonEmptyHas(ids, NonEmpty(ids)[0]);
      }
    }
  }

  /** After a restore the counter is past the number of the identities and past each number in them, and no further. */
  lemma RestoredCounter(n: Node, f: string, ids: seq<RowId>)
    requires Named("") !in ids && ids != []
    ensures var s := StoredSeq(IdsRestored(n, f, ids), f);
            && |ids| <= s
            && (forall i :: 0 <= i < |ids| && ids[i].R? ==> ids[i].n < s)
            && (forall i, d :: 0 <= i < |ids| && ids[i] == Named("r" + d) && AllDigits(d) ==> DigitsValue(d) < s)
            && (s == |ids| || exists i :: 0 <= i < |ids| && NumberAfter(ids[i]) == s)
  {
    AllNonEmpty(ids);
    HighestIsAttained(ids);
    hide Highest, DigitsValue;
    forall i | 0 <= i < |ids|
      ensures NumberAfter(ids[i]) <= Highest(ids)
    {
      BelowHighest(ids, i);
    }
    forall i, d | 0 <= i < |ids| && ids[i] == Named("r" + d) && AllDigits(d)
      ensures NumberAfter(ids[i]) == DigitsValue(d) + 1
    {
      assert ("r" + d)[1..] == d;
    }
  }

  lemma {:induction false} HighestIsAttained(ids: seq<RowId>)
    ensures Highest(ids) == 0 || exists i :: 0 <= i < |ids| && NumberAfter(ids[i]) == Highest(ids)
    decreases |ids|
  {
    if ids != [] {
      var n := |ids| - 1;
      HighestIsAttained(ids[..n]);
      if Highest(ids[..n]) == Highest(ids) && Highest(ids) != 0 {
        var i :| 0 <= i < n && NumberAfter(ids[..n][i]) == Highest(ids);
        assert ids[i] == ids[..n][i];
      }
    }
  }

  /** The counter is never behind the number of rows that have an identity. */
  lemma CounterPastRows(n: Node, f: string, k: nat)
    ensures EnsuredSeq(n, f, k) >= |EnsuredIds(n, f, k)| && EnsuredSeq(n, f, k) >= StoredSeq(n, f)
    ensures |StoredIds(n, f)| >= k && StoredSeq(n, f) >= |StoredIds(n, f)| ==>
              EnsuredIds(n, f, k) == StoredIds(n, f) && EnsuredSeq(n, f, k) == StoredSeq(n, f)
  {
    assert StoredIds(n, f) + [] == StoredIds(n, f);
  }

  // -------------------------------------------------------------------- deletions

  /** A row is deleted if and only if it is named by its position or by its identity. */
  lemma TakenIff(n: Node, f: string, byRow: seq<int>, byId: seq<RowId>, p: nat)
    requires Good(n)
    ensures |Ids(n, f)| == RowsOf(n, f)
    ensures p in Taken(n, f, byRow, byId) <==> p < RowsOf(n, f) && (p in byRow || Ids(n, f)[p] in byId)
  {
    assert IdsGood(n, f);
    IdsCount(n, f);
    hide Ids, RowsOf, Good, IdsGood;
    var ids := Ids(n, f);
    if p < |ids| && ids[p] in byId {
      assert FirstIndex(ids, ids[p]) == p;
    }
  }

  /** An edit of a node in order is accepted if and only if it names a frame, and then counts the version up. */
  lemma EditVerdict(n: Node, e: Edit)
    requires Good(n) && RowRuns.Legal(n, e)
    ensures ApplyEdit(n, e).ok <==> e.frame != ""
    ensures ApplyEdit(n, e).node.version == n.version + if e.frame != "" then 1 else 0
    ensures e.frame == "" ==> ApplyEdit(n, e).node == n
  {
    if e.frame != "" {
      RowRuns.EditedKeeps(n, e);
      EditKeepsVersion(n, e);
    }
  }

  lemma EditKeepsVersion(n: Node, e: Edit)
    requires Shaped(n)
    ensures RowRuns.Edited(n, e).version == n.version
  {
  }
}
