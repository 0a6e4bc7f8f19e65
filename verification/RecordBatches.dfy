/**
 * Reading a frame from row groups, starting in the middle
 * (core/dataframe.py:1404-1444).
 */
module RecordBatches {
  import opened Sequences

  /** How the reader cuts selected groups into batches: any way that loses no row. */
  ghost predicate Batches<T(!new)>(split: seq<seq<T>> -> seq<seq<T>>) {
    forall groups :: Concat(split(groups)) == Concat(groups)
  }

  /** The rows from `start` on; a start before the first row means all of them. */
  function From<T>(rows: seq<T>, start: int): seq<T> { rows[Min(Max(0, start), |rows|)..] }

  /** The first group that reaches beyond `start`, and the rows of the groups before it. */
  method FirstGroup<T>(groups: seq<seq<T>>, start: int) returns (first: nat, skipped: nat)
    ensures first <= |groups| && skipped == |Concat(groups[..first])|
    ensures first > 0 ==> skipped <= start
    ensures first < |groups| ==> skipped + |groups[first]| > start
  {
    first, skipped := 0, 0;
    while first < |groups|
      invariant first <= |groups| && skipped == |Concat(groups[..first])|
      invariant first > 0 ==> skipped <= start
    {
      if skipped + |groups[first]| > start {
        return;
      }
      ConcatAt(groups, first);
      skipped := skipped + |groups[first]|;
      first := first + 1;
    }
  }

  /** The batch loop: whole batches are dropped, the next one is cut, empty ones are not yielded. */
  method DropRows<T>(batches: seq<seq<T>>, drop: nat) returns (yielded: seq<seq<T>>)
    ensures Concat(yielded) == From(Concat(batches), drop)
    ensures forall i :: 0 <= i < |yielded| ==> yielded[i] != []
    ensures |yielded| <= |batches|
  {
    hide From, Concat;
    yielded := [];
    var left := drop;
    var i := 0;
    assert batches[0..] == batches;
    StartAndEnd(Concat(batches), drop);
    while i < |batches|
      invariant 0 <= i <= |batches| && 0 <= left && |yielded| <= i
      invariant forall k :: 0 <= k < |yielded| ==> yielded[k] != []
      invariant Concat(yielded) + From(Concat(batches[i..]), left) == From(Concat(batches), drop)
      invariant yielded != [] ==> left == 0
    {
      ConcatAt(batches, i);
      var batch, rest := batches[i], Concat(batches[i + 1..]);
      if left > 0 && |batch| <= left {
        FromDrops(batch, rest, left);
        left := left - |batch|;
      } else {
        FromCuts(batch, rest, left);
        batch := batch[left..];
        left := 0;
        assert Concat(yielded) + batch + rest == Concat(yielded) + (batch + rest);
        ConcatSnoc(yielded, batch);
        if batch != [] {
          yielded := yielded + [batch];
        }
      }
      i := i + 1;
    }
    assert batches[|batches|..] == [];
    StartAndEnd(Concat(yielded), left);
  }

  lemma StartAndEnd<T>(rows: seq<T>, n: nat)
    ensures Concat<T>([]) + From(rows, n) == From(rows, n)
    ensures rows + From(Concat<T>([]), n) == rows
  {
  }

  lemma FromDrops<T>(a: seq<T>, b: seq<T>, n: nat)
    requires |a| <= n
    ensures From(a + b, n) == From(b, n - |a|)
  {
  }

  lemma FromCuts<T>(a: seq<T>, b: seq<T>, n: nat)
    requires n <= |a|
    ensures From(a + b, n) == a[n..] + b && From(b, 0) == b
  {
  }

  /**
   * `iter_record_batches` over a parquet file: for any row groups, any batching of the
   * groups read and any start, the batches hold exactly the rows from `start` on.
   */
  method IterRecordBatches<T(!new)>(groups: seq<seq<T>>, split: seq<seq<T>> -> seq<seq<T>>, start: int)
      returns (yielded: seq<seq<T>>)
    requires Batches(split)
    ensures Concat(yielded) == From(Concat(groups), start)
    ensures forall i :: 0 <= i < |yielded| ==> yielded[i] != []
  {
    hide From;
    var first, skipped := FirstGroup(groups, start);
    ConcatAppend(groups[..first], groups[first..]);
    assert groups == groups[..first] + groups[first..];
    if first >= |groups| {
      assert groups[first..] == [] && groups[..first] == groups;
      AllSkipped(Concat(groups), start, skipped, first);
      return [];
    }
    SkipThenDrop(Concat(groups[..first]), Concat(groups[first..]), start);
    yielded := DropRows(split(groups[first..]), Max(0, start - skipped));
  }

  lemma AllSkipped<T>(rows: seq<T>, start: int, skipped: nat, first: nat)
    requires skipped == |rows| && (first > 0 ==> skipped <= start) && (first == 0 ==> rows == [])
    ensures From(rows, start) == []
  {
  }

  /** Skipping whole groups first and dropping the rest later is starting at `start`. */
  lemma SkipThenDrop<T>(a: seq<T>, b: seq<T>, start: int)
    requires a != [] ==> |a| <= start
    ensures From(a + b, start) == From(b, Max(0, start - |a|))
  {
    if a == [] {
      assert a + b == b;
    } else {
      FromDrops(a, b, start);
    }
  }
}
