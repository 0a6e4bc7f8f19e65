/**
 * Replaying the log on a node that only replays (core/coordinator.py:276-298,
 * 342-374).
 */
module Replay {
  import opened Sequences
  import opened Wrappers
  import opened CellIds
  import opened Store
  import opened CellWrites
  import opened Transactions
  import opened Wal
  import opened Commits

  /** The writes of an entry that change something, each expecting the value it found before all of them. */
  function Changes(n: Node, ops: seq<CellOp>): (changes: seq<CellOp>)
    ensures |changes| <= |ops|
    decreases |ops|
  {
    if ops == [] then []
    else
      var rest, op := Changes(n, ops[..|ops| - 1]), ops[|ops| - 1];
      var current := Current(n, op);
      if current == op.newValue then rest else rest + [op.(oldValue := current)]
  }

  /** `get`: a bulk marker names no column. */
  function Current(n: Node, op: CellOp): Value { if op.ref.Cell? then Read(n, op.ref.col, op.ref.row) else Null }

  /** `_apply_wal_entry`. */
  function ReplayOps(n: Node, ops: seq<CellOp>): Node
    requires Shaped(n)
  {
    var changes := Changes(n, ops);
    if changes == [] then n else Apply(n, changes).node
  }

  /** No cell is written twice. */
  predicate NoCellTwice(ops: seq<CellOp>) {
    forall i, j :: 0 <= i < j < |ops| && ops[i].ref.Cell? ==> ops[j].ref != ops[i].ref
  }

  predicate HasRef(ops: seq<CellOp>, ref: CellRef) { exists j :: 0 <= j < |ops| && ops[j].ref == ref }

  /** Each change expects what the node holds. */
  lemma {:induction false} ChangesExpectCurrent(n: Node, ops: seq<CellOp>)
    ensures forall i :: 0 <= i < |Changes(n, ops)| ==> Changes(n, ops)[i].oldValue == Current(n, Changes(n, ops)[i])
    ensures forall i :: 0 <= i < |Changes(n, ops)| ==> HasRef(ops, Changes(n, ops)[i].ref)
    decreases |ops|
  {
    if ops != [] {
      var init, changes := ops[..|ops| - 1], Changes(n, ops);
      ChangesExpectCurrent(n, init);
      forall i | 0 <= i < |changes|
        ensures changes[i].oldValue == Current(n, changes[i]) && HasRef(ops, changes[i].ref)
      {
        if i < |Changes(n, init)| {
          assert changes[i] == Changes(n, init)[i];
          assert HasRef(init, changes[i].ref);
          var j :| 0 <= j < |init| && init[j].ref == changes[i].ref;
          assert ops[j].ref == changes[i].ref;
        } else {
          assert ops[|ops| - 1].ref == changes[i].ref;
        }
      }
    }
  }

  lemma {:induction false} ChangesOnce(n: Node, ops: seq<CellOp>)
    requires NoCellTwice(ops)
    ensures NoCellTwice(Changes(n, ops))
    decreases |ops|
  {
    if ops != [] {
      var k := |ops| - 1;
      var init := ops[..k];
      assert forall i :: 0 <= i < k ==> init[i] == ops[i];
      ChangesOnce(n, init);
      ChangesExpectCurrent(n, init);
    }
  }

  /** The changes leave in every cell what the writes would. */
  lemma {:induction false} ChangesSuffice(n: Node, ops: seq<CellOp>, c: Column, r: nat)
    requires NoCellTwice(ops)
    ensures ValueAt(n, Changes(n, ops), c, r) == ValueAt(n, ops, c, r)
    decreases |ops|
  {
    if ops != [] {
      var k := |ops| - 1;
      var init := ops[..k];
      assert forall i :: 0 <= i < k ==> init[i] == ops[i];
      ChangesSuffice(n, init, c, r);
      assert Changes(n, ops) != Changes(n, init) ==> Changes(n, ops)[..|Changes(n, ops)| - 1] == Changes(n, init);
      if ops[k].ref == Cell(c, r) {
        LastWriteStands(init, c, r);
      }
    }
  }

  /** Replaying an entry without repeated cells gives every cell its last write, from every state. */
  lemma ReplayWrites(n: Node, ops: seq<CellOp>, c: Column, r: nat)
    requires Shaped(n) && NoCellTwice(ops)
    ensures Shaped(ReplayOps(n, ops))
    ensures Read(ReplayOps(n, ops), c, r) == ValueAt(n, ops, c, r)
  {
    hide Changes, Apply, Read, Shaped;
    var changes := Changes(n, ops);
    ChangesOnce(n, ops);
    ChangesExpectCurrent(n, ops);
    ChangesSuffice(n, ops, c, r);
    forall i | 0 <= i < |changes|
      ensures Passes(n, changes, i)
    {
      if changes[i].ref.Cell? {
        LastWriteStands(changes[..i], changes[i].ref.col, changes[i].ref.row);
      }
    }
    if changes != [] {
      ApplyAcceptsIff(n, changes);
      ApplyShaped(n, changes);
      AcceptedWrites(n, changes, c, r);
    }
  }

  // ------------------------------------------------- exactly when replay is right

  ghost predicate ReplayedRight(n: Node, ops: seq<CellOp>)
    requires Shaped(n)
  {
    forall c, r: nat :: Read(ReplayOps(n, ops), c, r) == ValueAt(n, ops, c, r)
  }

  predicate HitsTwice(ops: seq<CellOp>, c: Column, r: nat) {
    exists i, j :: 0 <= i < j < |ops| && ops[i].ref == Cell(c, r) && ops[j].ref == Cell(c, r)
  }

  /** The cell holds none of the values written. */
  ghost predicate Foreign(n: Node, ops: seq<CellOp>, c: Column, r: nat) {
    forall i :: 0 <= i < |ops| ==> ops[i].newValue != Read(n, c, r)
  }

  lemma {:induction false} ChangesHit(n: Node, ops: seq<CellOp>, c: Column, r: nat)
    requires Foreign(n, ops, c, r)
    ensures Hits(ops, c, r) ==> Hits(Changes(n, ops), c, r)
    ensures HitsTwice(ops, c, r) ==> HitsTwice(Changes(n, ops), c, r)
    decreases |ops|
  {
    if ops != [] {
      var k := |ops| - 1;
      var init, rest, all := ops[..k], Changes(n, ops[..k]), Changes(n, ops);
      assert forall i :: 0 <= i < k ==> init[i] == ops[i];
      ChangesHit(n, init, c, r);
      assert forall i :: 0 <= i < |rest| ==> all[i] == rest[i];
      if ops[k].ref == Cell(c, r) {
        assert all == rest + [ops[k].(oldValue := Current(n, ops[k]))];
        assert all[|rest|].ref == Cell(c, r);
        if HitsTwice(ops, c, r) {
          assert Hits(init, c, r) by {
            var i, j :| 0 <= i < j < |ops| && ops[i].ref == Cell(c, r) && ops[j].ref == Cell(c, r);
            assert init[i].ref == Cell(c, r);
          }
          var i :| 0 <= i < |rest| && rest[i].ref == Cell(c, r);
          assert all[i].ref == Cell(c, r);
        }
      } else {
        assert HitsTwice(ops, c, r) ==> HitsTwice(init, c, r);
        assert Hits(ops, c, r) ==> Hits(init, c, r);
      }
    }
  }

  /** The changes' new values are values of the entry. */
  lemma {:induction false} ChangesForeign(n: Node, ops: seq<CellOp>, c: Column, r: nat)
    requires Foreign(n, ops, c, r)
    ensures Foreign(n, Changes(n, ops), c, r)
    decreases |ops|
  {
    if ops != [] {
      assert Foreign(n, ops[..|ops| - 1], c, r);
      ChangesForeign(n, ops[..|ops| - 1], c, r);
    }
  }

  /** Two changes to one foreign cell: the second finds the value of the first and is refused. */
  lemma TwiceConflicts(n: Node, changes: seq<CellOp>, c: Column, r: nat)
    requires Shaped(n) && Foreign(n, changes, c, r) && HitsTwice(changes, c, r)
    requires forall i :: 0 <= i < |changes| ==> changes[i].oldValue == Current(n, changes[i])
    ensures !Apply(n, changes).ok
  {
    hide Apply, Read;
    var i, j :| 0 <= i < j < |changes| && changes[i].ref == Cell(c, r) && changes[j].ref == Cell(c, r);
    assert changes[..j][i].ref == Cell(c, r);
    LastWriteStands(changes[..j], c, r);
    ApplyAcceptsIff(n, changes);
    assert !Passes(n, changes, j);
  }

  /** From a state whose cell holds a foreign value, a repeated cell is replayed wrongly. */
  lemma RepeatedCellIsLost(n: Node, ops: seq<CellOp>, c: Column, r: nat)
    requires Shaped(n) && Foreign(n, ops, c, r) && HitsTwice(ops, c, r)
    requires forall i :: 0 <= i < |ops| && ops[i].ref.Cell? ==> ops[i].ref.col in n.cols
    ensures !ReplayedRight(n, ops)
  {
    hide Apply, Read, Changes, Shaped;
    var changes := Changes(n, ops);
    ChangesHit(n, ops, c, r);
    ChangesForeign(n, ops, c, r);
    ChangesExpectCurrent(n, ops);
    TwiceConflicts(n, changes, c, r);
    FailureIsInvisible(n, changes);
    assert Read(ReplayOps(n, ops), c, r) == Read(n, c, r);
    LastWriteStands(ops, c, r);
    assert ValueAt(n, ops, c, r) != Read(n, c, r);
  }

  function ColumnsOf(ops: seq<CellOp>): set<Column> {
    set i | 0 <= i < |ops| && ops[i].ref.Cell? :: ops[i].ref.col
  }

  function LongestText(ops: seq<CellOp>): (k: nat)
    ensures forall i :: 0 <= i < |ops| && ops[i].newValue.Val? ==> |ops[i].newValue.text| <= k
  {
    if ops == [] then 0
    else
      var k, v := LongestText(ops[1..]), ops[0].newValue;
      if v.Val? && |v.text| > k then |v.text| else k
  }

  /** A state with all columns of the entry, every cell of which holds a value foreign to it. */
  function ForeignNode(ops: seq<CellOp>, r: nat): Node {
    var v := Val(seq(LongestText(ops) + 1, _ => 'x'));
    Node(map c | c in ColumnsOf(ops) :: Repeat(v, r + 1), r + 1, map[], map[], map[], 0)
  }

  /** Replay gives the right cells from every state if and only if no cell is written twice. */
  lemma ReplayRightIff(ops: seq<CellOp>)
    ensures (forall n :: Shaped(n) ==> ReplayedRight(n, ops)) <==> NoCellTwice(ops)
  {
    if NoCellTwice(ops) {
      forall n, c, r: nat | Shaped(n)
        ensures Read(ReplayOps(n, ops), c, r) == ValueAt(n, ops, c, r)
      {
        ReplayWrites(n, ops, c, r);
      }
    } else {
      var i, j :| 0 <= i < j < |ops| && ops[i].ref.Cell? && ops[j].ref == ops[i].ref;
      var c, r := ops[i].ref.col, ops[i].ref.row;
      var n := ForeignNode(ops, r);
      assert c in ColumnsOf(ops);
      assert Shaped(n) && Foreign(n, ops, c, r);
      RepeatedCellIsLost(n, ops, c, r);
    }
  }

  // ------------------------------------------------------------------ whole logs

  /** The entries replayed one after the other. */
  function ReplayAll(n: Node, log: seq<Entry<Write>>): (m: Node)
    requires Shaped(n)
    ensures Shaped(m)
    decreases |log|
  {
    if log == [] then n
    else
      var m := ReplayAll(n, log[..|log| - 1]);
      ReplayShaped(m, EntryOps(log[|log| - 1]));
      ReplayOps(m, EntryOps(log[|log| - 1]))
  }

  /** Committed and synced entries are replayed, all others are passed over. */
  lemma WhichEntriesReplay(n: Node, e: Entry<Write>)
    requires Shaped(n)
    ensures e.state == COMMITTED || e.state == SYNCED ==> ReplayAll(n, [e]) == ReplayOps(n, ToCells(e.ops))
    ensures e.state != COMMITTED && e.state != SYNCED ==> ReplayAll(n, [e]) == n
  {
    assert [e][..0] == [] && ReplayAll(n, []) == n;
  }

  lemma ReplayShaped(n: Node, ops: seq<CellOp>)
    requires Shaped(n)
    ensures Shaped(ReplayOps(n, ops))
  {
    ApplyShaped(n, Changes(n, ops));
  }

  ghost predicate NoEntryRepeats(log: seq<Entry<Write>>) {
    forall i :: 0 <= i < |log| ==> NoCellTwice(EntryOps(log[i]))
  }

  lemma {:induction false} ReplayAllReads(n: Node, log: seq<Entry<Write>>, c: Column, r: nat)
    requires Shaped(n) && NoEntryRepeats(log)
    ensures Read(ReplayAll(n, log), c, r) == ValueAt(n, History(log), c, r)
    decreases |log|
  {
    if log != [] {
      var init, e := log[..|log| - 1], log[|log| - 1];
      assert NoEntryRepeats(init);
      ReplayAllReads(n, init, c, r);
      hide Read, Shaped, NoCellTwice, LastWrite;
      ReplayWrites(ReplayAll(n, init), EntryOps(e), c, r);
      ValueAfter(n, History(init), EntryOps(e), c, r);
    }
  }

  lemma {:induction false} HistoryOfConcat(a: seq<Entry<Write>>, b: seq<Entry<Write>>)
    ensures History(a + b) == History(a) + History(b)
    decreases |b|
  {
    hide EntryOps;
    if b == [] {
      assert a + b == a && History(a) + [] == History(a);
    } else {
      var k := |b| - 1;
      assert (a + b)[..|a + b| - 1] == a + b[..k];
      HistoryOfConcat(a, b[..k]);
    }
  }

  /** Replaying any already applied suffix once more changes no cell. */
  lemma ReplayAgain(n: Node, log: seq<Entry<Write>>, j: nat, c: Column, r: nat)
    requires Shaped(n) && NoEntryRepeats(log) && j <= |log|
    ensures Read(ReplayAll(ReplayAll(n, log), log[j..]), c, r) == Read(ReplayAll(n, log), c, r)
  {
    assert NoEntryRepeats(log[j..]);
    assert log == log[..j] + log[j..];
    hide Read, Shaped, NoEntryRepeats, ReplayAll, LastWrite, History;
    ReplayAllReads(n, log, c, r);
    ReplayAllReads(ReplayAll(n, log), log[j..], c, r);
    HistoryOfConcat(log[..j], log[j..]);
    ValueAfter(n, History(log[..j]), History(log[j..]), c, r);
  }

  /** A node that only replays agrees with the writer on every cell no in-flight transaction holds. */
  lemma ReplicaAgrees(n: Node, texts: iset<string>, ss: seq<System>, es: seq<Event>, k: nat, c: Column, r: nat)
    requires Shaped(n) && Run(n, ss, es) && Over(es, texts) && Unambiguous(texts)
    requires k <= |es| && Unheld(ss[k], c, r) && NoEntryRepeats(ss[k].log)
    ensures Read(ReplayAll(n, ss[k].log), c, r) == Read(ss[k].node, c, r)
  {
    var log := ss[k].log;
    hide Run, Over, Unambiguous, Unheld, NoEntryRepeats, Shaped, Read, ReplayAll, History, ValueAt;
    LogExplainsCells(n, texts, ss, es, k, c, r);
    ReplayAllReads(n, log, c, r);
  }
}
