/**
 * The operation log (core/op_log.py:92-308, 563-596): local appends, acknowledged
 * operations, leader-wins acceptance of follower operations, and exports.  The SQLite
 * table is a map from operation id to row; a value is its canonical JSON text.
 */
module OpLog {
  import opened Wrappers
  import opened Text
  import opened Digits
  import OpIds

  datatype Status = Pending | Acked | RejectedByLeader

  datatype Row = Row(entity: string, key: string, value: string, version: int, origin: string,
                     status: Status, created: int, updated: int)

  /** An operation as sent between nodes. */
  datatype Op = Op(id: string, entity: string, key: string, value: string, version: int, origin: string, created: int)

  type Table = map<string, Row>

  /** The upsert of `apply_acked`. */
  function Upserted(t: Table, op: Op, now: int): Table {
    t[op.id := Row(op.entity, op.key, op.value, op.version, op.origin, Acked,
                   if op.id in t then t[op.id].created else op.created, now)]
  }

  /** `apply_acked`. */
  function AllUpserted(t: Table, ops: seq<Op>, now: int): Table
    decreases |ops|
  {
    if ops == [] then t else Upserted(AllUpserted(t, ops[..|ops| - 1], now), ops[|ops| - 1], now)
  }

  // ---------------------------------------------------------- the latest acked row

  predicate Matches(r: Row, entity: string, key: string) {
    r.status == Acked && r.entity == entity && r.key == key
  }

  function Candidates(t: Table, entity: string, key: string): set<string> {
    set id | id in t && Matches(t[id], entity, key)
  }

  /** ORDER BY updated_at DESC, op_id DESC. */
  predicate Newer(t: Table, a: string, b: string)
    requires a in t && b in t
  {
    t[a].updated > t[b].updated || (t[a].updated == t[b].updated && Less(b, a))
  }

  predicate IsLatest(t: Table, ids: set<string>, id: string)
    requires ids <= t.Keys
  {
    id in ids && forall x :: x in ids && x != id ==> Newer(t, id, x)
  }

  lemma NewerIsTotal(t: Table, a: string, b: string)
    requires a in t && b in t && a != b
    ensures Newer(t, a, b) <==> !Newer(t, b, a)
  {
    LessIsTotal(a, b);
    LessIsStrict(a, b);
  }

  lemma NewerIsTransitive(t: Table, a: string, b: string, c: string)
    requires a in t && b in t && c in t && Newer(t, a, b) && Newer(t, b, c)
    ensures Newer(t, a, c)
  {
    if t[a].updated == t[b].updated == t[c].updated {
      LessIsTransitive(c, b, a);
    }
  }

  lemma {:induction false} LatestExists(t: Table, ids: set<string>)
    requires ids != {} && ids <= t.Keys
    ensures exists id :: id in ids && IsLatest(t, ids, id)
    decreases |ids|
  {
    var x :| x in ids;
    var rest := ids - {x};
    if rest == {} {
      assert ids == {x} && IsLatest(t, ids, x);
    } else {
      LatestExists(t, rest);
      var m :| m in rest && IsLatest(t, rest, m);
      LatestOfMore(t, rest, m, x);
      assert rest + {x} == ids;
    }
  }

  /** The latest of one more row is the newer of the two. */
  lemma LatestOfMore(t: Table, ids: set<string>, m: string, x: string)
    requires ids <= t.Keys && IsLatest(t, ids, m) && x in t && x !in ids
    ensures IsLatest(t, ids + {x}, if Newer(t, m, x) then m else x)
  {
    NewerIsTotal(t, m, x);
    if !Newer(t, m, x) {
      forall y | y in ids
        ensures Newer(t, x, y)
      {
        if y != m {
          NewerIsTransitive(t, x, m, y);
        }
      }
    }
  }

  lemma LatestIsUnique(t: Table, ids: set<string>, a: string, b: string)
    requires ids <= t.Keys && IsLatest(t, ids, a) && IsLatest(t, ids, b)
    ensures a == b
  {
    if a != b {
      NewerIsTotal(t, a, b);
    }
  }

  /** `_latest_acked_for_key`, its value. */
  ghost function LatestValue(t: Table, entity: string, key: string): Option<string> {
    var ids := Candidates(t, entity, key);
    if ids == {} then None
    else
      LatestExists(t, ids);
      var id :| id in ids && IsLatest(t, ids, id);
      Some(t[id].value)
  }

  lemma LatestValueIs(t: Table, entity: string, key: string, id: string)
    requires IsLatest(t, Candidates(t, entity, key), id)
    ensures LatestValue(t, entity, key) == Some(t[id].value)
  {
    var ids := Candidates(t, entity, key);
    LatestExists(t, ids);
    var other :| other in ids && IsLatest(t, ids, other) && LatestValue(t, entity, key) == Some(t[other].value);
    LatestIsUnique(t, ids, id, other);
  }

  /** Row `id` is acked for the key, and no acked row of the key is newer: by time, and then by id. */
  predicate Leads(t: Table, entity: string, key: string, id: string) {
    && id in t && t[id].status == Acked && t[id].entity == entity && t[id].key == key
    && forall x :: x in t && t[x].status == Acked && t[x].entity == entity && t[x].key == key ==>
                     t[x].updated <= t[id].updated && (t[x].updated == t[id].updated && x != id ==> Less(x, id))
  }

  lemma LeadsIffLatest(t: Table, entity: string, key: string, id: string)
    ensures Leads(t, entity, key, id) <==> IsLatest(t, Candidates(t, entity, key), id)
  {
    forall x | x in t && id in t && x != id
      ensures Newer(t, id, x) <==> t[x].updated <= t[id].updated && (t[x].updated == t[id].updated ==> Less(x, id))
    {
      LessIsTotal(x, id);
    }
  }

  /** The latest value is that of the acked row with the greatest time, and among those with the greatest id. */
  lemma LatestValueIff(t: Table, entity: string, key: string, value: string)
    ensures LatestValue(t, entity, key) == Some(value) <==> exists id :: Leads(t, entity, key, id) && t[id].value == value
    ensures LatestValue(t, entity, key) == None <==>
            forall id :: id in t && t[id].entity == entity && t[id].key == key ==> t[id].status != Acked
  {
    hide Leads;
    var ids := Candidates(t, entity, key);
    forall id
      ensures Leads(t, entity, key, id) ==> id in ids && LatestValue(t, entity, key) == Some(t[id].value)
    {
      if Leads(t, entity, key, id) {
        LeadsIffLatest(t, entity, key, id);
        LatestValueIs(t, entity, key, id);
      }
    }
    if ids != {} {
      LatestExists(t, ids);
      var m :| m in ids && IsLatest(t, ids, m);
      LeadsIffLatest(t, entity, key, m);
      assert m in t && Matches(t[m], entity, key);
    } else {
      assert forall id :: id in t && Matches(t[id], entity, key) ==> id in ids;
    }
  }

  // ------------------------------------------------------------- leader acceptance

  /** What the leader answers: the ids it acknowledged and those it rejected, in order. */
  datatype Answer = Answer(table: Table, acked: seq<string>, rejected: seq<string>)

  /** Leader wins: the key has an acked value, and it is another one. */
  ghost predicate Conflicts(t: Table, op: Op) {
    var latest := LatestValue(t, op.entity, op.key);
    latest.Some? && latest.value != op.value
  }

  ghost function AcceptOne(a: Answer, op: Op, now: int): Answer {
    if op.id == "" then a
    else if op.id in a.table then a.(acked := a.acked + [op.id])
    else if Conflicts(a.table, op) then a.(rejected := a.rejected + [op.id])
    else a.(table := Upserted(a.table, op, now), acked := a.acked + [op.id])
  }

  /** `accept_from_follower`; `clock[i]` is the time at which operation i is applied. */
  ghost function Accept(t: Table, ops: seq<Op>, clock: seq<int>): Answer
    requires |clock| == |ops|
    decreases |ops|
  {
    if ops == [] then Answer(t, [], [])
    else
      var k := |ops| - 1;
      AcceptOne(Accept(t, ops[..k], clock[..k]), ops[k], clock[k])
  }

  /** The leader holds another value for the operation's key. */
  ghost predicate Contradicts(t: Table, op: Op) {
    exists id :: Leads(t, op.entity, op.key, id) && t[id].value != op.value
  }

  /** What becomes of one operation: ignored, answered from the table, rejected, or stored. */
  lemma Verdict(a: Answer, op: Op, now: int)
    ensures AcceptOne(a, op, now) ==
            if op.id == "" then a
            else if op.id in a.table then Answer(a.table, a.acked + [op.id], a.rejected)
            else if Contradicts(a.table, op) then Answer(a.table, a.acked, a.rejected + [op.id])
            else Answer(a.table[op.id := Row(op.entity, op.key, op.value, op.version, op.origin, Acked, op.created, now)],
                        a.acked + [op.id], a.rejected)
  {
    hide Leads, LatestValue;
    var latest := LatestValue(a.table, op.entity, op.key);
    if latest.Some? {
      LatestValueIff(a.table, op.entity, op.key, latest.value);
    }
    forall id
      ensures Leads(a.table, op.entity, op.key, id) ==> id in a.table
    {
      LeadsHas(a.table, op.entity, op.key, id);
    }
    forall id | id in a.table && Leads(a.table, op.entity, op.key, id)
      ensures latest == Some(a.table[id].value)
    {
      LatestValueIff(a.table, op.entity, op.key, a.table[id].value);
    }
  }

  lemma LeadsHas(t: Table, entity: string, key: string, id: string)
    ensures Leads(t, entity, key, id) ==> id in t
  {
  }

  /** An operation stored as the newest of its key gives the key its value. */
  lemma StoredIsLatest(a: Answer, op: Op, now: int)
    requires op.id != "" && op.id !in a.table && !Contradicts(a.table, op)
    requires forall x :: x in a.table && Matches(a.table[x], op.entity, op.key) ==>
               a.table[x].updated <= now && (a.table[x].updated == now ==> Less(x, op.id))
    ensures LatestValue(AcceptOne(a, op, now).table, op.entity, op.key) == Some(op.value)
  {
    Verdict(a, op, now);
    var u := AcceptOne(a, op, now).table;
    hide AcceptOne, LatestValue, Contradicts;
    LatestValueIff(u, op.entity, op.key, op.value);
    assert Leads(u, op.entity, op.key, op.id);
  }

  /** Operation k is the last under its id, or the first. */
  predicate LastUnder(ops: seq<Op>, k: nat) {
    k < |ops| && forall j :: k < j < |ops| ==> ops[j].id != ops[k].id
  }

  predicate FirstUnder(ops: seq<Op>, k: nat) {
    k < |ops| && forall j :: 0 <= j < k ==> ops[j].id != ops[k].id
  }

  /** The row holds the operation, acked at the time. */
  predicate Holds(r: Row, op: Op, now: int) {
    && r.entity == op.entity && r.key == op.key && r.value == op.value && r.version == op.version
    && r.origin == op.origin && r.status == Acked && r.updated == now
  }

  /** `apply_acked`, row by row: rows that no operation names stay. */
  lemma {:induction false} UnnamedRowStays(t: Table, ops: seq<Op>, now: int, id: string)
    requires forall k :: 0 <= k < |ops| ==> ops[k].id != id
    ensures id in AllUpserted(t, ops, now) <==> id in t
    ensures id in t ==> AllUpserted(t, ops, now)[id] == t[id]
    decreases |ops|
  {
    if ops != [] {
      UnnamedRowStays(t, ops[..|ops| - 1], now, id);
    }
  }

  /** The last operation under an id stands. */
  lemma {:induction false} LastOpStands(t: Table, ops: seq<Op>, now: int, k: nat)
    requires LastUnder(ops, k)
    ensures var u := AllUpserted(t, ops, now);
            ops[k].id in u && Holds(u[ops[k].id], ops[k], now)
    decreases |ops|
  {
    var n := |ops| - 1;
    if k < n {
      assert ops[..n][k] == ops[k];
      LastOpStands(t, ops[..n], now, k);
    }
  }

  /** The time of creation is that of the row already there, or else of the first operation. */
  lemma {:induction false} UpsertedCreated(t: Table, ops: seq<Op>, now: int, k: nat)
    requires FirstUnder(ops, k)
    ensures var u := AllUpserted(t, ops, now);
            ops[k].id in u &&
            u[ops[k].id].created == if ops[k].id in t then t[ops[k].id].created else ops[k].created
    decreases |ops|
  {
    var n := |ops| - 1;
    if k < n {
      assert ops[..n][k] == ops[k];
      UpsertedCreated(t, ops[..n], now, k);
    } else {
      UnnamedRowStays(t, ops[..n], now, ops[k].id);
    }
  }

  /** Accepting one operation never changes the latest acked value of a key that has one. */
  lemma OneKeepsLatest(a: Answer, op: Op, now: int, entity: string, key: string)
    requires LatestValue(a.table, entity, key).Some?
    ensures LatestValue(AcceptOne(a, op, now).table, entity, key) == LatestValue(a.table, entity, key)
  {
    var t, u := a.table, AcceptOne(a, op, now).table;
    if u != t {
      var ids := Candidates(t, entity, key);
      LatestExists(t, ids);
      var m :| m in ids && IsLatest(t, ids, m);
      LatestValueIs(t, entity, key, m);
      if op.entity == entity && op.key == key {
        assert Candidates(u, entity, key) == ids + {op.id};
        SameRowsSameLatest(t, u, ids, m);
        LatestOfMore(u, ids, m, op.id);
        LatestValueIs(u, entity, key, if Newer(u, m, op.id) then m else op.id);
      } else {
        assert Candidates(u, entity, key) == ids;
        SameRowsSameLatest(t, u, ids, m);
        LatestValueIs(u, entity, key, m);
      }
    }
  }

  lemma SameRowsSameLatest(t: Table, u: Table, ids: set<string>, m: string)
    requires ids <= t.Keys && ids <= u.Keys && IsLatest(t, ids, m)
    requires forall id :: id in ids ==> u[id] == t[id]
    ensures IsLatest(u, ids, m)
  {
    forall x | x in ids && x != m
      ensures Newer(u, m, x)
    {
      assert Newer(t, m, x);
    }
  }

  lemma AcceptPrefix(t: Table, ops: seq<Op>, clock: seq<int>, i: nat)
    requires |clock| == |ops| && i < |ops|
    ensures Accept(t, ops[..i + 1], clock[..i + 1]) == AcceptOne(Accept(t, ops[..i], clock[..i]), ops[i], clock[i])
  {
    assert ops[..i + 1][..i] == ops[..i] && clock[..i + 1][..i] == clock[..i];
  }

  /** From some point of the batch on, for any clock, a key's latest acked value stays. */
  lemma {:induction false} LatestStays(t: Table, ops: seq<Op>, clock: seq<int>, i: nat, j: nat, entity: string, key: string)
    requires |clock| == |ops| && i <= j <= |ops|
    requires LatestValue(Accept(t, ops[..i], clock[..i]).table, entity, key).Some?
    ensures LatestValue(Accept(t, ops[..j], clock[..j]).table, entity, key) ==
            LatestValue(Accept(t, ops[..i], clock[..i]).table, entity, key)
    decreases j
  {
    hide LatestValue;
    if i < j {
      LatestStays(t, ops, clock, i, j - 1, entity, key);
      AcceptPrefix(t, ops, clock, j - 1);
      OneKeepsLatest(Accept(t, ops[..j - 1], clock[..j - 1]), ops[j - 1], clock[j - 1], entity, key);
    }
  }

  /** Leader wins: no batch changes the latest acked value of a key that has one. */
  lemma LeaderWins(t: Table, ops: seq<Op>, clock: seq<int>, entity: string, key: string)
    requires |clock| == |ops| && LatestValue(t, entity, key).Some?
    ensures LatestValue(Accept(t, ops, clock).table, entity, key) == LatestValue(t, entity, key)
  {
    assert ops[..0] == [] && clock[..0] == [] && ops[..|ops|] == ops && clock[..|ops|] == clock;
    LatestStays(t, ops, clock, 0, |ops|, entity, key);
  }

  function NamedIds(ops: seq<Op>): seq<string>
    decreases |ops|
  {
    if ops == [] then []
    else NamedIds(ops[..|ops| - 1]) + (if ops[|ops| - 1].id == "" then [] else [ops[|ops| - 1].id])
  }

  lemma OneIsAnswered(a: Answer, op: Op, now: int)
    ensures var b := AcceptOne(a, op, now);
            multiset(b.acked) + multiset(b.rejected) ==
            multiset(a.acked) + multiset(a.rejected) + if op.id == "" then multiset{} else multiset{op.id}
  {
    hide Upserted, Conflicts;
    assert multiset(a.acked + [op.id]) == multiset(a.acked) + multiset{op.id};
    assert multiset(a.rejected + [op.id]) == multiset(a.rejected) + multiset{op.id};
  }

  /** Every operation with an id is answered exactly once: acknowledged or rejected. */
  lemma {:induction false} EveryOpIsAnswered(t: Table, ops: seq<Op>, clock: seq<int>)
    requires |clock| == |ops|
    ensures var a := Accept(t, ops, clock);
            multiset(a.acked) + multiset(a.rejected) == multiset(NamedIds(ops))
    decreases |ops|
  {
    hide AcceptOne;
    if ops != [] {
      var k := |ops| - 1;
      EveryOpIsAnswered(t, ops[..k], clock[..k]);
      OneIsAnswered(Accept(t, ops[..k], clock[..k]), ops[k], clock[k]);
      assert multiset(NamedIds(ops[..k]) + [ops[k].id]) == multiset(NamedIds(ops[..k])) + multiset{ops[k].id};
      assert NamedIds(ops[..k]) + [] == NamedIds(ops[..k]);
    }
  }

  /** Rows already there are never touched. */
  lemma {:induction false} RowsStay(t: Table, ops: seq<Op>, clock: seq<int>, i: nat, j: nat, id: string)
    requires |clock| == |ops| && i <= j <= |ops| && id in Accept(t, ops[..i], clock[..i]).table
    ensures id in Accept(t, ops[..j], clock[..j]).table
    ensures Accept(t, ops[..j], clock[..j]).table[id] == Accept(t, ops[..i], clock[..i]).table[id]
    decreases j
  {
    hide Conflicts;
    if i < j {
      RowsStay(t, ops, clock, i, j - 1, id);
      AcceptPrefix(t, ops, clock, j - 1);
    }
  }

  predicate SameContent(a: Op, b: Op) { a.entity == b.entity && a.key == b.key && a.value == b.value }

  /** An id that comes twice comes with the same entity, key and value. */
  predicate Agreeing(ops: seq<Op>) {
    forall i, j :: 0 <= i < j < |ops| && ops[i].id != "" && ops[i].id == ops[j].id ==> SameContent(ops[i], ops[j])
  }

  predicate DistinctOps(ops: seq<Op>) {
    forall i, j :: 0 <= i < j < |ops| && ops[i].id != "" ==> ops[i].id != ops[j].id
  }

  /** A refused operation stays refused for the rest of the batch, as long as its id stands for it. */
  lemma {:induction false} RefusedStays(t: Table, ops: seq<Op>, clock: seq<int>, i: nat, j: nat, op: Op)
    requires |clock| == |ops| && i <= j <= |ops| && op.id != ""
    requires op.id !in Accept(t, ops[..i], clock[..i]).table && Conflicts(Accept(t, ops[..i], clock[..i]).table, op)
    requires forall k :: i <= k < j && ops[k].id == op.id ==> SameContent(ops[k], op)
    ensures op.id !in Accept(t, ops[..j], clock[..j]).table && Conflicts(Accept(t, ops[..j], clock[..j]).table, op)
    decreases j
  {
    if i < j {
      RefusedStays(t, ops, clock, i, j - 1, op);
      LatestStays(t, ops, clock, i, j, op.entity, op.key);
      LatestStays(t, ops, clock, i, j - 1, op.entity, op.key);
      hide LatestValue;
      AcceptPrefix(t, ops, clock, j - 1);
    }
  }

  /** The answer to operation i, judged once more when the whole batch has been applied. */
  lemma {:induction false} SameVerdict(t: Table, ops: seq<Op>, clock: seq<int>, i: nat, a: Answer, now: int)
    requires |clock| == |ops| && Agreeing(ops) && i < |ops|
    requires a.table == Accept(t, ops, clock).table
    requires a.acked == Accept(t, ops[..i], clock[..i]).acked && a.rejected == Accept(t, ops[..i], clock[..i]).rejected
    ensures AcceptOne(a, ops[i], now) ==
            Accept(t, ops[..i + 1], clock[..i + 1]).(table := a.table)
  {
    hide LatestValue;
    var op, before := ops[i], Accept(t, ops[..i], clock[..i]);
    AcceptPrefix(t, ops, clock, i);
    assert ops[..|ops|] == ops && clock[..|ops|] == clock;
    if op.id != "" {
      if op.id in before.table {
        RowsStay(t, ops, clock, i, |ops|, op.id);
      } else if Conflicts(before.table, op) {
        RefusedStays(t, ops, clock, i, |ops|, op);
      } else {
        RowsStay(t, ops, clock, i + 1, |ops|, op.id);
      }
    }
  }

  lemma {:induction false} ResendPrefix(t: Table, ops: seq<Op>, clock: seq<int>, clock': seq<int>, i: nat)
    requires |clock| == |clock'| == |ops| && Agreeing(ops) && i <= |ops|
    ensures Accept(Accept(t, ops, clock).table, ops[..i], clock'[..i]) ==
            Accept(t, ops[..i], clock[..i]).(table := Accept(t, ops, clock).table)
    decreases i
  {
    if i > 0 {
      ResendPrefix(t, ops, clock, clock', i - 1);
      AcceptPrefix(Accept(t, ops, clock).table, ops, clock', i - 1);
      SameVerdict(t, ops, clock, i - 1, Accept(Accept(t, ops, clock).table, ops[..i - 1], clock'[..i - 1]), clock'[i - 1]);
    }
  }

  /** Sending the batch again, at any time, changes nothing and gets the same answer. */
  ghost predicate ResendChangesNothing(t: Table, ops: seq<Op>, clock: seq<int>, clock': seq<int>)
    requires |clock| == |clock'| == |ops|
  {
    Accept(Accept(t, ops, clock).table, ops, clock') == Accept(t, ops, clock)
  }

  lemma ResendIsIdempotent(t: Table, ops: seq<Op>, clock: seq<int>, clock': seq<int>)
    requires |clock| == |clock'| == |ops| && Agreeing(ops)
    ensures ResendChangesNothing(t, ops, clock, clock')
  {
    ResendPrefix(t, ops, clock, clock', |ops|);
    assert ops[..|ops|] == ops && clock[..|ops|] == clock && clock'[..|ops|] == clock';
  }

  // ------------------------------------------------- an id that stands for two things

  /** A key whose acked rows all have one value. */
  lemma LatestOfAgreeing(t: Table, entity: string, key: string, value: string, id: string)
    requires id in t && Matches(t[id], entity, key)
    requires forall x :: x in t && Matches(t[x], entity, key) ==> t[x].value == value
    ensures LatestValue(t, entity, key) == Some(value)
  {
    var ids := Candidates(t, entity, key);
    assert id in ids;
    LatestExists(t, ids);
    var m :| m in ids && IsLatest(t, ids, m);
    LatestValueIs(t, entity, key, m);
  }

  /** The length of the longest id in the batch. */
  function LongestId(ops: seq<Op>): (k: nat)
    ensures forall i :: 0 <= i < |ops| ==> |ops[i].id| <= k
  {
    if ops == [] then 0
    else
      var k := LongestId(ops[1..]);
      if |ops[0].id| > k then |ops[0].id| else k
  }

  function Fresh(ops: seq<Op>, more: nat): string { seq(LongestId(ops) + 1 + more, _ => 'x') }

  /** A leader that holds another value than the one for its key, and the value of the other for its. */
  function SplitTable(ops: seq<Op>, one: Op, other: Op): Table {
    var held := if one.entity == other.entity && one.key == other.key then other.value else one.value + "x";
    map[Fresh(ops, 0) := Row(one.entity, one.key, held, 1, "", Acked, 0, 0),
        Fresh(ops, 1) := Row(other.entity, other.key, other.value, 1, "", Acked, 0, 0)]
  }

  lemma SplitLatest(ops: seq<Op>, one: Op, other: Op)
    requires !SameContent(one, other)
    ensures var t := SplitTable(ops, one, other);
            && Conflicts(t, one)
            && LatestValue(t, other.entity, other.key) == Some(other.value)
            && (forall i :: 0 <= i < |ops| ==> ops[i].id !in t)
  {
    hide LatestValue;
    var t := SplitTable(ops, one, other);
    var a, b := Fresh(ops, 0), Fresh(ops, 1);
    assert |a| == LongestId(ops) + 1 && |b| == LongestId(ops) + 2;
    LatestOfAgreeing(t, one.entity, one.key, t[a].value, a);
    LatestOfAgreeing(t, other.entity, other.key, other.value, b);
    assert |one.value + "x"| == |one.value| + 1;
  }

  /** An answer given is not taken back. */
  lemma {:induction false} RejectedStays(t: Table, ops: seq<Op>, clock: seq<int>, i: nat, j: nat, id: string)
    requires |clock| == |ops| && i <= j <= |ops| && id in Accept(t, ops[..i], clock[..i]).rejected
    ensures id in Accept(t, ops[..j], clock[..j]).rejected
    decreases j
  {
    if i < j {
      RejectedStays(t, ops, clock, i, j - 1, id);
      AcceptPrefix(t, ops, clock, j - 1);
    }
  }

  /** An id that is in the table is never rejected. */
  lemma {:induction false} KnownIsNotRejected(t: Table, ops: seq<Op>, clock: seq<int>, id: string)
    requires |clock| == |ops| && id in t
    ensures id in Accept(t, ops, clock).table && id !in Accept(t, ops, clock).rejected
    decreases |ops|
  {
    if ops != [] {
      var k := |ops| - 1;
      KnownIsNotRejected(t, ops[..k], clock[..k], id);
      hide Conflicts;
    }
  }

  /** Only an operation with that id makes a row. */
  lemma {:induction false} NoRowWithoutOp(t: Table, ops: seq<Op>, clock: seq<int>, i: nat, id: string)
    requires |clock| == |ops| && i <= |ops| && id !in t
    requires forall k :: 0 <= k < i ==> ops[k].id != id
    ensures id !in Accept(t, ops[..i], clock[..i]).table
    decreases i
  {
    if i > 0 {
      NoRowWithoutOp(t, ops, clock, i - 1, id);
      AcceptPrefix(t, ops, clock, i - 1);
    }
  }

  /** The first operation under an id, and the first one under it that says something else. */
  lemma FirstDisagreement(ops: seq<Op>) returns (i: nat, j: nat)
    requires !Agreeing(ops)
    ensures i < j < |ops| && ops[i].id != "" && ops[i].id == ops[j].id && !SameContent(ops[i], ops[j])
    ensures forall k :: 0 <= k < i ==> ops[k].id != ops[i].id
    ensures forall k :: i <= k < j && ops[k].id == ops[i].id ==> SameContent(ops[k], ops[i])
  {
    var a: nat, b: nat :| a < b < |ops| && ops[a].id != "" && ops[a].id == ops[b].id && !SameContent(ops[a], ops[b]);
    i := 0;
    while ops[i].id != ops[a].id
      invariant i <= a && forall k :: 0 <= k < i ==> ops[k].id != ops[a].id
      decreases a - i
    {
      i := i + 1;
    }
    j := i + 1;
    while ops[j].id != ops[i].id || SameContent(ops[j], ops[i])
      invariant i < j <= b
      invariant !(SameContent(ops[a], ops[i]) && SameContent(ops[b], ops[i]))
      invariant forall k :: i <= k < j && ops[k].id == ops[i].id ==> SameContent(ops[k], ops[i])
      decreases b - j
    {
      j := j + 1;
    }
  }

  /** The first operation under an id is rejected, if it conflicts with what the leader holds. */
  lemma FirstIsRejected(t: Table, ops: seq<Op>, clock: seq<int>, i: nat)
    requires |clock| == |ops| && i < |ops| && ops[i].id != "" && ops[i].id !in t && Conflicts(t, ops[i])
    requires forall k :: 0 <= k < i ==> ops[k].id != ops[i].id
    ensures var before := Accept(t, ops[..i], clock[..i]).table;
            ops[i].id !in before && Conflicts(before, ops[i])
    ensures ops[i].id in Accept(t, ops, clock).rejected
  {
    hide LatestValue;
    assert ops[..0] == [] && clock[..0] == [] && ops[..|ops|] == ops && clock[..|ops|] == clock;
    NoRowWithoutOp(t, ops, clock, i, ops[i].id);
    LatestStays(t, ops, clock, 0, i, ops[i].entity, ops[i].key);
    AcceptPrefix(t, ops, clock, i);
    RejectedStays(t, ops, clock, i + 1, |ops|, ops[i].id);
  }

  /** A later one under the same id that repeats the leader's value for its key is stored. */
  lemma LaterIsStored(t: Table, ops: seq<Op>, clock: seq<int>, j: nat)
    requires |clock| == |ops| && j < |ops| && ops[j].id != ""
    requires LatestValue(t, ops[j].entity, ops[j].key) == Some(ops[j].value)
    requires ops[j].id !in Accept(t, ops[..j], clock[..j]).table
    ensures ops[j].id in Accept(t, ops, clock).table
  {
    hide LatestValue;
    assert ops[..0] == [] && clock[..0] == [] && ops[..|ops|] == ops && clock[..|ops|] == clock;
    LatestStays(t, ops, clock, 0, j, ops[j].entity, ops[j].key);
    AcceptPrefix(t, ops, clock, j);
    RowsStay(t, ops, clock, j + 1, |ops|, ops[j].id);
  }

  /** The leader rejects the first, acknowledges the second, and acknowledges both when they come again. */
  lemma DisagreementChangesAnswer(ops: seq<Op>, clock: seq<int>, clock': seq<int>) returns (t: Table)
    requires |clock| == |clock'| == |ops| && !Agreeing(ops)
    ensures !ResendChangesNothing(t, ops, clock, clock')
  {
    hide LatestValue, SplitTable, Accept, Conflicts, Agreeing;
    var i, j := FirstDisagreement(ops);
    t := SplitTable(ops, ops[i], ops[j]);
    SplitLatest(ops, ops[i], ops[j]);
    FirstIsRejected(t, ops, clock, i);
    RefusedStays(t, ops, clock, i, j, ops[i]);
    LaterIsStored(t, ops, clock, j);
    KnownIsNotRejected(Accept(t, ops, clock).table, ops, clock', ops[i].id);
  }

  /**
   * Resending a batch changes nothing and gets the same answer, whatever the leader
   * holds and whatever its clock says, if and only if operations under one id agree.
   */
  lemma ResendIsIdempotentIff(ops: seq<Op>)
    ensures Agreeing(ops) <==>
            forall t, clock, clock' :: |clock| == |clock'| == |ops| ==> ResendChangesNothing(t, ops, clock, clock')
    ensures DistinctOps(ops) ==> Agreeing(ops)
  {
    hide ResendChangesNothing;
    if Agreeing(ops) {
      forall t, clock, clock' | |clock| == |clock'| == |ops|
        ensures ResendChangesNothing(t, ops, clock, clock')
      {
        ResendIsIdempotent(t, ops, clock, clock');
      }
    } else {
      var clock := seq(|ops|, _ => 0);
      var _ := DisagreementChangesAnswer(ops, clock, clock);
    }
  }

  /**
   * An acknowledged operation is stored with its content if and only if its id was new
   * or already stood for that content: an id that two nodes gave out loses one of the two.
   */
  lemma AckedIsStoredIff(a: Answer, op: Op, now: int)
    requires op.id != "" && AcceptOne(a, op, now).acked == a.acked + [op.id]
    ensures var u := AcceptOne(a, op, now).table;
            && op.id in u
            && (Stands(u[op.id], op) <==> op.id !in a.table || Stands(a.table[op.id], op))
  {
    assert |a.acked + [op.id]| == |a.acked| + 1;
  }

  predicate Stands(r: Row, op: Op) { r.entity == op.entity && r.key == op.key && r.value == op.value }

  // ----------------------------------------------------------------------- exports

  /** `export_since`, its ids: the acked ones after `since` in text order, in text order. */
  function Export(t: Table, since: Option<string>): seq<string> { Sorted(ExportSet(t, since)) }

  function ExportSet(t: Table, since: Option<string>): set<string> {
    set id | id in t && t[id].status == Acked && (since.None? || since.value == "" || Less(since.value, id))
  }

  /** All ids were printed, under epochs of equally many digits and with sequence numbers of at most 20. */
  ghost predicate Uniform(ids: set<string>, digits: nat) {
    forall id :: id in ids ==> UniformId(id, digits)
  }

  ghost predicate UniformId(id: string, digits: nat) {
    && OpIds.Parse(id).Some?
    && var (e, s) := OpIds.Parse(id).value;
       |Decimal(e)| == digits && s < Power(OpIds.SEQ_WIDTH) && id == OpIds.Print(e, s)
  }

  /** Numerically later: epoch first, then sequence number. */
  predicate LaterId(a: string, b: string) {
    OpIds.Parse(a).Some? && OpIds.Parse(b).Some? && OpIds.Later(OpIds.Parse(a).value, OpIds.Parse(b).value)
  }

  lemma UniformOrder(a: string, b: string, digits: nat)
    requires UniformId(a, digits) && UniformId(b, digits)
    ensures Less(a, b) <==> LaterId(a, b)
  {
    var x, y := OpIds.Parse(a).value, OpIds.Parse(b).value;
    OpIds.EqualDigitsSort(x.0, x.1, y.0, y.1);
  }

  /** Without a starting point an export holds all acked operations, each once. */
  lemma ExportAll(t: Table)
    ensures forall id :: id in Export(t, None) <==> id in t && t[id].status == Acked
    ensures Distinct(Export(t, None)) && Export(t, Some("")) == Export(t, None)
  {
    hide Sorted;
    var ids := ExportSet(t, None);
    assert ExportSet(t, Some("")) == ids;
    SortedIsAscending(ids);
    forall id
      ensures id in Export(t, None) <==> id in t && t[id].status == Acked
    {
      SortedHasAll(ids, id);
    }
  }

  /** An export holds exactly the numerically later acked operations, in numeric order. */
  lemma ExportIsLater(t: Table, since: string, digits: nat)
    requires Uniform(t.Keys, digits) && UniformId(since, digits)
    ensures forall id :: id in Export(t, Some(since)) <==>
              id in t && t[id].status == Acked && LaterId(since, id)
    ensures forall i, j :: 0 <= i < j < |Export(t, Some(since))| ==>
              LaterId(Export(t, Some(since))[i], Export(t, Some(since))[j])
  {
    hide UniformId, Sorted, LaterId, Less;
    var ids, out := ExportSet(t, Some(since)), Export(t, Some(since));
    DashIsNotEmpty(since, digits);
    forall id
      ensures id in out <==>
              id in t && t[id].status == Acked && LaterId(since, id)
    {
      SortedHasAll(ids, id);
      if id in t {
        UniformOrder(since, id, digits);
      }
    }
    SortedIsAscending(ids);
    forall i, j | 0 <= i < j < |out|
      ensures LaterId(out[i], out[j])
    {
      UniformOrder(out[i], out[j], digits);
    }
  }

  lemma DashIsNotEmpty(id: string, digits: nat)
    requires UniformId(id, digits)
    ensures id != ""
  {
  }

  // --------------------------------------------------------------------- the class

  class OpLog {
    const nodeId: string
    var table: Table
    var localSeq: nat
    var epoch: nat

    constructor (nodeId: string, epoch: nat)
      ensures this.nodeId == nodeId && this.epoch == epoch && table == map[] && localSeq == 0
    {
      this.nodeId, this.epoch, table, localSeq := nodeId, epoch, map[], 0;
    }

    /** `append_local`; None where the insert finds the id taken. */
    method AppendLocal(entity: string, key: string, value: string, now: int) returns (id: Option<string>)
      modifies `table, `localSeq
      ensures localSeq == old(localSeq) + 1
      ensures var next := OpIds.Print(epoch, old(localSeq) + 1);
              && id == (if next in old(table) then None else Some(next))
              && table == if next in old(table) then old(table)
                          else old(table)[next := Row(entity, key, value, 1, nodeId, Pending, now, now)]
    {
      localSeq := localSeq + 1;
      var next := OpIds.Print(epoch, localSeq);
      if next in table {
        return None;
      }
      table := table[next := Row(entity, key, value, 1, nodeId, Pending, now, now)];
      return Some(next);
    }

    /** `apply_acked`. */
    method ApplyAcked(ops: seq<Op>, now: int)
      modifies `table
      ensures table == AllUpserted(old(table), ops, now)
    {
      var i := 0;
      while i < |ops|
        invariant 0 <= i <= |ops| && table == AllUpserted(old(table), ops[..i], now)
      {
        assert ops[..i + 1][..i] == ops[..i];
        table := Upserted(table, ops[i], now);
        i := i + 1;
      }
      assert ops[..|ops|] == ops;
    }

    /** `_latest_acked_for_key`, as a scan. */
    method LatestAcked(entity: string, key: string) returns (value: Option<string>)
      ensures value == LatestValue(table, entity, key)
      ensures value.Some? ==> exists id :: Leads(table, entity, key, id) && table[id].value == value.value
    {
      var todo := Candidates(table, entity, key);
      if todo == {} {
        return None;
      }
      var best :| best in todo;
      ghost var done := {best};
      todo := todo - {best};
      while todo != {}
        invariant done + todo == Candidates(table, entity, key) && done !! todo
        invariant done <= table.Keys && IsLatest(table, done, best)
      {
        var x :| x in todo;
        LatestOfMore(table, done, best, x);
        if !Newer(table, best, x) {
          best := x;
        }
        done, todo := done + {x}, todo - {x};
      }
      assert done == Candidates(table, entity, key);
      LatestValueIs(table, entity, key, best);
      LeadsIffLatest(table, entity, key, best);
      value := Some(table[best].value);
    }

    /** `accept_from_follower`. */
    method AcceptFromFollower(ops: seq<Op>, clock: seq<int>) returns (acked: seq<string>, rejected: seq<string>)
      requires |clock| == |ops|
      modifies `table
      ensures Accept(old(table), ops, clock) == Answer(table, acked, rejected)
    {
      acked, rejected := [], [];
      var i := 0;
      while i < |ops|
        invariant 0 <= i <= |ops|
        invariant Accept(old(table), ops[..i], clock[..i]) == Answer(table, acked, rejected)
      {
        AcceptPrefix(old(table), ops, clock, i);
        var op := ops[i];
        if op.id != "" {
          if op.id in table {
            acked := acked + [op.id];
          } else {
            var latest := LatestAcked(op.entity, op.key);
            if latest.Some? && latest.value != op.value {
              rejected := rejected + [op.id];
            } else {
              assert [op][..0] == [];
              ApplyAcked([op], clock[i]);
              acked := acked + [op.id];
            }
          }
        }
        i := i + 1;
      }
      assert ops[..|ops|] == ops && clock[..|ops|] == clock;
    }
  }
}
