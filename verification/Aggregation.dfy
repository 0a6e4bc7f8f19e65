/**
 * Grouped aggregation over chunks (core/dataframe.py:1011-1059): the running totals
 * after any split into chunks are those of the whole frame.  Values are reals, and a
 * value that is no number counts as missing.
 */
module Aggregation {
  import opened Sequences
  import opened Wrappers

  datatype How = Sum | Count | Min | Max | Mean

  /** A number, or one of the infinities that minimum and maximum start from. */
  datatype Num = Fin(r: real) | PosInf | NegInf

  /** The values of the group columns, as text. */
  datatype Key = Key(parts: seq<Option<string>>)

  /** A row: its group and the values of the value columns. */
  datatype Row = Row(key: Key, vals: seq<Option<real>>)

  predicate Leq(a: Num, b: Num) { a == b || a.NegInf? || b.PosInf? || (a.Fin? && b.Fin? && a.r <= b.r) }

  /** What an accumulator starts from: the values of a missing entry in `nilai.get`. */
  function Start(how: How): Num {
    match how
    case Min => PosInf
    case Max => NegInf
    case _ => Fin(0.0)
  }

  predicate Fits(how: How, a: Num) { (how == Sum || how == Mean || how == Count) ==> a.Fin? }

  function Combine(how: How, a: Num, b: Num): (c: Num)
    requires Fits(how, a) && Fits(how, b)
    ensures Fits(how, c)
  {
    match how
    case Min => if Leq(a, b) then a else b
    case Max => if Leq(b, a) then a else b
    case _ => Fin(a.r + b.r)
  }

  /** The aggregate of one column: missing values are skipped. */
  function Fold(how: How, vs: seq<Option<real>>): (a: Num)
    ensures Fits(how, a)
    decreases |vs|
  {
    if vs == [] then Start(how)
    else
      var init, last := Fold(how, vs[..|vs| - 1]), vs[|vs| - 1];
      if last == None then init else Combine(how, init, Fin(last.value))
  }

  /** Aggregating two stretches and combining is aggregating both at once. */
  lemma {:induction false} FoldConcat(how: How, a: seq<Option<real>>, b: seq<Option<real>>)
    ensures Fold(how, a + b) == Combine(how, Fold(how, a), Fold(how, b))
    decreases |b|
  {
    if b == [] {
      assert a + b == a;
    } else {
      var k := |b| - 1;
      assert (a + b)[..|a + b| - 1] == a + b[..k];
      FoldConcat(how, a, b[..k]);
    }
  }

  /**
   * A minimum or maximum is a bound of the values that one of them attains; missing
   * values play no part, and only without values an infinity is left.
   */
  lemma {:induction false} FoldIsExtreme(how: How, vs: seq<Option<real>>)
    requires how == Min || how == Max
    ensures forall i :: 0 <= i < |vs| && vs[i].Some? ==>
              if how == Min then Leq(Fold(how, vs), Fin(vs[i].value)) else Leq(Fin(vs[i].value), Fold(how, vs))
    ensures Fold(how, vs) == Start(how) <==> forall i :: 0 <= i < |vs| ==> vs[i] == None
    ensures Fold(how, vs) == Start(how) || (Fold(how, vs).Fin? && Some(Fold(how, vs).r) in vs)
    decreases |vs|
  {
    if vs != [] {
      var init := vs[..|vs| - 1];
      FoldIsExtreme(how, init);
      assert forall i :: 0 <= i < |init| ==> init[i] == vs[i];
      assert vs[|vs| - 1] in vs;
      if Fold(how, init).Fin? {
        assert Some(Fold(how, init).r) in init;
      }
    }
  }

  // ------------------------------------------------------------------------ groups

  /** The rows of a group, in order. */
  function Of(rows: seq<Row>, key: Key): (r: seq<Row>)
    ensures |r| <= |rows|
    decreases |rows|
  {
    if rows == [] then []
    else Of(rows[..|rows| - 1], key) + (if rows[|rows| - 1].key == key then [rows[|rows| - 1]] else [])
  }

  /** Column c of the rows; a short row has no value there. */
  function Column(rows: seq<Row>, c: nat): seq<Option<real>> {
    seq(|rows|, i requires 0 <= i < |rows| => if c < |rows[i].vals| then rows[i].vals[c] else None)
  }

  /** The groups in order of first occurrence. */
  function Groups(rows: seq<Row>): (keys: seq<Key>)
    decreases |rows|
  {
    if rows == [] then [] else WithKey(Groups(rows[..|rows| - 1]), rows[|rows| - 1].key)
  }

  /** A dict's keys after `setdefault`. */
  function WithKey(keys: seq<Key>, key: Key): seq<Key> { if key in keys then keys else keys + [key] }

  function WithKeys(keys: seq<Key>, more: seq<Key>): seq<Key>
    decreases |more|
  {
    if more == [] then keys else WithKey(WithKeys(keys, more[..|more| - 1]), more[|more| - 1])
  }

  lemma {:induction false} OfConcat(a: seq<Row>, b: seq<Row>, key: Key)
    ensures Of(a + b, key) == Of(a, key) + Of(b, key)
    decreases |b|
  {
    if b == [] {
      assert a + b == a;
    } else {
      var k := |b| - 1;
      assert (a + b)[..|a + b| - 1] == a + b[..k];
      OfConcat(a, b[..k], key);
    }
  }

  lemma ColumnConcat(a: seq<Row>, b: seq<Row>, c: nat)
    ensures Column(a + b, c) == Column(a, c) + Column(b, c)
  {
  }

  lemma {:induction false} GroupsHave(rows: seq<Row>, key: Key)
    ensures key in Groups(rows) <==> Of(rows, key) != []
    decreases |rows|
  {
    if rows != [] {
      GroupsHave(rows[..|rows| - 1], key);
    }
  }

  /** Adding a chunk's groups one by one keeps the order of first occurrence. */
  lemma {:induction false} GroupsConcat(a: seq<Row>, b: seq<Row>)
    ensures Groups(a + b) == WithKeys(Groups(a), Groups(b))
    decreases |b|
  {
    if b == [] {
      assert a + b == a;
    } else {
      var k := |b| - 1;
      assert (a + b)[..|a + b| - 1] == a + b[..k];
      GroupsConcat(a, b[..k]);
      var key, before := b[k].key, Groups(b[..k]);
      if key in before {
        WithKeysHas(Groups(a), before, key);
      } else {
        assert Groups(b)[..|Groups(b)| - 1] == before;
      }
    }
  }

  lemma {:induction false} WithKeysHas(keys: seq<Key>, more: seq<Key>, key: Key)
    ensures key in WithKeys(keys, more) <==> key in keys || key in more
    decreases |more|
  {
    if more != [] {
      WithKeysHas(keys, more[..|more| - 1], key);
      assert more == more[..|more| - 1] + [more[|more| - 1]];
    }
  }

  // ---------------------------------------------------------------- running totals

  /** `akumulasi` and `jumlah_baris`: the groups in order, their totals and row counts. */
  datatype Totals = Totals(order: seq<Key>, sums: map<Key, seq<Num>>, counts: map<Key, nat>)

  const NO_TOTALS := Totals([], map[], map[])

  /** The totals of all rows at once, defined without chunks. */
  function TotalsOf(rows: seq<Row>, how: How, width: nat): Totals {
    Totals(Groups(rows), map key | key in Groups(rows) :: Sums(Of(rows, key), how, width),
           map key | key in Groups(rows) :: |Of(rows, key)|)
  }

  function Sums(rows: seq<Row>, how: How, width: nat): (s: seq<Num>)
    ensures |s| == width && forall c :: 0 <= c < width ==> s[c] == Fold(how, Column(rows, c))
  {
    seq(width, c requires 0 <= c < width => Fold(how, Column(rows, c)))
  }

  predicate AllFit(how: How, s: seq<Num>) { forall c :: 0 <= c < |s| ==> Fits(how, s[c]) }

  /** A group's totals with more of its rows. */
  function Added(before: seq<Num>, group: seq<Row>, how: How): (s: seq<Num>)
    requires AllFit(how, before)
    ensures |s| == |before|
  {
    seq(|before|, c requires 0 <= c < |before| => Combine(how, before[c], Fold(how, Column(group, c))))
  }

  /** `nilai` of the group, and what it is afterwards. */
  function AddSums(sums: map<Key, seq<Num>>, key: Key, group: seq<Row>, how: How, width: nat): map<Key, seq<Num>>
    requires key in sums ==> AllFit(how, sums[key])
  {
    sums[key := Added(if key in sums then sums[key] else seq(width, _ => Start(how)), group, how)]
  }

  function AddCount(counts: map<Key, nat>, key: Key, group: seq<Row>): map<Key, nat> {
    counts[key := (if key in counts then counts[key] else 0) + |group|]
  }

  /** One group of one chunk added to the running totals. */
  function AddGroup(t: Totals, key: Key, group: seq<Row>, how: How, width: nat): Totals
    requires key in t.sums ==> AllFit(how, t.sums[key])
  {
    Totals(WithKey(t.order, key), AddSums(t.sums, key, group, how, width), AddCount(t.counts, key, group))
  }

  /** The rows of a group that have been counted when the groups `keys` of the next chunk have been. */
  function Counted(done: seq<Row>, chunk: seq<Row>, keys: seq<Key>, key: Key): seq<Row> {
    if key in keys then Of(done + chunk, key) else Of(done, key)
  }

  /** The totals when the first k groups of the next chunk have been added. */
  function Midway(done: seq<Row>, chunk: seq<Row>, k: nat, how: How, width: nat): Totals
    requires k <= |Groups(chunk)|
  {
    var keys := Groups(chunk)[..k];
    var order := WithKeys(Groups(done), keys);
    Totals(order, SumMap(done, chunk, keys, order, how, width), CountMap(done, chunk, keys, order))
  }

  function SumMap(done: seq<Row>, chunk: seq<Row>, keys: seq<Key>, order: seq<Key>, how: How, width: nat)
      : map<Key, seq<Num>>
  {
    map key | key in order :: Sums(Counted(done, chunk, keys, key), how, width)
  }

  function CountMap(done: seq<Row>, chunk: seq<Row>, keys: seq<Key>, order: seq<Key>): map<Key, nat> {
    map key | key in order :: |Counted(done, chunk, keys, key)|
  }

  lemma {:induction false} GroupsDistinct(rows: seq<Row>)
    ensures forall i, j :: 0 <= i < j < |Groups(rows)| ==> Groups(rows)[i] != Groups(rows)[j]
    decreases |rows|
  {
    if rows != [] {
      GroupsDistinct(rows[..|rows| - 1]);
    }
  }

  lemma NotAmongEarlier(chunk: seq<Row>, k: nat)
    requires k < |Groups(chunk)|
    ensures Groups(chunk)[k] !in Groups(chunk)[..k]
  {
    GroupsDistinct(chunk);
  }

  lemma EmptyGroup(how: How, width: nat)
    ensures Sums([], how, width) == seq(width, _ => Start(how))
  {
    assert forall c: nat :: Column([], c) == [];
  }

  /** One group's totals before and after a chunk. */
  lemma SumsOfBoth(done: seq<Row>, chunk: seq<Row>, key: Key, how: How, width: nat)
    ensures AllFit(how, Sums(Of(done, key), how, width))
    ensures Sums(Of(done + chunk, key), how, width) == Added(Sums(Of(done, key), how, width), Of(chunk, key), how)
  {
    OfConcat(done, chunk, key);
    forall c: nat | c < width
      ensures Fold(how, Column(Of(done + chunk, key), c)) ==
              Combine(how, Fold(how, Column(Of(done, key), c)), Fold(how, Column(Of(chunk, key), c)))
    {
      ColumnConcat(Of(done, key), Of(chunk, key), c);
      FoldConcat(how, Column(Of(done, key), c), Column(Of(chunk, key), c));
    }
  }

  lemma MidwayOrder(done: seq<Row>, chunk: seq<Row>, k: nat)
    requires k < |Groups(chunk)|
    ensures var keys, key := Groups(chunk)[..k], Groups(chunk)[k];
            && WithKeys(Groups(done), Groups(chunk)[..k + 1]) == WithKey(WithKeys(Groups(done), keys), key)
            && (key in WithKeys(Groups(done), keys) <==> Of(done, key) != [])
  {
    assert Groups(chunk)[..k + 1][..k] == Groups(chunk)[..k];
    NotAmongEarlier(chunk, k);
    WithKeysHas(Groups(done), Groups(chunk)[..k], Groups(chunk)[k]);
    GroupsHave(done, Groups(chunk)[k]);
  }

  /** Counting group `key` changes which rows are counted for no other group. */
  lemma CountedStep(done: seq<Row>, chunk: seq<Row>, keys: seq<Key>, key: Key)
    requires key !in keys
    ensures Counted(done, chunk, keys, key) == Of(done, key)
    ensures Counted(done, chunk, keys + [key], key) == Of(done, key) + Of(chunk, key)
    ensures forall x :: x != key ==> Counted(done, chunk, keys + [key], x) == Counted(done, chunk, keys, x)
  {
    hide Of;
    OfConcat(done, chunk, key);
    assert forall x :: x in keys + [key] <==> x in keys || x == key;
  }

  lemma WithKeyHas(keys: seq<Key>, key: Key)
    ensures forall x :: x in WithKey(keys, key) <==> x in keys || x == key
  {
  }

  lemma {:induction false} CountStep(done: seq<Row>, chunk: seq<Row>, keys: seq<Key>, order: seq<Key>, key: Key)
    requires key !in keys && (key !in order ==> Of(done, key) == [])
    ensures AddCount(CountMap(done, chunk, keys, order), key, Of(chunk, key)) ==
            CountMap(done, chunk, keys + [key], WithKey(order, key))
  {
    hide Of, Counted, WithKey, CountMap;
    CountedStep(done, chunk, keys, key);
    WithKeyHas(order, key);
    var more, after := keys + [key], WithKey(order, key);
    CountMapIs(done, chunk, keys, order);
    CountMapIs(done, chunk, more, after);
    var t, u := CountMap(done, chunk, keys, order), CountMap(done, chunk, more, after);
    UpdateIs(t, u, key, (if key in t then t[key] else 0) + |Of(chunk, key)|);
  }

  lemma CountMapIs(done: seq<Row>, chunk: seq<Row>, keys: seq<Key>, order: seq<Key>)
    ensures forall x :: x in CountMap(done, chunk, keys, order) <==> x in order
    ensures forall x :: x in order ==> CountMap(done, chunk, keys, order)[x] == |Counted(done, chunk, keys, x)|
  {
    hide Counted;
  }

  lemma SumMapIs(done: seq<Row>, chunk: seq<Row>, keys: seq<Key>, order: seq<Key>, how: How, width: nat)
    ensures forall x :: x in SumMap(done, chunk, keys, order, how, width) <==> x in order
    ensures forall x :: x in order ==>
              SumMap(done, chunk, keys, order, how, width)[x] == Sums(Counted(done, chunk, keys, x), how, width)
  {
    hide Counted, Sums;
  }

  lemma SumStep(done: seq<Row>, chunk: seq<Row>, keys: seq<Key>, order: seq<Key>, key: Key,
                how: How, width: nat)
    requires key !in keys && (key !in order ==> Of(done, key) == [])
    ensures var t := SumMap(done, chunk, keys, order, how, width);
            && (key in t ==> AllFit(how, t[key]))
            && AddSums(t, key, Of(chunk, key), how, width) ==
               SumMap(done, chunk, keys + [key], WithKey(order, key), how, width)
  {
    hide Of, Counted, Sums, Added, AllFit, WithKey, SumMap;
    CountedStep(done, chunk, keys, key);
    WithKeyHas(order, key);
    SumsOfBoth(done, chunk, key, how, width);
    OfConcat(done, chunk, key);
    EmptyGroup(how, width);
    var more, after := keys + [key], WithKey(order, key);
    SumMapIs(done, chunk, keys, order, how, width);
    SumMapIs(done, chunk, more, after, how, width);
    var t, u := SumMap(done, chunk, keys, order, how, width), SumMap(done, chunk, more, after, how, width);
    UpdateIs(t, u, key, Added(Sums(Of(done, key), how, width), Of(chunk, key), how));
  }

  lemma UpdateIs<V>(was: map<Key, V>, now: map<Key, V>, key: Key, v: V)
    requires key in now && now[key] == v && forall x :: x in now <==> x in was || x == key
    requires forall x :: x in was && x != key ==> now[x] == was[x]
    ensures was[key := v] == now
  {
  }

  /** Adding the next group of the chunk is one more step of the way. */
  lemma {:induction false} AddGroupStep(done: seq<Row>, chunk: seq<Row>, k: nat, how: How, width: nat)
    requires k < |Groups(chunk)|
    ensures var key, t := Groups(chunk)[k], Midway(done, chunk, k, how, width);
            && (key in t.sums ==> AllFit(how, t.sums[key]))
            && AddGroup(t, key, Of(chunk, key), how, width) == Midway(done, chunk, k + 1, how, width)
  {
    hide Of, Groups, WithKeys, AddSums, AddCount, AllFit, SumMap, CountMap;
    var key, keys := Groups(chunk)[k], Groups(chunk)[..k];
    var order := WithKeys(Groups(done), keys);
    assert Groups(chunk)[..k + 1] == keys + [key];
    MidwayOrder(done, chunk, k);
    NotAmongEarlier(chunk, k);
    CountStep(done, chunk, keys, order, key);
    SumStep(done, chunk, keys, order, key, how, width);
  }

  lemma MidwayStart(done: seq<Row>, chunk: seq<Row>, how: How, width: nat)
    ensures Midway(done, chunk, 0, how, width) == TotalsOf(done, how, width)
  {
    assert Groups(chunk)[..0] == [];
  }

  lemma {:induction false} MidwayEnd(done: seq<Row>, chunk: seq<Row>, how: How, width: nat)
    ensures Midway(done, chunk, |Groups(chunk)|, how, width) == TotalsOf(done + chunk, how, width)
  {
    var keys := Groups(chunk);
    assert keys[..|keys|] == keys;
    GroupsConcat(done, chunk);
    var t, u := Midway(done, chunk, |keys|, how, width), TotalsOf(done + chunk, how, width);
    forall key | key in u.order
      ensures t.sums[key] == u.sums[key] && t.counts[key] == u.counts[key]
    {
      GroupsHave(chunk, key);
      OfConcat(done, chunk, key);
      hide Sums, Groups, WithKeys, Of;
      assert Counted(done, chunk, keys, key) == Of(done + chunk, key);
    }
    hide Midway, TotalsOf;
    assert t.sums == u.sums && t.counts == u.counts;
  }

  function Filtered(rows: seq<Row>, keep: Row -> bool): (r: seq<Row>)
    ensures |r| <= |rows|
    decreases |rows|
  {
    if rows == [] then []
    else Filtered(rows[..|rows| - 1], keep) + (if keep(rows[|rows| - 1]) then [rows[|rows| - 1]] else [])
  }

  lemma {:induction false} FilteredConcat(a: seq<Row>, b: seq<Row>, keep: Row -> bool)
    ensures Filtered(a + b, keep) == Filtered(a, keep) + Filtered(b, keep)
    decreases |b|
  {
    if b == [] {
      assert a + b == a;
    } else {
      var k := |b| - 1;
      assert (a + b)[..|a + b| - 1] == a + b[..k];
      FilteredConcat(a, b[..k], keep);
    }
  }

  function Width(how: How, columns: nat): nat { if how == Count then 0 else columns }

  /** The groups of one chunk added to the totals so far. */
  method AddChunk(so: Totals, ghost done: seq<Row>, chunk: seq<Row>, how: How, width: nat) returns (t: Totals)
    requires so == TotalsOf(done, how, width)
    ensures t == TotalsOf(done + chunk, how, width)
  {
    hide TotalsOf, Midway, AddGroup, Groups, Of;
    t := so;
    var keys := Groups(chunk);
    MidwayStart(done, chunk, how, width);
    var k := 0;
    while k < |keys|
      invariant 0 <= k <= |keys| && t == Midway(done, chunk, k, how, width)
    {
      AddGroupStep(done, chunk, k, how, width);
      t := AddGroup(t, keys[k], Of(chunk, keys[k]), how, width);
      k := k + 1;
    }
    MidwayEnd(done, chunk, how, width);
  }

  /**
   * The chunk loop of `_agregasi_cluster`.  Its totals do not depend on the split: they
   * are those of the filtered frame taken as a whole.
   */
  method Accumulate(chunks: seq<seq<Row>>, how: How, columns: nat, keep: Row -> bool) returns (t: Totals)
    ensures t == TotalsOf(Filtered(Concat(chunks), keep), how, Width(how, columns))
  {
    var width := Width(how, columns);
    t := NO_TOTALS;
    ghost var done: seq<Row> := [];
    assert TotalsOf([], how, width) == NO_TOTALS && Filtered(Concat(chunks[..0]), keep) == [];
    hide TotalsOf, Filtered, Concat;
    var i := 0;
    while i < |chunks|
      invariant 0 <= i <= |chunks| && done == Filtered(Concat(chunks[..i]), keep)
      invariant t == TotalsOf(done, how, width)
    {
      var chunk := Filtered(chunks[i], keep);
      ConcatAt(chunks, i);
      FilteredConcat(Concat(chunks[..i]), chunks[i], keep);
      if chunk != [] {
        t := AddChunk(t, done, chunk, how, width);
      }
      assert chunk == [] ==> done + chunk == done;
      done := done + chunk;
      i := i + 1;
    }
    assert chunks[..|chunks|] == chunks;
  }

  // ------------------------------------------------------------------------ report

  datatype Line = Line(key: Key, vals: seq<Num>)

  /** One result row: the count, the means, or the totals as they are. */
  function LineOf(t: Totals, key: Key, how: How): Line
    requires key in t.sums && key in t.counts && AllFit(how, t.sums[key])
    requires t.counts[key] > 0
  {
    var s := t.sums[key];
    Line(key,
         match how
         case Count => [Fin(t.counts[key] as real)]
         case Mean => seq(|s|, c requires 0 <= c < |s| => Fin(s[c].r / t.counts[key] as real))
         case _ => s)
  }

  /** `r.get(urut) or 0`. */
  function Rank(l: Line): Num { if l.vals == [] then Fin(0.0) else l.vals[0] }

  /** Behind all lines that rank at least as high. */
  function Insert(l: Line, s: seq<Line>): seq<Line> {
    if s == [] then [l]
    else if Leq(Rank(l), Rank(s[0])) then [s[0]] + Insert(l, s[1..])
    else [l] + s
  }

  /** `sort(reverse=True)`: descending, and lines of equal rank keep their order. */
  function Ranked(s: seq<Line>): seq<Line>
    decreases |s|
  {
    if s == [] then [] else Insert(s[|s| - 1], Ranked(s[..|s| - 1]))
  }

  ghost predicate Descending(s: seq<Line>) {
    forall i, j :: 0 <= i < j < |s| ==> Leq(Rank(s[j]), Rank(s[i]))
  }

  function WithRank(s: seq<Line>, v: Num): seq<Line> {
    if s == [] then [] else (if Rank(s[0]) == v then [s[0]] else []) + WithRank(s[1..], v)
  }

  lemma {:induction false} InsertHas(l: Line, s: seq<Line>)
    ensures forall x :: x in Insert(l, s) <==> x == l || x in s
  {
    if s != [] && Leq(Rank(l), Rank(s[0])) {
      InsertHas(l, s[1..]);
      assert forall x :: x in s <==> x == s[0] || x in s[1..];
    }
  }

  lemma {:induction false} InsertDescends(l: Line, s: seq<Line>)
    requires Descending(s)
    ensures Descending(Insert(l, s))
  {
    if s != [] {
      var out := Insert(l, s);
      if Leq(Rank(l), Rank(s[0])) {
        var rest := Insert(l, s[1..]);
        InsertDescends(l, s[1..]);
        InsertHas(l, s[1..]);
        forall i, j | 0 <= i < j < |out|
          ensures Leq(Rank(out[j]), Rank(out[i]))
        {
          assert out[j] == rest[j - 1] && rest[j - 1] in rest;
          if i > 0 {
            assert out[i] == rest[i - 1];
          }
        }
      } else {
        forall i, j | 0 <= i < j < |out|
          ensures Leq(Rank(out[j]), Rank(out[i]))
        {
        }
      }
    }
  }

  lemma {:induction false} WithRankConcat(a: seq<Line>, b: seq<Line>, v: Num)
    ensures WithRank(a + b, v) == WithRank(a, v) + WithRank(b, v)
  {
    if a == [] {
      assert a + b == b;
    } else {
      assert (a + b)[1..] == a[1..] + b;
      WithRankConcat(a[1..], b, v);
    }
  }

  lemma {:induction false} NoneWithRank(s: seq<Line>, v: Num)
    requires forall x :: x in s ==> Rank(x) != v
    ensures WithRank(s, v) == []
  {
    if s != [] {
      assert s[0] in s;
      NoneWithRank(s[1..], v);
    }
  }

  lemma {:induction false} InsertIsStable(l: Line, s: seq<Line>, v: Num)
    requires Descending(s)
    ensures WithRank(Insert(l, s), v) == WithRank(s, v) + (if Rank(l) == v then [l] else [])
  {
    hide Rank, Leq;
    if s == [] {
      assert [l][1..] == [];
    } else if Leq(Rank(l), Rank(s[0])) {
      InsertIsStable(l, s[1..], v);
      WithRankCons(s[0], Insert(l, s[1..]), v);
      WithRankCons(s[0], s[1..], v);
      assert s == [s[0]] + s[1..];
    } else {
      WithRankCons(l, s, v);
      if Rank(l) == v {
        BelowHasNone(l, s);
      }
    }
  }

  lemma WithRankCons(l: Line, s: seq<Line>, v: Num)
    ensures WithRank([l] + s, v) == (if Rank(l) == v then [l] else []) + WithRank(s, v)
  {
    assert ([l] + s)[1..] == s;
  }

  /** Nothing ranks as high as a line that ranks above the first. */
  lemma BelowHasNone(l: Line, s: seq<Line>)
    requires Descending(s) && s != [] && !Leq(Rank(l), Rank(s[0]))
    ensures WithRank(s, Rank(l)) == []
  {
    forall x | x in s
      ensures Rank(x) != Rank(l)
    {
      var i :| 0 <= i < |s| && s[i] == x;
      assert i > 0 ==> Leq(Rank(s[i]), Rank(s[0]));
    }
    NoneWithRank(s, Rank(l));
  }

  /** The ranking is descending and a stable reordering: each rank's lines are the same, in the same order. */
  lemma {:induction false} RankedIsStable(s: seq<Line>, v: Num)
    ensures Descending(Ranked(s)) && WithRank(Ranked(s), v) == WithRank(s, v)
    decreases |s|
  {
    if s != [] {
      var k := |s| - 1;
      RankedIsStable(s[..k], v);
      InsertDescends(s[k], Ranked(s[..k]));
      InsertIsStable(s[k], Ranked(s[..k]), v);
      assert s == s[..k] + [s[k]] && [s[k]][1..] == [];
      WithRankConcat(s[..k], [s[k]], v);
    }
  }

  lemma TotalsAreReady(rows: seq<Row>, how: How, width: nat, key: Key)
    requires key in Groups(rows)
    ensures var t := TotalsOf(rows, how, width);
            key in t.sums && key in t.counts && AllFit(how, t.sums[key]) && t.counts[key] > 0
  {
    GroupsHave(rows, key);
  }

  /** The result rows of the whole frame, before ranking. */
  function LinesOf(rows: seq<Row>, how: How, width: nat): (lines: seq<Line>)
    ensures |lines| == |Groups(rows)|
  {
    var t := TotalsOf(rows, how, width);
    seq(|Groups(rows)|, i requires 0 <= i < |Groups(rows)| =>
      (TotalsAreReady(rows, how, width, Groups(rows)[i]); LineOf(t, Groups(rows)[i], how)))
  }

  lemma {:induction false} LineAt(rows: seq<Row>, how: How, width: nat, i: nat)
    requires i < |Groups(rows)|
    ensures var t, key := TotalsOf(rows, how, width), Groups(rows)[i];
            && t.order == Groups(rows)
            && key in t.sums && key in t.counts && AllFit(how, t.sums[key]) && t.counts[key] > 0
            && LinesOf(rows, how, width)[i] == LineOf(t, key, how)
  {
    hide Groups, LineOf, AllFit, Sums, Of;
    TotalsAreReady(rows, how, width, Groups(rows)[i]);
  }

  lemma {:induction false} LinesStep(rows: seq<Row>, how: How, width: nat, i: nat)
    requires i < |Groups(rows)|
    ensures var t, key := TotalsOf(rows, how, width), Groups(rows)[i];
            && t.order == Groups(rows)
            && key in t.sums && key in t.counts && AllFit(how, t.sums[key]) && t.counts[key] > 0
            && LinesOf(rows, how, width)[..i + 1] == LinesOf(rows, how, width)[..i] + [LineOf(t, key, how)]
  {
    hide TotalsOf, Groups, LineOf, LinesOf, AllFit;
    LineAt(rows, how, width, i);
  }

  /** The answer for the whole frame: ranked when the ranking column is among the result columns, then cut. */
  function Report(rows: seq<Row>, how: How, columns: nat, limit: int): seq<Line> {
    var lines := LinesOf(rows, how, Width(how, columns));
    var ranked := if (how == Count) == (columns == 0) then Ranked(lines) else lines;
    var top := if limit < 1 then 1 else limit;
    if |ranked| <= top then ranked else ranked[..top]
  }

  /**
   * `_agregasi_cluster`: groups, values, order and the top rows are those of one pass
   * over the whole filtered frame, for any split into chunks.
   */
  method Aggregate(chunks: seq<seq<Row>>, how: How, columns: nat, limit: int, keep: Row -> bool) returns (lines: seq<Line>)
    ensures lines == Report(Filtered(Concat(chunks), keep), how, columns, limit)
  {
    ghost var rows := Filtered(Concat(chunks), keep);
    var width := Width(how, columns);
    var t := Accumulate(chunks, how, columns, keep);
    assert t.order == Groups(rows);
    hide TotalsOf, Groups, LineOf, AllFit, LinesOf, Filtered, Concat, Ranked;
    lines := [];
    var i := 0;
    while i < |t.order|
      invariant 0 <= i <= |t.order| && lines == LinesOf(rows, how, width)[..i]
    {
      LinesStep(rows, how, width, i);
      lines := lines + [LineOf(t, t.order[i], how)];
      i := i + 1;
    }
    assert lines == LinesOf(rows, how, width);
    if (how == Count) == (columns == 0) {
      lines := Ranked(lines);
    }
    var top := if limit < 1 then 1 else limit;
    if |lines| > top {
      lines := lines[..top];
    }
  }
}
