/**
 * What the result of an aggregation says about the rows of the frame
 * (core/dataframe.py:1011-1059), row by row and without the folds that compute it.
 */
module AggregateMeaning {
  import opened Sequences
  import opened Wrappers
  import opened Aggregation

  /** Row x is one of the group's rows that pass the filter. */
  predicate Belongs(x: Row, key: Key, keep: Row -> bool) { keep(x) && x.key == key }

  function ValueOf(x: Row, c: nat): Option<real> { if c < |x.vals| then x.vals[c] else None }

  /** How many rows of the group there are. */
  function RowCount(rows: seq<Row>, key: Key, keep: Row -> bool): nat
    decreases |rows|
  {
    if rows == [] then 0
    else RowCount(rows[..|rows| - 1], key, keep) + if Belongs(rows[|rows| - 1], key, keep) then 1 else 0
  }

  /** The sum of the group's values in column c, as far as there are any. */
  function Total(rows: seq<Row>, key: Key, keep: Row -> bool, c: nat): real
    decreases |rows|
  {
    if rows == [] then 0.0
    else
      var last := rows[|rows| - 1];
      var v := ValueOf(last, c);
      Total(rows[..|rows| - 1], key, keep, c) + if Belongs(last, key, keep) && v.Some? then v.value else 0.0
  }

  /** Some row of the group has the value in column c. */
  predicate Occurs(rows: seq<Row>, key: Key, keep: Row -> bool, c: nat, v: real) {
    exists i :: 0 <= i < |rows| && Belongs(rows[i], key, keep) && ValueOf(rows[i], c) == Some(v)
  }

  /** The smallest or greatest value of the group, or the infinity it starts from. */
  ghost predicate IsExtreme(rows: seq<Row>, key: Key, keep: Row -> bool, c: nat, least: bool, a: Num) {
    if forall v :: !Occurs(rows, key, keep, c, v) then a == if least then PosInf else NegInf
    else
      && a.Fin? && Occurs(rows, key, keep, c, a.r)
      && forall v :: Occurs(rows, key, keep, c, v) ==> if least then a.r <= v else v <= a.r
  }

  /** What a result line says: its group has rows, and these are its numbers. */
  ghost predicate Says(l: Line, rows: seq<Row>, keep: Row -> bool, how: How, columns: nat) {
    var n := RowCount(rows, l.key, keep);
    && n > 0
    && match how
       case Count => l.vals == [Fin(n as real)]
       case Sum => |l.vals| == columns && forall c :: 0 <= c < columns ==> l.vals[c] == Fin(Total(rows, l.key, keep, c))
       case Mean => |l.vals| == columns && forall c :: 0 <= c < columns ==> l.vals[c] == Fin(Total(rows, l.key, keep, c) / n as real)
       case Min => |l.vals| == columns && forall c :: 0 <= c < columns ==> IsExtreme(rows, l.key, keep, c, true, l.vals[c])
       case Max => |l.vals| == columns && forall c :: 0 <= c < columns ==> IsExtreme(rows, l.key, keep, c, false, l.vals[c])
  }

  // ------------------------------------------------------------ one group, one column

  /** The group's rows, with one more row looked at. */
  lemma GroupSnoc(rows: seq<Row>, key: Key, keep: Row -> bool)
    requires rows != []
    ensures var init, last := rows[..|rows| - 1], rows[|rows| - 1];
            Of(Filtered(rows, keep), key) ==
            Of(Filtered(init, keep), key) + if Belongs(last, key, keep) then [last] else []
  {
    var init, last := rows[..|rows| - 1], rows[|rows| - 1];
    OfConcat(Filtered(init, keep), if keep(last) then [last] else [], key);
    assert [last][..0] == [] && [] + [last] == [last];
  }

  lemma {:induction false} RowCountIs(rows: seq<Row>, key: Key, keep: Row -> bool)
    ensures |Of(Filtered(rows, keep), key)| == RowCount(rows, key, keep)
    decreases |rows|
  {
    hide Filtered, Of;
    if rows != [] {
      RowCountIs(rows[..|rows| - 1], key, keep);
      GroupSnoc(rows, key, keep);
    } else {
      NoRows(key, keep);
    }
  }

  lemma NoRows(key: Key, keep: Row -> bool)
    ensures Of(Filtered([], keep), key) == []
  {
  }

  /** The group's column, with one more row looked at. */
  lemma ColumnSnoc(rows: seq<Row>, key: Key, keep: Row -> bool, c: nat)
    requires rows != []
    ensures var init, last := rows[..|rows| - 1], rows[|rows| - 1];
            Column(Of(Filtered(rows, keep), key), c) ==
            Column(Of(Filtered(init, keep), key), c) + if Belongs(last, key, keep) then [ValueOf(last, c)] else []
  {
    var init, last := rows[..|rows| - 1], rows[|rows| - 1];
    GroupSnoc(rows, key, keep);
    hide Of, Filtered;
    if Belongs(last, key, keep) {
      ColumnConcat(Of(Filtered(init, keep), key), [last], c);
      assert Column([last], c) == [ValueOf(last, c)];
    }
  }

  lemma FoldSnoc(how: How, vs: seq<Option<real>>, v: Option<real>)
    requires how == Sum || how == Mean
    ensures Fold(how, vs + [v]) == Fin(Fold(how, vs).r + if v.Some? then v.value else 0.0)
  {
    assert (vs + [v])[..|vs|] == vs;
  }

  lemma {:induction false} TotalIs(rows: seq<Row>, key: Key, keep: Row -> bool, c: nat, how: How)
    requires how == Sum || how == Mean
    ensures Fold(how, Column(Of(Filtered(rows, keep), key), c)) == Fin(Total(rows, key, keep, c))
    decreases |rows|
  {
    hide Filtered, Of, Column;
    if rows != [] {
      var init := rows[..|rows| - 1];
      TotalIs(init, key, keep, c, how);
      ColumnSnoc(rows, key, keep, c);
      var vs := Column(Of(Filtered(init, keep), key), c);
      FoldSnoc(how, vs, ValueOf(rows[|rows| - 1], c));
      assert vs + [] == vs;
    } else {
      NoRows(key, keep);
      assert Column([], c) == [] by {
        NoColumn(c);
      }
    }
  }

  lemma NoColumn(c: nat)
    ensures Column([], c) == []
  {
  }

  lemma {:induction false} ColumnHas(rows: seq<Row>, key: Key, keep: Row -> bool, c: nat, v: real)
    ensures Some(v) in Column(Of(Filtered(rows, keep), key), c) <==> Occurs(rows, key, keep, c, v)
    decreases |rows|
  {
    hide Filtered, Of, Column;
    if rows != [] {
      var n := |rows| - 1;
      var init := rows[..n];
      ColumnHas(init, key, keep, c, v);
      ColumnSnoc(rows, key, keep, c);
      assert forall i :: 0 <= i < n ==> init[i] == rows[i];
      assert Occurs(rows, key, keep, c, v) <==>
             Occurs(init, key, keep, c, v) || (Belongs(rows[n], key, keep) && ValueOf(rows[n], c) == Some(v));
    } else {
      NoRows(key, keep);
      NoColumn(c);
    }
  }

  lemma ExtremeIs(rows: seq<Row>, key: Key, keep: Row -> bool, c: nat, how: How)
    requires how == Min || how == Max
    ensures IsExtreme(rows, key, keep, c, how == Min, Fold(how, Column(Of(Filtered(rows, keep), key), c)))
  {
    var vs := Column(Of(Filtered(rows, keep), key), c);
    var a := Fold(how, vs);
    FoldIsExtreme(how, vs);
    hide Filtered, Of, Column, Fold, Occurs;
    forall v
      ensures Some(v) in vs <==> Occurs(rows, key, keep, c, v)
    {
      ColumnHas(rows, key, keep, c, v);
    }
    if a == Start(how) {
      forall v
        ensures !Occurs(rows, key, keep, c, v)
      {
        assert Some(v) !in vs;
      }
    } else {
      forall v | Occurs(rows, key, keep, c, v)
        ensures if how == Min then a.r <= v else v <= a.r
      {
        var i :| 0 <= i < |vs| && vs[i] == Some(v);
      }
    }
  }

  // ------------------------------------------------------------------ the result lines

  lemma LineSays(rows: seq<Row>, keep: Row -> bool, how: How, columns: nat, i: nat)
    requires i < |Groups(Filtered(rows, keep))|
    ensures var l := LinesOf(Filtered(rows, keep), how, Width(how, columns))[i];
            Says(l, rows, keep, how, columns) && l.key == Groups(Filtered(rows, keep))[i]
  {
    var kept := Filtered(rows, keep);
    var key, width := Groups(kept)[i], Width(how, columns);
    LineAt(kept, how, width, i);
    RowCountIs(rows, key, keep);
    hide Filtered, Of, Column, Fold, Groups, LinesOf, RowCount, IsExtreme;
    forall c | 0 <= c < width
      ensures how == Sum || how == Mean ==> Fold(how, Column(Of(kept, key), c)) == Fin(Total(rows, key, keep, c))
      ensures how == Min || how == Max ==> IsExtreme(rows, key, keep, c, how == Min, Fold(how, Column(Of(kept, key), c)))
    {
      if how == Sum || how == Mean {
        TotalIs(rows, key, keep, c, how);
      } else if how == Min || how == Max {
        ExtremeIs(rows, key, keep, c, how);
      }
    }
  }

  lemma {:induction false} RankedHas(s: seq<Line>)
    ensures |Ranked(s)| == |s| && forall l :: l in Ranked(s) <==> l in s
    decreases |s|
  {
    if s != [] {
      var k := |s| - 1;
      RankedHas(s[..k]);
      InsertHas(s[k], Ranked(s[..k]));
      InsertLength(s[k], Ranked(s[..k]));
      assert s == s[..k] + [s[k]];
    }
  }

  lemma {:induction false} InsertLength(l: Line, s: seq<Line>)
    ensures |Insert(l, s)| == |s| + 1
  {
    if s != [] && Leq(Rank(l), Rank(s[0])) {
      InsertLength(l, s[1..]);
    }
  }

  /** Every line of every result says what is true of the frame. */
  lemma ReportSays(rows: seq<Row>, keep: Row -> bool, how: How, columns: nat, limit: int, l: Line)
    requires l in Report(Filtered(rows, keep), how, columns, limit)
    ensures Says(l, rows, keep, how, columns)
  {
    var lines := LinesOf(Filtered(rows, keep), how, Width(how, columns));
    RankedHas(lines);
    hide LinesOf, Says, Ranked, Groups;
    assert l in lines;
    var i :| 0 <= i < |lines| && lines[i] == l;
    LineSays(rows, keep, how, columns, i);
  }

  /** The whole result, before it is cut, has a line for every group that has rows. */
  lemma ReportIsComplete(rows: seq<Row>, keep: Row -> bool, how: How, columns: nat, limit: int, key: Key)
    requires RowCount(rows, key, keep) > 0 && |Groups(Filtered(rows, keep))| <= limit
    ensures exists l :: l in Report(Filtered(rows, keep), how, columns, limit) && l.key == key
  {
    var kept := Filtered(rows, keep);
    var lines := LinesOf(kept, how, Width(how, columns));
    RowCountIs(rows, key, keep);
    GroupsHave(kept, key);
    RankedHas(lines);
    hide LinesOf, Ranked, Groups, Filtered;
    var i :| 0 <= i < |Groups(kept)| && Groups(kept)[i] == key;
    LineSays(rows, keep, how, columns, i);
    assert lines[i] in lines;
  }

  /** A smaller limit cuts off the end; the result is as long as the limit allows, and never empty for it. */
  lemma ReportIsCut(rows: seq<Row>, how: How, columns: nat, limit: int, more: int)
    requires limit <= more
    ensures Report(rows, how, columns, limit) <= Report(rows, how, columns, more)
    ensures |Report(rows, how, columns, limit)| ==
            if |Groups(rows)| <= (if limit < 1 then 1 else limit) then |Groups(rows)| else if limit < 1 then 1 else limit
  {
    RankedHas(LinesOf(rows, how, Width(how, columns)));
    hide LinesOf, Ranked, Groups;
  }

  /** Counts without value columns, and other results with them, come in descending order. */
  lemma ReportDescends(rows: seq<Row>, how: How, columns: nat, limit: int)
    requires if how == Count then columns == 0 else columns > 0
    ensures Descending(Report(rows, how, columns, limit))
  {
    RankedIsStable(LinesOf(rows, how, Width(how, columns)), Fin(0.0));
    hide LinesOf, Ranked;
  }

  /** The groups come in the order of their first rows, each once. */
  lemma {:induction false} GroupsByFirstRow(rows: seq<Row>) returns (at: seq<nat>)
    ensures |at| == |Groups(rows)|
    ensures forall i :: 0 <= i < |at| ==> at[i] < |rows| && rows[at[i]].key == Groups(rows)[i]
    ensures forall i, j :: 0 <= i < |at| && 0 <= j < at[i] ==> rows[j].key != Groups(rows)[i]
    ensures forall i, j :: 0 <= i < j < |at| ==> at[i] < at[j]
    ensures forall k :: 0 <= k < |rows| ==> rows[k].key in Groups(rows)
    decreases |rows|
  {
    if rows == [] {
      return [];
    }
    var n := |rows| - 1;
    at := GroupsByFirstRow(rows[..n]);
    var keys := Groups(rows[..n]);
    hide Groups;
    assert Groups(rows) == WithKey(keys, rows[n].key) by {
      GroupsSnoc(rows);
    }
    assert forall k :: 0 <= k < n ==> rows[..n][k] == rows[k];
    if rows[n].key !in keys {
      at := at + [n];
    }
  }

  lemma GroupsSnoc(rows: seq<Row>)
    requires rows != []
    ensures Groups(rows) == WithKey(Groups(rows[..|rows| - 1]), rows[|rows| - 1].key)
  {
  }
}
