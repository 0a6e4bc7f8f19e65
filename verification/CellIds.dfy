/**
 * Cell ids: `_parse_cell_id` of core/write_node.py and the frame prefix of a column.
 * A cell id names a column and a row; the lock manager keys on the id, the write
 * node on the column and the row.
 */
module CellIds {
  import opened Wrappers
  import opened Digits

  /** A column of the shared store; `Framed` is the text "<frame>::<name>". */
  datatype Column = Plain(name: string) | Framed(frame: string, name: string)

  /** A cell, or one of the bulk markers, which write nothing. */
  datatype CellRef = Cell(col: Column, row: nat) | Marker

  const BULK_INIT := "::__bulk_init__"
  const BULK_CHUNK := "::__bulk_chunk__"

  predicate EndsWith(s: string, suffix: string) {
    |s| >= |suffix| && s[|s| - |suffix|..] == suffix
  }

  /** The index of the last underscore, or |s|. */
  function LastUnderscore(s: string): (k: nat)
    ensures k <= |s|
    ensures k < |s| ==> s[k] == '_' && '_' !in s[k + 1..]
    ensures k == |s| ==> '_' !in s
  {
    if s == [] then 0
    else if s[|s| - 1] == '_' then |s| - 1
    else
      var k := LastUnderscore(s[..|s| - 1]);
      if k == |s| - 1 then |s| else
        assert s[k + 1..] == s[..|s| - 1][k + 1..] + [s[|s| - 1]];
        k
  }

  /** The index of the first "::", or |s|. */
  function FirstSeparator(s: string): (k: nat)
    ensures k < |s| ==> k + 2 <= |s| && s[k..k + 2] == "::"
    ensures k <= |s|
  {
    if |s| < 2 then |s|
    else if s[..2] == "::" then 0
    else
      var k := FirstSeparator(s[1..]);
      if k == |s| - 1 then |s| else k + 1
  }

  function ParseColumn(s: string): Column {
    var k := FirstSeparator(s);
    if k == |s| then Plain(s) else Framed(s[..k], s[k + 2..])
  }

  function ColumnText(c: Column): string {
    match c
    case Plain(name) => name
    case Framed(frame, name) => frame + "::" + name
  }

  /** None where the source raises ValueError. */
  function Parse(id: string): Option<CellRef> {
    if EndsWith(id, BULK_INIT) || EndsWith(id, BULK_CHUNK) then Some(Marker)
    else
      var k := LastUnderscore(id);
      if k == |id| then None
      else if k == 0 || !AllDigits(id[k + 1..]) then None
      else Some(Cell(ParseColumn(id[..k]), DigitsValue(id[k + 1..])))
  }

  function Print(col: Column, row: nat): string { ColumnText(col) + "_" + Decimal(row) }

  /** The id is the one its cell prints: no zero in front of the row number. */
  predicate Canonical(id: string) {
    var ref := Parse(id);
    ref.Some? && ref.value.Cell? && Print(ref.value.col, ref.value.row) == id
  }

  lemma ColumnTextParsed(s: string)
    ensures ColumnText(ParseColumn(s)) == s
  {
    hide FirstSeparator;
    var k := FirstSeparator(s);
    if k < |s| {
      assert s == s[..k] + s[k..k + 2] + s[k + 2..];
    }
  }

  lemma {:induction false} DecimalHasNoSpareZero(s: string)
    requires AllDigits(s)
    ensures Decimal(DigitsValue(s)) == s <==> |s| == 1 || s[0] != '0'
    decreases |s|
  {
    var n := |s| - 1;
    assert s == s[..n] + [s[n]];
    if n == 0 {
      assert s[..0] == [];
    } else {
      var v := DigitsValue(s[..n]);
      DecimalHasNoSpareZero(s[..n]);
      assert s[..n][0] == s[0];
      if v > 0 {
        assert DigitsValue(s) / 10 == v && DigitsValue(s) % 10 == s[n] as int - '0' as int;
        assert Decimal(DigitsValue(s)) == Decimal(v) + [s[n]];
      }
    }
  }

  lemma SameTail(id: string, k: nat, text: string)
    requires k < |id| && id[k] == '_'
    ensures id[..k] + "_" + text == id <==> text == id[k + 1..]
  {
    assert id == id[..k] + "_" + id[k + 1..];
    assert (id[..k] + "_" + text)[k + 1..] == text;
  }

  /** Among the ids that name a cell, the canonical ones are those with no spare zero. */
  lemma CanonicalIffNoSpareZero(id: string)
    requires Parse(id).Some? && Parse(id).value.Cell?
    ensures var row := id[LastUnderscore(id) + 1..];
            Canonical(id) <==> |row| == 1 || row[0] != '0'
  {
    hide Decimal, DigitsValue, ParseColumn, ColumnText, LastUnderscore;
    var k := LastUnderscore(id);
    ColumnTextParsed(id[..k]);
    DecimalHasNoSpareZero(id[k + 1..]);
    SameTail(id, k, Decimal(DigitsValue(id[k + 1..])));
  }

  // ------------------------------------------------------------- printing and parsing

  /** There is a "::" at position i. */
  predicate SeparatorAt(s: string, i: nat) { i + 2 <= |s| && s[i] == ':' && s[i + 1] == ':' }

  lemma {:induction false} FirstSeparatorIsFirst(s: string)
    ensures FirstSeparator(s) < |s| ==> SeparatorAt(s, FirstSeparator(s))
    ensures forall i: nat :: i < FirstSeparator(s) ==> !SeparatorAt(s, i)
  {
    assert |s| >= 2 ==> (s[..2] == "::" <==> SeparatorAt(s, 0));
    if |s| >= 2 && s[..2] != "::" {
      FirstSeparatorIsFirst(s[1..]);
      forall i: nat | 0 < i < FirstSeparator(s)
        ensures !SeparatorAt(s, i)
      {
        assert SeparatorAt(s, i) ==> SeparatorAt(s[1..], i - 1);
      }
      assert FirstSeparator(s) < |s| ==> SeparatorAt(s[1..], FirstSeparator(s) - 1);
    }
  }

  /**
   * The texts that name the column: its frame must not run into the separator, and a
   * column without a frame needs a name without one.
   */
  predicate Nameable(c: Column) {
    match c
    case Plain(name) => name != "" && forall i: nat :: i < |name| ==> !SeparatorAt(name, i)
    case Framed(frame, name) => forall i: nat :: i < |frame| ==> !SeparatorAt(frame + ":", i)
  }

  lemma ColumnReadsIff(c: Column)
    requires c != Plain("")
    ensures ParseColumn(ColumnText(c)) == c <==> Nameable(c)
  {
    var s := ColumnText(c);
    FirstSeparatorIsFirst(s);
    hide FirstSeparator;
    var k := FirstSeparator(s);
    match c
    case Plain(name) =>
      assert k == |s| <==> forall i: nat :: i < |name| ==> !SeparatorAt(name, i);
    case Framed(frame, name) =>
      assert s == frame + "::" + name;
      assert SeparatorAt(s, |frame|);
      forall i: nat | i < |frame|
        ensures SeparatorAt(s, i) <==> SeparatorAt(frame + ":", i)
      {
      }
      if k == |frame| {
        assert s[..k] == frame && s[k + 2..] == name;
      }
  }

  lemma {:induction false} LastUnderscoreAt(s: string, k: nat)
    requires k < |s| && s[k] == '_' && '_' !in s[k + 1..]
    ensures LastUnderscore(s) == k
    decreases |s|
  {
    var n := |s| - 1;
    if k < n {
      assert s[n] == s[k + 1..][n - k - 1];
      assert s[..n][k + 1..] == s[k + 1..][..n - k - 1];
      LastUnderscoreAt(s[..n], k);
    }
  }

  /** A text before the last underscore and digits behind it. */
  lemma ParseReads(text: string, digits: string)
    requires text != "" && AllDigits(digits)
    ensures Parse(text + "_" + digits) == Some(Cell(ParseColumn(text), DigitsValue(digits)))
  {
    var id := text + "_" + digits;
    assert id[|text| + 1..] == digits && id[..|text|] == text;
    LastUnderscoreAt(id, |text|);
    assert IsDigit(digits[|digits| - 1]) && id[|id| - 1] == digits[|digits| - 1];
    NotMarked(id);
  }

  lemma NotMarked(id: string)
    requires id != "" && id[|id| - 1] != '_'
    ensures !EndsWith(id, BULK_INIT) && !EndsWith(id, BULK_CHUNK)
  {
    var n := |id|;
    if n >= |BULK_INIT| {
      assert id[n - |BULK_INIT|..][|BULK_INIT| - 1] == id[n - 1] != BULK_INIT[|BULK_INIT| - 1];
    }
    if n >= |BULK_CHUNK| {
      assert id[n - |BULK_CHUNK|..][|BULK_CHUNK| - 1] == id[n - 1] != BULK_CHUNK[|BULK_CHUNK| - 1];
    }
  }

  /** A cell is read back from its own text if and only if its column can be named. */
  lemma PrintedReadsIff(c: Column, row: nat)
    ensures Parse(Print(c, row)) == Some(Cell(c, row)) <==> Nameable(c)
  {
    DecimalReads(row);
    if c == Plain("") {
      var id := Print(c, row);
      var k := LastUnderscore(id);
      assert id == "_" + Decimal(row) && id[1..] == Decimal(row);
      LastUnderscoreAt(id, 0);
    } else {
      hide Decimal, DigitsValue, ParseColumn, Parse, Nameable;
      ColumnReadsIff(c);
      ParseReads(ColumnText(c), Decimal(row));
    }
  }

  /** A text is refused if and only if it is no marker and has no digits behind an underscore that is not its first character. */
  lemma RefusedIff(id: string)
    ensures Parse(id) == None <==>
            && !EndsWith(id, BULK_INIT) && !EndsWith(id, BULK_CHUNK)
            && forall k :: 0 < k < |id| && id[k] == '_' ==> !AllDigits(id[k + 1..])
  {
    hide DigitsValue, ParseColumn, EndsWith;
    forall k | 0 < k < |id| && id[k] == '_' && AllDigits(id[k + 1..])
      ensures LastUnderscore(id) == k
    {
      LastUnderscoreAt(id, k);
    }
  }

  /** Two ids of one cell: their locks do not exclude each other. */
  lemma SpareZeroAliases()
    ensures Parse("a_1") == Parse("a_01") == Some(Cell(Plain("a"), 1))
    ensures Canonical("a_1") && !Canonical("a_01")
  {
    assert "a_1"[..1] == "a" && "a_1"[2..] == "1" && "a_01"[..1] == "a" && "a_01"[2..] == "01";
    assert LastUnderscore("a_1") == 1;
    assert LastUnderscore("a_01") == 1;
    assert "1"[..0] == [] && "01"[..1] == "0" && "0"[..0] == [];
    assert DigitsValue("1") == 1;
    assert DigitsValue("0") == 0;
    assert DigitsValue("01") == 1;
    assert Print(Plain("a"), 1) == "a_1";
  }
}
