/**
 * Operation ids "<epoch>-<sequence, zero-padded to 20 digits>" (core/op_log.py:120-129,
 * 153-156): printing, parsing, and their order as text.
 */
module OpIds {
  import opened Wrappers
  import opened Text
  import opened Digits

  const SEQ_WIDTH := 20

  function Print(epoch: nat, seqNo: nat): string { Decimal(epoch) + "-" + Padded(seqNo, SEQ_WIDTH) }

  /** The index of the first '-', or |s|. */
  function FirstDash(s: string): (k: nat)
    ensures k <= |s| && '-' !in s[..k]
    ensures k < |s| ==> s[k] == '-'
  {
    if s == [] || s[0] == '-' then 0
    else
      assert s[..1 + FirstDash(s[1..])] == [s[0]] + s[1..][..FirstDash(s[1..])];
      1 + FirstDash(s[1..])
  }

  /** `parse_op_id`. */
  function Parse(id: string): Option<(nat, nat)> {
    var k := FirstDash(id);
    if k == |id| then None
    else if AllDigits(id[..k]) && AllDigits(id[k + 1..]) then Some((DigitsValue(id[..k]), DigitsValue(id[k + 1..])))
    else None
  }

  lemma {:induction false} FirstDashAfter(a: string, b: string)
    requires '-' !in a
    ensures FirstDash(a + "-" + b) == |a|
  {
    if a == [] {
      assert a + "-" + b == "-" + b;
    } else {
      assert (a + "-" + b)[1..] == a[1..] + "-" + b;
      FirstDashAfter(a[1..], b);
    }
  }

  /** Parsing a printed id returns its epoch and its sequence number, for all of them. */
  lemma ParsePrinted(epoch: nat, seqNo: nat)
    ensures Parse(Print(epoch, seqNo)) == Some((epoch, seqNo))
  {
    var a, b := Decimal(epoch), Padded(seqNo, SEQ_WIDTH);
    DecimalReads(epoch);
    PaddedReads(seqNo, SEQ_WIDTH);
    FirstDashAfter(a, b);
    assert (a + "-" + b)[..|a|] == a && (a + "-" + b)[|a| + 1..] == b;
  }

  /** An id is read if and only if there are digits before and after its first dash. */
  lemma ParseIff(id: string)
    ensures Parse(id).Some? <==> exists k :: 0 < k < |id| && id[k] == '-' && '-' !in id[..k] && AllDigits(id[..k]) && AllDigits(id[k + 1..])
  {
    hide DigitsValue;
    var k := FirstDash(id);
    forall j | 0 < j < |id| && id[j] == '-' && '-' !in id[..j]
      ensures j == k
    {
      assert id == id[..j] + "-" + id[j + 1..];
      FirstDashAfter(id[..j], id[j + 1..]);
    }
  }

  /** An id is the digits of the epoch, a dash, and 20 digits of sequence number. */
  lemma PrintShape(epoch: nat, seqNo: nat)
    requires seqNo < 100000000000000000000
    ensures var n := |Decimal(epoch)|;
            && |Print(epoch, seqNo)| == n + 21 && Print(epoch, seqNo)[n] == '-'
            && AllDigits(Print(epoch, seqNo)[..n]) && AllDigits(Print(epoch, seqNo)[n + 1..])
  {
    TwentyDigits();
    PaddedLength(seqNo, SEQ_WIDTH);
    PaddedReads(seqNo, SEQ_WIDTH);
    DecimalReads(epoch);
    hide Power, Decimal, Padded, AllDigits, DigitsValue;
    var a, b := Decimal(epoch), Padded(seqNo, SEQ_WIDTH);
    assert (a + "-" + b)[..|a|] == a && (a + "-" + b)[|a| + 1..] == b;
  }

  predicate Later(a: (nat, nat), b: (nat, nat)) { a.0 < b.0 || (a.0 == b.0 && a.1 < b.1) }

  /** A dash sorts before every digit, so printed epochs compare as their digits do. */
  lemma {:induction false} LessWithDash(a: string, b: string, x: string, y: string)
    requires (forall c :: c in a ==> IsDigit(c)) && (forall c :: c in b ==> IsDigit(c))
    ensures Less(a + "-" + x, b + "-" + y) <==> Less(a, b) || (a == b && Less(x, y))
  {
    assert a == [] ==> a + "-" + x == "-" + x;
    assert b == [] ==> b + "-" + y == "-" + y;
    assert ("-" + x)[1..] == x && ("-" + y)[1..] == y;
    if a != [] && b != [] {
      assert (a + "-" + x)[1..] == a[1..] + "-" + x && (b + "-" + y)[1..] == b[1..] + "-" + y;
      assert a == [a[0]] + a[1..] && b == [b[0]] + b[1..];
      LessWithDash(a[1..], b[1..], x, y);
    } else if a != [] {
      assert (a + "-" + x)[0] == a[0] && IsDigit(a[0]);
    } else if b != [] {
      assert (b + "-" + y)[0] == b[0] && IsDigit(b[0]);
    }
  }

  lemma DecimalIsInjective(a: nat, b: nat)
    ensures Decimal(a) == Decimal(b) <==> a == b
  {
    DecimalReads(a);
    DecimalReads(b);
  }

  /** The text order of printed ids, for sequence numbers of at most 20 digits. */
  lemma PrintedOrder(e: nat, s: nat, f: nat, t: nat)
    requires s < Power(SEQ_WIDTH) && t < Power(SEQ_WIDTH)
    ensures Less(Print(e, s), Print(f, t)) <==> Less(Decimal(e), Decimal(f)) || (e == f && s < t)
  {
    DecimalReads(e);
    DecimalReads(f);
    DecimalIsInjective(e, f);
    PaddedReads(s, SEQ_WIDTH);
    PaddedReads(t, SEQ_WIDTH);
    PaddedLength(s, SEQ_WIDTH);
    PaddedLength(t, SEQ_WIDTH);
    SameLengthOrder(Padded(s, SEQ_WIDTH), Padded(t, SEQ_WIDTH));
    LessWithDash(Decimal(e), Decimal(f), Padded(s, SEQ_WIDTH), Padded(t, SEQ_WIDTH));
  }

  /**
   * Text order is numeric order, whatever the sequence numbers, if and only if the
   * smaller epoch, filled up with zeros to the digits of the larger, is not above it.
   */
  lemma OrderIsNumericIff(e: nat, s: nat, f: nat, t: nat)
    requires s < Power(SEQ_WIDTH) && t < Power(SEQ_WIDTH) && e <= f
    ensures |Decimal(e)| <= |Decimal(f)|
    ensures (Less(Print(e, s), Print(f, t)) <==> Later((e, s), (f, t)))
            <==> e * Power(|Decimal(f)| - |Decimal(e)|) <= f
    ensures (Less(Print(f, t), Print(e, s)) <==> Later((f, t), (e, s)))
            <==> e * Power(|Decimal(f)| - |Decimal(e)|) <= f
  {
    hide Power, Decimal, Print;
    PrintedOrder(e, s, f, t);
    PrintedOrder(f, t, e, s);
    DecimalIsInjective(e, f);
    LessIsStrict(Decimal(e), Decimal(f));
    LessIsTotal(Decimal(e), Decimal(f));
    if e < f {
      DecimalOrder(e, f);
    } else {
      NoPower(e);
    }
  }

  lemma NoPower(e: nat)
    ensures e * Power(0) == e
  {
  }

  /** In particular epochs with equally many digits sort as they should. */
  lemma EqualDigitsSort(e: nat, s: nat, f: nat, t: nat)
    requires s < Power(SEQ_WIDTH) && t < Power(SEQ_WIDTH) && |Decimal(e)| == |Decimal(f)|
    ensures Less(Print(e, s), Print(f, t)) <==> Later((e, s), (f, t))
  {
    hide Power, Decimal, Print;
    if e <= f {
      NoPower(e);
      OrderIsNumericIff(e, s, f, t);
    } else {
      NoPower(f);
      OrderIsNumericIff(f, t, e, s);
    }
  }

  /** Epochs 9 and 10 do not: everything of epoch 10 sorts before epoch 9. */
  lemma NineSortsAfterTen(s: nat, t: nat)
    requires s < Power(SEQ_WIDTH) && t < Power(SEQ_WIDTH)
    ensures Less(Print(10, s), Print(9, t)) && Later((9, t), (10, s))
  {
    assert Decimal(9) == "9";
    assert Decimal(10) == Decimal(1) + [DigitChar(0)] == "10";
    assert Less("10", "9");
    PrintedOrder(10, s, 9, t);
  }
}
