/** Decimal text of natural numbers: `str(n)`, zero padding, `isdigit` and `int`. */
module Digits {
  import opened Text

  predicate IsDigit(c: char) { '0' <= c <= '9' }

  /** Python's `isdigit` for ASCII text: non-empty and digits only. */
  predicate AllDigits(s: string) { s != [] && forall i :: 0 <= i < |s| ==> IsDigit(s[i]) }

  function DigitChar(d: nat): char
    requires d < 10
  {
    ('0' as int + d) as char
  }

  function Decimal(n: nat): string {
    if n < 10 then [DigitChar(n)] else Decimal(n / 10) + [DigitChar(n % 10)]
  }

  function DigitsValue(s: string): nat
    requires forall i :: 0 <= i < |s| ==> IsDigit(s[i])
  {
    if s == [] then 0
    else
      var last := s[|s| - 1];
      assert IsDigit(last);
      DigitsValue(s[..|s| - 1]) * 10 + (last as int - '0' as int)
  }

  function Zeros(k: nat): string { if k == 0 then [] else ['0'] + Zeros(k - 1) }

  /** `f"{n:0{width}d}"`. */
  function Padded(n: nat, width: nat): string {
    var d := Decimal(n);
    if |d| >= width then d else Zeros(width - |d|) + d
  }

  function Power(k: nat): nat { if k == 0 then 1 else 10 * Power(k - 1) }

  lemma {:induction false} DecimalReads(n: nat)
    ensures AllDigits(Decimal(n)) && DigitsValue(Decimal(n)) == n
  {
    var s := Decimal(n);
    if n < 10 {
      assert s[..0] == [];
    } else {
      DecimalReads(n / 10);
      assert s[..|s| - 1] == Decimal(n / 10);
    }
  }

  lemma {:induction false} ZerosRead(k: nat, s: string)
    requires AllDigits(s)
    ensures |Zeros(k)| == k && AllDigits(Zeros(k) + s) && DigitsValue(Zeros(k) + s) == DigitsValue(s)
  {
    if k == 0 {
      assert Zeros(0) + s == s;
    } else {
      ZerosRead(k - 1, s);
      assert Zeros(k) + s == ['0'] + (Zeros(k - 1) + s);
      LeadingZero(Zeros(k - 1) + s);
    }
  }

  lemma {:induction false} LeadingZero(s: string)
    requires AllDigits(s)
    ensures AllDigits(['0'] + s) && DigitsValue(['0'] + s) == DigitsValue(s)
    decreases |s|
  {
    var n := |s| - 1;
    assert (['0'] + s)[..n + 1] == ['0'] + s[..n];
    if n > 0 {
      LeadingZero(s[..n]);
    } else {
      assert s[..0] == [] && ['0'] + s[..0] == ['0'] && ['0'][..0] == [];
    }
  }

  lemma PaddedReads(n: nat, width: nat)
    ensures AllDigits(Padded(n, width)) && DigitsValue(Padded(n, width)) == n
  {
    hide Decimal, DigitsValue, AllDigits, Zeros;
    DecimalReads(n);
    if |Decimal(n)| < width {
      ZerosRead(width - |Decimal(n)|, Decimal(n));
    }
  }

  lemma {:induction false} DecimalLength(n: nat, k: nat)
    requires k > 0
    ensures |Decimal(n)| <= k <==> n < Power(k)
  {
    if n >= 10 {
      if k > 1 {
        DecimalLength(n / 10, k - 1);
      } else {
        assert Power(1) == 10 * Power(0);
      }
    } else {
      assert Power(k) == 10 * Power(k - 1);
      PowerPositive(k - 1);
    }
  }

  lemma {:induction false} PowerPositive(k: nat)
    ensures Power(k) >= 1
  {
    if k > 0 {
      PowerPositive(k - 1);
    }
  }

  lemma {:induction false} PowerAdds(a: nat, b: nat)
    ensures Power(a + b) == Power(a) * Power(b)
  {
    if a > 0 {
      PowerAdds(a - 1, b);
      assert Power(a + b) == 10 * Power(a - 1 + b);
      assert 10 * (Power(a - 1) * Power(b)) == 10 * Power(a - 1) * Power(b);
    }
  }

  lemma TwentyDigits()
    ensures Power(20) == 100000000000000000000
  {
    assert Power(2) == 100;
    hide Power;
    PowerAdds(2, 2);
    PowerAdds(4, 4);
    PowerAdds(8, 8);
    PowerAdds(16, 4);
  }

  lemma PaddedLength(n: nat, width: nat)
    requires width > 0 && n < Power(width)
    ensures |Padded(n, width)| == width
  {
    hide Power, DigitsValue, Decimal, Zeros, AllDigits;
    DecimalLength(n, width);
    DecimalReads(n);
    ZerosRead(width - |Decimal(n)|, Decimal(n));
  }

  /** Equally long digit strings are ordered as text as they are as numbers. */
  lemma {:induction false} SameLengthOrder(a: string, b: string)
    requires AllDigits(a) && AllDigits(b) && |a| == |b|
    ensures Less(a, b) <==> DigitsValue(a) < DigitsValue(b)
    ensures a == b <==> DigitsValue(a) == DigitsValue(b)
    decreases |a|
  {
    var n := |a| - 1;
    LessSnoc(a[..n], b[..n], a[n], b[n]);
    assert a == a[..n] + [a[n]] && b == b[..n] + [b[n]];
    if n > 0 {
      SameLengthOrder(a[..n], b[..n]);
    } else {
      assert a[..0] == [] && b[..0] == [];
    }
  }

  /** Text order of equally long strings looks at the last character last. */
  lemma {:induction false} LessSnoc(a: string, b: string, x: char, y: char)
    requires |a| == |b|
    ensures Less(a + [x], b + [y]) <==> Less(a, b) || (a == b && x < y)
  {
    if a == [] {
      assert a + [x] == [x] && b + [y] == [y];
      assert [x][1..] == [] && [y][1..] == [];
    } else {
      LessSnoc(a[1..], b[1..], x, y);
      assert (a + [x])[1..] == a[1..] + [x] && (b + [y])[1..] == b[1..] + [y];
      assert a == [a[0]] + a[1..] && b == [b[0]] + b[1..];
    }
  }

  /** Text order of joined strings whose first parts are equally long. */
  lemma {:induction false} LessConcat(a: string, b: string, x: string, y: string)
    requires |a| == |b|
    ensures Less(a + x, b + y) <==> Less(a, b) || (a == b && Less(x, y))
  {
    if a == [] {
      assert a + x == x && b + y == y;
    } else {
      LessConcat(a[1..], b[1..], x, y);
      assert (a + x)[1..] == a[1..] + x && (b + y)[1..] == b[1..] + y;
      assert a == [a[0]] + a[1..] && b == [b[0]] + b[1..];
    }
  }

  lemma ProductGrows(a: nat, b: nat, c: nat)
    requires a <= b
    ensures a * c <= b * c
  {
  }

  /** Whether `a * q` reaches beyond `b` is seen from the part of `b` in front. */
  lemma FrontDecides(a: nat, p: nat, q: nat, b: nat)
    requires p * q <= b < (p + 1) * q
    ensures a <= p <==> a * q <= b
  {
    if a <= p {
      ProductGrows(a, p, q);
    } else {
      ProductGrows(p + 1, a, q);
    }
  }

  lemma OneMoreDigit(p: nat, q: nat, v: nat, c: nat)
    requires p * q <= v < (p + 1) * q && c < 10
    ensures p * (10 * q) <= v * 10 + c < (p + 1) * (10 * q)
  {
    assert p * (10 * q) == 10 * (p * q);
    assert (p + 1) * (10 * q) == 10 * ((p + 1) * q);
  }

  /** The first digits of a text stand for its value without the last ones. */
  lemma {:induction false} PrefixValue(s: string, m: nat)
    requires AllDigits(s) && m <= |s|
    ensures var p, q := DigitsValue(s[..m]), Power(|s| - m);
            p * q <= DigitsValue(s) < (p + 1) * q
    decreases |s|
  {
    if m == |s| {
      assert s[..m] == s;
    } else {
      var n := |s| - 1;
      assert IsDigit(s[n]);
      if n > 0 {
        assert s[..n][..m] == s[..m];
        PrefixValue(s[..n], m);
      } else {
        assert s[..0] == [];
      }
      var p, v := DigitsValue(s[..m]), DigitsValue(s[..n]);
      assert DigitsValue(s) == v * 10 + (s[n] as int - '0' as int);
      assert Power(|s| - m) == 10 * Power(n - m);
      hide DigitsValue, Power;
      OneMoreDigit(p, Power(n - m), v, s[n] as int - '0' as int);
    }
  }

  lemma SmallerIsShorter(a: nat, b: nat)
    requires a <= b
    ensures |Decimal(a)| <= |Decimal(b)|
  {
    DecimalReads(b);
    DecimalLength(b, |Decimal(b)|);
    DecimalLength(a, |Decimal(b)|);
  }

  /** A text against a longer one: against as many of its characters. */
  lemma LessThanLonger(s: string, t: string)
    requires |s| <= |t|
    ensures Less(s, t) <==> Less(s, t[..|s|]) || (s == t[..|s|] && |s| < |t|)
  {
    hide Less;
    var head, tail := t[..|s|], t[|s|..];
    assert s + [] == s && head + tail == t;
    LessConcat(s, head, [], tail);
    EmptyIsLess(tail);
  }

  /** The smaller of two numbers sorts before the larger exactly when no leading digits of the larger are smaller. */
  lemma {:induction false} DecimalOrder(a: nat, b: nat)
    requires a < b
    ensures |Decimal(a)| <= |Decimal(b)|
    ensures Less(Decimal(a), Decimal(b)) <==> a * Power(|Decimal(b)| - |Decimal(a)|) <= b
  {
    var s, t := Decimal(a), Decimal(b);
    SmallerIsShorter(a, b);
    DecimalReads(a);
    DecimalReads(b);
    var head := t[..|s|];
    assert AllDigits(head) && (|s| == |t| ==> head == t);
    hide Decimal, DigitsValue, Less, Power, AllDigits;
    LessThanLonger(s, t);
    SameLengthOrder(s, head);
    PrefixValue(t, |s|);
    FrontDecides(a, DigitsValue(head), Power(|t| - |s|), b);
  }

  lemma EmptyIsLess(s: string)
    ensures Less([], s) <==> s != []
  {
  }
}
