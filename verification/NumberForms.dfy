/**
 The form ECMAScript gives a number (section 3.2.2.3 of RFC 8785), stated on numerals without
 reference to how one is laid out: a value has one numeral of that form, and the layout is it.
 */
module NumberForms {
  import opened Prelude
  import opened DecimalText
  import opened Decimals
  import Radix

  // ---- sizes ----

  /** The absolute value is below 10^x. */
  predicate BelowPower(d: Decimal, x: int) {
    if x >= d.exponent then d.coefficient < Pow10(x - d.exponent) else d.coefficient == 0
  }

  /** At least 10^-6 and below 10^21. */
  predicate InPlainRange(d: Decimal) { !BelowPower(d, -6) && BelowPower(d, 21) }

  predicate NoTrailingZero(s: Bytes) { s != [] ==> s[|s| - 1] != 0x30 }

  /** The numeral ECMAScript writes a nonzero number with.  In the plain range: no exponent, no
      redundant zero at either end.  Outside: one nonzero digit, the other digits without a
      zero at their end, and a signed exponent without a redundant zero. */
  predicate EcmaForm(n: Numeral) {
    && WellFormed(n) && NumeralValue(n).coefficient != 0 && NoTrailingZero(n.fraction)
    && if InPlainRange(NumeralValue(n)) then n.tail.Plain?
       else
         && |n.whole| == 1 && n.whole[0] != 0x30
         && n.tail.Scientific? && n.tail.mark == 0x65 && (n.tail.sign == [0x2b] || n.tail.sign == [0x2d])
         && (n.tail.digits[0] == 0x30 ==> n.tail.digits == [0x30])
  }

  /** The value of digits without a leading zero is between two powers of ten. */
  lemma {:induction false} DigitsSize(s: Bytes)
    requires AllDigits(s) && s != []
    ensures DecimalValue(s) < Pow10(|s|)
    ensures s[0] != 0x30 ==> Pow10(|s| - 1) <= DecimalValue(s)
  {
    hide Radix.Value, Radix.Pow;
    Radix.ValueBound(Figures(s), 10);
    if s[0] != 0x30 {
      Radix.LeadingDigit(Figures(s), 10);
    }
  }

  lemma {:induction false} Pow10Grows(m: nat, n: nat)
    ensures m <= n ==> Pow10(m) <= Pow10(n)
    ensures m < n ==> Pow10(m) < Pow10(n)
    ensures Pow10(0) == 1
  {
    if m <= n {
      Radix.PowMonotone(10, m, n);
    }
    if m < n {
      Radix.PowMonotone(10, m + 1, n);
      Pow10Add(1, m);
      assert Pow10(1) == 10 * Pow10(0);
    }
  }

  /** The place of the first digit decides the size. */
  lemma {:induction false} SizeIs(d: Decimal, length: nat, x: int)
    requires length >= 1 && Pow10(length - 1) <= d.coefficient < Pow10(length)
    ensures BelowPower(d, x) <==> length + d.exponent <= x
  {
    hide Pow10;
    if x >= d.exponent {
      var y: nat := x - d.exponent;
      if length <= y {
        Pow10Grows(length, y);
      } else {
        Pow10Grows(y, length - 1);
      }
    } else {
      Pow10Grows(0, length - 1);
    }
  }

  // ---- equal values have equal sizes ----

  /** `d` is `e` with its exponent lowered by `k`. */
  predicate LoweredBy(d: Decimal, e: Decimal, k: nat) {
    e.exponent == d.exponent + k && d.coefficient == e.coefficient * Pow10(k) && d.negative == e.negative
  }

  lemma {:induction false} SameIsLowered(d: Decimal, e: Decimal)
    requires SameValue(d, e)
    ensures d.exponent <= e.exponent ==> LoweredBy(d, e, e.exponent - d.exponent)
    ensures e.exponent <= d.exponent ==> LoweredBy(e, d, d.exponent - e.exponent)
  {
    assert Pow10(0) == 1;
    assert d.coefficient * 1 == d.coefficient && e.coefficient * 1 == e.coefficient;
  }

  lemma {:induction false} ScaleLess(a: nat, b: nat, p: nat)
    requires p >= 1
    ensures a * p < b * p <==> a < b
    ensures a >= 1 ==> a * p >= p
  {
    if a < b {
      Radix.MulMonotone(p, a + 1, b);
      assert (a + 1) * p == a * p + p;
    } else {
      Radix.MulMonotone(p, b, a);
    }
    if a >= 1 {
      Radix.MulMonotone(p, 1, a);
    }
  }

  lemma {:induction false} LoweredSize(d: Decimal, e: Decimal, k: nat, x: int)
    requires LoweredBy(d, e, k)
    ensures BelowPower(d, x) <==> BelowPower(e, x)
  {
    hide Pow10;
    if x >= e.exponent {
      var y: nat := x - e.exponent;
      Pow10Add(y, k);
      ScaleLess(e.coefficient, Pow10(y), Pow10(k));
    } else {
      ScaleLess(e.coefficient, 1, Pow10(k));
      Pow10Grows(0, 0);
      assert e.coefficient == 0 ==> d.coefficient == 0;
      if x >= d.exponent {
        Pow10Grows(x - d.exponent, k);
      }
    }
  }

  lemma {:induction false} SameSize(d: Decimal, e: Decimal, x: int)
    requires SameValue(d, e)
    ensures BelowPower(d, x) <==> BelowPower(e, x)
  {
    hide BelowPower, LoweredBy, SameValue;
    SameIsLowered(d, e);
    if d.exponent <= e.exponent {
      LoweredSize(d, e, e.exponent - d.exponent, x);
    } else {
      LoweredSize(e, d, d.exponent - e.exponent, x);
    }
  }

  /** Equality of values holds at any common exponent. */
  lemma {:induction false} SameAt(d: Decimal, e: Decimal, m: int)
    requires m <= d.exponent && m <= e.exponent
    ensures SameValue(d, e) <==>
              d.negative == e.negative && d.coefficient * Pow10(d.exponent - m) == e.coefficient * Pow10(e.exponent - m)
  {
    hide Pow10;
    var least := if d.exponent < e.exponent then d.exponent else e.exponent;
    var p := Pow10(least - m);
    var x, y := d.coefficient * Pow10(d.exponent - least), e.coefficient * Pow10(e.exponent - least);
    Pow10Add(d.exponent - least, least - m);
    Pow10Add(e.exponent - least, least - m);
    Radix.Associate(d.coefficient, Pow10(d.exponent - least), p);
    Radix.Associate(e.coefficient, Pow10(e.exponent - least), p);
    ScaleLess(x, y, p);
    ScaleLess(y, x, p);
  }

  lemma {:induction false} SameTransitive(a: Decimal, b: Decimal, c: Decimal)
    requires SameValue(a, b) && SameValue(b, c)
    ensures SameValue(a, c)
  {
    hide SameValue, Pow10;
    var m := if a.exponent < b.exponent then a.exponent else b.exponent;
    var least := if m < c.exponent then m else c.exponent;
    SameAt(a, b, least);
    SameAt(b, c, least);
    SameAt(a, c, least);
  }

  // ---- equal digits ----

  lemma {:induction false} SameDigits(s: Bytes, t: Bytes)
    requires AllDigits(s) && AllDigits(t) && |s| == |t| && DecimalValue(s) == DecimalValue(t)
    ensures s == t
  {
    hide DecimalValue;
    if s != [] {
      var k := |s| - 1;
      LastDigit(s);
      LastDigit(t);
      SameDigits(s[..k], t[..k]);
      assert s == s[..k] + [s[k]] && t == t[..k] + [t[k]];
    }
  }

  /** A multiple of ten ends in a zero. */
  lemma {:induction false} EndsInZero(s: Bytes, c: nat, k: nat)
    requires AllDigits(s) && s != [] && k >= 1 && DecimalValue(s) == c * Pow10(k)
    ensures s[|s| - 1] == 0x30
  {
    hide DecimalValue;
    LastDigit(s);
    Pow10Add(1, k - 1);
    assert Pow10(1) == 10 by { Pow10Grows(0, 0); }
    TenTimes(c, Pow10(k - 1));
    var h, last: nat := DecimalValue(s[..|s| - 1]), s[|s| - 1] - 0x30;
    assert last == 10 * (c * Pow10(k - 1) - h);
  }

  lemma {:induction false} TenTimes(c: nat, p: nat)
    ensures c * (10 * p) == 10 * (c * p)
  {
  }

  // ---- one form for a value ----

  lemma {:induction false} ShorterFraction(n: Numeral, m: Numeral, x: int)
    requires WellFormed(n) && WellFormed(m) && SameValue(NumeralValue(n), NumeralValue(m))
    requires TailValue(n.tail) == TailValue(m.tail) == x && NoTrailingZero(m.fraction)
    ensures |n.fraction| >= |m.fraction|
  {
    hide DecimalValue, Pow10, TailValue, SameValue;
    var s := m.whole + m.fraction;
    assert m.fraction != [] ==> s[|s| - 1] == m.fraction[|m.fraction| - 1];
    SameIsLowered(NumeralValue(n), NumeralValue(m));
    if |n.fraction| < |m.fraction| {
      EndsInZero(s, NumeralValue(n).coefficient, |m.fraction| - |n.fraction|);
    }
  }

  lemma {:induction false} LongerIsMore(s: Bytes, t: Bytes)
    requires AllDigits(s) && AllDigits(t) && s != [] && |s| < |t| && t[0] != 0x30
    ensures DecimalValue(s) < DecimalValue(t)
  {
    hide DecimalValue, Pow10;
    DigitsSize(s);
    DigitsSize(t);
    Pow10Grows(|s|, |t| - 1);
  }

  /** With the same exponent part and number of fraction digits, the digits are the same. */
  lemma {:induction false} SameParts(n: Numeral, m: Numeral)
    requires WellFormed(n) && WellFormed(m) && SameValue(NumeralValue(n), NumeralValue(m))
    requires TailValue(n.tail) == TailValue(m.tail) && |n.fraction| == |m.fraction|
    ensures n.whole == m.whole && n.fraction == m.fraction && n.negative == m.negative
  {
    hide DecimalValue, Pow10, TailValue, SameValue;
    var s, t := n.whole + n.fraction, m.whole + m.fraction;
    SameIsLowered(NumeralValue(n), NumeralValue(m));
    Pow10Grows(0, 0);
    assert DecimalValue(s) == DecimalValue(t);
    assert s[0] == n.whole[0] && t[0] == m.whole[0];
    if |s| < |t| {
      LongerIsMore(s, t);
    } else if |t| < |s| {
      LongerIsMore(t, s);
    }
    SameDigits(s, t);
    assert n.whole == s[..|n.whole|] && m.whole == t[..|n.whole|] && n.fraction == s[|n.whole|..] && m.fraction == t[|n.whole|..];
  }

  /** The exponent of a scientific form is decided by the size of the value. */
  lemma {:induction false} ScientificSize(n: Numeral, x: int)
    requires WellFormed(n) && |n.whole| == 1 && n.whole[0] != 0x30
    ensures BelowPower(NumeralValue(n), x) <==> 1 + TailValue(n.tail) <= x
  {
    hide DecimalValue, Pow10, TailValue, BelowPower;
    var s := n.whole + n.fraction;
    DigitsSize(s);
    SizeIs(NumeralValue(n), |s|, x);
  }

  lemma {:induction false} SameTail(a: Tail, b: Tail)
    requires WellFormedTail(a) && WellFormedTail(b) && a.Scientific? && b.Scientific?
    requires TailValue(a) == TailValue(b) != 0 && a.mark == b.mark
    requires a.sign == [0x2b] || a.sign == [0x2d]
    requires b.sign == [0x2b] || b.sign == [0x2d]
    requires a.digits[0] == 0x30 ==> a.digits == [0x30]
    requires b.digits[0] == 0x30 ==> b.digits == [0x30]
    ensures a == b
  {
    hide DecimalValue, DecimalDigits;
    ShortestDigits(a.digits);
    ShortestDigits(b.digits);
  }

  /** A nonzero value has one numeral of the form, so one text. */
  lemma {:induction false} OneForm(n: Numeral, m: Numeral)
    requires EcmaForm(n) && EcmaForm(m) && SameValue(NumeralValue(n), NumeralValue(m))
    ensures n == m && NumeralText(n) == NumeralText(m)
  {
    hide SameValue, NumeralValue, TailValue, WellFormed, BelowPower, NumeralText, WellFormedTail;
    var d, e := NumeralValue(n), NumeralValue(m);
    SameSize(d, e, -6);
    SameSize(d, e, 21);
    FormsFormed(n);
    FormsFormed(m);
    if InPlainRange(d) {
      PlainTail();
    } else {
      ScientificSize(n, 1 + TailValue(n.tail));
      ScientificSize(m, 1 + TailValue(n.tail));
      ScientificSize(n, 1 + TailValue(m.tail));
      ScientificSize(m, 1 + TailValue(m.tail));
      SameSize(d, e, 1 + TailValue(n.tail));
      SameSize(d, e, 1 + TailValue(m.tail));
      ScientificSize(n, -6);
      ScientificSize(n, 21);
      SameTail(n.tail, m.tail);
    }
    ShorterFraction(n, m, TailValue(n.tail));
    SameSymmetric(d, e);
    ShorterFraction(m, n, TailValue(n.tail));
    SameParts(n, m);
  }

  lemma {:induction false} FormsFormed(n: Numeral)
    requires EcmaForm(n)
    ensures WellFormed(n) && WellFormedTail(n.tail)
  {
  }

  lemma {:induction false} SameSymmetric(d: Decimal, e: Decimal)
    requires SameValue(d, e)
    ensures SameValue(e, d)
  {
  }

  // ---- the layout has the form ----

  /** Digits that can be laid out in the form: no zero at their end, unless they are a whole number
      with at most 21 digits; and a plain fraction has fewer than six zeros in front. */
  predicate Tidy(t: Shortest)
    requires WellFormedShortest(t)
  {
    var digits := t.whole + t.fraction;
    var k := |t.whole| + t.exponent;
    if t.whole[0] == 0x30 then
      t.fraction[|t.fraction| - 1] != 0x30 && exists i :: 0 <= i < 6 && i < |t.fraction| && t.fraction[i] != 0x30
    else digits[|digits| - 1] != 0x30 || |digits| <= k <= 21
  }

  /** The size of a value is the place of its first digit. */
  lemma {:induction false} ShortestSize(t: Shortest, x: int)
    requires WellFormedShortest(t) && t.whole[0] != 0x30
    ensures BelowPower(ShortestValue(t), x) <==> |t.whole| + t.exponent <= x
    ensures ShortestValue(t).coefficient != 0
  {
    hide DecimalValue, Pow10, BelowPower;
    var s := t.whole + t.fraction;
    DigitsSize(s);
    Pow10Grows(0, 0);
    SizeIs(ShortestValue(t), |s|, x);
  }

  lemma {:induction false} FrontZeros(s: Bytes) returns (z: nat)
    ensures z <= |s| && (forall i :: 0 <= i < z ==> s[i] == 0x30) && (z < |s| ==> s[z] != 0x30)
    ensures s == Zeros(z) + s[z..]
  {
    z := 0;
    if s != [] && s[0] == 0x30 {
      var y := FrontZeros(s[1..]);
      z := y + 1;
      assert s == [s[0]] + s[1..];
    }
  }

  /** The size of a plain fraction is the number of zeros in front of it. */
  lemma {:induction false} FractionSize(fraction: Bytes, x: int)
    requires AllDigits(fraction)
    ensures AllDigits([0x30] + fraction)
    ensures var d := Decimal(false, DecimalValue([0x30] + fraction), -|fraction|);
            && (d.coefficient != 0 <==> exists i :: 0 <= i < |fraction| && fraction[i] != 0x30)
            && (x <= 0 && d.coefficient != 0 ==> (BelowPower(d, x) <==> forall i :: 0 <= i < -x && i < |fraction| ==> fraction[i] == 0x30))
            && (x > 0 ==> BelowPower(d, x))
  {
    hide DecimalValue, Pow10, BelowPower;
    var z := FrontZeros(fraction);
    var rest := fraction[z..];
    assert [0x30] + fraction == Zeros(z + 1) + rest;
    LeadingZeros(z + 1, rest);
    var d := Decimal(false, DecimalValue([0x30] + fraction), -|fraction|);
    Pow10Grows(0, 0);
    if rest == [] {
      NoDigits();
      ZeroBelow(d, x);
    } else {
      assert fraction[z] != 0x30;
      DigitsSize(rest);
      SizeIs(d, |rest|, x);
    }
  }

  lemma {:induction false} ZeroBelow(d: Decimal, x: int)
    requires d.coefficient == 0
    ensures BelowPower(d, x)
  {
  }

  lemma {:induction false} SignFree(d: Decimal, negative: bool, x: int)
    ensures BelowPower(d.(negative := negative), x) <==> BelowPower(d, x)
  {
  }

  lemma {:induction false} ZeroSame(d: Decimal, e: Decimal)
    requires SameValue(d, e)
    ensures d.coefficient == 0 <==> e.coefficient == 0
  {
    hide Pow10;
    SameIsLowered(d, e);
    if d.exponent <= e.exponent {
      ScaleLess(e.coefficient, 1, Pow10(e.exponent - d.exponent));
    } else {
      ScaleLess(d.coefficient, 1, Pow10(d.exponent - e.exponent));
    }
  }

  lemma {:induction false} FractionLayout(t: Shortest)
    requires WellFormedShortest(t) && t.whole[0] == 0x30
    requires WellFormed(LayoutNumeral(t))
    requires var d := NumeralValue(LayoutNumeral(t));
             && (forall x :: x == -6 || x == 21 ==> (BelowPower(d, x) <==> BelowPower(ShortestValue(t), x)))
             && (d.coefficient == 0 <==> ShortestValue(t).coefficient == 0)
    ensures EcmaForm(LayoutNumeral(t)) <==> Tidy(t)
  {
    hide DecimalValue, Pow10, BelowPower, TailValue, WellFormed, NumeralValue;
    var n := LayoutNumeral(t);
    assert t.whole + t.fraction == [0x30] + t.fraction;
    assert n.fraction == t.fraction && n.whole == [0x30];
    var value := Decimal(false, DecimalValue([0x30] + t.fraction), -|t.fraction|);
    FractionSize(t.fraction, -6);
    FractionSize(t.fraction, 21);
    SignFree(value, t.negative, -6);
    SignFree(value, t.negative, 21);
    assert ShortestValue(t) == value.(negative := t.negative);
  }

  lemma {:induction false} DigitLayout(t: Shortest)
    requires WellFormedShortest(t) && t.whole[0] != 0x30
    requires WellFormed(LayoutNumeral(t)) && NumeralValue(LayoutNumeral(t)).coefficient != 0
    requires InPlainRange(NumeralValue(LayoutNumeral(t))) <==> -6 < |t.whole| + t.exponent <= 21
    ensures EcmaForm(LayoutNumeral(t)) <==> Tidy(t)
  {
    hide InPlainRange, NumeralValue, TailValue, WellFormed;
    var digits := t.whole + t.fraction;
    var k := |t.whole| + t.exponent;
    var n := LayoutNumeral(t);
    assert digits[0] == t.whole[0];
    if 0 < k <= 21 && k < |digits| {
      assert n.fraction[|n.fraction| - 1] == digits[|digits| - 1];
    } else if -6 < k <= 0 {
      assert n.fraction[|n.fraction| - 1] == digits[|digits| - 1];
    } else if !(-6 < k <= 21) {
      assert |digits| > 1 ==> n.fraction[|n.fraction| - 1] == digits[|digits| - 1];
    }
  }

  /** The layout has the form exactly for tidy digits. */
  lemma {:induction false} LayoutFormIff(t: Shortest)
    requires WellFormedShortest(t)
    ensures EcmaForm(LayoutNumeral(t)) <==> Tidy(t)
  {
    hide DecimalValue, Pow10, BelowPower, SameValue, TailValue, DecimalDigits;
    var n := LayoutNumeral(t);
    var d := NumeralValue(n);
    LayoutKeepsValue(t);
    SameSize(d, ShortestValue(t), -6);
    SameSize(d, ShortestValue(t), 21);
    ZeroSame(d, ShortestValue(t));
    if t.whole[0] == 0x30 {
      FractionLayout(t);
    } else {
      ShortestSize(t, -6);
      ShortestSize(t, 21);
      DigitLayout(t);
    }
  }

  /** The text of either zero is "0"; the text of any other double is that of a numeral of the form
      with its value, if its shortest digits are tidy. */
  lemma {:induction false} FormatForm(lib: FloatLibrary, v: Double) returns (n: Numeral)
    requires v.Finite? && (v.magnitude != 0 ==> WellFormedShortest(lib.toChars(v)) && Tidy(lib.toChars(v)))
    ensures v.magnitude == 0 ==> FormatNumber(lib, v) == [0x30]
    ensures v.magnitude != 0 ==>
              EcmaForm(n) && FormatNumber(lib, v) == NumeralText(n) && SameValue(NumeralValue(n), ShortestValue(lib.toChars(v)))
  {
    hide EcmaForm, SameValue, NumeralValue, LayoutNumeral, NumeralText, Tidy, ShortestValue;
    n := ZERO;
    if v.magnitude != 0 {
      n := LayoutNumeral(lib.toChars(v));
      LayoutFormIff(lib.toChars(v));
      LayoutKeepsValue(lib.toChars(v));
    }
  }

  /** And that numeral is the only one: no other text of the form denotes the value. */
  lemma {:induction false} OnlyText(lib: FloatLibrary, v: Double, m: Numeral)
    requires v.Finite? && v.magnitude != 0 && WellFormedShortest(lib.toChars(v)) && Tidy(lib.toChars(v))
    requires EcmaForm(m) && SameValue(NumeralValue(m), ShortestValue(lib.toChars(v)))
    ensures FormatNumber(lib, v) == NumeralText(m)
  {
    hide EcmaForm, SameValue, NumeralValue, NumeralText, Tidy, ShortestValue, FormatNumber;
    var n := FormatForm(lib, v);
    FormsFormed(n);
    FormsFormed(m);
    SameSymmetric(NumeralValue(m), ShortestValue(lib.toChars(v)));
    SameTransitive(NumeralValue(n), ShortestValue(lib.toChars(v)), NumeralValue(m));
    OneForm(n, m);
  }
}
