/**
 Decimal numerals: the JSON number grammar, the layout ECMAScript gives a
 number's shortest digits, and the exact value a numeral denotes.

 `std::to_chars` and `strtod` are parameters (`FloatLibrary`): a finite double is
 a sign and a magnitude, `toChars` gives the shortest digits with their decimal
 point and exponent, and `strtod` maps an exact decimal to a double.
 */
module Decimals {
  import opened Prelude
  import opened DecimalText
  import Radix

  /** The first exponent pattern that is not finite, above a clear fraction. */
  const INFINITE := 0x7FF0_0000_0000_0000

  /** The bits of a finite IEEE 754 double below its sign; they are ordered as the numbers are. */
  type Magnitude = m: nat | m < INFINITE

  datatype Double = NaN | Infinite(negative: bool) | Finite(negative: bool, magnitude: Magnitude)

  /** The exact number (-1)^negative * coefficient * 10^exponent. */
  datatype Decimal = Decimal(negative: bool, coefficient: nat, exponent: int)

  /** What `to_chars` writes, split at its sign, decimal point and exponent mark. */
  datatype Shortest = Shortest(negative: bool, whole: Bytes, fraction: Bytes, exponent: int)

  datatype FloatLibrary = FloatLibrary(toChars: Double -> Shortest, strtod: Decimal -> Double)

  function Pow10(n: nat): (r: nat)
    ensures r >= 1
  {
    Radix.PowPositive(10, n);
    Radix.Pow(10, n)
  }

  function Zeros(n: nat): (r: Bytes)
    ensures |r| == n && AllDigits(r)
  {
    Repeat<Byte>(0x30, n)
  }

  lemma {:induction false} TrailingZeros(s: Bytes, n: nat)
    requires AllDigits(s)
    ensures AllDigits(s + Zeros(n)) && DecimalValue(s + Zeros(n)) == DecimalValue(s) * Pow10(n)
  {
    if n == 0 {
      assert s + Zeros(n) == s;
    } else {
      var t := s + Zeros(n);
      assert t[..|t| - 1] == s + Zeros(n - 1);
      LastDigit(t);
      TrailingZeros(s, n - 1);
      assert DecimalValue(t) == 10 * (DecimalValue(s) * Pow10(n - 1));
      assert 10 * (DecimalValue(s) * Pow10(n - 1)) == DecimalValue(s) * Pow10(n);
    }
  }

  lemma {:induction false} LeadingZeros(n: nat, s: Bytes)
    requires AllDigits(s)
    ensures AllDigits(Zeros(n) + s) && DecimalValue(Zeros(n) + s) == DecimalValue(s)
  {
    var t := Zeros(n) + s;
    if t != [] {
      LastDigit(t);
    }
    if s != [] {
      LastDigit(s);
      assert t[..|t| - 1] == Zeros(n) + s[..|s| - 1];
      LeadingZeros(n, s[..|s| - 1]);
    } else if n != 0 {
      assert t[..|t| - 1] == Zeros(n - 1) + s;
      LeadingZeros(n - 1, s);
    }
  }

  // ---- exact values ----

  /** Two decimals denote the same number. */
  predicate SameValue(d: Decimal, e: Decimal) {
    var m := if d.exponent < e.exponent then d.exponent else e.exponent;
    && d.negative == e.negative
    && d.coefficient * Pow10(d.exponent - m) == e.coefficient * Pow10(e.exponent - m)
  }

  /** The numeral `to_chars` produces: digits without a redundant leading zero, and a
      leading zero only in a plain fraction. */
  predicate WellFormedShortest(t: Shortest) {
    && t.whole != [] && AllDigits(t.whole) && AllDigits(t.fraction)
    && (t.whole[0] == 0x30 ==> t.whole == [0x30] && t.fraction != [] && t.exponent == 0)
  }

  function ShortestValue(t: Shortest): Decimal
    requires WellFormedShortest(t)
  {
    Decimal(t.negative, DecimalValue(t.whole + t.fraction), t.exponent - |t.fraction|)
  }

  /** The two library facts the round trip rests on: `strtod` is a function of the exact
      value, and reading back what `to_chars` wrote gives the same finite double. */
  ghost predicate Lawful(lib: FloatLibrary) {
    && (forall d, e :: SameValue(d, e) ==> lib.strtod(d) == lib.strtod(e))
    && (forall n, e :: lib.strtod(Decimal(n, 0, e)) == Finite(n, 0))
    && (forall v: Double :: v.Finite? && v.magnitude != 0 ==>
          WellFormedShortest(lib.toChars(v)) && lib.strtod(ShortestValue(lib.toChars(v))) == v)
  }

  // ---- the JSON number grammar ----

  /** The end of the run of digits starting at `p`. */
  function DigitsEnd(s: Bytes, p: nat): (e: nat)
    requires p <= |s|
    ensures p <= e <= |s| && AllDigits(s[p..e])
    ensures e < |s| ==> !IsDigit(s[e])
    decreases |s| - p
  {
    if p < |s| && IsDigit(s[p]) then
      var e := DigitsEnd(s, p + 1);
      assert s[p..e] == [s[p]] + s[p + 1..e];
      e
    else p
  }

  lemma {:induction false} DigitsEndIs(s: Bytes, p: nat, e: nat)
    requires p <= e <= |s| && AllDigits(s[p..e]) && (e < |s| ==> !IsDigit(s[e]))
    ensures DigitsEnd(s, p) == e
    decreases e - p
  {
    if p < e {
      assert s[p] == s[p..e][0];
      assert s[p + 1..e] == s[p..e][1..];
      DigitsEndIs(s, p + 1, e);
    }
  }

  predicate At(s: Bytes, p: nat, b: int) { p < |s| && s[p] == b }

  predicate DigitAt(s: Bytes, p: nat) { p < |s| && IsDigit(s[p]) }

  datatype Scan = NotANumber | Scanned(end: nat, value: Decimal)

  /** End of the integer part starting at `p`, or None. */
  function ScanWhole(s: Bytes, p: nat): (r: Option<nat>)
    requires p <= |s|
    ensures r.Some? ==> p < r.value <= |s| && AllDigits(s[p..r.value])
  {
    if At(s, p, 0x30) then
      if DigitAt(s, p + 1) then None else Some(p + 1)
    else if !DigitAt(s, p) then None
    else Some(DigitsEnd(s, p))
  }

  /** End of an optional fraction starting at `p`, or None. */
  function ScanFraction(s: Bytes, p: nat): (r: Option<nat>)
    requires p <= |s|
    ensures r.Some? ==> p <= r.value <= |s|
    ensures r.Some? && r.value > p ==> p + 1 <= r.value && AllDigits(s[p + 1..r.value])
  {
    if !At(s, p, 0x2e) then Some(p)
    else if !DigitAt(s, p + 1) then None
    else Some(DigitsEnd(s, p + 1))
  }

  /** End and value of an optional exponent starting at `p`, or None. */
  function ScanExponent(s: Bytes, p: nat): (r: Option<(nat, int)>)
    requires p <= |s|
    ensures r.Some? ==> p <= r.value.0 <= |s|
  {
    if !(At(s, p, 0x65) || At(s, p, 0x45)) then Some((p, 0))
    else
      var q := if At(s, p + 1, 0x2b) || At(s, p + 1, 0x2d) then p + 2 else p + 1;
      if !DigitAt(s, q) then None
      else
        var e := DigitsEnd(s, q);
        var x: int := DecimalValue(s[q..e]);
        Some((e, if At(s, p + 1, 0x2d) then -x else x))
  }

  /** The number numeral starting at `p`, with the value `strtod` reads from it. */
  function ScanNumber(s: Bytes, p: nat): (r: Scan)
    requires p <= |s|
    ensures r.Scanned? ==> p < r.end <= |s|
  {
    var negative := At(s, p, 0x2d);
    var a := if negative then p + 1 else p;
    var w := ScanWhole(s, a);
    if w.None? then NotANumber
    else
      var b := w.value;
      var f := ScanFraction(s, b);
      if f.None? then NotANumber
      else
        var c := f.value;
        var fraction := if c > b then s[b + 1..c] else [];
        var x := ScanExponent(s, c);
        if x.None? then NotANumber
        else Scanned(x.value.0, Decimal(negative, DecimalValue(s[a..b] + fraction), x.value.1 - |fraction|))
  }

  // ---- layout ----

  function Sign(negative: bool): Bytes { if negative then [0x2d] else [] }

  function Point(fraction: Bytes): Bytes { if fraction == [] then [] else [0x2e] + fraction }

  /** An exponent part with its mark, optional sign and digits, or none. */
  datatype Tail = Plain | Scientific(mark: Byte, sign: Bytes, digits: Bytes)

  predicate WellFormedTail(t: Tail) {
    t.Scientific? ==>
      && (t.mark == 0x65 || t.mark == 0x45) && (t.sign == [] || t.sign == [0x2b] || t.sign == [0x2d])
      && t.digits != [] && AllDigits(t.digits)
  }

  function TailText(t: Tail): Bytes {
    match t case Plain => [] case Scientific(mark, sign, digits) => [mark] + (sign + digits)
  }

  function TailValue(t: Tail): int
    requires WellFormedTail(t)
  {
    match t
    case Plain => 0
    case Scientific(_, sign, digits) =>
      var x: int := DecimalValue(digits);
      if sign == [0x2d] then -x else x
  }

  /** An exponent as ECMAScript writes it. */
  function ExponentTail(x: int): (t: Tail)
    ensures WellFormedTail(t) && TailValue(t) == x
  {
    if x >= 0 then Scientific(0x65, [0x2b], DecimalDigits(x)) else Scientific(0x65, [0x2d], DecimalDigits(-x))
  }

  datatype Numeral = Numeral(negative: bool, whole: Bytes, fraction: Bytes, tail: Tail)

  function NumeralText(n: Numeral): Bytes {
    Sign(n.negative) + (n.whole + (Point(n.fraction) + TailText(n.tail)))
  }

  /** The numeral of a nonzero number: plain for 10^-6 <= |v| < 10^21, scientific outside. */
  function LayoutNumeral(t: Shortest): Numeral
    requires WellFormedShortest(t)
  {
    var digits := t.whole + t.fraction;
    var k := |t.whole| + t.exponent;
    if 0 < k <= 21 then
      if k >= |digits| then Numeral(t.negative, digits + Zeros(k - |digits|), [], Plain)
      else Numeral(t.negative, digits[..k], digits[k..], Plain)
    else if -6 < k <= 0 then Numeral(t.negative, [0x30], Zeros(-k) + digits, Plain)
    else Numeral(t.negative, digits[..1], digits[1..], ExponentTail(k - 1))
  }

  function Layout(t: Shortest): Bytes
    requires WellFormedShortest(t)
  {
    NumeralText(LayoutNumeral(t))
  }

  /** formatNumber. */
  function FormatNumber(lib: FloatLibrary, v: Double): Bytes
    requires v.Finite? && (v.magnitude != 0 ==> WellFormedShortest(lib.toChars(v)))
  {
    if v.magnitude == 0 then [0x30] else Layout(lib.toChars(v))
  }

  /** The byte at `p`, if any, continues no numeral. */
  predicate Delimited(s: Bytes, p: nat) {
    !DigitAt(s, p) && !At(s, p, 0x2e) && !At(s, p, 0x65) && !At(s, p, 0x45)
  }

  /** The byte at `p`, if any, does not continue `n`. */
  predicate Ends(n: Numeral, s: Bytes, p: nat) {
    && !DigitAt(s, p)
    && (n.tail.Plain? ==> !At(s, p, 0x65) && !At(s, p, 0x45) && (n.fraction == [] ==> !At(s, p, 0x2e)))
  }

  predicate WholePart(s: Bytes) {
    s != [] && AllDigits(s) && (s[0] == 0x30 ==> s == [0x30])
  }

  predicate WellFormed(n: Numeral) {
    WholePart(n.whole) && AllDigits(n.fraction) && WellFormedTail(n.tail)
  }

  function NumeralValue(n: Numeral): Decimal
    requires WellFormed(n)
  {
    Decimal(n.negative, DecimalValue(n.whole + n.fraction), TailValue(n.tail) - |n.fraction|)
  }

  lemma {:induction false} ScanWholeText(s: Bytes, p: nat, whole: Bytes)
    requires WholePart(whole) && Occurs(s, p, whole) && !DigitAt(s, p + |whole|)
    ensures ScanWhole(s, p) == Some(p + |whole|)
  {
    OccursAt(s, p, whole, 0);
    DigitsEndIs(s, p, p + |whole|);
  }

  lemma {:induction false} ScanFractionText(s: Bytes, p: nat, fraction: Bytes)
    requires AllDigits(fraction) && Occurs(s, p, Point(fraction))
    requires !DigitAt(s, p + |Point(fraction)|) && (fraction == [] ==> !At(s, p, 0x2e))
    ensures ScanFraction(s, p) == Some(p + |Point(fraction)|)
    ensures p + |Point(fraction)| <= |s|
    ensures fraction == (if p + |Point(fraction)| > p then s[p + 1..p + |Point(fraction)|] else [])
  {
    if fraction != [] {
      OccursSplit(s, p, [0x2e], fraction);
      OccursAt(s, p, Point(fraction), 0);
      OccursAt(s, p + 1, fraction, 0);
      DigitsEndIs(s, p + 1, p + 1 + |fraction|);
    }
  }

  lemma {:induction false} ScanExponentDigits(s: Bytes, p: nat, sign: Bytes, d: Bytes)
    requires At(s, p, 0x65) || At(s, p, 0x45)
    requires sign == [] || sign == [0x2b] || sign == [0x2d]
    requires AllDigits(d) && d != [] && Occurs(s, p + 1, sign) && Occurs(s, p + 1 + |sign|, d) && !DigitAt(s, p + 1 + |sign| + |d|)
    ensures var x: int := DecimalValue(d);
            ScanExponent(s, p) == Some((p + 1 + |sign| + |d|, if sign == [0x2d] then -x else x))
  {
    hide DecimalValue;
    var q := p + 1 + |sign|;
    OccursAt(s, q, d, 0);
    if sign != [] {
      OccursAt(s, p + 1, sign, 0);
    }
    DigitsEndIs(s, q, q + |d|);
  }

  lemma {:induction false} OccursFits(s: Bytes, p: nat, t: Bytes)
    requires Occurs(s, p, t)
    ensures p + |t| <= |s|
  {
  }

  lemma {:induction false} NoExponent(s: Bytes, p: nat)
    requires p <= |s| && !At(s, p, 0x65) && !At(s, p, 0x45)
    ensures ScanExponent(s, p) == Some((p, 0))
  {
  }

  lemma {:induction false} ScanTailText(s: Bytes, p: nat, t: Tail)
    requires p <= |s| && WellFormedTail(t) && Occurs(s, p, TailText(t)) && !DigitAt(s, p + |TailText(t)|)
    requires t.Plain? ==> !At(s, p, 0x65) && !At(s, p, 0x45)
    ensures ScanExponent(s, p) == Some((p + |TailText(t)|, TailValue(t)))
  {
    hide Occurs, DecimalValue, ScanExponent;
    OccursFits(s, p, TailText(t));
    if t.Plain? {
      NoExponent(s, p);
    } else {
      OccursSplit(s, p, [t.mark], t.sign + t.digits);
      OccursSplit(s, p + 1, t.sign, t.digits);
      OccursAt(s, p, [t.mark], 0);
      ScanExponentDigits(s, p, t.sign, t.digits);
    }
  }

  /** Where the parts of a numeral lie. */
  lemma {:induction false} NumeralParts(s: Bytes, p: nat, n: Numeral, a: nat, b: nat, c: nat)
    requires WellFormed(n) && Occurs(s, p, NumeralText(n))
    requires a == p + |Sign(n.negative)| && b == a + |n.whole| && c == b + |Point(n.fraction)|
    ensures Occurs(s, p, Sign(n.negative)) && Occurs(s, a, n.whole)
    ensures Occurs(s, b, Point(n.fraction)) && Occurs(s, c, TailText(n.tail))
    ensures p + |NumeralText(n)| == c + |TailText(n.tail)|
  {
    hide DecimalValue, DecimalDigits, Occurs, Sign, Point, TailText, WellFormed;
    OccursSplit(s, p, Sign(n.negative), n.whole + (Point(n.fraction) + TailText(n.tail)));
    OccursSplit(s, a, n.whole, Point(n.fraction) + TailText(n.tail));
    OccursSplit(s, b, Point(n.fraction), TailText(n.tail));
  }

  /** The byte after each part cannot be taken for more of it. */
  lemma {:induction false} PartsEnd(s: Bytes, n: Numeral, b: nat, c: nat)
    requires c == b + |Point(n.fraction)| && WellFormed(n)
    requires Occurs(s, b, Point(n.fraction)) && Occurs(s, c, TailText(n.tail))
    requires Ends(n, s, c + |TailText(n.tail)|)
    ensures !DigitAt(s, b) && !DigitAt(s, c) && (n.fraction == [] ==> !At(s, b, 0x2e))
    ensures n.tail.Plain? ==> !At(s, c, 0x65) && !At(s, c, 0x45)
    ensures !DigitAt(s, c + |TailText(n.tail)|)
  {
    if n.tail.Scientific? {
      OccursAt(s, c, TailText(n.tail), 0);
    }
    if n.fraction != [] {
      OccursAt(s, b, Point(n.fraction), 0);
    }
  }

  lemma {:induction false} ScanGlue(s: Bytes, p: nat, n: Numeral, a: nat, b: nat, c: nat, e: nat)
    requires WellFormed(n) && p <= a <= b <= c <= e <= |s|
    requires At(s, p, 0x2d) == n.negative && a == (if n.negative then p + 1 else p)
    requires ScanWhole(s, a) == Some(b) && s[a..b] == n.whole
    requires ScanFraction(s, b) == Some(c) && n.fraction == (if c > b then s[b + 1..c] else [])
    requires ScanExponent(s, c) == Some((e, TailValue(n.tail)))
    ensures ScanNumber(s, p) == Scanned(e, NumeralValue(n))
  {
  }

  lemma {:induction false} MinusSign(s: Bytes, p: nat, negative: bool, whole: Bytes)
    requires whole != [] && AllDigits(whole)
    requires Occurs(s, p, Sign(negative)) && Occurs(s, p + |Sign(negative)|, whole)
    ensures At(s, p, 0x2d) == negative
  {
    if negative {
      OccursAt(s, p, Sign(negative), 0);
    } else {
      OccursAt(s, p, whole, 0);
    }
  }

  lemma {:induction false} PartsFit(s: Bytes, p: nat, n: Numeral, a: nat, b: nat, c: nat)
    requires b == a + |n.whole| && c == b + |Point(n.fraction)|
    requires Occurs(s, a, n.whole) && Occurs(s, c, TailText(n.tail))
    ensures b <= |s| && s[a..b] == n.whole && c + |TailText(n.tail)| <= |s|
  {
  }

  lemma {:induction false} ScanParts(s: Bytes, p: nat, n: Numeral, a: nat, b: nat, c: nat)
    requires WellFormed(n)
    requires a == p + |Sign(n.negative)| && b == a + |n.whole| && c == b + |Point(n.fraction)|
    requires Occurs(s, p, Sign(n.negative)) && Occurs(s, a, n.whole)
    requires Occurs(s, b, Point(n.fraction)) && Occurs(s, c, TailText(n.tail))
    requires Ends(n, s, c + |TailText(n.tail)|)
    ensures ScanNumber(s, p) == Scanned(c + |TailText(n.tail)|, NumeralValue(n))
  {
    hide Occurs, DecimalValue, DecimalDigits, DigitsEnd, ScanNumber, ScanWhole, ScanFraction, ScanExponent, Point, TailText, Ends, AllDigits, DigitAt;
    PartsFit(s, p, n, a, b, c);
    PartsEnd(s, n, b, c);
    ScanWholeText(s, a, n.whole);
    ScanFractionText(s, b, n.fraction);
    ScanTailText(s, c, n.tail);
    MinusSign(s, p, n.negative, n.whole);
    ScanGlue(s, p, n, a, b, c, c + |TailText(n.tail)|);
  }

  /** A numeral of the grammar that nothing continues is scanned to its end and its value. */
  lemma {:induction false} ScanNumeral(s: Bytes, p: nat, n: Numeral)
    requires WellFormed(n) && Occurs(s, p, NumeralText(n)) && Ends(n, s, p + |NumeralText(n)|)
    ensures ScanNumber(s, p) == Scanned(p + |NumeralText(n)|, NumeralValue(n))
  {
    hide Ends, Occurs, WellFormed, NumeralText, NumeralValue, Sign, Point, TailText, ScanNumber;
    var a := p + |Sign(n.negative)|;
    var b := a + |n.whole|;
    var c := b + |Point(n.fraction)|;
    NumeralParts(s, p, n, a, b, c);
    ScanParts(s, p, n, a, b, c);
  }

  // ---- and nothing else is scanned ----

  lemma {:induction false} WholeScanned(s: Bytes, p: nat)
    requires p <= |s| && ScanWhole(s, p).Some?
    ensures WholePart(s[p..ScanWhole(s, p).value]) && !DigitAt(s, ScanWhole(s, p).value)
  {
    assert s[p..ScanWhole(s, p).value][0] == s[p];
  }

  lemma {:induction false} FractionScanned(s: Bytes, p: nat) returns (fraction: Bytes)
    requires p <= |s| && ScanFraction(s, p).Some? && !DigitAt(s, p)
    ensures var e := ScanFraction(s, p).value;
            && AllDigits(fraction) && fraction == (if e > p then s[p + 1..e] else [])
            && s[p..e] == Point(fraction) && !DigitAt(s, e) && (fraction == [] ==> e == p && !At(s, e, 0x2e))
  {
    var e := ScanFraction(s, p).value;
    fraction := if e > p then s[p + 1..e] else [];
    if e > p {
      assert s[p..e] == [s[p]] + s[p + 1..e];
    }
  }

  lemma {:induction false} ExponentScanned(s: Bytes, p: nat) returns (t: Tail)
    requires p <= |s| && ScanExponent(s, p).Some? && !DigitAt(s, p)
    ensures var (e, x) := ScanExponent(s, p).value;
            && WellFormedTail(t) && TailValue(t) == x && s[p..e] == TailText(t)
            && !DigitAt(s, e) && (t.Plain? ==> e == p && !At(s, e, 0x65) && !At(s, e, 0x45))
  {
    hide DecimalValue;
    if !(At(s, p, 0x65) || At(s, p, 0x45)) {
      t := Plain;
    } else {
      var q := if At(s, p + 1, 0x2b) || At(s, p + 1, 0x2d) then p + 2 else p + 1;
      var e := DigitsEnd(s, q);
      t := Scientific(s[p], s[p + 1..q], s[q..e]);
      assert s[p..e] == [s[p]] + (s[p + 1..q] + s[q..e]);
      assert q == p + 2 ==> s[p + 1..q] == [s[p + 1]];
    }
  }

  /** What is scanned is a numeral of the grammar, with its value, and nothing after continues it. */
  lemma {:induction false} ScannedIsNumeral(s: Bytes, p: nat) returns (n: Numeral)
    requires p <= |s| && ScanNumber(s, p).Scanned?
    ensures WellFormed(n) && Occurs(s, p, NumeralText(n)) && Ends(n, s, p + |NumeralText(n)|)
    ensures ScanNumber(s, p) == Scanned(p + |NumeralText(n)|, NumeralValue(n))
  {
    hide DecimalValue, ScanWhole, ScanFraction, ScanExponent, ScanNumber, WellFormedTail, WholePart, TailText, Point, TailValue, AllDigits, DigitAt, Occurs, Sign;
    var negative := At(s, p, 0x2d);
    var a := if negative then p + 1 else p;
    ScanSteps(s, p, a);
    var b := ScanWhole(s, a).value;
    var c := ScanFraction(s, b).value;
    var e := ScanExponent(s, c).value.0;
    WholeScanned(s, a);
    var fraction := FractionScanned(s, b);
    var tail := ExponentScanned(s, c);
    n := Numeral(negative, s[a..b], fraction, tail);
    SignAt(s, p, a);
    Joined(s, p, a, b, c, e);
    OccursSpan(s, p, e);
    ScanGlue(s, p, n, a, b, c, e);
  }

  lemma {:induction false} ScanSteps(s: Bytes, p: nat, a: nat)
    requires p <= |s| && ScanNumber(s, p).Scanned? && a == (if At(s, p, 0x2d) then p + 1 else p)
    ensures a <= |s| && ScanWhole(s, a).Some? && ScanFraction(s, ScanWhole(s, a).value).Some?
    ensures ScanExponent(s, ScanFraction(s, ScanWhole(s, a).value).value).Some?
  {
    hide DecimalValue, ScanWhole, ScanFraction, ScanExponent;
  }

  lemma {:induction false} SignAt(s: Bytes, p: nat, a: nat)
    requires p <= |s| && a == if At(s, p, 0x2d) then p + 1 else p
    ensures a <= |s| && s[p..a] == Sign(At(s, p, 0x2d))
  {
  }

  lemma {:induction false} OccursSpan(s: Bytes, p: nat, e: nat)
    requires p <= e <= |s|
    ensures Occurs(s, p, s[p..e])
  {
  }

  lemma {:induction false} Joined(s: Bytes, p: nat, a: nat, b: nat, c: nat, e: nat)
    requires p <= a <= b <= c <= e <= |s|
    ensures s[p..e] == s[p..a] + (s[a..b] + (s[b..c] + s[c..e]))
  {
  }

  /** The scanner accepts exactly the grammar, with its values. */
  lemma {:induction false} ScanIff(s: Bytes, p: nat, end: nat, d: Decimal)
    requires p <= |s|
    ensures ScanNumber(s, p) == Scanned(end, d) <==>
              exists n: Numeral :: WellFormed(n) && Occurs(s, p, NumeralText(n)) && end == p + |NumeralText(n)|
                                   && d == NumeralValue(n) && Ends(n, s, end)
  {
    hide ScanNumber, WellFormed, Occurs, NumeralText, NumeralValue, Ends;
    if ScanNumber(s, p) == Scanned(end, d) {
      var n := ScannedIsNumeral(s, p);
    }
    if n: Numeral :| WellFormed(n) && Occurs(s, p, NumeralText(n)) && end == p + |NumeralText(n)|
                     && d == NumeralValue(n) && Ends(n, s, end)
    {
      ScanNumeral(s, p, n);
    }
  }

  lemma {:induction false} PlainTail()
    ensures WellFormedTail(Plain) && TailValue(Plain) == 0
  {
  }

  /** A coefficient scaled up by a lower exponent. */
  lemma {:induction false} SameScaled(negative: bool, c: nat, e: int, k: nat)
    ensures SameValue(Decimal(negative, c * Pow10(k), e - k), Decimal(negative, c, e))
  {
    assert Pow10(0) == 1;
    var x := c * Pow10(k);
    assert x * 1 == x;
  }

  /** The layout of a number keeps its exact value. */
  lemma {:induction false} LayoutKeepsValue(t: Shortest)
    requires WellFormedShortest(t)
    ensures WellFormed(LayoutNumeral(t)) && SameValue(NumeralValue(LayoutNumeral(t)), ShortestValue(t))
  {
    hide DecimalValue, DecimalDigits, ExponentTail, TailValue, WellFormedTail, SameValue, Pow10;
    var digits := t.whole + t.fraction;
    var k := |t.whole| + t.exponent;
    var n := LayoutNumeral(t);
    var value := ShortestValue(t);
    PlainTail();
    if 0 < k <= 21 && k >= |digits| {
      TrailingZeros(digits, k - |digits|);
      assert n.whole + n.fraction == n.whole;
      SameScaled(t.negative, DecimalValue(digits), value.exponent, k - |digits|);
    } else {
      if -6 < k <= 0 {
        assert n.whole + n.fraction == Zeros(1 - k) + digits;
        LeadingZeros(1 - k, digits);
      } else {
        assert n.whole + n.fraction == digits;
      }
      Pow10Zero();
      SameScaled(t.negative, DecimalValue(digits), value.exponent, 0);
    }
  }

  lemma {:induction false} Pow10Zero()
    ensures Pow10(0) == 1
  {
  }

  const ZERO := Numeral(false, [0x30], [], Plain)

  lemma {:induction false} ZeroNumeral()
    ensures WellFormed(ZERO) && NumeralText(ZERO) == [0x30] && NumeralValue(ZERO) == Decimal(false, 0, 0)
  {
    assert [0x30][..0] == [] && [0x30] + [] == [0x30];
  }

  /** The text of a finite double is a numeral that `strtod` takes back to it; -0 goes to 0. */
  lemma {:induction false} FormatIsNumeral(lib: FloatLibrary, v: Double) returns (n: Numeral)
    requires Lawful(lib) && v.Finite?
    ensures WellFormed(n) && FormatNumber(lib, v) == NumeralText(n)
    ensures lib.strtod(NumeralValue(n)) == if v.magnitude == 0 then Finite(false, 0) else v
  {
    hide NumeralText, LayoutNumeral;
    if v.magnitude == 0 {
      ZeroNumeral();
      n := ZERO;
    } else {
      LayoutKeepsValue(lib.toChars(v));
      n := LayoutNumeral(lib.toChars(v));
    }
  }

  /** Reading back the text of a finite double gives that double; -0 reads back as 0. */
  lemma {:induction false} FormatScans(lib: FloatLibrary, s: Bytes, p: nat, v: Double)
    requires Lawful(lib) && v.Finite?
    requires Occurs(s, p, FormatNumber(lib, v)) && Delimited(s, p + |FormatNumber(lib, v)|)
    ensures var r := ScanNumber(s, p);
            && r.Scanned? && r.end == p + |FormatNumber(lib, v)|
            && lib.strtod(r.value) == (if v.magnitude == 0 then Finite(false, 0) else v)
  {
    hide Occurs, ScanNumber, NumeralText, FormatNumber, Lawful;
    var n := FormatIsNumeral(lib, v);
    ScanNumeral(s, p, n);
  }

  lemma {:induction false} NumeralTextAscii(n: Numeral)
    requires WellFormed(n)
    ensures NumeralText(n) != [] && (NumeralText(n)[0] == 0x2d || IsDigit(NumeralText(n)[0]))
    ensures forall b :: b in NumeralText(n) ==> b < 0x80
  {
    hide DecimalValue, DecimalDigits;
    assert NumeralText(n)[0] == if n.negative then 0x2d else n.whole[0];
    assert forall b :: b in n.whole ==> b < 0x80;
    assert forall b :: b in n.fraction ==> b < 0x80;
    assert forall b :: b in TailText(n.tail) ==> b < 0x80;
  }

  // ---- the library facts can be met ----

  /** A library whose doubles stand for the integers below `INFINITE`; it rounds towards zero
      and overflows to infinity. */
  function Floored(d: Decimal): nat {
    if d.exponent >= 0 then Times(d.coefficient, Pow10(d.exponent)) else Over(d.coefficient, Pow10(-d.exponent))
  }

  function Times(c: nat, p: nat): (r: nat) {
    Radix.MulMonotone(c, 0, p);
    c * p
  }

  function Over(c: nat, p: nat): (r: nat)
    requires p >= 1
  {
    c / p
  }

  lemma {:induction false} Pow10Add(m: nat, n: nat)
    ensures Pow10(m + n) == Pow10(m) * Pow10(n)
  {
    Radix.PowAdd(10, m, n);
  }

  lemma {:induction false} CancelFactor(c: nat, k: nat, p: nat)
    requires k >= 1 && p >= 1
    ensures p * k >= 1 && c * k / (p * k) == c / p
  {
    var q, r := c / p, c % p;
    assert c == p * q + r;
    Radix.MulMonotone(p, 1, k);
    Radix.MulMonotone(k, r + 1, p);
    assert k * (r + 1) == r * k + k;
    assert (p * q + r) * k == q * (p * k) + r * k;
    Radix.DivMod(q, p * k, r * k);
  }

  /** `d` is `e` with its exponent lowered by `k`. */
  lemma {:induction false} LoweredFloor(d: Decimal, e: Decimal, k: nat)
    requires e.exponent == d.exponent + k && d.coefficient == e.coefficient * Pow10(k)
    ensures Floored(d) == Floored(e)
  {
    hide Pow10;
    if d.exponent >= 0 {
      Pow10Add(k, d.exponent);
      Radix.Associate(e.coefficient, Pow10(k), Pow10(d.exponent));
    } else if e.exponent < 0 {
      Pow10Add(-e.exponent, k);
      CancelFactor(e.coefficient, Pow10(k), Pow10(-e.exponent));
    } else {
      Pow10Add(e.exponent, -d.exponent);
      Radix.Associate(e.coefficient, Pow10(e.exponent), Pow10(-d.exponent));
      Radix.DivMod(e.coefficient * Pow10(e.exponent), Pow10(-d.exponent), 0);
    }
  }

  function FloorDouble(d: Decimal): Double {
    var m := Floored(d);
    if m < INFINITE then Finite(d.negative, m) else Infinite(d.negative)
  }

  function IntegerDigits(v: Double): Shortest {
    if v.Finite? then Shortest(v.negative, DecimalDigits(v.magnitude), [], 0) else Shortest(false, [0x30], [], 0)
  }

  lemma {:induction false} LawfulExists() returns (lib: FloatLibrary)
    ensures Lawful(lib) && lib.strtod(Decimal(false, INFINITE, 0)) == Infinite(false)
  {
    hide Floored, DecimalDigits;
    FloorWhole(false, INFINITE);
    lib := FloatLibrary(IntegerDigits, FloorDouble);
    forall d, e | SameValue(d, e) ensures lib.strtod(d) == lib.strtod(e) {
      assert Pow10(0) == 1;
      if d.exponent <= e.exponent {
        LoweredFloor(d, e, e.exponent - d.exponent);
      } else {
        LoweredFloor(e, d, d.exponent - e.exponent);
      }
    }
    forall n, e ensures lib.strtod(Decimal(n, 0, e)) == Finite(n, 0) {
      FloorZero(n, e);
    }
    forall v: Double | v.Finite? && v.magnitude != 0
      ensures WellFormedShortest(lib.toChars(v)) && lib.strtod(ShortestValue(lib.toChars(v))) == v
    {
      assert DecimalDigits(v.magnitude) + [] == DecimalDigits(v.magnitude);
      FloorWhole(v.negative, v.magnitude);
    }
  }

  lemma {:induction false} FloorZero(n: bool, e: int)
    ensures Floored(Decimal(n, 0, e)) == 0
  {
    if e < 0 {
      Radix.DivMod(0, Pow10(-e), 0);
    }
  }

  lemma {:induction false} FloorWhole(n: bool, m: nat)
    ensures Floored(Decimal(n, m, 0)) == m
  {
    assert Pow10(0) == 1;
  }
}
