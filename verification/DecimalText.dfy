/** Decimal digits as text. */
module DecimalText {
  import opened Prelude
  import opened Radix

  predicate IsDigit(b: int) { 0x30 <= b <= 0x39 }

  predicate AllDigits(s: Bytes) { forall i :: 0 <= i < |s| ==> IsDigit(s[i]) }

  /** The digits a digit string is written with. */
  function Figures(s: Bytes): (d: Bytes)
    requires AllDigits(s)
    ensures |d| == |s| && Below(d, 10)
  {
    seq(|s|, i requires 0 <= i < |s| => s[i] - 0x30)
  }

  /** The number written by a digit string. */
  function DecimalValue(s: Bytes): nat
    requires AllDigits(s)
  {
    Value(Figures(s), 10)
  }

  lemma {:induction false} NoDigits()
    ensures DecimalValue([]) == 0
  {
  }

  lemma {:induction false} LastDigit(s: Bytes)
    requires s != [] && AllDigits(s)
    ensures AllDigits(s[..|s| - 1])
    ensures DecimalValue(s) == 10 * DecimalValue(s[..|s| - 1]) + (s[|s| - 1] - 0x30)
  {
    assert Figures(s)[..|s| - 1] == Figures(s[..|s| - 1]);
  }

  lemma {:induction false} NextDigit(s: Bytes, i: nat)
    requires i < |s| && AllDigits(s[..i]) && IsDigit(s[i])
    ensures AllDigits(s[..i + 1]) && DecimalValue(s[..i + 1]) == DecimalValue(s[..i]) * 10 + (s[i] - 0x30)
  {
    hide DecimalValue;
    assert s[..i + 1][..i] == s[..i];
    LastDigit(s[..i + 1]);
  }

  function FigureText(d: Bytes): (s: Bytes)
    requires Below(d, 10)
    ensures |s| == |d| && AllDigits(s) && Figures(s) == d && forall i :: 0 <= i < |d| ==> s[i] == d[i] + 0x30
  {
    var s := seq(|d|, i requires 0 <= i < |d| => d[i] + 0x30);
    assert Figures(s) == d;
    s
  }

  /** The shortest digit string of a number. */
  function DecimalDigits(n: nat): (s: Bytes)
    ensures s != [] && AllDigits(s) && (n > 0 ==> s[0] != 0x30) && (n == 0 ==> s == [0x30])
    ensures DecimalValue(s) == n
  {
    hide Digits, Value;
    NoValue();
    ZeroText();
    if n == 0 then [0x30] else FigureText(Digits(n, 10))
  }

  lemma {:induction false} ZeroText()
    ensures AllDigits([0x30]) && DecimalValue([0x30]) == 0
  {
    hide Value;
    ValueZeros(1, 10);
    assert Figures([0x30]) == Repeat<Byte>(0, 1);
  }

  /** A digit string is the shortest one of its number unless it starts with a redundant zero. */
  lemma {:induction false} ShortestDigits(s: Bytes)
    requires s != [] && AllDigits(s)
    ensures DecimalDigits(DecimalValue(s)) == s <==> (s[0] == 0x30 ==> s == [0x30])
  {
    hide Digits, Value;
    if s[0] != 0x30 {
      DigitsValue(Figures(s), 10);
      NoValue();
      assert FigureText(Figures(s)) == s;
    } else if s == [0x30] {
      assert DecimalDigits(0) == s;
    }
  }

  lemma {:induction false} NoValue()
    ensures Digits(0, 10) == [] && Value([], 10) == 0
  {
  }
}
