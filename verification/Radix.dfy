/** Positional notation, and changing its base in place in a digit buffer. */
module Radix {
  import opened Prelude

  function Pow(b: nat, n: nat): nat {
    if n == 0 then 1 else b * Pow(b, n - 1)
  }

  /** The number written by `s`, most significant digit first. */
  function Value(s: Bytes, base: nat): nat {
    if s == [] then 0 else Value(s[..|s| - 1], base) * base + s[|s| - 1]
  }

  predicate Below(s: Bytes, base: nat) { forall i :: 0 <= i < |s| ==> s[i] < base }

  /** The digits of `n`, without a leading zero; zero has no digits. */
  function Digits(n: nat, base: nat): (s: Bytes)
    requires 2 <= base <= 256
    ensures Below(s, base) && (s != [] ==> s[0] != 0)
    ensures Value(s, base) == n
    decreases n
  {
    if n == 0 then []
    else
      DivShrinks(n, base);
      var high := Digits(n / base, base);
      var s := high + [n % base];
      assert s[..|s| - 1] == high;
      s
  }

  lemma {:induction false} DivShrinks(n: nat, base: nat)
    requires n > 0 && base >= 2
    ensures 0 <= n / base < n && 0 <= n % base < base && n == n / base * base + n % base
  {
    var q := n / base;
    assert n == base * q + n % base;
    MulMonotone(q, 2, base);
  }

  function LeadingZeros(s: Bytes): (z: nat)
    ensures z <= |s| && (forall i :: 0 <= i < z ==> s[i] == 0) && (z < |s| ==> s[z] != 0)
  {
    if s != [] && s[0] == 0 then 1 + LeadingZeros(s[1..]) else 0
  }

  /** The same number in another base, keeping one zero digit for each leading zero. */
  function Convert(s: Bytes, from: nat, to: nat): Bytes
    requires 2 <= to <= 256
  {
    Repeat<Byte>(0, LeadingZeros(s)) + Digits(Value(s, from), to)
  }

  // ---- powers ----

  lemma {:induction false} PowPositive(b: nat, n: nat)
    requires b >= 1
    ensures Pow(b, n) >= 1
  {
    if n > 0 {
      PowPositive(b, n - 1);
      assert b * Pow(b, n - 1) >= 1;
    }
  }

  lemma {:induction false} PowAdd(b: nat, m: nat, n: nat)
    ensures Pow(b, m + n) == Pow(b, m) * Pow(b, n)
  {
    if m > 0 {
      PowAdd(b, m - 1, n);
      Associate(b, Pow(b, m - 1), Pow(b, n));
    }
  }

  lemma {:induction false} Associate(a: int, b: int, c: int)
    ensures a * (b * c) == a * b * c
  {
  }

  lemma {:induction false} PowMonotone(b: nat, m: nat, n: nat)
    requires b >= 1 && m <= n
    ensures Pow(b, m) <= Pow(b, n)
  {
    PowAdd(b, m, n - m);
    PowPositive(b, m);
    PowPositive(b, n - m);
    MulMonotone(Pow(b, m), 1, Pow(b, n - m));
  }

  lemma {:induction false} MulMonotone(a: nat, x: nat, y: nat)
    requires x <= y
    ensures a * x <= a * y
  {
    assert a * (y - x) >= 0;
  }

  // ---- values ----

  lemma {:induction false} ValueConcat(a: Bytes, b: Bytes, base: nat)
    ensures Value(a + b, base) == Value(a, base) * Pow(base, |b|) + Value(b, base)
    decreases |b|
  {
    if b == [] {
      assert a + b == a;
    } else {
      var h, x := b[..|b| - 1], b[|b| - 1];
      assert (a + b)[..|a + b| - 1] == a + h;
      ValueConcat(a, h, base);
      Distribute(Value(a, base), Pow(base, |h|), Value(h, base), base);
    }
  }

  lemma {:induction false} Distribute(v: int, p: int, w: int, base: int)
    ensures (v * p + w) * base == v * (base * p) + w * base
  {
  }

  lemma {:induction false} ValueZeros(n: nat, base: nat)
    ensures Value(Repeat<Byte>(0, n), base) == 0
  {
    if n > 0 {
      assert Repeat<Byte>(0, n)[..n - 1] == Repeat<Byte>(0, n - 1);
      ValueZeros(n - 1, base);
    }
  }

  lemma {:induction false} ValueBound(s: Bytes, base: nat)
    requires Below(s, base) && base >= 1
    ensures Value(s, base) < Pow(base, |s|)
  {
    if s != [] {
      var h := s[..|s| - 1];
      ValueBound(h, base);
      var v, p := Value(h, base), Pow(base, |h|);
      MulMonotone(base, v + 1, p);
      assert v * base + base == base * (v + 1);
    }
  }

  /** A digit string without leading zeros is the digits of its value. */
  lemma {:induction false} DigitsValue(s: Bytes, base: nat)
    requires 2 <= base <= 256 && Below(s, base) && (s != [] ==> s[0] != 0)
    ensures Digits(Value(s, base), base) == s
  {
    if s != [] {
      var h, x := s[..|s| - 1], s[|s| - 1];
      var v := Value(h, base);
      DigitsValue(h, base);
      DivMod(v, base, x);
      assert v == 0 ==> h == [];
      assert v * base + x > 0 by {
        if h == [] {
          assert x == s[0];
        } else {
          assert v * base >= 1 * base by { MulMonotone(base, 1, v); }
        }
      }
    }
  }

  lemma {:induction false} DivMod(v: nat, base: nat, x: nat)
    requires x < base
    ensures (v * base + x) / base == v && (v * base + x) % base == x
  {
    var n := v * base + x;
    Quotient(n / base, v, base, n % base, x);
  }

  lemma {:induction false} Quotient(q: int, v: int, base: nat, r: nat, x: nat)
    requires x < base && r < base && base * q + r == v * base + x
    ensures q == v && r == x
  {
    var d := q - v;
    assert base * q == base * v + base * d;
    assert base * d == x - r;
    assert base * -d == -(base * d);
    if d >= 1 {
      Scale(base, d);
    }
    if d <= -1 {
      Scale(base, -d);
    }
  }

  lemma {:induction false} Scale(base: nat, d: nat)
    requires d >= 1
    ensures base * d >= base
  {
    assert base * (d - 1) >= 0;
  }

  lemma {:induction false} SplitZeros(s: Bytes, base: nat)
    ensures var z := LeadingZeros(s); s == Repeat<Byte>(0, z) + s[z..] && Value(s, base) == Value(s[z..], base)
  {
    var z := LeadingZeros(s);
    assert s == Repeat<Byte>(0, z) + s[z..];
    ValueConcat(Repeat<Byte>(0, z), s[z..], base);
    ValueZeros(z, base);
  }

  /** Stripping leading zeros leaves the digits of the value. */
  lemma {:induction false} StripZeros(s: Bytes, base: nat)
    requires 2 <= base <= 256 && Below(s, base)
    ensures s[LeadingZeros(s)..] == Digits(Value(s, base), base)
  {
    SplitZeros(s, base);
    DigitsValue(s[LeadingZeros(s)..], base);
  }

  lemma {:induction false} LeadingZerosPadded(z: nat, s: Bytes)
    requires s != [] ==> s[0] != 0
    ensures LeadingZeros(Repeat<Byte>(0, z) + s) == z
  {
    var t := Repeat<Byte>(0, z) + s;
    if z > 0 {
      assert t[1..] == Repeat<Byte>(0, z - 1) + s;
      LeadingZerosPadded(z - 1, s);
    }
  }

  /** Converting there and back gives the same digits, leading zeros included. */
  lemma {:induction false} ConvertBack(s: Bytes, from: nat, to: nat)
    requires 2 <= from <= 256 && 2 <= to <= 256 && Below(s, from)
    ensures Below(Convert(s, from, to), to)
    ensures Convert(Convert(s, from, to), to, from) == s
  {
    hide Digits;
    var z := LeadingZeros(s);
    var d := Digits(Value(s, from), to);
    var t := Convert(s, from, to);
    LeadingZerosPadded(z, d);
    SplitZeros(t, to);
    assert t[z..] == d;
    StripZeros(s, from);
    SplitZeros(s, from);
  }

  // ---- buffers ----

  /** buffer := buffer * factor + addend, digit by digit from the least significant end.
      Only the last `window` digits can be nonzero; the loop stops as soon as nothing
      further can change, and returns how far it went. */
  method MulAdd(buffer: array<Byte>, base: nat, factor: nat, addend: nat, window: nat) returns (reach: nat, carry: nat)
    requires 2 <= base <= 256 && addend < factor && window <= buffer.Length
    requires Below(buffer[..], base)
    requires forall k :: 0 <= k < buffer.Length - window ==> buffer[k] == 0
    modifies buffer
    ensures Below(buffer[..], base)
    ensures window <= reach <= buffer.Length
    ensures forall k :: 0 <= k < buffer.Length - reach ==> buffer[k] == 0
    ensures carry < factor && (reach < buffer.Length ==> carry == 0)
    ensures Value(buffer[..], base) + carry * Pow(base, buffer.Length) == Value(old(buffer[..]), base) * factor + addend
  {
    hide Value, Pow;
    var n := buffer.Length;
    ghost var was := buffer[..];
    assert Value([], base) + addend * Pow(base, 0) == Value([], base) * factor + addend by { EmptyStep(base, factor, addend); }
    carry := addend;
    reach := 0;
    assert buffer[n..] == [] && was[n..] == [];
    while (carry != 0 || reach < window) && reach < n
      invariant 0 <= reach <= n && carry < factor
      invariant Below(buffer[..], base)
      invariant buffer[..n - reach] == was[..n - reach]
      invariant Value(buffer[n - reach..], base) + carry * Pow(base, reach) == Value(was[n - reach..], base) * factor + addend
    {
      var i := n - reach - 1;
      ghost var rest := buffer[i + 1..];
      assert buffer[i] == buffer[..n - reach][i] == was[..n - reach][i];
      assert was[i..] == [was[i]] + was[i + 1..];
      var more := MulAddDigit(buffer, i, base, factor, carry);
      assert buffer[i..] == [buffer[i]] + rest;
      assert buffer[..i] == was[..i];
      CarryStep(rest, was[i + 1..], buffer[i], was[i], carry, more, factor, addend, base);
      carry := more;
      reach := reach + 1;
    }
    assert buffer[..n - reach] == was[..n - reach];
    forall k | 0 <= k < n - reach ensures buffer[k] == 0 {
      assert buffer[k] == buffer[..n - reach][k] == was[k];
    }
    PadValue(buffer[..], n - reach, base);
    PadValue(was, n - reach, base);
  }

  method MulAddDigit(buffer: array<Byte>, i: nat, base: nat, factor: nat, carry: nat) returns (more: nat)
    requires 2 <= base <= 256 && i < buffer.Length && carry < factor && Below(buffer[..], base)
    modifies buffer
    ensures buffer[..] == old(buffer[..])[i := buffer[i]] && Below(buffer[..], base)
    ensures more < factor && base * more + buffer[i] == carry + factor * old(buffer[i])
  {
    var digit;
    more, digit := Divide(carry + factor * buffer[i], base);
    CarryBound(carry, factor, buffer[i], base, more, digit);
    buffer[i] := digit;
  }

  method Divide(n: nat, base: nat) returns (quotient: nat, remainder: nat)
    requires base >= 1
    ensures base * quotient + remainder == n && remainder < base
  {
    quotient, remainder := n / base, n % base;
  }

  lemma {:induction false} CarryBound(carry: nat, factor: nat, d: nat, base: nat, q: nat, r: nat)
    requires carry < factor && d < base && base * q + r == carry + factor * d
    ensures q < factor
  {
    MulMonotone(factor, d + 1, base);
    assert factor * (d + 1) == factor * d + factor;
    if q >= factor {
      MulMonotone(base, factor, q);
    }
  }

  lemma {:induction false} EmptyStep(base: nat, factor: nat, addend: nat)
    ensures Value([], base) + addend * Pow(base, 0) == Value([], base) * factor + addend
  {
  }

  lemma {:induction false} FrontDigit(x: Byte, s: Bytes, base: nat)
    ensures Value([x] + s, base) == x * Pow(base, |s|) + Value(s, base)
  {
    ValueConcat([x], s, base);
    assert [x][..0] == [];
    assert Value([x], base) == x;
  }

  /** A number with a leading digit is at least the power of its place. */
  lemma {:induction false} LeadingDigit(s: Bytes, base: nat)
    requires s != [] && s[0] != 0
    ensures Value(s, base) >= Pow(base, |s| - 1)
  {
    hide Value, Pow;
    assert s == [s[0]] + s[1..];
    FrontDigit(s[0], s[1..], base);
    var lead: nat := s[0];
    MulMonotone(Pow(base, |s| - 1), 1, lead);
  }

  /** One digit of the carry loop keeps the equation between the processed suffixes. */
  lemma {:induction false} CarryStep(rest: Bytes, old': Bytes, x: Byte, d: Byte, carry: nat, more: nat, factor: nat, addend: nat, base: nat)
    requires base >= 1 && |rest| == |old'| && base * more + x == carry + factor * d
    requires Value(rest, base) + carry * Pow(base, |rest|) == Value(old', base) * factor + addend
    ensures Value([x] + rest, base) + more * Pow(base, |rest| + 1) == Value([d] + old', base) * factor + addend
  {
    FrontDigit(x, rest, base);
    FrontDigit(d, old', base);
    CarryArithmetic(x, Pow(base, |rest|), Value(rest, base), Value(old', base), more, base, carry, factor, d, addend);
  }

  lemma {:induction false} CarryArithmetic(x: int, P: int, V: int, W: int, q: int, base: int, carry: int, factor: int, d: int, addend: int)
    requires base * q + x == carry + factor * d
    requires V + carry * P == W * factor + addend
    ensures x * P + V + q * (base * P) == (d * P + W) * factor + addend
  {
    var total := carry + factor * d;
    assert total * P == carry * P + factor * d * P;
    assert total * P == (base * q + x) * P;
    assert (base * q + x) * P == base * q * P + x * P;
    assert q * (base * P) == base * q * P;
    assert (d * P + W) * factor == factor * d * P + W * factor;
  }

  lemma {:induction false} PadValue(s: Bytes, k: nat, base: nat)
    requires k <= |s| && forall i :: 0 <= i < k ==> s[i] == 0
    ensures Value(s, base) == Value(s[k..], base)
  {
    assert s == Repeat<Byte>(0, k) + s[k..];
    ValueConcat(Repeat<Byte>(0, k), s[k..], base);
    ValueZeros(k, base);
  }
}
