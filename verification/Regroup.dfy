/**
 Regrouping bits: 8-bit bytes to 5- or 6-bit symbols and back.

 Several loops do this.  Two keep a 32-bit accumulator that is never masked, so its
 high bits overflow; the others mask it after every symbol.  All are specified by
 the number their input writes: the output writes the same number, shifted left by
 the padding (or right by the bits dropped).
 */
module Regroup {
  import opened Prelude
  import opened Radix

  function P2(n: nat): (r: nat)
    ensures r >= 1
  {
    PowPositive(2, n);
    Pow(2, n)
  }

  /** The last `count` digits of `n`, leading zeros included. */
  function Fixed(n: nat, base: nat, count: nat): (r: Bytes)
    requires 1 <= base <= 256
    ensures |r| == count && Below(r, base)
    decreases count
  {
    if count == 0 then [] else Fixed(n / base, base, count - 1) + [n % base]
  }

  lemma {:induction false} FixedValue(n: nat, base: nat, count: nat)
    requires 1 <= base <= 256 && n < Pow(base, count)
    ensures Value(Fixed(n, base, count), base) == n
    decreases count
  {
    if count > 0 {
      hide Value, Pow;
      PowStep(base, count);
      var q := High(n, base, Pow(base, count - 1));
      FixedValue(q, base, count - 1);
      ValueAppend(Fixed(q, base, count - 1), n % base, base);
    }
  }

  lemma {:induction false} PowStep(base: nat, count: nat)
    requires count > 0
    ensures Pow(base, count) == base * Pow(base, count - 1)
  {
  }

  lemma {:induction false} ValueAppend(h: Bytes, x: Byte, base: nat)
    ensures Value(h + [x], base) == Value(h, base) * base + x
  {
    assert (h + [x])[..|h|] == h;
  }

  lemma {:induction false} High(n: nat, base: nat, p: nat) returns (q: nat)
    requires base >= 1 && n < base * p
    ensures q == n / base && q < p && q * base + n % base == n
  {
    q := n / base;
    assert n == base * q + n % base;
    if q >= p {
      MulMonotone(base, p, q);
    }
  }

  lemma {:induction false} FixedOfValue(s: Bytes, base: nat)
    requires 1 <= base <= 256 && Below(s, base)
    ensures Fixed(Value(s, base), base, |s|) == s
  {
    if s != [] {
      var h, x := s[..|s| - 1], s[|s| - 1];
      FixedOfValue(h, base);
      DivMod(Value(h, base), base, x);
      assert s == h + [x];
    }
  }

  // ---- the two directions ----

  /** Symbols needed for `n` values of `from` bits. */
  function Symbols(n: nat, from: nat, to: nat): nat
    requires to >= 1
  {
    (n * from + to - 1) / to
  }

  /** All the bits, the last symbol filled up with zeros. */
  function Padded(s: Bytes, from: nat, to: nat): (r: Bytes)
    requires 1 <= to <= 8
    ensures |r| == Symbols(|s|, from, to) && Below(r, P2(to))
  {
    P2Byte(to);
    var count := Symbols(|s|, from, to);
    PaddingBits(|s| * from, to);
    Fixed(Shifted(Value(s, P2(from)), count * to - |s| * from, 0), P2(to), count)
  }

  lemma {:induction false} Divides(n: nat, to: nat)
    requires to >= 1
    ensures n / to >= 0 && 0 <= n % to < to
  {
  }

  /** The whole groups, provided the bits left over are zero. */
  function Exact(s: Bytes, from: nat, to: nat): Option<Bytes>
    requires 1 <= to <= 8
  {
    hide P2, Fixed, Value, Pow;
    P2Byte(to);
    var n := |s| * from;
    Divides(n, to);
    if Value(s, P2(from)) % P2(n % to) != 0 then None
    else Some(Fixed(Above(Value(s, P2(from)), n % to), P2(to), n / to))
  }

  lemma {:induction false} P2Byte(n: nat)
    requires n <= 8
    ensures 1 <= P2(n) <= 256 && (n == 0 ==> P2(n) == 1) && (n == 5 ==> P2(n) == 32) && (n == 6 ==> P2(n) == 64) && (n == 8 ==> P2(n) == 256)
  {
    assert Pow(2, 0) == 1 && Pow(2, 1) == 2 && Pow(2, 2) == 4 && Pow(2, 3) == 8 && Pow(2, 4) == 16;
    assert Pow(2, 5) == 32 && Pow(2, 6) == 64 && Pow(2, 7) == 128 && Pow(2, 8) == 256;
  }

  lemma {:induction false} P2Add(m: nat, n: nat)
    ensures P2(m + n) == P2(m) * P2(n)
  {
    PowAdd(2, m, n);
  }

  lemma {:induction false} PaddingBits(n: nat, to: nat)
    requires to >= 1
    ensures var c := (n + to - 1) / to; 0 <= c * to - n < to
  {
    var c := (n + to - 1) / to;
    assert n + to - 1 == to * c + (n + to - 1) % to;
  }

  // ---- arithmetic of shifts ----

  lemma {:induction false} DivDiv(n: nat, x: nat, y: nat)
    requires x >= 1 && y >= 1
    ensures x * y >= 1 && n / x / y == n / (x * y)
  {
    MulMonotone(x, 1, y);
    var a, r := DivideBy(n, x);
    var b, t := DivideBy(a, y);
    Nested(x, y, b, t, r);
    DivMod(b, x * y, x * t + r);
  }

  lemma {:induction false} DivideBy(n: nat, x: nat) returns (q: nat, r: nat)
    requires x >= 1
    ensures q == n / x && n == x * q + r && r < x
  {
    q, r := n / x, n % x;
  }

  lemma {:induction false} Nested(x: nat, y: nat, b: nat, t: nat, r: nat)
    requires r < x && t < y
    ensures x * (y * b + t) + r == b * (x * y) + (x * t + r) && x * t + r < x * y
  {
    MulMonotone(x, t + 1, y);
    assert x * (t + 1) == x * t + x;
    Associate(x, y, b);
  }

  lemma {:induction false} AddMultiple(y: int, p: nat, c: int)
    requires p >= 1
    ensures (y + p * c) / p == y / p + c && (y + p * c) % p == y % p
  {
    var q, r := (y + p * c) / p, (y + p * c) % p;
    var q', r' := y / p, y % p;
    assert y + p * c == p * q + r && y == p * q' + r';
    assert p * (q' + c) == p * q' + p * c;
    Unique(p, q, q' + c, r, r');
  }

  lemma {:induction false} Unique(p: nat, a: int, b: int, r: nat, s: nat)
    requires r < p && s < p && p * a + r == p * b + s
    ensures a == b && r == s
  {
    var d := a - b;
    assert p * a == p * b + p * d;
    assert p * -d == -(p * d);
    if d >= 1 {
      Scale(p, d);
    }
    if d <= -1 {
      Scale(p, -d);
    }
  }

  // ---- accumulators ----

  /** `n >> bits`. */
  function Above(n: nat, bits: nat): nat {
    n / P2(bits)
  }

  /** `x` and `y` agree in their low `m` bits. */
  predicate Low(x: int, y: int, m: nat) { x % P2(m) == y % P2(m) }

  /** Two's complement 32-bit wrap-around. */
  function Signed32(x: int): (r: int)
    ensures -0x8000_0000 <= r < 0x8000_0000
  {
    (x + 0x8000_0000) % 0x1_0000_0000 - 0x8000_0000
  }

  function Unsigned32(x: int): (r: int)
    ensures 0 <= r < 0x1_0000_0000
  {
    x % 0x1_0000_0000
  }

  /** `(x << from) | v`. */
  function Shifted(x: int, from: nat, v: int): (r: int)
    ensures x >= 0 && v >= 0 ==> r >= 0
  {
    if x >= 0 then MulMonotone(P2(from), 0, x); x * P2(from) + v else x * P2(from) + v
  }

  lemma {:induction false} Difference(x: int, y: int, m: nat) returns (c: int)
    requires Low(x, y, m)
    ensures x == y + P2(m) * c
  {
    hide P2;
    var p := P2(m);
    c := x / p - y / p;
    assert x == p * (x / p) + x % p && y == p * (y / p) + y % p;
    assert p * c == p * (x / p) - p * (y / p);
  }

  lemma {:induction false} SpreadShift(y: int, p: int, c: int, f: int)
    ensures (y + p * c) * f == y * f + p * f * c
  {
  }

  lemma {:induction false} LowFeed(x: int, y: int, m: nat, from: nat, v: int)
    requires Low(x, y, m)
    ensures Low(Shifted(x, from, v), Shifted(y, from, v), m + from)
  {
    hide P2;
    var c := Difference(x, y, m);
    var p, f := P2(m), P2(from);
    P2Add(m, from);
    SpreadShift(y, p, c, f);
    AddMultiple(y * f + v, p * f, c);
  }

  lemma {:induction false} LowFewer(x: int, y: int, m: nat, k: nat)
    requires Low(x, y, m) && k <= m
    ensures Low(x, y, k)
  {
    hide P2;
    var c := Difference(x, y, m);
    P2Add(k, m - k);
    Associate(P2(k), P2(m - k), c);
    AddMultiple(y, P2(k), P2(m - k) * c);
  }

  lemma {:induction false} LowMask(x: int, m: nat)
    ensures Low(x % P2(m), x, m)
  {
    hide P2;
    var p := P2(m);
    assert x == p * (x / p) + x % p;
    AddMultiple(x % p, p, x / p);
  }

  lemma {:induction false} P2Word()
    ensures P2(32) == 0x1_0000_0000
  {
    hide P2;
    P2Byte(8);
    P2Add(8, 8);
    P2Add(16, 16);
  }

  lemma {:induction false} LowWrap(x: int)
    ensures Low(Signed32(x), x, 32) && Low(Unsigned32(x), x, 32)
  {
    hide P2;
    P2Word();
    LowMask(x, 32);
    var q := (x + 0x8000_0000) / 0x1_0000_0000;
    AddMultiple(x, P2(32), -q);
  }

  lemma {:induction false} LowTransitive(x: int, y: int, z: int, m: nat)
    requires Low(x, y, m) && Low(y, z, m)
    ensures Low(x, z, m)
  {
  }

  /** Bits [b, b + t) agree when the low b + t bits do. */
  lemma {:induction false} SameGroup(x: int, y: int, b: nat, t: nat)
    requires Low(x, y, b + t)
    ensures x / P2(b) % P2(t) == y / P2(b) % P2(t)
  {
    hide P2;
    var c := Difference(x, y, b + t);
    var p, q := P2(b), P2(t);
    P2Add(b, t);
    Associate(p, q, c);
    AddMultiple(y, p, q * c);
    AddMultiple(y / p, q, c);
  }

  /** Taking in a value leaves the bits above it where they were. */
  lemma {:induction false} FeedHigh(n: nat, v: nat, from: nat, bits: nat)
    requires v < P2(from)
    ensures Above(Shifted(n, from, v), bits + from) == Above(n, bits)
  {
    hide P2;
    var f := P2(from);
    P2Add(from, bits);
    DivDiv(n * f + v, f, P2(bits));
    DivMod(n, f, v);
  }

  lemma {:induction false} Emit(out: Bytes, n: nat, acc: int, bits: nat, to: nat, m: nat)
    requires 1 <= to <= 8 && P2(to) <= 256 && bits + to <= m && Low(acc, n, m)
    requires out == Fixed(Above(n, bits + to), P2(to), |out|)
    ensures out + [acc / P2(bits) % P2(to)] == Fixed(Above(n, bits), P2(to), |out| + 1)
  {
    hide P2;
    LowFewer(acc, n, m, bits + to);
    SameGroup(acc, n, bits, to);
    P2Add(bits, to);
    DivDiv(n, P2(bits), P2(to));
  }

  /** The last symbol, its low bits filled with zeros. */
  lemma {:induction false} EmitLast(out: Bytes, n: nat, acc: int, bits: nat, to: nat)
    requires 1 <= to <= 8 && P2(to) <= 256 && bits < to && Low(acc, n, bits)
    requires out == Fixed(Above(n, bits), P2(to), |out|)
    ensures out + [Shifted(acc, to - bits, 0) % P2(to)] == Fixed(Shifted(n, to - bits, 0), P2(to), |out| + 1)
  {
    hide P2, Fixed, Shifted;
    FeedHigh(n, 0, to - bits, bits);
    LowFeed(acc, n, bits, to - bits, 0);
    P2Byte(0);
    Emit(out, Shifted(n, to - bits, 0), Shifted(acc, to - bits, 0), 0, to, to);
  }
}
