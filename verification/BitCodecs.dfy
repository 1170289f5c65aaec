/**
 Bit regrouping and the text forms built on it: base32, base64url and CIDs.

 Two of the loops keep a 32-bit accumulator that is never masked, so that its high
 bits overflow on long inputs; the others mask it after every symbol.  All of them
 are proved against the same function of the number their input writes.
 */
module BitCodecs {
  import opened Prelude
  import opened Radix
  import opened Regroup

  // ---- the loops ----

  /** The inner loop: hand out whole symbols until fewer than `to` bits are left.
      Only the low `m` bits of the accumulator need to be right. */
  method Drain(acc: int, held: nat, to: nat, sofar: Bytes, ghost n: nat, ghost m: nat) returns (out: Bytes, bits: nat)
    requires 1 <= to <= 8 && P2(to) <= 256 && held <= m && Low(acc, n, m)
    requires sofar == Fixed(Above(n, held), P2(to), |sofar|)
    ensures bits < to && |out| * to + bits == |sofar| * to + held
    ensures out == Fixed(Above(n, bits), P2(to), |out|) && bits <= held
  {
    hide P2, Fixed, Above;
    out, bits := sofar, held;
    while bits >= to
      invariant bits <= held && |out| * to + bits == |sofar| * to + held
      invariant out == Fixed(Above(n, bits), P2(to), |out|)
    {
      bits := bits - to;
      Emit(out, n, acc, bits, to, m);
      var symbol := acc / P2(bits) % P2(to);
      out := out + [symbol];
    }
  }

  lemma {:induction false} Counts(k: nat, bits: nat, to: nat, n: nat)
    requires bits < to && k * to + bits == n
    ensures k == n / to && bits == n % to
    ensures Symbols(n, 1, to) == if bits > 0 then k + 1 else k
  {
    DivMod(k, to, bits);
    if bits > 0 {
      DivMod(k + 1, to, bits - 1);
      assert n + to - 1 == (k + 1) * to + (bits - 1);
    } else {
      DivMod(k, to, to - 1);
    }
  }

  lemma {:induction false} ValueNext(s: Bytes, i: nat, from: nat)
    requires i < |s|
    ensures Value(s[..i + 1], P2(from)) == Shifted(Value(s[..i], P2(from)), from, s[i])
    ensures (i + 1) * from == i * from + from
  {
    hide P2;
    assert s[..i + 1][..i] == s[..i];
  }

  /** What has been handed out and what is still held, after reading `n` in `taken` bits. */
  predicate Reading(out: Bytes, acc: int, bits: nat, n: nat, taken: nat, to: nat, m: nat)
    requires 1 <= to <= 8
  {
    && P2(to) <= 256 && bits < to && |out| * to + bits == taken
    && out == Fixed(Above(n, bits), P2(to), |out|) && Low(acc, n, m)
  }

  lemma {:induction false} Start(to: nat, m: nat)
    requires 1 <= to <= 8
    ensures Reading([], 0, 0, 0, 0, to, m)
  {
    P2Byte(to);
  }

  lemma {:induction false} Feed(out: Bytes, acc: int, bits: nat, n: nat, taken: nat, to: nat, m: nat, from: nat, v: nat)
    requires 1 <= to <= 8 && Reading(out, acc, bits, n, taken, to, m) && v < P2(from)
    ensures out == Fixed(Above(Shifted(n, from, v), bits + from), P2(to), |out|)
    ensures Low(Shifted(acc, from, v), Shifted(n, from, v), m + from)
  {
    hide P2, Fixed, Above, Shifted;
    FeedHigh(n, v, from, bits);
    LowFeed(acc, n, m, from, v);
  }

  /** The same, through an accumulator that wraps around at 32 bits. */
  lemma {:induction false} LowWrapped(acc: int, n: nat, from: nat, v: nat)
    requires Low(acc, n, 32)
    ensures Low(Signed32(Shifted(acc, from, v)), Shifted(n, from, v), 32)
    ensures Low(Unsigned32(Shifted(acc, from, v)), Shifted(n, from, v), 32)
  {
    hide P2, Signed32, Shifted, Unsigned32;
    var x, y := Shifted(acc, from, v), Shifted(n, from, v);
    LowFeed(acc, n, 32, from, v);
    LowFewer(x, y, 32 + from, 32);
    LowWrap(x);
    LowTransitive(Signed32(x), x, y, 32);
    LowTransitive(Unsigned32(x), x, y, 32);
  }

  method TakeSigned(sofar: Bytes, held: int, have: nat, ghost n: nat, ghost taken: nat, to: nat, from: nat, value: nat)
    returns (out: Bytes, acc: int, bits: nat)
    requires 1 <= to <= 8 && from <= 8 && value < P2(from) && Reading(sofar, held, have, n, taken, to, 32)
    ensures Reading(out, acc, bits, Shifted(n, from, value), taken + from, to, 32) && bits < to
  {
    hide P2, Fixed, Above, Shifted, Signed32, Low;
    Feed(sofar, held, have, n, taken, to, 32, from, value);
    LowWrapped(held, n, from, value);
    acc := Signed32(Shifted(held, from, value));
    out, bits := Drain(acc, have + from, to, sofar, Shifted(n, from, value), 32);
  }

  method TakeUnsigned(sofar: Bytes, held: int, have: nat, ghost n: nat, ghost taken: nat, to: nat, from: nat, value: nat)
    returns (out: Bytes, acc: int, bits: nat)
    requires 1 <= to <= 8 && from <= 8 && value < P2(from) && Reading(sofar, held, have, n, taken, to, 32)
    ensures Reading(out, acc, bits, Shifted(n, from, value), taken + from, to, 32) && bits < to
  {
    hide P2, Fixed, Above, Shifted, Unsigned32, Low;
    Feed(sofar, held, have, n, taken, to, 32, from, value);
    LowWrapped(held, n, from, value);
    acc := Unsigned32(Shifted(held, from, value));
    out, bits := Drain(acc, have + from, to, sofar, Shifted(n, from, value), 32);
  }

  /** Masked after every symbol: only the bits still held stay in the accumulator. */
  method TakeMasked(sofar: Bytes, held: nat, have: nat, ghost n: nat, ghost taken: nat, to: nat, from: nat, value: nat)
    returns (out: Bytes, acc: nat, bits: nat)
    requires 1 <= to <= 8 && from <= 8 && value < P2(from)
    requires Reading(sofar, held, have, n, taken, to, have) && held < P2(have)
    ensures Reading(out, acc, bits, Shifted(n, from, value), taken + from, to, bits) && acc < P2(bits) && bits < to
  {
    hide P2, Fixed, Above, Shifted, Low;
    Feed(sofar, held, have, n, taken, to, have, from, value);
    acc := Shifted(held, from, value);
    out, bits := Drain(acc, have + from, to, sofar, Shifted(n, from, value), have + from);
    LowFewer(acc, Shifted(n, from, value), have + from, bits);
    LowMask(acc, bits);
    LowTransitive(acc % P2(bits), acc, Shifted(n, from, value), bits);
    acc := Mask(acc, bits);
  }

  function Mask(x: nat, bits: nat): (r: nat)
    ensures r < P2(bits) && r == x % P2(bits)
  {
    x % P2(bits)
  }

  lemma {:induction false} WrapLast(x: int, to: nat)
    requires to <= 32
    ensures Signed32(x) % P2(to) == x % P2(to) && Unsigned32(x) % P2(to) == x % P2(to)
  {
    LowWrap(x);
    LowFewer(Signed32(x), x, 32, to);
    LowFewer(Unsigned32(x), x, 32, to);
  }

  lemma {:induction false} ShiftNone(n: nat)
    ensures Shifted(n, 0, 0) == n && Above(n, 0) == n
  {
    P2Byte(0);
  }

  /** With padding, the last symbol completes the whole number. */
  lemma {:induction false} Finished(out: Bytes, acc: int, bits: nat, s: Bytes, from: nat, to: nat, m: nat)
    requires 1 <= to <= 8 && Reading(out, acc, bits, Value(s, P2(from)), |s| * from, to, m) && bits <= m
    ensures bits == 0 ==> out == Padded(s, from, to)
    ensures bits > 0 ==> out + [Shifted(acc, to - bits, 0) % P2(to)] == Padded(s, from, to)
  {
    hide P2, Fixed, Above, Value, Shifted, Padded, Symbols;
    var n := Value(s, P2(from));
    Counts(|out|, bits, to, |s| * from);
    SymbolsOf(|s|, from, to);
    if bits == 0 {
      ShiftNone(n);
      PaddedIs(s, from, to, |out|, 0);
    } else {
      LowFewer(acc, n, m, bits);
      EmitLast(out, n, acc, bits, to);
      NextGroup(|out|, to);
      PaddedIs(s, from, to, |out| + 1, to - bits);
    }
  }

  lemma {:induction false} NextGroup(k: nat, to: nat)
    ensures (k + 1) * to == k * to + to
  {
  }

  lemma {:induction false} SymbolsOf(k: nat, from: nat, to: nat)
    requires to >= 1
    ensures Symbols(k, from, to) == Symbols(k * from, 1, to)
  {
  }

  lemma {:induction false} PaddedIs(s: Bytes, from: nat, to: nat, count: nat, fill: nat)
    requires 1 <= to <= 8 && count == Symbols(|s|, from, to) && count * to == |s| * from + fill && P2(to) <= 256
    ensures Padded(s, from, to) == Fixed(Shifted(Value(s, P2(from)), fill, 0), P2(to), count)
  {
    hide P2, Fixed, Value, Shifted, Symbols;
  }

  /** Without padding, the test on the bits left over is a test on the number. */
  lemma {:induction false} Kept(out: Bytes, acc: int, bits: nat, s: Bytes, from: nat, to: nat, m: nat)
    requires 1 <= to <= 8 && Reading(out, acc, bits, Value(s, P2(from)), |s| * from, to, m) && bits <= m
    ensures bits == |s| * from % to
    ensures Exact(s, from, to) == if Shifted(acc, to - bits, 0) % P2(to) == 0 then Some(out) else None
  {
    hide P2, Fixed, Value, Shifted, Above, Symbols;
    var n := Value(s, P2(from));
    Counts(|out|, bits, to, |s| * from);
    LowFewer(acc, n, m, bits);
    LeftoverZero(acc, bits, to);
  }

  lemma {:induction false} LeftoverZero(acc: int, bits: nat, to: nat)
    requires bits <= to
    ensures Shifted(acc, to - bits, 0) % P2(to) == 0 <==> acc % P2(bits) == 0
  {
    hide P2;
    P2Add(bits, to - bits);
    ShiftRemainder(acc, P2(bits), P2(to - bits), P2(to));
  }

  lemma {:induction false} ShiftRemainder(x: int, p: nat, z: nat, pz: nat)
    requires p >= 1 && z >= 1 && pz == p * z && pz >= 1
    ensures x * z % pz == 0 <==> x % p == 0
  {
    var q, r := x / p, x % p;
    assert x == p * q + r;
    MulOut(x, p, q, r, z);
    AddMultiple(r * z, pz, q);
    MulMonotone(z, r + 1, p);
    SmallMod(r * z, pz);
    if r > 0 {
      Scale(z, r);
    }
  }

  lemma {:induction false} MulOut(x: int, p: nat, q: int, r: nat, z: nat)
    requires x == p * q + r
    ensures x * z == r * z + p * z * q && r * z >= 0 && z * (r + 1) == r * z + z
  {
    MulMonotone(z, 0, r);
  }

  lemma {:induction false} SmallMod(a: nat, p: nat)
    requires a < p
    ensures a % p == a
  {
  }

  /** What `convertBits` returns; the empty result also reports a refusal. */
  function Converted(data: Bytes, from: nat, to: nat, pad: bool): Bytes
    requires 1 <= to <= 8
  {
    if !Below(data, P2(from)) then []
    else if pad then Padded(data, from, to)
    else if |data| * from % to >= from then []
    else match Exact(data, from, to) case Some(out) => out case None => []
  }

  /** `convertBits`, its accumulator a signed 32-bit integer that is never masked. */
  method ConvertBits(data: Bytes, from: nat, to: nat, pad: bool) returns (out: Bytes)
    requires 1 <= from <= 8 && 1 <= to <= 8
    ensures out == Converted(data, from, to, pad)
  {
    hide P2, Fixed, Above, Padded, Exact, Signed32, Low, Symbols, Shifted, Value, Reading;
    out := [];
    var acc: int, bits: nat, i: nat := 0, 0, 0;
    Start(to, 32);
    ValueEmpty(data, P2(from));
    while i < |data|
      invariant i <= |data| && Below(data[..i], P2(from))
      invariant Reading(out, acc, bits, Value(data[..i], P2(from)), i * from, to, 32) && bits < to
    {
      var value: int := data[i];
      if value >= P2(from) {
        return [];
      }
      ghost var n := Value(data[..i], P2(from));
      out, acc, bits := TakeSigned(out, acc, bits, n, i * from, to, from, value);
      ValueNext(data, i, from);
      i := i + 1;
    }
    assert data[..i] == data;
    WrapLast(Shifted(acc, to - bits, 0), to);
    var rest := Signed32(Shifted(acc, to - bits, 0)) % P2(to);
    if pad {
      Finished(out, acc, bits, data, from, to, 32);
      if bits > 0 {
        out := out + [rest];
      }
    } else {
      Kept(out, acc, bits, data, from, to, 32);
      if bits >= from || rest != 0 {
        out := [];
      }
    }
  }

  lemma {:induction false} ValueEmpty(s: Bytes, base: nat)
    ensures s[..0] == [] && Value(s[..0], base) == 0
  {
  }

  /** What regrouping with padding means: as many symbols as the bits need, writing the number the
      input writes with fewer zero bits behind it than a symbol has. */
  lemma {:induction false} PaddedValue(s: Bytes, from: nat, to: nat)
    requires 1 <= from <= 8 && 1 <= to <= 8 && Below(s, P2(from))
    ensures var r := Padded(s, from, to);
            var fill := |r| * to - |s| * from;
            && 0 <= fill < to && Below(r, P2(to)) && Value(r, P2(to)) == Value(s, P2(from)) * P2(fill)
  {
    hide P2, Fixed, Value;
    var count := Symbols(|s|, from, to);
    PaddingBits(|s| * from, to);
    var fill := count * to - |s| * from;
    P2Byte(to);
    P2Byte(from);
    PaddedIs(s, from, to, count, fill);
    ValueBound(s, P2(from));
    PowPower(from, |s|);
    PowPower(to, count);
    P2Add(|s| * from, fill);
    ScaledBound(Value(s, P2(from)), P2(|s| * from), P2(fill));
    FixedValue(Shifted(Value(s, P2(from)), fill, 0), P2(to), count);
  }

  lemma {:induction false} ScaledBound(n: nat, p: nat, f: nat)
    requires n < p && f >= 1
    ensures n * f < p * f
  {
    MulMonotone(f, n + 1, p);
    assert (n + 1) * f == n * f + f;
  }

  // ---- the two directions undo each other ----

  /** Regrouping into smaller symbols and back gives the bytes again. */
  lemma {:induction false} ExactPadded(s: Bytes, wide: nat, narrow: nat)
    requires 1 <= narrow <= wide <= 8 && Below(s, P2(wide))
    ensures Below(Padded(s, wide, narrow), P2(narrow))
    ensures Exact(Padded(s, wide, narrow), narrow, wide) == Some(s)
    ensures |Padded(s, wide, narrow)| * narrow % wide < narrow
  {
    hide P2, Fixed, Value, Shifted, Above;
    var n := Value(s, P2(wide));
    var count := Symbols(|s|, wide, narrow);
    var fill := count * narrow - |s| * wide;
    PaddingBits(|s| * wide, narrow);
    DivMod(|s|, wide, fill);
    P2Byte(wide);
    P2Byte(narrow);
    Fits(s, wide, narrow, count, fill);
    FeedHigh(n, 0, fill, 0);
    ShiftNone(n);
    assert Shifted(n, fill, 0) % P2(fill) == 0 by { ShiftedRest(n, fill); }
    FixedOfValue(s, P2(wide));
  }

  lemma {:induction false} ShiftedRest(n: nat, k: nat)
    ensures Shifted(n, k, 0) % P2(k) == 0
  {
    hide P2;
    DivMod(n, P2(k), 0);
  }

  lemma {:induction false} Fits(s: Bytes, wide: nat, narrow: nat, count: nat, fill: nat)
    requires 1 <= narrow <= wide <= 8 && Below(s, P2(wide)) && count * narrow == |s| * wide + fill
    requires P2(narrow) <= 256
    ensures Value(Fixed(Shifted(Value(s, P2(wide)), fill, 0), P2(narrow), count), P2(narrow)) == Shifted(Value(s, P2(wide)), fill, 0)
  {
    hide P2, Fixed, Value;
    var n := Value(s, P2(wide));
    ValueBound(s, P2(wide));
    PowPower(wide, |s|);
    PowPower(narrow, count);
    P2Add(|s| * wide, fill);
    MulMonotone(P2(fill), n + 1, P2(|s| * wide));
    assert P2(fill) * (n + 1) == n * P2(fill) + P2(fill);
    FixedValue(Shifted(n, fill, 0), P2(narrow), count);
  }

  lemma {:induction false} PowPower(w: nat, n: nat)
    ensures Pow(P2(w), n) == P2(n * w)
  {
    if n == 0 {
      P2Byte(0);
    } else {
      PowPower(w, n - 1);
      assert n * w == w + (n - 1) * w;
      P2Add(w, (n - 1) * w);
    }
  }

  /** What the strict direction accepts with less than a symbol to spare is exactly
      what the padding direction produces. */
  lemma {:induction false} PaddedExact(t: Bytes, narrow: nat, wide: nat)
    requires 1 <= narrow <= wide <= 8 && Below(t, P2(narrow))
    requires Exact(t, narrow, wide).Some? && |t| * narrow % wide < narrow
    ensures Below(Exact(t, narrow, wide).value, P2(wide))
    ensures Padded(Exact(t, narrow, wide).value, wide, narrow) == t
  {
    hide P2, Fixed, Value, Shifted, Above, Symbols;
    var r := Exact(t, narrow, wide).value;
    var n := |t| * narrow;
    var k, bits := n / wide, n % wide;
    var v := Value(t, P2(narrow));
    P2Byte(wide);
    P2Byte(narrow);
    AtMost(t, narrow, k, wide, bits);
    FixedValue(Above(v, bits), P2(wide), k);
    assert |r| == k && Value(r, P2(wide)) == Above(v, bits);
    SymbolCount(|t|, narrow, k, wide, bits);
    assert Shifted(Above(v, bits), bits, 0) == v by { Restored(v, bits); }
    FixedOfValue(t, P2(narrow));
  }

  lemma {:induction false} SymbolCount(count: nat, narrow: nat, k: nat, wide: nat, bits: nat)
    requires narrow >= 1 && count * narrow == k * wide + bits && bits < narrow
    ensures Symbols(k, wide, narrow) == count
  {
    DivMod(count, narrow, narrow - 1 - bits);
  }

  lemma {:induction false} Restored(v: nat, bits: nat)
    requires v % P2(bits) == 0
    ensures Shifted(Above(v, bits), bits, 0) == v
  {
    hide P2;
    var p := P2(bits);
    assert v == p * (v / p) + v % p;
  }

  lemma {:induction false} AtMost(t: Bytes, narrow: nat, k: nat, wide: nat, bits: nat)
    requires Below(t, P2(narrow)) && |t| * narrow == k * wide + bits
    ensures Above(Value(t, P2(narrow)), bits) < Pow(P2(wide), k)
  {
    hide P2, Value;
    var v, p := Value(t, P2(narrow)), P2(bits);
    ValueBound(t, P2(narrow));
    PowPower(narrow, |t|);
    PowPower(wide, k);
    P2Add(k * wide, bits);
    var q := High(v, p, P2(k * wide));
  }

  /** `convertBits` without padding inverts it with padding, and accepts nothing else. */
  lemma {:induction false} ConvertBitsInverse(s: Bytes)
    ensures Converted(Converted(s, 8, 5, true), 5, 8, false) == s
  {
    P2Byte(8);
    P2Byte(5);
    ExactPadded(s, 8, 5);
  }

  lemma {:induction false} ConvertBitsExact(t: Bytes)
    ensures Converted(t, 5, 8, false) != [] ==> Converted(Converted(t, 5, 8, false), 8, 5, true) == t
    ensures Converted(t, 5, 8, false) != [] <==> t != [] && exists s: Bytes :: t == Converted(s, 8, 5, true)
  {
    P2Byte(8);
    P2Byte(5);
    var r := Converted(t, 5, 8, false);
    assert Converted([], 5, 8, false) == [];
    if r != [] {
      PaddedExact(t, 5, 8);
    }
    if t != [] && exists s: Bytes :: t == Converted(s, 8, 5, true) {
      var s: Bytes :| t == Converted(s, 8, 5, true);
      ConvertBitsInverse(s);
      assert s == [] ==> t == [];
    }
  }
}
