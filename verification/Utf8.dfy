/**
 UTF-8 and UTF-16 as the repository's three strict decoders see them.

 A scalar is a Unicode code point outside the surrogate range.  `Encode` is the
 byte form written by the JSON parser for `\u` escapes; every decoder is
 specified against it, so that "well formed" means "a sequence of encodings".
 */
module Utf8 {
  import opened Prelude

  predicate IsScalar(x: int) {
    0 <= x < 0xd800 || 0xe000 <= x < 0x11_0000
  }

  type Scalar = x: int | 0 <= x < 0xd800 || 0xe000 <= x < 0x11_0000

  predicate IsNoncharacter(x: int) {
    0xfdd0 <= x <= 0xfdef || x % 0x1_0000 == 0xfffe || x % 0x1_0000 == 0xffff
  }

  /** The UTF-8 form of one scalar. */
  function Encode(x: Scalar): (r: Bytes)
    ensures 1 <= |r| <= 4
  {
    var n: int := x;
    if n <= 0x7f then [n]
    else if n <= 0x7ff then [0xc0 + n / 64, 0x80 + n % 64]
    else if n <= 0xffff then [0xe0 + n / 4096, 0x80 + n / 64 % 64, 0x80 + n % 64]
    else [0xf0 + n / 262144, 0x80 + n / 4096 % 64, 0x80 + n / 64 % 64, 0x80 + n % 64]
  }

  /** The UTF-8 form of a string of scalars. */
  function EncodeAll(xs: seq<Scalar>): Bytes {
    if xs == [] then [] else Encode(xs[0]) + EncodeAll(xs[1..])
  }

  datatype Step = Malformed | Decoded(scalar: Scalar, length: nat)

  predicate Continuation(b: Byte) { b / 64 == 2 }

  /** Number of continuation bytes announced by a lead byte, or -1; a lead byte
      that needs it also restricts the byte after it. */
  function Continuations(s: Bytes): int
    requires s != []
  {
    var first := s[0];
    if first <= 0x7f then 0
    else if 0xc2 <= first <= 0xdf then 1
    else if 0xe0 <= first <= 0xef then
      if |s| < 2 || (first == 0xe0 && s[1] < 0xa0) || (first == 0xed && s[1] >= 0xa0) then -1 else 2
    else if 0xf0 <= first <= 0xf4 then
      if |s| < 2 || (first == 0xf0 && s[1] < 0x90) || (first == 0xf4 && s[1] >= 0x90) then -1 else 3
    else -1
  }

  /** The scalar assembled from a lead byte's payload and `c` continuation bytes. */
  function Assemble(s: Bytes, c: nat): int
    requires 0 <= c <= 3 && |s| > c
  {
    var first: int := s[0];
    if c == 0 then first
    else Fold(if c == 1 then first % 32 else if c == 2 then first % 16 else first % 8, s[1..c + 1])
  }

  /** Shifts each continuation byte's six payload bits into `acc`. */
  function Fold(acc: int, tail: Bytes): int
    decreases |tail|
  {
    if tail == [] then acc else Fold(acc * 64 + tail[0] % 64, tail[1..])
  }

  /** One scalar read from the front of `s`. */
  function DecodeFront(s: Bytes): Step {
    if s == [] then Malformed
    else
      var c := Continuations(s);
      if c < 0 || |s| < c + 1 || exists i :: 1 <= i <= c && !Continuation(s[i]) then Malformed
      else AssembleIsScalar(s, c); Decoded(Assemble(s, c), c + 1)
  }

  /** What `Continuations` admits is exactly what `Encode` writes. */
  lemma {:induction false} AssembleIsScalar(s: Bytes, c: nat)
    requires s != [] && Continuations(s) == c && |s| > c
    requires forall i :: 1 <= i <= c ==> Continuation(s[i])
    ensures IsScalar(Assemble(s, c)) && s[..c + 1] == Encode(Assemble(s, c))
  {
    if c == 0 {
      assert s[..1] == [s[0]];
      return;
    }
    hide Assemble, Encode;
    if c == 1 {
      assert s[..2] == [s[0], s[1]];
      AssembleTail(s, 1);
      AssembleTwo(s[0], s[1]);
    } else if c == 2 {
      assert s[..3] == [s[0], s[1], s[2]];
      AssembleTail(s, 2);
      AssembleThree(s[0], s[1], s[2]);
    } else {
      assert s[..4] == [s[0], s[1], s[2], s[3]];
      AssembleTail(s, 3);
      AssembleFour(s[0], s[1], s[2], s[3]);
    }
  }

  lemma {:induction false} AssembleTail(s: Bytes, c: nat)
    requires 1 <= c <= 3 && |s| > c
    ensures var first: int := s[0];
            Assemble(s, c) ==
              if c == 1 then first % 32 * 64 + s[1] % 64
              else if c == 2 then (first % 16 * 64 + s[1] % 64) * 64 + s[2] % 64
              else ((first % 8 * 64 + s[1] % 64) * 64 + s[2] % 64) * 64 + s[3] % 64
  {
    var first: int := s[0];
    if c == 1 {
      assert s[1..2] == [s[1]];
      Fold1(first % 32, s[1]);
    } else if c == 2 {
      assert s[1..3] == [s[1], s[2]];
      Fold2(first % 16, s[1], s[2]);
    } else {
      assert s[1..4] == [s[1], s[2], s[3]];
      Fold3(first % 8, s[1], s[2], s[3]);
    }
  }

  lemma {:induction false} AssembleTwo(a: Byte, b: Byte)
    requires 0xc2 <= a <= 0xdf && 0x80 <= b <= 0xbf
    ensures var x: int := a % 32 * 64 + b % 64; IsScalar(x) && Encode(x) == [a, b]
  {
    assert a % 32 == a - 0xc0 && b % 64 == b - 0x80;
  }

  lemma {:induction false} Low6(b: int)
    requires 0x80 <= b <= 0xbf
    ensures b % 64 == b - 0x80
  {
  }

  lemma {:induction false} AssembleThree(a: Byte, b: Byte, c: Byte)
    requires 0xe0 <= a <= 0xef && 0x80 <= b <= 0xbf && 0x80 <= c <= 0xbf
    requires a == 0xe0 ==> b >= 0xa0
    requires a == 0xed ==> b < 0xa0
    ensures var x: int := (a % 16 * 64 + b % 64) * 64 + c % 64; IsScalar(x) && Encode(x) == [a, b, c]
  {
    Low6(b);
    Low6(c);
    assert a % 16 == a - 0xe0;
    SixBits(0, a - 0xe0, b - 0x80, c - 0x80);
    EncodeThree(a - 0xe0, b - 0x80, c - 0x80);
  }

  lemma {:induction false} EncodeThree(q: int, r: int, t: int)
    requires 0 <= q < 16 && 0 <= r < 64 && 0 <= t < 64
    requires q == 0 ==> r >= 32
    requires q == 13 ==> r < 32
    ensures var x := (q * 64 + r) * 64 + t; IsScalar(x) && Encode(x) == [0xe0 + q, 0x80 + r, 0x80 + t]
  {
    var x := (q * 64 + r) * 64 + t;
    assert 0x800 <= x <= 0xffff;
    assert x / 4096 == q && x / 64 % 64 == r && x % 64 == t by { SixBits(0, q, r, t); }
  }

  lemma {:induction false} AssembleFour(a: Byte, b: Byte, c: Byte, d: Byte)
    requires 0xf0 <= a <= 0xf4 && 0x80 <= b <= 0xbf && 0x80 <= c <= 0xbf && 0x80 <= d <= 0xbf
    requires a == 0xf0 ==> b >= 0x90
    requires a == 0xf4 ==> b < 0x90
    ensures var x: int := ((a % 8 * 64 + b % 64) * 64 + c % 64) * 64 + d % 64; IsScalar(x) && Encode(x) == [a, b, c, d]
  {
    Low6(b);
    Low6(c);
    Low6(d);
    assert a % 8 == a - 0xf0;
    EncodeFour(a - 0xf0, b - 0x80, c - 0x80, d - 0x80);
  }

  lemma {:induction false} EncodeFour(p: int, q: int, r: int, t: int)
    requires 0 <= p <= 4 && 0 <= q < 64 && 0 <= r < 64 && 0 <= t < 64
    requires p == 0 ==> q >= 16
    requires p == 4 ==> q < 16
    ensures var x := ((p * 64 + q) * 64 + r) * 64 + t;
            IsScalar(x) && Encode(x) == [0xf0 + p, 0x80 + q, 0x80 + r, 0x80 + t]
  {
    var x := ((p * 64 + q) * 64 + r) * 64 + t;
    assert 0x1_0000 <= x <= 0x10_ffff;
    SixBits(p, q, r, t);
  }

  lemma {:induction false} SixBits(p: int, q: int, r: int, t: int)
    requires 0 <= p && 0 <= q < 64 && 0 <= r < 64 && 0 <= t < 64
    ensures var x := ((p * 64 + q) * 64 + r) * 64 + t;
            x / 262144 == p && x / 4096 % 64 == q && x / 64 % 64 == r && x % 64 == t && x / 4096 == p * 64 + q
  {
    var z := p * 64 + q;
    var y := z * 64 + r;
    var x := y * 64 + t;
    assert x / 64 == y && y / 64 == z && z / 64 == p;
    assert x / 4096 == z && x / 262144 == p;
  }

  lemma {:induction false} Fold1(acc: int, a: Byte)
    ensures Fold(acc, [a]) == acc * 64 + a % 64
  {
    assert [a][1..] == [];
  }

  lemma {:induction false} Fold2(acc: int, a: Byte, b: Byte)
    ensures Fold(acc, [a, b]) == (acc * 64 + a % 64) * 64 + b % 64
  {
    assert [a, b][1..] == [b];
    Fold1(acc * 64 + a % 64, b);
  }

  lemma {:induction false} Fold3(acc: int, a: Byte, b: Byte, c: Byte)
    ensures Fold(acc, [a, b, c]) == ((acc * 64 + a % 64) * 64 + b % 64) * 64 + c % 64
  {
    assert [a, b, c][1..] == [b, c];
    Fold2(acc * 64 + a % 64, b, c);
  }

  /** Decoding the front of a byte string finds the scalar whose encoding starts it. */
  lemma {:induction false} DecodeEncode(x: Scalar, rest: Bytes)
    ensures DecodeFront(Encode(x) + rest) == Decoded(x, |Encode(x)|)
  {
    var s := Encode(x) + rest;
    var c := |Encode(x)| - 1;
    EncodeAnnounced(x, s);
    hide Encode, Continuations;
    AssembleIsScalar(s, c);
    EncodeInjective(Assemble(s, c), x);
  }

  /** An encoding's lead byte announces its length, and its tail bytes are continuations. */
  lemma {:induction false} EncodeAnnounced(x: Scalar, s: Bytes)
    requires |Encode(x)| <= |s| && s[..|Encode(x)|] == Encode(x)
    ensures Continuations(s) == |Encode(x)| - 1
    ensures forall i :: 1 <= i < |Encode(x)| ==> Continuation(s[i])
  {
    assert forall i :: 0 <= i < |Encode(x)| ==> s[i] == Encode(x)[i];
  }

  lemma {:induction false} EncodeInjective(x: Scalar, y: Scalar)
    requires Encode(x) == Encode(y)
    ensures x == y
  {
    SixBitDigits(x);
    SixBitDigits(y);
    var n := |Encode(x)|;
    assert forall i :: 0 <= i < n ==> Encode(x)[i] == Encode(y)[i];
    if n == 3 {
      assert x / 262144 == 0 && y / 262144 == 0;
    }
  }

  lemma {:induction false} SixBitDigits(x: int)
    requires 0 <= x
    ensures x == x / 262144 * 262144 + x / 4096 % 64 * 4096 + x / 64 % 64 * 64 + x % 64
    ensures x / 4096 == x / 262144 * 64 + x / 4096 % 64
  {
    assert x / 64 / 64 == x / 4096;
    assert x / 4096 / 64 == x / 262144;
  }

  lemma {:induction false} DecodeFrontIsPrefix(s: Bytes)
    requires DecodeFront(s).Decoded?
    ensures var Decoded(x, n) := DecodeFront(s);
            n == |Encode(x)| <= |s| && s[..n] == Encode(x) && s == Encode(x) + s[n..]
  {
    AssembleIsScalar(s, Continuations(s));
  }

  // ---- whole strings ----

  /** All the scalars of `s`, if it is well formed. */
  function Scalars(s: Bytes): (r: Option<seq<Scalar>>)
    decreases |s|
  {
    if s == [] then Some([])
    else
      match DecodeFront(s)
      case Malformed => None
      case Decoded(x, n) =>
        DecodeFrontIsPrefix(s);
        match Scalars(s[n..])
        case None => None
        case Some(xs) => Some([x] + xs)
  }

  /** A byte string is accepted exactly when it is the encoding of some scalars,
      and then those scalars are the ones decoded: no overlong form, no surrogate. */
  lemma {:induction false} ScalarsIff(s: Bytes, xs: seq<Scalar>)
    ensures Scalars(s) == Some(xs) <==> EncodeAll(xs) == s
    decreases |s|, |xs|
  {
    if xs != [] {
      var rest := EncodeAll(xs[1..]);
      if EncodeAll(xs) == s {
        DecodeEncode(xs[0], rest);
        assert s[|Encode(xs[0])|..] == rest;
        ScalarsIff(rest, xs[1..]);
        assert [xs[0]] + xs[1..] == xs;
      }
      if Scalars(s) == Some(xs) {
        DecodeFrontIsPrefix(s);
        var n := DecodeFront(s).length;
        ScalarsIff(s[n..], xs[1..]);
        assert Scalars(s[n..]) == Some(xs[1..]);
      }
    }
  }

  lemma {:induction false} EncodeAllConcat(xs: seq<Scalar>, ys: seq<Scalar>)
    ensures EncodeAll(xs + ys) == EncodeAll(xs) + EncodeAll(ys)
  {
    if xs == [] {
      assert xs + ys == ys;
    } else {
      assert (xs + ys)[1..] == xs[1..] + ys;
      EncodeAllConcat(xs[1..], ys);
    }
  }

  lemma {:induction false} ScalarsConcat(a: Bytes, b: Bytes)
    requires Scalars(a).Some? && Scalars(b).Some?
    ensures Scalars(a + b) == Some(Scalars(a).value + Scalars(b).value)
  {
    ScalarsIff(a, Scalars(a).value);
    ScalarsIff(b, Scalars(b).value);
    EncodeAllConcat(Scalars(a).value, Scalars(b).value);
    ScalarsIff(a + b, Scalars(a).value + Scalars(b).value);
  }

  /** Well formed and free of noncharacters: the strings I-JSON allows. */
  predicate IJson(s: Bytes) {
    Scalars(s).Some? && forall i :: 0 <= i < |Scalars(s).value| ==> !IsNoncharacter(Scalars(s).value[i])
  }

  lemma {:induction false} IJsonConcat(a: Bytes, b: Bytes)
    requires IJson(a) && IJson(b)
    ensures IJson(a + b)
  {
    ScalarsConcat(a, b);
  }

  lemma {:induction false} IJsonAscii(b: Byte)
    requires b < 0x80
    ensures IJson([b]) && Scalars([b]) == Some([b])
  {
    ScalarsIff([b], [b]);
    assert EncodeAll([b]) == [b] by { assert [b][1..] == []; }
  }

  lemma {:induction false} ScalarsFront(s: Bytes)
    requires Scalars(s).Some? && s != []
    ensures DecodeFront(s).Decoded? && 0 < DecodeFront(s).length <= |s|
    ensures Scalars(s[DecodeFront(s).length..]).Some?
    ensures Scalars(s).value == [DecodeFront(s).scalar] + Scalars(s[DecodeFront(s).length..]).value
  {
    DecodeFrontIsPrefix(s);
  }

  lemma {:induction false} ScalarsStep(s: Bytes)
    requires DecodeFront(s).Decoded?
    ensures 0 < DecodeFront(s).length <= |s|
    ensures Scalars(s).Some? <==> Scalars(s[DecodeFront(s).length..]).Some?
    ensures Scalars(s).Some? ==>
              Scalars(s).value == [DecodeFront(s).scalar] + Scalars(s[DecodeFront(s).length..]).value
  {
    DecodeFrontIsPrefix(s);
  }

  /** Splits an accepted string after its first scalar. */
  lemma {:induction false} IJsonFront(s: Bytes)
    requires IJson(s) && s != []
    ensures DecodeFront(s).Decoded? && !IsNoncharacter(DecodeFront(s).scalar)
    ensures 0 < DecodeFront(s).length <= |s| && IJson(s[DecodeFront(s).length..])
    ensures Scalars(s).value == [DecodeFront(s).scalar] + Scalars(s[DecodeFront(s).length..]).value
  {
    ScalarsFront(s);
    var all, n := Scalars(s).value, DecodeFront(s).length;
    var xs := Scalars(s[n..]).value;
    assert all[0] == DecodeFront(s).scalar;
    forall i | 0 <= i < |xs| ensures !IsNoncharacter(xs[i]) {
      assert all[i + 1] == xs[i];
    }
  }

  // ---- UTF-16 ----

  function Units(x: Scalar): seq<int> {
    if x <= 0xffff then [x]
    else [0xd800 + (x - 0x1_0000) / 1024, 0xdc00 + (x - 0x1_0000) % 1024]
  }

  function UnitsAll(xs: seq<Scalar>): seq<int> {
    if xs == [] then [] else Units(xs[0]) + UnitsAll(xs[1..])
  }

  /** The code units a member name is sorted by; a rejected string has none. */
  function Utf16(s: Bytes): seq<int> {
    if IJson(s) then UnitsAll(Scalars(s).value) else []
  }

  lemma {:induction false} UnitsAllInjective(xs: seq<Scalar>, ys: seq<Scalar>)
    requires UnitsAll(xs) == UnitsAll(ys)
    ensures xs == ys
  {
    if xs == [] || ys == [] {
      assert |UnitsAll(xs)| == 0;
    } else {
      var u := UnitsAll(xs);
      assert u[0] == Units(xs[0])[0] == Units(ys[0])[0];
      if xs[0] > 0xffff {
        assert u[1] == Units(xs[0])[1] && u[1] == Units(ys[0])[1];
      }
      assert xs[0] == ys[0];
      assert UnitsAll(xs[1..]) == u[|Units(xs[0])|..] == UnitsAll(ys[1..]);
      UnitsAllInjective(xs[1..], ys[1..]);
      assert xs == [xs[0]] + xs[1..] && ys == [ys[0]] + ys[1..];
    }
  }

  /** Distinct accepted strings have distinct sort keys. */
  lemma {:induction false} Utf16Injective(a: Bytes, b: Bytes)
    requires IJson(a) && IJson(b) && Utf16(a) == Utf16(b)
    ensures a == b
  {
    UnitsAllInjective(Scalars(a).value, Scalars(b).value);
    ScalarsIff(a, Scalars(a).value);
    ScalarsIff(b, Scalars(b).value);
  }

  // ---- the decoders ----

  /** One decoding step at a position, as `decodeUtf8` and `decodeScalar` take it; `scalar` is
      meaningful only when `ok`. */
  method DecodeStep(input: Bytes, position: nat) returns (ok: bool, next: nat, scalar: int)
    ensures ok <==> position < |input| && DecodeFront(input[position..]).Decoded?
    ensures ok ==> position < next <= |input| && IsScalar(scalar)
    ensures ok ==> DecodeFront(input[position..]) == Decoded(scalar, next - position)
  {
    ok, next, scalar := false, position, 0;
    if position >= |input| {
      return;
    }
    ghost var s := input[position..];
    var first: int := input[position];
    next := position + 1;
    var continuation := 0;
    if first <= 0x7f {
      scalar := first;
    } else if 0xc2 <= first <= 0xdf {
      scalar := first % 32;
      continuation := 1;
    } else if 0xe0 <= first <= 0xef {
      if next >= |input| || (first == 0xe0 && input[next] < 0xa0) || (first == 0xed && input[next] >= 0xa0) {
        return;
      }
      scalar := first % 16;
      continuation := 2;
    } else if 0xf0 <= first <= 0xf4 {
      if next >= |input| || (first == 0xf0 && input[next] < 0x90) || (first == 0xf4 && input[next] >= 0x90) {
        return;
      }
      scalar := first % 8;
      continuation := 3;
    } else {
      return;
    }
    assert Continuations(s) == continuation;
    if |input| - next < continuation {
      return;
    }
    var i := 0;
    assert Fold(scalar, s[1..continuation + 1]) == Assemble(s, continuation);
    while i < continuation
      invariant 0 <= i <= continuation
      invariant next == position + 1 + i
      invariant forall k :: 1 <= k <= i ==> Continuation(s[k])
      invariant Fold(scalar, s[i + 1..continuation + 1]) == Assemble(s, continuation)
    {
      var b: int := input[next];
      assert s[i + 1] == b;
      next := next + 1;
      if b / 64 != 2 {
        return;
      }
      assert s[i + 1..continuation + 1][1..] == s[i + 2..continuation + 1];
      scalar := scalar * 64 + b % 64;
      i := i + 1;
    }
    assert s[continuation + 1..continuation + 1] == [];
    ok := true;
  }

  /** valid_ijson_string: every step decodes to a permitted scalar. */
  method ValidIJson(s: Bytes) returns (valid: bool)
    ensures valid <==> IJson(s)
  {
    var position := 0;
    assert s[0..] == s;
    while position < |s|
      invariant position <= |s|
      invariant IJson(s) <==> IJson(s[position..])
    {
      var ok, next, scalar := DecodeStep(s, position);
      if !ok || IsNoncharacter(scalar) {
        if ok {
          IJsonFrontFails(s[position..]);
        }
        return false;
      }
      IJsonStep(s[position..]);
      assert s[position..][next - position..] == s[next..];
      position := next;
    }
    return true;
  }

  lemma {:induction false} IJsonFrontFails(s: Bytes)
    requires DecodeFront(s).Decoded? && IsNoncharacter(DecodeFront(s).scalar)
    ensures !IJson(s)
  {
    if IJson(s) {
      IJsonFront(s);
    }
  }

  lemma {:induction false} IJsonStep(s: Bytes)
    requires DecodeFront(s).Decoded? && !IsNoncharacter(DecodeFront(s).scalar)
    ensures 0 < DecodeFront(s).length <= |s|
    ensures IJson(s) <==> IJson(s[DecodeFront(s).length..])
  {
    DecodeFrontIsPrefix(s);
    if IJson(s) {
      IJsonFront(s);
    }
  }

  /** utf16Units: nothing at the first failed step, the units of each scalar otherwise. */
  method Utf16Units(s: Bytes) returns (units: seq<int>)
    ensures units == Utf16(s)
  {
    hide DecodeFront, Scalars, IJson, Utf16, Units;
    units := [];
    var position := 0;
    assert s[0..] == s && [] + Utf16(s) == Utf16(s);
    while position < |s|
      invariant position <= |s|
      invariant IJson(s) <==> IJson(s[position..])
      invariant IJson(s) ==> Utf16(s) == units + Utf16(s[position..])
    {
      var ok, next, scalar := DecodeStep(s, position);
      if !ok || IsNoncharacter(scalar) {
        if ok {
          IJsonFrontFails(s[position..]);
        } else {
          IJsonMalformed(s[position..]);
        }
        Utf16None(s);
        return [];
      }
      IJsonStep(s[position..]);
      Utf16Step(s[position..]);
      assert s[position..][next - position..] == s[next..];
      UnitsAre(units, scalar);
      if scalar <= 0xffff {
        units := units + [scalar];
      } else {
        var rest := scalar - 0x1_0000;
        units := units + [0xd800 + rest / 1024];
        units := units + [0xdc00 + rest % 1024];
      }
      position := next;
    }
    assert s[position..] == [];
    Utf16None([]);
    Utf16None(s);
  }

  lemma {:induction false} Utf16None(s: Bytes)
    ensures !IJson(s) || s == [] ==> Utf16(s) == []
    ensures IJson([])
  {
  }

  lemma {:induction false} UnitsAre(units: seq<int>, x: Scalar)
    ensures units + Units(x) == if x <= 0xffff then units + [x]
                                else units + [0xd800 + (x - 0x1_0000) / 1024] + [0xdc00 + (x - 0x1_0000) % 1024]
  {
  }

  lemma {:induction false} IJsonMalformed(s: Bytes)
    requires s != [] && !DecodeFront(s).Decoded?
    ensures !IJson(s)
  {
    if IJson(s) {
      IJsonFront(s);
    }
  }

  lemma {:induction false} Utf16Step(s: Bytes)
    requires DecodeFront(s).Decoded?
    ensures 0 < DecodeFront(s).length <= |s|
    ensures IJson(s) ==> Utf16(s) == Units(DecodeFront(s).scalar) + Utf16(s[DecodeFront(s).length..])
  {
    hide DecodeFront;
    DecodeFrontIsPrefix(s);
    ScalarsStep(s);
    if IJson(s) {
      IJsonFront(s);
    }
  }

  /** decodeStrictUtf8: the scalars of a user name or password, noncharacters allowed. */
  method DecodeStrict(s: Bytes) returns (ok: bool, scalars: seq<Scalar>)
    ensures ok <==> Scalars(s).Some?
    ensures ok ==> scalars == Scalars(s).value
  {
    hide DecodeFront;
    scalars := [];
    var position := 0;
    assert s[0..] == s;
    while position < |s|
      invariant position <= |s|
      invariant Scalars(s).Some? <==> Scalars(s[position..]).Some?
      invariant Scalars(s).Some? ==> Scalars(s).value == scalars + Scalars(s[position..]).value
    {
      var step, next, scalar := DecodeStep(s, position);
      if !step {
        return false, scalars;
      }
      ScalarsStep(s[position..]);
      assert s[position..][next - position..] == s[next..];
      scalars := scalars + [scalar];
      position := next;
    }
    return true, scalars;
  }

  /** strictUtf8: the third decoder only checks, and accepts what the second one accepts. */
  method StrictUtf8(s: Bytes) returns (ok: bool)
    ensures ok <==> Scalars(s).Some?
  {
    hide DecodeFront;
    var position := 0;
    assert s[0..] == s;
    while position < |s|
      invariant position <= |s|
      invariant Scalars(s).Some? <==> Scalars(s[position..]).Some?
    {
      var step, next, scalar := DecodeStep(s, position);
      if !step {
        return false;
      }
      ScalarsStep(s[position..]);
      assert s[position..][next - position..] == s[next..];
      position := next;
    }
    return true;
  }
}
