/**
 The Bech32 checksum of BIP-173 and its Bech32m variant of BIP-350: a cyclic code over
 GF(32), computed with 32-bit words.
 */
module Bech32Checksum {
  import opened Prelude

  function Xor(a: bv32, b: bv32): bv32 { a ^ b }

  /** `(top >> i) & 1`, by the mask of the bit. */
  predicate Bit(top: bv32, i: nat)
    requires i < 5
  {
    match i
    case 0 => top & 1 != 0
    case 1 => top & 2 != 0
    case 2 => top & 4 != 0
    case 3 => top & 8 != 0
    case 4 => top & 16 != 0
  }

  lemma {:induction false} BitsShifted(top: bv32)
    ensures Bit(top, 0) <==> top & 1 == 1
    ensures Bit(top, 1) <==> (top >> 1) & 1 == 1
    ensures Bit(top, 2) <==> (top >> 2) & 1 == 1
    ensures Bit(top, 3) <==> (top >> 3) & 1 == 1
    ensures Bit(top, 4) <==> (top >> 4) & 1 == 1
  {
  }

  function Generator(i: nat): bv32
    requires i < 5
  {
    match i
    case 0 => 0x3b6a57b2
    case 1 => 0x26508e6d
    case 2 => 0x1ea119fa
    case 3 => 0x3d4233dd
    case 4 => 0x2a1462b3
  }

  function Tap(on: bool, g: bv32): bv32 { if on then g else 0 }

  /** What the first `count` generators contribute for the five bits shifted out. */
  function Taps(top: bv32, count: nat): bv32
    requires count <= 5
  {
    if count == 0 then 0 else Xor(Taps(top, count - 1), Tap(Bit(top, count - 1), Generator(count - 1)))
  }

  function Kept(chk: bv32): bv32 { (chk & 0x1ffffff) << 5 }

  function Top(chk: bv32): bv32 { chk >> 25 }

  function Step(chk: bv32, v: bv32): bv32 {
    Xor(Xor(Kept(chk), v), Taps(Top(chk), 5))
  }

  function Word(v: Byte): bv32 { v as bv32 }

  function Words(values: Bytes): (w: seq<bv32>)
    ensures |w| == |values|
  {
    seq(|values|, i requires 0 <= i < |values| => Word(values[i]))
  }

  /** The register after reading `w`. */
  function Polymod(chk: bv32, w: seq<bv32>): bv32 {
    if w == [] then chk else Step(Polymod(chk, w[..|w| - 1]), w[|w| - 1])
  }

  lemma {:induction false} Identities(a: bv32)
    ensures Xor(a, 0) == a && Xor(0, a) == a && Xor(a, a) == 0
  {
  }

  lemma {:induction false} Regrouped(a: bv32, b: bv32, c: bv32, d: bv32)
    ensures Xor(Xor(a, b), Xor(c, d)) == Xor(Xor(a, c), Xor(b, d))
  {
    hide Xor;
    Associative(Xor(a, b), c, d);
    Associative(a, b, c);
    Commutative(b, c);
    Associative(a, c, b);
    Associative(Xor(a, c), b, d);
  }

  lemma {:induction false} Associative(a: bv32, b: bv32, c: bv32)
    ensures Xor(a, Xor(b, c)) == Xor(Xor(a, b), c)
  {
  }

  lemma {:induction false} Commutative(a: bv32, b: bv32)
    ensures Xor(a, b) == Xor(b, a)
  {
  }

  lemma {:induction false} TapNext(start: bv32, top: bv32, k: nat)
    requires k < 5
    ensures Xor(Xor(start, Taps(top, k)), Tap(Bit(top, k), Generator(k))) == Xor(start, Taps(top, k + 1))
  {
    hide Xor, Bit, Generator, Tap;
    Associative(start, Taps(top, k), Tap(Bit(top, k), Generator(k)));
  }

  lemma {:induction false} NoTaps(top: bv32)
    ensures Taps(top, 0) == 0
  {
  }

  method ComputePolymod(values: Bytes) returns (chk: bv32)
    ensures chk == Polymod(1, Words(values))
  {
    hide Xor, Bit, Kept, Top, Generator, Word, Taps;
    chk := 1;
    for i := 0 to |values|
      invariant chk == Polymod(1, Words(values)[..i])
    {
      ghost var start := Xor(Kept(chk), Word(values[i]));
      var top := Top(chk);
      chk := Xor(Kept(chk), Word(values[i]));
      Identities(start);
      NoTaps(top);
      for k := 0 to 5
        invariant chk == Xor(start, Taps(top, k))
      {
        TapNext(start, top, k);
        Identities(chk);
        if Bit(top, k) {
          chk := Xor(chk, Generator(k));
        }
      }
      assert Words(values)[..i + 1][..i] == Words(values)[..i];
    }
    assert Words(values)[..|values|] == Words(values);
  }

  // ---- the register is linear over exclusive or ----

  lemma {:induction false} BitLinear(a: bv32, b: bv32, i: nat)
    requires i < 5
    ensures Bit(Xor(a, b), i) == (Bit(a, i) != Bit(b, i))
  {
    if i == 0 { BitLinear0(a, b); }
    else if i == 1 { BitLinear1(a, b); }
    else if i == 2 { BitLinear2(a, b); }
    else if i == 3 { BitLinear3(a, b); }
    else { BitLinear4(a, b); }
  }

  lemma {:induction false} BitLinear0(a: bv32, b: bv32)
    ensures Bit(Xor(a, b), 0) == (Bit(a, 0) != Bit(b, 0))
  {
  }

  lemma {:induction false} BitLinear1(a: bv32, b: bv32)
    ensures Bit(Xor(a, b), 1) == (Bit(a, 1) != Bit(b, 1))
  {
  }

  lemma {:induction false} BitLinear2(a: bv32, b: bv32)
    ensures Bit(Xor(a, b), 2) == (Bit(a, 2) != Bit(b, 2))
  {
  }

  lemma {:induction false} BitLinear3(a: bv32, b: bv32)
    ensures Bit(Xor(a, b), 3) == (Bit(a, 3) != Bit(b, 3))
  {
  }

  lemma {:induction false} BitLinear4(a: bv32, b: bv32)
    ensures Bit(Xor(a, b), 4) == (Bit(a, 4) != Bit(b, 4))
  {
  }

  lemma {:induction false} TapLinear(p: bool, q: bool, g: bv32)
    ensures Tap(p != q, g) == Xor(Tap(p, g), Tap(q, g))
  {
    hide Xor;
    Identities(g);
    Identities(0);
  }

  lemma {:induction false} TapsLinear(a: bv32, b: bv32, count: nat)
    requires count <= 5
    ensures Taps(Xor(a, b), count) == Xor(Taps(a, count), Taps(b, count))
  {
    hide Xor, Bit, Tap, Generator;
    Identities(0);
    if count > 0 {
      var i := count - 1;
      TapsLinear(a, b, i);
      BitLinear(a, b, i);
      TapLinear(Bit(a, i), Bit(b, i), Generator(i));
      Regrouped(Taps(a, i), Taps(b, i), Tap(Bit(a, i), Generator(i)), Tap(Bit(b, i), Generator(i)));
    }
  }

  lemma {:induction false} ShiftLinear(a: bv32, b: bv32)
    ensures Top(Xor(a, b)) == Xor(Top(a), Top(b)) && Kept(Xor(a, b)) == Xor(Kept(a), Kept(b))
  {
  }

  lemma {:induction false} StepLinear(a: bv32, b: bv32, u: bv32, v: bv32)
    ensures Step(Xor(a, b), Xor(u, v)) == Xor(Step(a, u), Step(b, v))
  {
    hide Xor, Kept, Top, Taps;
    ShiftLinear(a, b);
    TapsLinear(Top(a), Top(b), 5);
    Regrouped(Kept(a), Kept(b), u, v);
    Regrouped(Xor(Kept(a), u), Xor(Kept(b), v), Taps(Top(a), 5), Taps(Top(b), 5));
  }

  // ---- words of 30 bits ----

  predicate Small(w: seq<bv32>) { forall i :: 0 <= i < |w| ==> w[i] < 32 }

  lemma {:induction false} XorSmall(a: bv32, b: bv32)
    ensures a < 0x4000_0000 && b < 0x4000_0000 ==> Xor(a, b) < 0x4000_0000
    ensures a < 32 && b < 32 ==> Xor(a, b) < 32
  {
  }

  lemma {:induction false} TapsSmall(top: bv32, count: nat)
    requires count <= 5
    ensures Taps(top, count) < 0x4000_0000
  {
    hide Xor, Bit;
    if count > 0 {
      TapsSmall(top, count - 1);
      XorSmall(Taps(top, count - 1), Tap(Bit(top, count - 1), Generator(count - 1)));
    }
  }

  lemma {:induction false} StepSmall(chk: bv32, v: bv32)
    requires v < 32
    ensures Step(chk, v) < 0x4000_0000
  {
    hide Xor, Taps;
    TapsSmall(Top(chk), 5);
    KeptSmall(chk);
    XorSmall(Kept(chk), v);
    XorSmall(Xor(Kept(chk), v), Taps(Top(chk), 5));
  }

  lemma {:induction false} KeptSmall(chk: bv32)
    ensures Kept(chk) < 0x4000_0000
  {
  }

  lemma {:induction false} TapsFlat(top: bv32)
    ensures var t0 := Tap(Bit(top, 0), 0x3b6a57b2);
            var t1 := Tap(Bit(top, 1), 0x26508e6d);
            var t2 := Tap(Bit(top, 2), 0x1ea119fa);
            var t3 := Tap(Bit(top, 3), 0x3d4233dd);
            var t4 := Tap(Bit(top, 4), 0x2a1462b3);
            Taps(top, 5) == Xor(Xor(Xor(Xor(Xor(0, t0), t1), t2), t3), t4)
  {
    hide Xor, Bit, Tap;
    assert Taps(top, 1) == Xor(0, Tap(Bit(top, 0), Generator(0)));
    assert Taps(top, 3) == Xor(Xor(Taps(top, 1), Tap(Bit(top, 1), Generator(1))), Tap(Bit(top, 2), Generator(2)));
  }

  /** A register that is not clear stays so when zeros are read. */
  lemma {:induction false} ZeroStep(chk: bv32)
    requires chk < 0x4000_0000 && Step(chk, 0) == 0
    ensures chk == 0
  {
    TapsFlat(Top(chk));
  }

  lemma {:induction false} TapsZero(count: nat)
    requires count <= 5
    ensures Taps(0, count) == 0
  {
    hide Xor;
    Identities(0);
    if count > 0 {
      TapsZero(count - 1);
      assert !Bit(0, count - 1);
    }
  }

  lemma {:induction false} EarlyParts(chk: bv32)
    requires chk < 0x200_0000
    ensures Top(chk) == 0 && Kept(chk) == chk << 5
  {
  }

  /** `(chk << 5) ^ v`. */
  function Joined(chk: bv32, v: bv32): bv32 { Xor(chk << 5, v) }

  /** The first six symbols fill an empty register without feedback. */
  lemma {:induction false} EarlyStep(chk: bv32, v: bv32)
    requires chk < 0x200_0000
    ensures Step(chk, v) == Joined(chk, v)
  {
    hide Xor, Taps, Kept, Top;
    EarlyParts(chk);
    TapsZero(5);
    Identities(Xor(chk << 5, v));
  }

  // ---- reading sequences ----

  lemma {:induction false} PolymodConcat(chk: bv32, v: seq<bv32>, w: seq<bv32>)
    ensures Polymod(chk, v + w) == Polymod(Polymod(chk, v), w)
    decreases |w|
  {
    hide Step;
    if w == [] {
      assert v + w == v;
    } else {
      assert (v + w)[..|v + w| - 1] == v + w[..|w| - 1];
      PolymodConcat(chk, v, w[..|w| - 1]);
    }
  }

  function XorAll(v: seq<bv32>, w: seq<bv32>): (r: seq<bv32>)
    requires |v| == |w|
    ensures |r| == |v| && forall i :: 0 <= i < |r| ==> r[i] == Xor(v[i], w[i])
  {
    seq(|v|, i requires 0 <= i < |v| => Xor(v[i], w[i]))
  }

  lemma {:induction false} PolymodLinear(a: bv32, b: bv32, v: seq<bv32>, w: seq<bv32>)
    requires |v| == |w|
    ensures Polymod(Xor(a, b), XorAll(v, w)) == Xor(Polymod(a, v), Polymod(b, w))
  {
    hide Step, Xor;
    if v != [] {
      var k := |v| - 1;
      assert XorAll(v, w)[..k] == XorAll(v[..k], w[..k]);
      PolymodLinear(a, b, v[..k], w[..k]);
      StepLinear(Polymod(a, v[..k]), Polymod(b, w[..k]), v[k], w[k]);
    }
  }

  lemma {:induction false} PolymodSmall(chk: bv32, w: seq<bv32>)
    requires chk < 0x4000_0000 && Small(w)
    ensures Polymod(chk, w) < 0x4000_0000
  {
    hide Step;
    if w != [] {
      PolymodSmall(chk, w[..|w| - 1]);
      StepSmall(Polymod(chk, w[..|w| - 1]), w[|w| - 1]);
    }
  }

  lemma {:induction false} ZerosKeep(chk: bv32, n: nat)
    requires chk < 0x4000_0000 && chk != 0
    ensures Polymod(chk, Repeat(0, n)) != 0
  {
    hide Step;
    if n > 0 {
      var w := Repeat<bv32>(0, n);
      assert w[..n - 1] == Repeat<bv32>(0, n - 1);
      ZerosKeep(chk, n - 1);
      assert Small(Repeat<bv32>(0, n - 1));
      PolymodSmall(chk, Repeat<bv32>(0, n - 1));
      if Step(Polymod(chk, Repeat(0, n - 1)), 0) == 0 {
        ZeroStep(Polymod(chk, Repeat(0, n - 1)));
      }
    }
  }

  // ---- six symbols are a register ----

  function Limit(n: nat): bv32
    requires n <= 6
  {
    match n
    case 0 => 1
    case 1 => 0x20
    case 2 => 0x400
    case 3 => 0x8000
    case 4 => 0x10_0000
    case 5 => 0x200_0000
    case 6 => 0x4000_0000
  }

  predicate Fits(p: bv32, n: nat)
    requires n <= 6
  {
    p < Limit(n)
  }

  function High(p: bv32): bv32 { p >> 5 }

  function Last(p: bv32): bv32 { p & 31 }

  /** The low 5n bits as n symbols. */
  function Split(p: bv32, n: nat): (w: seq<bv32>)
    ensures |w| == n
  {
    if n == 0 then [] else Split(High(p), n - 1) + [Last(p)]
  }

  lemma {:induction false} LimitDown(p: bv32, n: nat)
    requires 0 < n <= 6 && Fits(p, n)
    ensures Fits(High(p), n - 1) && High(p) < 0x200_0000
  {
  }

  lemma {:induction false} LimitUp(p: bv32, v: bv32, n: nat)
    requires 0 < n <= 6 && Fits(p, n - 1) && v < 32
    ensures Fits(Joined(p, v), n) && p < 0x200_0000
  {
  }

  lemma {:induction false} Reassemble(p: bv32)
    ensures Joined(High(p), Last(p)) == p && Last(p) < 32
  {
  }

  lemma {:induction false} TakeApart(p: bv32, v: bv32)
    requires p < 0x200_0000 && v < 32
    ensures High(Joined(p, v)) == p && Last(Joined(p, v)) == v
  {
  }

  lemma {:induction false} FitsZero(p: bv32)
    ensures Fits(p, 0) <==> p == 0
    ensures Fits(p, 6) <==> p < 0x4000_0000
  {
  }

  /** Reading the symbols of a word into an empty register gives the word. */
  lemma {:induction false} ReadSplit(p: bv32, n: nat)
    requires n <= 6 && Fits(p, n)
    ensures Small(Split(p, n)) && Polymod(0, Split(p, n)) == p
    decreases n
  {
    hide Step, Joined, High, Last, Fits;
    FitsZero(p);
    if n > 0 {
      LimitDown(p, n);
      ReadSplit(High(p), n - 1);
      EarlyStep(High(p), Last(p));
      Reassemble(p);
      var w := Split(p, n);
      assert w[..n - 1] == Split(High(p), n - 1);
    }
  }

  /** Up to six symbols are determined by the word they leave in an empty register. */
  lemma {:induction false} SplitRead(w: seq<bv32>)
    requires |w| <= 6 && Small(w)
    ensures Fits(Polymod(0, w), |w|) && Split(Polymod(0, w), |w|) == w
  {
    hide Step, Joined, High, Last, Fits;
    FitsZero(0);
    if w != [] {
      var k := |w| - 1;
      var p := Polymod(0, w[..k]);
      SplitRead(w[..k]);
      LimitUp(p, w[k], |w|);
      EarlyStep(p, w[k]);
      TakeApart(p, w[k]);
      assert w == w[..k] + [w[k]];
    }
  }

  // ---- detection ----

  lemma {:induction false} SplitZero(n: nat)
    ensures Split(0, n) == Repeat(0, n)
  {
    if n > 0 {
      assert High(0) == 0 && Last(0) == 0;
      SplitZero(n - 1);
      assert Repeat<bv32>(0, n) == Repeat<bv32>(0, n - 1) + [0];
    }
  }

  /** Changing any run of at most six consecutive symbols changes the register. */
  lemma {:induction false} BurstDetected(chk: bv32, before: seq<bv32>, v: seq<bv32>, w: seq<bv32>, after: seq<bv32>)
    requires |v| == |w| <= 6 && v != w && Small(v) && Small(w)
    ensures Polymod(chk, before + v + after) != Polymod(chk, before + w + after)
  {
    hide Step, Xor, Polymod;
    PolymodConcat(chk, before, v);
    PolymodConcat(chk, before + v, after);
    PolymodConcat(chk, before, w);
    PolymodConcat(chk, before + w, after);
    var c := Polymod(chk, before);
    var x, y := Polymod(c, v), Polymod(c, w);
    Difference(c, v, w);
    var zeros := XorAll(after, after);
    PolymodLinear(x, y, after, after);
    AllZero(after);
    ZerosKeep(Xor(x, y), |after|);
    Identities(Polymod(x, after));
  }

  lemma {:induction false} AllZero(w: seq<bv32>)
    ensures XorAll(w, w) == Repeat(0, |w|)
  {
    hide Xor;
    forall i | 0 <= i < |w| ensures Xor(w[i], w[i]) == 0 {
      Identities(w[i]);
    }
  }

  lemma {:induction false} Difference(c: bv32, v: seq<bv32>, w: seq<bv32>)
    requires |v| == |w| <= 6 && v != w && Small(v) && Small(w)
    ensures Xor(Polymod(c, v), Polymod(c, w)) != 0 && Xor(Polymod(c, v), Polymod(c, w)) < 0x4000_0000
  {
    hide Step, Xor, Polymod, Split;
    var d := XorAll(v, w);
    forall i | 0 <= i < |d| ensures d[i] < 32 {
      XorSmall(v[i], w[i]);
    }
    PolymodLinear(c, c, v, w);
    Identities(c);
    SplitRead(d);
    PolymodSmall(0, d);
    if Polymod(0, d) == 0 {
      SplitZero(|d|);
      forall i | 0 <= i < |v| ensures v[i] == w[i] {
        Cancel(v[i], w[i]);
      }
    }
  }

  lemma {:induction false} Cancel(a: bv32, b: bv32)
    ensures Xor(a, b) == 0 <==> a == b
    ensures Xor(a, Xor(a, b)) == b
  {
    hide Xor;
    Associative(a, a, b);
    Identities(a);
    Identities(b);
  }

  // ---- creating and verifying ----

  datatype Spec = Bech32 | Bech32m

  function Constant(spec: Spec): bv32 {
    if spec.Bech32? then 1 else 0x2bc830a3
  }

  /** The high bits of the characters, a zero, and their low bits. */
  function HrpExpand(hrp: Bytes): Bytes {
    seq(|hrp|, i requires 0 <= i < |hrp| => hrp[i] / 32) + [0] + seq(|hrp|, i requires 0 <= i < |hrp| => hrp[i] % 32)
  }

  /** The expansion takes twice the length and a separator, and splits every character into its
      high bits in front of the separator and its low five bits behind it. */
  lemma {:induction false} ExpandMeans(hrp: Bytes, i: nat)
    requires i < |hrp|
    ensures |HrpExpand(hrp)| == 2 * |hrp| + 1 && HrpExpand(hrp)[|hrp|] == 0
    ensures HrpExpand(hrp)[|hrp| + 1 + i] < 32 && HrpExpand(hrp)[i] < 8
    ensures 32 * HrpExpand(hrp)[i] as int + HrpExpand(hrp)[|hrp| + 1 + i] == hrp[i]
  {
  }

  /** `bech32HrpExpand`: two loops with a zero between them. */
  method ExpandHrp(hrp: Bytes) returns (values: Bytes)
    ensures values == HrpExpand(hrp)
  {
    values := [];
    for i := 0 to |hrp|
      invariant values == HrpExpand(hrp)[..i]
    {
      values := values + [hrp[i] / 32];
    }
    values := values + [0];
    for i := 0 to |hrp|
      invariant values == HrpExpand(hrp)[..|hrp| + 1 + i]
    {
      values := values + [hrp[i] % 32];
    }
  }

  function Verified(hrp: Bytes, data: Bytes): Option<Spec> {
    var residue := Polymod(1, Words(HrpExpand(hrp) + data));
    if residue == Constant(Bech32) then Some(Bech32)
    else if residue == Constant(Bech32m) then Some(Bech32m)
    else None
  }

  function Symbol(b: bv32): (v: Byte)
    ensures v < 32
  {
    (b & 31) as int
  }

  function Checksum(hrp: Bytes, data: Bytes, spec: Spec): (c: Bytes)
    ensures |c| == 6
  {
    var w := Split(Xor(Polymod(1, Words(HrpExpand(hrp) + data + Repeat(0, 6))), Constant(spec)), 6);
    seq(6, i requires 0 <= i < 6 => Symbol(w[i]))
  }

  method CreateChecksum(hrp: Bytes, data: Bytes, spec: Spec) returns (checksum: Bytes)
    ensures checksum == Checksum(hrp, data, spec)
  {
    hide Polymod, HrpExpand, Words, Split, Symbol, Last, Drop, Xor;
    var expanded := ExpandHrp(hrp);
    var register := ComputePolymod(expanded + data + Repeat(0, 6));
    var p := Xor(register, Constant(spec));
    checksum := [];
    for i := 0 to 6
      invariant |checksum| == i && forall k :: 0 <= k < i ==> checksum[k] == Symbol(Split(p, 6)[k])
    {
      SplitAt(p, 6, 5 - i);
      checksum := checksum + [Symbol(Last(Drop(p, 5 - i)))];
    }
  }

  /** `p >> 5j`, five bits at a time. */
  function Drop(p: bv32, j: nat): bv32 {
    if j == 0 then p else Drop(High(p), j - 1)
  }

  lemma {:induction false} DropShifts(p: bv32)
    ensures Drop(p, 0) == p && Drop(p, 1) == p >> 5 && Drop(p, 2) == p >> 10
    ensures Drop(p, 3) == p >> 15 && Drop(p, 4) == p >> 20 && Drop(p, 5) == p >> 25
  {
    hide High;
    HighIs(p);
    DropNext(p, 0);
    DropNext(p, 1);
    DropNext(p, 2);
    DropNext(p, 3);
    DropNext(p, 4);
  }

  lemma {:induction false} DropNext(p: bv32, j: nat)
    ensures Drop(p, 0) == p && Drop(p, j + 1) == High(Drop(p, j))
    decreases j
  {
    hide High;
    if j > 0 {
      DropNext(High(p), j - 1);
    }
  }

  lemma {:induction false} HighIs(p: bv32)
    ensures High(p) == p >> 5 && High(p >> 5) == p >> 10 && High(p >> 10) == p >> 15
    ensures High(p >> 15) == p >> 20 && High(p >> 20) == p >> 25
  {
  }

  lemma {:induction false} SplitAt(p: bv32, n: nat, j: nat)
    requires j < n
    ensures Split(p, n)[n - 1 - j] == Last(Drop(p, j))
    decreases n
  {
    hide Last, High;
    if j > 0 {
      SplitAt(High(p), n - 1, j - 1);
    }
  }

  lemma {:induction false} WordOfSymbol(b: bv32)
    requires b < 32
    ensures Word(Symbol(b)) == b
  {
    LowBits(b);
  }

  lemma {:induction false} LowBits(b: bv32)
    requires b < 32
    ensures b & 31 == b
  {
  }

  lemma {:induction false} SymbolIs(b: bv32)
    requires b < 32
    ensures Symbol(b) == b as int
  {
    LowBits(b);
  }

  lemma {:induction false} Successor(b: bv32)
    requires b < 31
    ensures (b + 1) as int == b as int + 1
  {
  }

  lemma {:induction false} WordFor(v: nat) returns (b: bv32)
    requires v < 32
    ensures b <= 31 && b as int == v
  {
    b := 0;
    if v > 0 {
      b := WordFor(v - 1);
      if b == 31 {
        assert false;
      }
      Successor(b);
      b := b + 1;
    }
  }

  lemma {:induction false} WordIs(v: Byte)
    requires v < 32
    ensures Word(v) < 32 && Word(v) as int == v
  {
    var b := WordFor(v);
    SymbolIs(b);
    WordOfSymbol(b);
  }

  lemma {:induction false} SymbolOfWord(v: Byte)
    requires v < 32
    ensures Word(v) < 32 && Symbol(Word(v)) == v
  {
    hide Word, Symbol;
    WordIs(v);
    SymbolIs(Word(v));
  }

  lemma {:induction false} WordsConcat(v: Bytes, w: Bytes)
    ensures Words(v + w) == Words(v) + Words(w)
  {
    hide Word;
  }

  lemma {:induction false} ChecksumWords(hrp: Bytes, data: Bytes, spec: Spec)
    ensures var z := Polymod(Polymod(1, Words(HrpExpand(hrp) + data)), Repeat(0, 6));
            Small(Words(Checksum(hrp, data, spec))) && Polymod(0, Words(Checksum(hrp, data, spec))) == Xor(z, Constant(spec))
  {
    hide Word, Symbol, Xor, Split, HrpExpand;
    var front := HrpExpand(hrp) + data;
    WordsConcat(front, Repeat(0, 6));
    ZeroWords();
    var c := Polymod(1, Words(front));
    var z := Polymod(c, Repeat(0, 6));
    PolymodConcat(1, Words(front), Repeat(0, 6));
    var p := Xor(z, Constant(spec));
    LastZero(c);
    XorSmall(z, Constant(spec));
    FitsZero(p);
    ReadSplit(p, 6);
    forall i | 0 <= i < 6 ensures Words(Checksum(hrp, data, spec))[i] == Split(p, 6)[i] {
      WordOfSymbol(Split(p, 6)[i]);
    }
    assert Words(Checksum(hrp, data, spec)) == Split(p, 6);
  }

  lemma {:induction false} ZeroWords()
    ensures Words(Repeat(0, 6)) == Repeat(0, 6)
  {
    assert Word(0) == 0;
  }

  lemma {:induction false} LastZero(c: bv32)
    ensures Polymod(c, Repeat(0, 6)) < 0x4000_0000
  {
    hide Step;
    var w := Repeat<bv32>(0, 6);
    StepSmall(Polymod(c, w[..5]), 0);
  }

  /** Any data with the checksum made for it verifies, and reports the specification it was made for. */
  lemma {:induction false} ChecksumVerifies(hrp: Bytes, data: Bytes, spec: Spec)
    ensures Verified(hrp, data + Checksum(hrp, data, spec)) == Some(spec)
  {
    hide Xor, Checksum, HrpExpand, Words, Polymod;
    var front := HrpExpand(hrp) + data;
    var s := Words(Checksum(hrp, data, spec));
    var c := Polymod(1, Words(front));
    var zeros := Repeat<bv32>(0, 6);
    assert HrpExpand(hrp) + (data + Checksum(hrp, data, spec)) == front + Checksum(hrp, data, spec);
    WordsConcat(front, Checksum(hrp, data, spec));
    PolymodConcat(1, Words(front), s);
    ChecksumWords(hrp, data, spec);
    PolymodLinear(c, 0, zeros, s);
    ZerosXor(s);
    Identities(c);
    Cancel(Polymod(c, zeros), Constant(spec));
    assert Constant(Bech32) != Constant(Bech32m);
  }

  lemma {:induction false} ZerosXor(s: seq<bv32>)
    requires |s| == 6
    ensures XorAll(Repeat(0, 6), s) == s
  {
    hide Xor;
    forall i | 0 <= i < 6 ensures Xor(0, s[i]) == s[i] {
      Identities(s[i]);
    }
  }

  /** Corrupting up to six consecutive symbols of a verified string, a single symbol among
      them, never leaves a string that verifies under the same specification. */
  lemma {:induction false} CorruptionDetected(hrp: Bytes, before: Bytes, v: Bytes, w: Bytes, after: Bytes)
    requires |v| == |w| <= 6 && v != w
    requires forall i :: 0 <= i < |v| ==> v[i] < 32 && w[i] < 32
    requires Verified(hrp, before + v + after).Some?
    ensures Verified(hrp, before + w + after) != Verified(hrp, before + v + after)
    ensures Polymod(1, Words(HrpExpand(hrp) + (before + w + after))) != Polymod(1, Words(HrpExpand(hrp) + (before + v + after)))
  {
    hide HrpExpand, Polymod, Word;
    var front := HrpExpand(hrp);
    Burst(front, before, v, after);
    Burst(front, before, w, after);
    WordsDiffer(v, w);
    BurstDetected(1, Words(front + before), Words(v), Words(w), Words(after));
  }

  lemma {:induction false} Burst(front: Bytes, before: Bytes, v: Bytes, after: Bytes)
    ensures Words(front + (before + v + after)) == Words(front + before) + Words(v) + Words(after)
  {
    hide Word, Words;
    assert front + (before + v + after) == front + before + v + after;
    WordsConcat(front + before + v, after);
    WordsConcat(front + before, v);
  }

  lemma {:induction false} WordsDiffer(v: Bytes, w: Bytes)
    requires |v| == |w| && v != w && forall i :: 0 <= i < |v| ==> v[i] < 32 && w[i] < 32
    ensures Words(v) != Words(w) && Small(Words(v)) && Small(Words(w))
  {
    hide Word, Symbol;
    forall i | 0 <= i < |v| ensures Symbol(Words(v)[i]) == v[i] && Symbol(Words(w)[i]) == w[i] && Words(v)[i] < 32 && Words(w)[i] < 32 {
      SymbolOfWord(v[i]);
      SymbolOfWord(w[i]);
    }
    var i :| 0 <= i < |v| && v[i] != w[i];
    assert Words(v)[i] != Words(w)[i];
  }
}
