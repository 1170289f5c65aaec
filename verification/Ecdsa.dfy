/**
 ECDSA over a group of prime order n, its elements written as multiples 0 .. n-1 of
 the generator.  Only the affine x coordinate of an element is seen, and an element and
 its negation share it.
 */
module Ecdsa {
  import opened Prelude
  import opened Radix
  import opened Regroup
  import opened Der

  datatype Group = Group(
    n: nat,
    half: nat,
    /** Bits of n. */
    bits: nat,
    /** Bytes of a coordinate. */
    coord: nat,
    x: nat -> nat,
    inverse: nat -> nat,
    /** The deterministic nonce of RFC 6979, from the private scalar and the hash. */
    nonce: (nat, Bytes) -> nat)

  ghost predicate Lawful(g: Group) {
    && 1 < g.n <= Pow(256, g.coord) && g.half == g.n / 2 && g.coord <= 60
    && (forall a: nat :: 0 < a < g.n ==> 0 < g.inverse(a) < g.n && a * g.inverse(a) % g.n == 1)
    && (forall k: nat :: 0 < k < g.n ==> g.x(k) == g.x(g.n - k))
    && (forall d: nat, h: Bytes :: 0 < g.nonce(d, h) < g.n)
  }

  /** The laws can be met: a group of three elements. */
  lemma {:induction false} LawfulExists() returns (g: Group)
    ensures Lawful(g)
  {
    g := Group(3, 1, 2, 1, k => 1, a => a, (d, h) => 1);
    assert Pow(256, 1) == 256;
    forall a: nat | 0 < a < 3 ensures a * g.inverse(a) % 3 == 1 {
      assert a == 1 || a == 2;
    }
  }

  // ---- signing and verifying ----

  /** The leftmost `bits` bits of the hash. */
  function BitsToInt(hash: Bytes, bits: nat): nat {
    if |hash| * 8 > bits then Above(Value(hash, 256), |hash| * 8 - bits) else Value(hash, 256)
  }

  /** The rest of the hash lies below, and nothing above. */
  lemma {:induction false} LeadingBits(hash: Bytes, bits: nat)
    ensures var rest := if |hash| * 8 > bits then |hash| * 8 - bits else 0;
            var z := BitsToInt(hash, bits);
            && z < P2(bits)
            && z * P2(rest) <= Value(hash, 256) < z * P2(rest) + P2(rest)
  {
    hide Value, P2, Pow;
    P2Byte(8);
    P2Byte(0);
    var v := Value(hash, 256);
    ValueBound(hash, 256);
    BytesPower(|hash|);
    if |hash| * 8 > bits {
      var rest := |hash| * 8 - bits;
      P2Add(rest, bits);
      var q := High(v, P2(rest), P2(bits));
    } else {
      P2Add(|hash| * 8, bits - |hash| * 8);
      MulMonotone(P2(|hash| * 8), 1, P2(bits - |hash| * 8));
    }
  }

  lemma {:induction false} BytesPower(n: nat)
    ensures Pow(256, n) == P2(n * 8)
  {
    if n == 0 {
      P2Byte(0);
    } else {
      P2Byte(8);
      BytesPower(n - 1);
      P2Add(8, (n - 1) * 8);
    }
  }

  predicate Supported(hash: Bytes) { |hash| == 32 || |hash| == 48 || |hash| == 64 }

  /** The scalars r and s of a signature. */
  function SignScalars(g: Group, d: nat, hash: Bytes, lowS: bool): Option<(nat, nat)>
    requires g.n > 1
  {
    var k := g.nonce(d, hash);
    var r := g.x(k) % g.n;
    if r == 0 then None
    else
      var z := BitsToInt(hash, g.bits);
      var s := g.inverse(k) * (z + r * d) % g.n;
      if s == 0 then None
      else if lowS && s > g.half then Some((r, g.n - s))
      else Some((r, s))
  }

  function SignWithRecovery(g: Group, key: Bytes, hash: Bytes, lowS: bool): Option<Signature>
    requires g.n > 1
  {
    if |key| != g.coord then None
    else
      var d := Value(key, 256);
      if d == 0 || d >= g.n || !Supported(hash) then None
      else match SignScalars(g, d, hash, lowS)
        case None => None
        case Some((r, s)) => Some(Signature(Fixed(r, 256, g.coord), Fixed(s, 256, g.coord)))
  }

  /** `sign`: the DER form, if it fits the caller's buffer. */
  function Sign(g: Group, key: Bytes, hash: Bytes, lowS: bool, capacity: nat): Option<Bytes>
    requires g.n > 1
  {
    match SignWithRecovery(g, key, hash, lowS)
    case None => None
    case Some(sig) => if |ToDer(sig)| > capacity then None else Some(ToDer(sig))
  }

  function VerifyScalars(g: Group, public: nat, hash: Bytes, r: nat, s: nat): bool
    requires g.n > 1
  {
    if r == 0 || r >= g.n || s == 0 || s >= g.n then false
    else
      var z := BitsToInt(hash, g.bits);
      var w := g.inverse(s);
      var u1 := z * w % g.n;
      var u2 := r * w % g.n;
      var sum := (u1 + u2 * public) % g.n;
      sum != 0 && g.x(sum) % g.n == r
  }

  function VerifyCompact(g: Group, public: nat, hash: Bytes, compact: Bytes): bool
    requires g.n > 1
  {
    |compact| == 2 * g.coord
    && VerifyScalars(g, public, hash, Value(compact[..g.coord], 256), Value(compact[g.coord..], 256))
  }

  function Verify(g: Group, public: nat, hash: Bytes, der: Bytes): bool
    requires g.n > 1
  {
    match FromDer(der, g.coord)
    case None => false
    case Some(sig) => VerifyCompact(g, public, hash, ToCompact(sig, g.coord))
  }

  // ---- arithmetic modulo n ----

  predicate Congruent(a: int, b: int, n: nat)
    requires n > 0
  {
    a % n == b % n
  }

  lemma {:induction false} Multiple(a: int, b: int, n: nat) returns (c: int)
    requires n > 0 && Congruent(a, b, n)
    ensures a == b + n * c
  {
    c := a / n - b / n;
    assert a == n * (a / n) + a % n && b == n * (b / n) + b % n;
  }

  lemma {:induction false} Reduced(a: int, n: nat)
    requires n > 0
    ensures Congruent(a % n, a, n)
  {
    assert a == n * (a / n) + a % n;
    AddMultiple(a % n, n, a / n);
  }

  lemma {:induction false} CongruentMul(a: int, b: int, x: int, n: nat)
    requires n > 0 && Congruent(a, b, n)
    ensures Congruent(a * x, b * x, n)
  {
    var c := Multiple(a, b, n);
    Spread(b, n, c, x);
    AddMultiple(b * x, n, c * x);
  }

  lemma {:induction false} Spread(b: int, n: int, c: int, x: int)
    ensures (b + n * c) * x == b * x + n * (c * x)
  {
  }

  lemma {:induction false} CongruentAdd(a: int, b: int, x: int, y: int, n: nat)
    requires n > 0 && Congruent(a, b, n) && Congruent(x, y, n)
    ensures Congruent(a + x, b + y, n)
  {
    var c := Multiple(a, b, n);
    var e := Multiple(x, y, n);
    TwoMultiples(b, y, n, c, e);
    AddMultiple(b + y, n, c + e);
  }

  lemma {:induction false} TwoMultiples(b: int, y: int, n: int, c: int, e: int)
    ensures b + n * c + (y + n * e) == b + y + n * (c + e)
  {
  }

  lemma {:induction false} Within(a: int, b: int, n: nat)
    requires n > 0 && Congruent(a, b, n) && 0 <= a < n && 0 <= b < n
    ensures a == b
  {
    DivMod(0, n, a);
    DivMod(0, n, b);
  }

  // ---- a signature verifies ----

  /** The scalar the verifier arrives at is w (z + r d). */
  lemma {:induction false} VerifierSum(n: nat, z: nat, r: nat, d: nat, w: nat)
    requires n > 1
    ensures Congruent(z * w % n + r * w % n * d, w * (z + r * d), n)
  {
    Reduced(z * w, n);
    Reduced(r * w, n);
    CongruentMul(r * w % n, r * w, d, n);
    CongruentAdd(z * w % n, z * w, r * w % n * d, r * w * d, n);
    Factored(z, r, d, w);
  }

  lemma {:induction false} Factored(z: int, r: int, d: int, w: int)
    ensures z * w + r * w * d == w * (z + r * d)
  {
  }

  /** For s0 as the signer computed it, that is w k s0. */
  lemma {:induction false} SignerSum(n: nat, k: nat, kInv: nat, m: nat, w: nat, s0: nat)
    requires n > 1 && Congruent(k * kInv, 1, n) && Congruent(s0, kInv * m, n)
    ensures Congruent(w * m, w * s0 * k, n)
  {
    CongruentMul(s0, kInv * m, w * k, n);
    CongruentMul(k * kInv, 1, m * w, n);
    Reorder(s0, w, k, kInv, m);
  }

  lemma {:induction false} Reorder(s0: int, w: int, k: int, kInv: int, m: int)
    ensures s0 * (w * k) == w * s0 * k && kInv * m * (w * k) == k * kInv * (m * w) && 1 * (m * w) == w * m
  {
    assert kInv * m * (w * k) == kInv * (m * w) * k;
  }

  /** With s as computed the verifier arrives at k; with n - s, at n - k. */
  lemma {:induction false} Arrives(n: nat, k: int, s0: int, s: int, w: int, sum: int)
    requires 0 < k < n && 0 < s0 < n && (s == s0 || s == n - s0) && Congruent(s * w, 1, n)
    requires Congruent(sum, w * s0 * k, n) && 0 <= sum < n
    ensures sum == if s == s0 then k else n - k
  {
    if s == s0 {
      PlainProduct(s0, w, k);
      CongruentMul(s * w, 1, k, n);
      Within(sum, k, n);
    } else {
      var c := n - k;
      NegatedProduct(n, s, w, k);
      CongruentMul(s * w, 1, c, n);
      AddMultiple(s * w * c, n, w * k - s * w);
      Within(sum, c, n);
    }
  }

  lemma {:induction false} PlainProduct(s0: int, w: int, k: int)
    ensures w * s0 * k == s0 * w * k
  {
  }

  lemma {:induction false} NegatedProduct(n: int, s: int, w: int, k: int)
    ensures w * (n - s) * k == s * w * (n - k) + n * (w * k - s * w)
  {
    assert w * (n - s) == w * n - s * w;
    assert (w * n - s * w) * k == w * n * k - s * w * k;
    assert s * w * (n - k) == s * w * n - s * w * k;
    assert n * (w * k - s * w) == w * n * k - s * w * n;
  }

  lemma {:induction false} VerifierArrives(n: nat, k: nat, kInv: nat, z: nat, r: nat, d: nat, s0: nat, s: nat, w: nat)
    requires 1 < n && 0 < k < n && Congruent(k * kInv, 1, n) && s0 == kInv * (z + r * d) % n && 0 < s0
    requires (s == s0 || s == n - s0) && Congruent(s * w, 1, n)
    ensures (z * w % n + r * w % n * d) % n == if s == s0 then k else n - k
  {
    Reduced(kInv * (z + r * d), n);
    VerifierSum(n, z, r, d, w);
    SignerSum(n, k, kInv, z + r * d, w, s0);
    var total := z * w % n + r * w % n * d;
    Reduced(total, n);
    Arrives(n, k, s0, s, w, total % n);
  }

  lemma {:induction false} ScalarsVerify(g: Group, d: nat, hash: Bytes, lowS: bool)
    requires Lawful(g) && SignScalars(g, d, hash, lowS).Some?
    ensures var (r, s) := SignScalars(g, d, hash, lowS).value;
            && 0 < r < g.n && 0 < s < g.n && (lowS ==> s <= g.n / 2)
            && VerifyScalars(g, d, hash, r, s)
  {
    hide BitsToInt, Congruent;
    var (r, s) := SignScalars(g, d, hash, lowS).value;
    var k := g.nonce(d, hash);
    var z := BitsToInt(hash, g.bits);
    var kInv := g.inverse(k);
    Ones(g, k);
    Ones(g, s);
    VerifierArrives(g.n, k, kInv, z, r, d, kInv * (z + r * d) % g.n, s, g.inverse(s));
    assert g.x(k) == g.x(g.n - k);
  }

  lemma {:induction false} Ones(g: Group, a: nat)
    requires Lawful(g) && 0 < a < g.n
    ensures Congruent(a * g.inverse(a), 1, g.n) && 0 < g.inverse(a) < g.n
  {
    DivMod(0, g.n, 1);
  }

  lemma {:induction false} FixedScalar(v: nat, coord: nat)
    requires v < Pow(256, coord)
    ensures Value(Fixed(v, 256, coord), 256) == v && (v > 0 ==> Nonzero(Fixed(v, 256, coord)))
  {
    hide Value, Fixed;
    FixedValue(v, 256, coord);
    var s := Fixed(v, 256, coord);
    if LeadingZeros(s) == |s| {
      SplitZeros(s, 256);
      assert s[LeadingZeros(s)..] == [];
      EmptyIsZero();
    }
  }

  lemma {:induction false} EmptyIsZero()
    ensures Value([], 256) == 0
  {
  }

  /** Whatever `sign` returns, `verify` accepts with the matching public key; with low-S
      requested, s is at most half the order. */
  lemma {:induction false} SignedVerifies(g: Group, key: Bytes, hash: Bytes, lowS: bool, capacity: nat)
    requires Lawful(g) && Sign(g, key, hash, lowS, capacity).Some?
    ensures Verify(g, Value(key, 256), hash, Sign(g, key, hash, lowS, capacity).value)
    ensures lowS ==> Value(SignWithRecovery(g, key, hash, lowS).value.s, 256) <= g.n / 2
  {
    hide Value, Fixed, SignScalars, VerifyScalars, ToDer, FromDer, Lawful;
    var d := Value(key, 256);
    ScalarsVerify(g, d, hash, lowS);
    var (r, s) := SignScalars(g, d, hash, lowS).value;
    Sizes(g);
    FixedScalar(s, g.coord);
    EncodedVerifies(g, d, hash, r, s);
  }

  lemma {:induction false} Sizes(g: Group)
    requires Lawful(g)
    ensures 1 < g.n <= Pow(256, g.coord) && g.coord <= 60
  {
  }

  // ---- and nothing else verifies ----

  /** r and s are what signing with the nonce k gives, before any choice of the low s. */
  predicate Signs(g: Group, d: nat, hash: Bytes, r: nat, s: nat, k: nat)
    requires g.n > 1
  {
    && 0 < k < g.n && 0 < r && 0 < s
    && r == g.x(k) % g.n && s == g.inverse(k) * (BitsToInt(hash, g.bits) + r * d) % g.n
  }

  /** The equation of the verifier, solved for s. */
  lemma {:induction false} Solved(n: nat, k: int, kInv: int, m: int, s: int, w: int)
    requires n > 1 && Congruent(k * kInv, 1, n) && Congruent(s * w, 1, n) && Congruent(k, w * m, n)
    ensures Congruent(s, kInv * m, n)
  {
    CongruentMul(k, w * m, kInv * s, n);
    CongruentMul(k * kInv, 1, s, n);
    CongruentMul(s * w, 1, kInv * m, n);
    Rearranged(k, kInv, m, s, w);
  }

  lemma {:induction false} Rearranged(k: int, kInv: int, m: int, s: int, w: int)
    ensures k * (kInv * s) == k * kInv * s && w * m * (kInv * s) == s * w * (kInv * m)
  {
    assert w * m * (kInv * s) == w * s * (m * kInv);
  }

  /** The verifier accepts exactly the pairs that signing with some nonce gives. */
  lemma {:induction false} VerifyIff(g: Group, d: nat, hash: Bytes, r: nat, s: nat)
    requires Lawful(g)
    ensures VerifyScalars(g, d, hash, r, s) <==> exists k: nat :: Signs(g, d, hash, r, s, k)
  {
    hide BitsToInt, Congruent;
    if VerifyScalars(g, d, hash, r, s) {
      var k := NonceOf(g, d, hash, r, s);
    }
    if k: nat :| Signs(g, d, hash, r, s, k) {
      SignsVerifies(g, d, hash, r, s, k);
    }
  }

  lemma {:induction false} SignsVerifies(g: Group, d: nat, hash: Bytes, r: nat, s: nat, k: nat)
    requires Lawful(g) && Signs(g, d, hash, r, s, k)
    ensures VerifyScalars(g, d, hash, r, s)
  {
    hide BitsToInt, Congruent;
    var z := BitsToInt(hash, g.bits);
    Ones(g, k);
    Ones(g, s);
    VerifierArrives(g.n, k, g.inverse(k), z, r, d, s, s, g.inverse(s));
  }

  /** The nonce an accepted pair was made with. */
  lemma {:induction false} NonceOf(g: Group, d: nat, hash: Bytes, r: nat, s: nat) returns (k: nat)
    requires Lawful(g) && VerifyScalars(g, d, hash, r, s)
    ensures Signs(g, d, hash, r, s, k)
  {
    hide BitsToInt, Congruent;
    var z := BitsToInt(hash, g.bits);
    var w := g.inverse(s);
    var total := z * w % g.n + r * w % g.n * d;
    k := total % g.n;
    Ones(g, s);
    Ones(g, k);
    VerifierSum(g.n, z, r, d, w);
    Reduced(total, g.n);
    CongruentTransitive(k, total, w * (z + r * d), g.n);
    Solved(g.n, k, g.inverse(k), z + r * d, s, w);
    var t := g.inverse(k) * (z + r * d);
    Reduced(t, g.n);
    CongruentTransitive(s, t, t % g.n, g.n);
    Within(s, t % g.n, g.n);
  }

  lemma {:induction false} CongruentTransitive(a: int, b: int, c: int, n: nat)
    requires n > 0 && (Congruent(a, b, n) || Congruent(b, a, n)) && (Congruent(b, c, n) || Congruent(c, b, n))
    ensures Congruent(a, c, n)
  {
  }

  /** `verify` accepts exactly the DER encodings of the pairs that signing with some nonce gives. */
  lemma {:induction false} VerifiesExactly(g: Group, public: nat, hash: Bytes, der: Bytes)
    requires Lawful(g)
    ensures Verify(g, public, hash, der) <==>
              exists r: nat, s: nat, k: nat :: Signs(g, public, hash, r, s, k)
                && der == ToDer(Signature(Fixed(r, 256, g.coord), Fixed(s, 256, g.coord)))
  {
    hide Verify, Fixed, ToDer, Lawful, Signs;
    Sizes(g);
    if Verify(g, public, hash, der) {
      var r, s, k := AcceptedPair(g, public, hash, der);
    }
    if r: nat, s: nat, k: nat :| Signs(g, public, hash, r, s, k)
                                && der == ToDer(Signature(Fixed(r, 256, g.coord), Fixed(s, 256, g.coord)))
    {
      SignsVerifies(g, public, hash, r, s, k);
      EncodedVerifies(g, public, hash, r, s);
    }
  }

  lemma {:induction false} AcceptedPair(g: Group, public: nat, hash: Bytes, der: Bytes) returns (r: nat, s: nat, k: nat)
    requires Lawful(g) && Verify(g, public, hash, der)
    ensures Signs(g, public, hash, r, s, k) && der == ToDer(Signature(Fixed(r, 256, g.coord), Fixed(s, 256, g.coord)))
  {
    hide Verify, Value, Fixed, Pow, VerifyScalars, ToDer, DerToCompact, Lawful, Signs;
    Sizes(g);
    var compact := VerifiedCompact(g, public, hash, der);
    Halves(der, g.coord, compact);
    r, s := Value(compact[..g.coord], 256), Value(compact[g.coord..], 256);
    k := NonceOf(g, public, hash, r, s);
    FixedBack(compact[..g.coord], g.coord);
    FixedBack(compact[g.coord..], g.coord);
  }

  lemma {:induction false} FixedBack(a: Bytes, coord: nat)
    requires |a| == coord
    ensures Fixed(Value(a, 256), 256, coord) == a
  {
    FixedOfValue(a, 256);
  }

  lemma {:induction false} Halves(der: Bytes, coord: nat, compact: Bytes)
    requires coord <= 60 && |compact| == 2 * coord && DerToCompact(der, coord) == Some(compact)
    ensures der == ToDer(Signature(compact[..coord], compact[coord..]))
  {
    hide ToDer, DerToCompact, Nonzero;
    DerIsCanonical(der, coord);
  }

  lemma {:induction false} VerifiedCompact(g: Group, public: nat, hash: Bytes, der: Bytes) returns (compact: Bytes)
    requires g.n > 1 && Verify(g, public, hash, der)
    ensures DerToCompact(der, g.coord) == Some(compact) && |compact| == 2 * g.coord
    ensures VerifyScalars(g, public, hash, Value(compact[..g.coord], 256), Value(compact[g.coord..], 256))
  {
    hide Value, VerifyScalars, FromDer, ToCompact;
    compact := ToCompact(FromDer(der, g.coord).value, g.coord);
  }

  lemma {:induction false} EncodedVerifies(g: Group, public: nat, hash: Bytes, r: nat, s: nat)
    requires Lawful(g) && VerifyScalars(g, public, hash, r, s)
    ensures Verify(g, public, hash, ToDer(Signature(Fixed(r, 256, g.coord), Fixed(s, 256, g.coord))))
  {
    hide Value, Fixed, VerifyScalars, ToDer, FromDer, Lawful, Nonzero;
    var sig := Signature(Fixed(r, 256, g.coord), Fixed(s, 256, g.coord));
    Sizes(g);
    InRange(g, public, hash, r, s);
    FixedScalar(r, g.coord);
    FixedScalar(s, g.coord);
    var compact := sig.r + sig.s;
    assert compact[..g.coord] == sig.r && compact[g.coord..] == sig.s;
    CompactRoundTrip(compact, g.coord);
    assert FromCompact(compact, g.coord) == sig;
  }

  lemma {:induction false} InRange(g: Group, public: nat, hash: Bytes, r: nat, s: nat)
    requires g.n > 1 && VerifyScalars(g, public, hash, r, s)
    ensures 0 < r < g.n && 0 < s < g.n
  {
  }

  // ---- when signing succeeds, and with what ----

  /** r and s are the signature of the hash under the key: from the deterministic nonce, with s
      negated exactly when low s is asked for and it is above half the order. */
  ghost predicate SignedAs(g: Group, key: Bytes, hash: Bytes, lowS: bool, r: nat, s: nat)
    requires g.n > 1
  {
    var d := Value(key, 256);
    && |key| == g.coord && 0 < d < g.n && (|hash| == 32 || |hash| == 48 || |hash| == 64)
    && exists s0: nat :: Signs(g, d, hash, r, s0, g.nonce(d, hash)) && s == if lowS && s0 > g.n / 2 then g.n - s0 else s0
  }

  lemma {:induction false} ScalarsIff(g: Group, d: nat, hash: Bytes, lowS: bool, r: nat, s: nat)
    requires Lawful(g)
    ensures SignScalars(g, d, hash, lowS) == Some((r, s)) <==>
              exists s0: nat :: Signs(g, d, hash, r, s0, g.nonce(d, hash)) && s == if lowS && s0 > g.n / 2 then g.n - s0 else s0
  {
    hide BitsToInt;
    var k := g.nonce(d, hash);
    var s0 := g.inverse(k) * (BitsToInt(hash, g.bits) + g.x(k) % g.n * d) % g.n;
    if SignScalars(g, d, hash, lowS) == Some((r, s)) {
      assert Signs(g, d, hash, r, s0, k);
    }
  }

  /** `sign` returns exactly the DER encoding of the signature, when the key and the hash are of a
      supported kind, neither scalar is zero and the encoding fits the buffer. */
  lemma {:induction false} SignIff(g: Group, key: Bytes, hash: Bytes, lowS: bool, capacity: nat, der: Bytes)
    requires Lawful(g)
    ensures Sign(g, key, hash, lowS, capacity) == Some(der) <==>
              |der| <= capacity
              && exists r: nat, s: nat :: SignedAs(g, key, hash, lowS, r, s)
                   && der == ToDer(Signature(Fixed(r, 256, g.coord), Fixed(s, 256, g.coord)))
  {
    hide Signs, SignScalars, Value, Fixed, ToDer, Lawful;
    Sizes(g);
    var d := Value(key, 256);
    if Sign(g, key, hash, lowS, capacity) == Some(der) {
      var (r, s) := SignScalars(g, d, hash, lowS).value;
      ScalarsIff(g, d, hash, lowS, r, s);
      assert SignedAs(g, key, hash, lowS, r, s);
    }
    if r: nat, s: nat :| SignedAs(g, key, hash, lowS, r, s) && der == ToDer(Signature(Fixed(r, 256, g.coord), Fixed(s, 256, g.coord))) {
      ScalarsIff(g, d, hash, lowS, r, s);
    }
  }

  /** A buffer of twice the coordinate size and eight bytes always suffices: signing then fails
      only where there is no signature. */
  lemma {:induction false} SignSucceeds(g: Group, key: Bytes, hash: Bytes, lowS: bool, capacity: nat)
    requires Lawful(g) && capacity >= 2 * g.coord + 8
    ensures Sign(g, key, hash, lowS, capacity).Some? <==> exists r: nat, s: nat :: SignedAs(g, key, hash, lowS, r, s)
  {
    hide SignedAs, Fixed, ToDer, Lawful, Sign, Integer;
    Sizes(g);
    if Sign(g, key, hash, lowS, capacity).Some? {
      SignIff(g, key, hash, lowS, capacity, Sign(g, key, hash, lowS, capacity).value);
    }
    if r: nat, s: nat :| SignedAs(g, key, hash, lowS, r, s) {
      SignIff(g, key, hash, lowS, capacity, ToDer(Signature(Fixed(r, 256, g.coord), Fixed(s, 256, g.coord))));
    }
  }

  // ---- negating s ----

  lemma {:induction false} InverseOfNegated(n: nat, s: int, w: int, v: int)
    requires n > 1 && Congruent(s * w, 1, n) && Congruent((n - s) * v, 1, n)
    ensures Congruent(v, n - w, n)
  {
    hide Congruent;
    // (n - s) v == 1, so s v == -1; multiply by w
    var swv := s * w * v;
    CongruentMul((n - s) * v, 1, w, n);
    CongruentMul(s * w, 1, v, n);
    NegatedTriple(n, s, w, v);
    Shifts(-swv, n, v * w);
    CongruentTransitive(-swv, (n - s) * v * w, w, n);
    CongruentNegate(swv, v, n);
    CongruentTransitive(-v, -swv, w, n);
    CongruentNegate(-v, w, n);
    Shifts(-w, n, 1);
    CongruentTransitive(v, -w, n - w, n);
  }

  lemma {:induction false} NegatedTriple(n: int, s: int, w: int, v: int)
    ensures (n - s) * v * w == -(s * w * v) + n * (v * w)
  {
    assert (n - s) * v == n * v - s * v;
    assert (n * v - s * v) * w == n * v * w - s * v * w;
  }

  lemma {:induction false} Shifts(a: int, n: nat, c: int)
    requires n > 0
    ensures Congruent(a + n * c, a, n)
  {
    AddMultiple(a, n, c);
  }

  lemma {:induction false} CongruentNegate(a: int, b: int, n: nat)
    requires n > 0 && Congruent(a, b, n)
    ensures Congruent(-a, -b, n)
  {
    CongruentMul(a, b, -1, n);
  }

  lemma {:induction false} NegatedSum(n: nat, m: int, w: int, v: int, a: int, b: int)
    requires n > 1 && Congruent(v, n - w, n) && Congruent(a, w * m, n) && Congruent(b, v * m, n)
    requires 0 <= a < n && 0 <= b < n
    ensures b == if a == 0 then 0 else n - a
  {
    CongruentMul(v, n - w, m, n);
    assert (n - w) * m == -(w * m) + n * m;
    AddMultiple(-(w * m), n, m);
    CongruentNegate(a, w * m, n);
    AddMultiple(-a, n, 1);
    Within(b, if a == 0 then 0 else n - a, n);
  }

  /** A signature and the one with s negated are both accepted or both refused, for every key
      and hash: only the signer's low-S rule chooses between them. */
  lemma {:induction false} NegatedAlsoVerifies(g: Group, public: nat, hash: Bytes, r: nat, s: nat)
    requires Lawful(g) && 0 < s < g.n
    ensures VerifyScalars(g, public, hash, r, s) <==> VerifyScalars(g, public, hash, r, g.n - s)
  {
    hide BitsToInt;
    if 0 < r < g.n {
      var z := BitsToInt(hash, g.bits);
      var w, v := g.inverse(s), g.inverse(g.n - s);
      Ones(g, s);
      Ones(g, g.n - s);
      InverseOfNegated(g.n, s, w, v);
      VerifierSum(g.n, z, r, public, w);
      VerifierSum(g.n, z, r, public, v);
      var a := z * w % g.n + r * w % g.n * public;
      var b := z * v % g.n + r * v % g.n * public;
      Reduced(a, g.n);
      Reduced(b, g.n);
      NegatedSum(g.n, z + r * public, w, v, a % g.n, b % g.n);
    }
  }
}
