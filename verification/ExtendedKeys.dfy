/**
 BIP-32 extended keys over secp256k1: child derivation, paths and neutering.

 Hashes are functions of fixed output size.  The curve is a group of N elements seen
 through its compressed encodings; the laws used of it are stated in `Lawful`.
 */
module ExtendedKeys {
  import opened BigEndian
  import opened Prelude
  import opened Radix
  import opened Regroup

  type Bytes20 = s: Bytes | |s| == 20 witness Repeat(0, 20)
  type Bytes32 = s: Bytes | |s| == 32 witness Repeat(0, 32)
  type Bytes33 = s: Bytes | |s| == 33 witness Repeat(0, 33)
  type Bytes64 = s: Bytes | |s| == 64 witness Repeat(0, 64)

  datatype Error = InvalidSeed | NotSupported | InvalidPrivateKey | InvalidPublicKey | KeyDerivationFailed
                 | HardenedFromPublic | InvalidExtendedKey | InvalidChecksum | InvalidPath | InvalidChildIndex | Internal

  type Result<+T> = Fallible<T, Error>

  datatype Curve = Secp256k1 | OtherCurve

  const HARDENED: Word := 0x8000_0000

  // ---- scalars ----

  const ORDER: Bytes := [
    0xFF, 0xFF, 0xFF, 0xFF, 0xFF, 0xFF, 0xFF, 0xFF, 0xFF, 0xFF, 0xFF, 0xFF, 0xFF, 0xFF, 0xFF, 0xFE,
    0xBA, 0xAE, 0xDC, 0xE6, 0xAF, 0x48, 0xA0, 0x3B, 0xBF, 0xD2, 0x5E, 0x8C, 0xD0, 0x36, 0x41, 0x41]

  function N(): (n: nat)
    ensures 1 < n < Pow(256, 32)
  {
    OrderBounds();
    Value(ORDER, 256)
  }

  lemma {:induction false} OrderBounds()
    ensures 1 < Value(ORDER, 256) < Pow(256, 32)
  {
    hide Value, Pow;
    ValueBound(ORDER, 256);
    assert ORDER == [0xFF] + ORDER[1..];
    FrontDigit(0xFF, ORDER[1..], 256);
    PowPositive(256, |ORDER[1..]|);
  }

  lemma {:induction false} NextValue(s: Bytes, i: nat)
    requires i < |s|
    ensures Value(s[..i + 1], 256) == Value(s[..i], 256) * 256 + s[i] && Value(s[..0], 256) == 0
  {
    assert s[..i + 1][..i] == s[..i];
  }

  lemma {:induction false} EightBytes(s: Bytes)
    requires |s| == 8
    ensures Value(s, 256) == ((((((s[0] as int * 256 + s[1]) * 256 + s[2]) * 256 + s[3]) * 256 + s[4]) * 256 + s[5]) * 256 + s[6]) * 256 + s[7]
  {
    hide Value;
    NextValue(s, 0);
    NextValue(s, 1);
    NextValue(s, 2);
    NextValue(s, 3);
    NextValue(s, 4);
    NextValue(s, 5);
    NextValue(s, 6);
    NextValue(s, 7);
    assert s[..8] == s;
  }

  lemma {:induction false} Appended(a: Bytes, b: Bytes, x: nat, y: nat)
    requires |b| == 8 && Value(a, 256) == x && Value(b, 256) == y
    ensures Value(a + b, 256) == x * 0x1_0000_0000_0000_0000 + y
  {
    hide Value, Pow;
    PowEight();
    ValueConcat(a, b, 256);
  }

  lemma {:induction false} OrderHigh()
    ensures Value([0xFF, 0xFF, 0xFF, 0xFF, 0xFF, 0xFF, 0xFF, 0xFF], 256) == 0xFFFFFFFF_FFFFFFFF
    ensures Value([0xFF, 0xFF, 0xFF, 0xFF, 0xFF, 0xFF, 0xFF, 0xFE], 256) == 0xFFFFFFFF_FFFFFFFE
  {
    hide Value;
    EightBytes([0xFF, 0xFF, 0xFF, 0xFF, 0xFF, 0xFF, 0xFF, 0xFF]);
    EightBytes([0xFF, 0xFF, 0xFF, 0xFF, 0xFF, 0xFF, 0xFF, 0xFE]);
  }

  lemma {:induction false} OrderLow()
    ensures Value([0xBA, 0xAE, 0xDC, 0xE6, 0xAF, 0x48, 0xA0, 0x3B], 256) == 0xBAAEDCE6_AF48A03B
    ensures Value([0xBF, 0xD2, 0x5E, 0x8C, 0xD0, 0x36, 0x41, 0x41], 256) == 0xBFD25E8C_D0364141
  {
    hide Value;
    EightBytes([0xBA, 0xAE, 0xDC, 0xE6, 0xAF, 0x48, 0xA0, 0x3B]);
    EightBytes([0xBF, 0xD2, 0x5E, 0x8C, 0xD0, 0x36, 0x41, 0x41]);
  }

  /** The order of secp256k1 (SEC 2, section 2.4.1). */
  lemma {:induction false} OrderIs()
    ensures N() == 0xFFFFFFFF_FFFFFFFF_FFFFFFFF_FFFFFFFE_BAAEDCE6_AF48A03B_BFD25E8C_D0364141
  {
    hide Value, Pow;
    var a: Bytes, b: Bytes := [0xFF, 0xFF, 0xFF, 0xFF, 0xFF, 0xFF, 0xFF, 0xFF], [0xFF, 0xFF, 0xFF, 0xFF, 0xFF, 0xFF, 0xFF, 0xFE];
    var d: Bytes, e: Bytes := [0xBA, 0xAE, 0xDC, 0xE6, 0xAF, 0x48, 0xA0, 0x3B], [0xBF, 0xD2, 0x5E, 0x8C, 0xD0, 0x36, 0x41, 0x41];
    OrderHigh();
    OrderLow();
    Appended(a, b, 0xFFFFFFFF_FFFFFFFF, 0xFFFFFFFF_FFFFFFFE);
    Appended(a + b, d, 0xFFFFFFFF_FFFFFFFF_FFFFFFFF_FFFFFFFE, 0xBAAEDCE6_AF48A03B);
    Appended(a + b + d, e, 0xFFFFFFFF_FFFFFFFF_FFFFFFFF_FFFFFFFE_BAAEDCE6_AF48A03B, 0xBFD25E8C_D0364141);
    assert ORDER == a + b + d + e;
  }

  lemma {:induction false} PowEight()
    ensures Pow(256, 8) == 0x1_0000_0000_0000_0000
  {
    assert Pow(256, 4) == 0x1_0000_0000 by { assert Pow(256, 2) == 0x1_0000; }
    PowAdd(256, 4, 4);
  }

  function Scalar(key: Bytes32): nat { Value(key, 256) }

  predicate ValidScalar(key: Bytes32) { 0 < Scalar(key) < N() }

  /** The 32-byte big-endian encoding. */
  function EncodeScalar(k: nat): (r: Bytes32) { Fixed(k, 256, 32) }

  lemma {:induction false} ScalarEncode(k: nat)
    requires k < N()
    ensures Scalar(EncodeScalar(k)) == k
  {
    FixedValue(k, 256, 32);
  }

  lemma {:induction false} EncodeScalarBack(key: Bytes32)
    ensures EncodeScalar(Scalar(key)) == key
  {
    FixedOfValue(key, 256);
  }

  function Sign(a: int, b: int): int { if a < b then -1 else if a > b then 1 else 0 }

  lemma {:induction false} NextByte(a: Bytes, b: Bytes, i: nat)
    requires i < |a| && i < |b|
    ensures var s := Sign(Value(a[..i], 256), Value(b[..i], 256));
            Sign(Value(a[..i + 1], 256), Value(b[..i + 1], 256)) == if s != 0 then s else Sign(a[i], b[i])
  {
    assert a[..i + 1][..i] == a[..i] && b[..i + 1][..i] == b[..i];
  }

  /** Every byte is looked at, and the first difference decides. */
  method CompareBytes(a: Bytes, b: Bytes) returns (result: int)
    requires |a| == |b|
    ensures result == Sign(Value(a, 256), Value(b, 256))
  {
    hide Value;
    result := 0;
    var decided := 0;
    assert a[..0] == b[..0];
    for i := 0 to |a|
      invariant result == Sign(Value(a[..i], 256), Value(b[..i], 256))
      invariant decided == if result != 0 then 1 else 0
    {
      var x: int, y: int := a[i], b[i];
      var diff := x - y;
      var hasDiff := if diff != 0 then 1 else 0;
      var update := if decided == 0 && hasDiff == 1 then 1 else 0;
      var sign := if diff < 0 then -1 else 1;
      NextByte(a, b, i);
      result := update * sign + (1 - update) * result;
      decided := if decided == 1 || hasDiff == 1 then 1 else 0;
    }
    assert a[..|a|] == a && b[..|a|] == b;
  }

  method IsValidPrivateKey(key: Bytes32) returns (ok: bool)
    ensures ok <==> ValidScalar(key)
  {
    hide Value;
    var allZero := true;
    for i := 0 to 32
      invariant allZero <==> forall k :: 0 <= k < i ==> key[k] == 0
    {
      allZero := allZero && key[i] == 0;
    }
    var order := CompareBytes(key, ORDER);
    ZeroValue(key);
    ok := !allZero && order < 0;
  }

  lemma {:induction false} ZeroValue(s: Bytes)
    ensures Value(s, 256) == 0 <==> forall k :: 0 <= k < |s| ==> s[k] == 0
  {
    if forall k :: 0 <= k < |s| ==> s[k] == 0 {
      assert s == Repeat<Byte>(0, |s|);
      ValueZeros(|s|, 256);
    } else {
      SomeDigit(s);
    }
  }

  lemma {:induction false} SomeDigit(s: Bytes)
    requires exists k :: 0 <= k < |s| && s[k] != 0
    ensures Value(s, 256) > 0
  {
    var h := s[..|s| - 1];
    if s[|s| - 1] == 0 {
      var k :| 0 <= k < |s| && s[k] != 0;
      assert h[k] != 0;
      SomeDigit(h);
    }
  }

  // ---- the cryptography used ----

  datatype Crypto = Crypto(
    hmacSha512: (Bytes, Bytes) -> Bytes64,
    hash160: Bytes -> Bytes20,
    doubleSha256: Bytes -> Bytes32,
    /** The compressed encoding of k times the generator. */
    point: nat -> Bytes33,
    /** Adding two compressed points. */
    addPoints: (Bytes33, Bytes33) -> Result<Bytes33>)

  /** The encodings of the multiples 1 .. N-1 are distinct and start with 2 or 3; adding
      two of them adds the multiples, and the identity has no encoding. */
  ghost predicate Lawful(c: Crypto) {
    && (forall k: nat :: 0 < k < N() ==> c.point(k)[0] == 2 || c.point(k)[0] == 3)
    && (forall j: nat, k: nat :: 0 < j < N() && 0 < k < N() && c.point(j) == c.point(k) ==> j == k)
    && (forall j: nat, k: nat :: 0 < j < N() && 0 < k < N() ==> c.addPoints(c.point(j), c.point(k)) == GroupSum(c, j, k))
  }

  function GroupSum(c: Crypto, j: nat, k: nat): Result<Bytes33> {
    var sum := (j + k) % N();
    if sum == 0 then Fail(KeyDerivationFailed) else Ok(c.point(sum))
  }

  function ToyPoint(k: nat): Bytes33 { [2] + EncodeScalar(k) }

  function ToyResult(sum: nat): Result<Bytes33> {
    var k := sum % N();
    if k == 0 then Fail(KeyDerivationFailed) else Ok(ToyPoint(k))
  }

  function ToySum(p: Bytes33, q: Bytes33): Result<Bytes33> {
    ToyResult(Scalar(p[1..]) + Scalar(q[1..]))
  }

  lemma {:induction false} ToyScalar(k: nat)
    requires k < N()
    ensures ToyPoint(k)[0] == 2 && Scalar(ToyPoint(k)[1..]) == k
  {
    ScalarEncode(k);
    assert ToyPoint(k)[1..] == EncodeScalar(k);
  }

  lemma {:induction false} ToyAdds(j: nat, k: nat)
    requires j < N() && k < N()
    ensures ToySum(ToyPoint(j), ToyPoint(k)) == ToyResult(j + k)
  {
    hide ToyPoint, Scalar, N, ToyResult, Pow;
    ToyScalar(j);
    ToyScalar(k);
  }

  function ToyCrypto(hmac: (Bytes, Bytes) -> Bytes64): Crypto {
    Crypto(hmac, d => Repeat(0, 20), d => Repeat(0, 32), ToyPoint, ToySum)
  }

  /** The laws can be met, whatever the hashes. */
  lemma {:induction false} ToyLawful(hmac: (Bytes, Bytes) -> Bytes64)
    ensures Lawful(ToyCrypto(hmac))
  {
    hide ToyPoint, ToySum, N, Scalar, Pow;
    var c := ToyCrypto(hmac);
    forall k: nat | 0 < k < N() ensures ToyPoint(k)[0] == 2 && Scalar(ToyPoint(k)[1..]) == k {
      ToyScalar(k);
    }
    forall j: nat, k: nat | 0 < j < N() && 0 < k < N()
      ensures ToySum(ToyPoint(j), ToyPoint(k)) == GroupSum(c, j, k)
    {
      ToyAdds(j, k);
    }
  }

  lemma {:induction false} LawfulExists() returns (c: Crypto)
    ensures Lawful(c)
  {
    hide Lawful;
    c := ToyCrypto((k, d) => Repeat(0, 64));
    ToyLawful((k, d) => Repeat(0, 64));
  }

  // ---- keys ----

  datatype Key = Key(curve: Curve, depth: Byte, parentFingerprint: Word, childIndex: Word,
                     chainCode: Bytes32, publicKey: Bytes33, privateKey: Bytes32, hasPrivate: bool)

  const NO_KEY: Bytes32 := Repeat(0, 32)

  /** A copy with the private key wiped. */
  function Neutered(k: Key): Key {
    k.(privateKey := NO_KEY, hasPrivate := false)
  }

  function Fingerprint(c: Crypto, k: Key): Word {
    FromBe32(c.hash160(k.publicKey))
  }

  function PublicKeyFromPrivate(c: Crypto, key: Bytes32, curve: Curve): Result<Bytes33> {
    if curve != Secp256k1 then Fail(NotSupported)
    else if !ValidScalar(key) then Fail(InvalidPrivateKey)
    else Ok(c.point(Scalar(key)))
  }

  /** One conditional subtraction of the order. */
  function AddPrivateKeys(a: Bytes32, b: Bytes32): Result<Bytes32> {
    var sum := Scalar(a) + Scalar(b);
    var reduced := if sum >= N() then sum - N() else sum;
    if reduced == 0 then Fail(KeyDerivationFailed) else Ok(EncodeScalar(reduced))
  }

  predicate IsHardened(index: Word) { index >= HARDENED }

  function MacInput(k: Key, index: Word): Bytes {
    (if IsHardened(index) then [0] + k.privateKey else k.publicKey) + Be32(index)
  }

  /** `deriveChild`. */
  function DeriveChild(c: Crypto, k: Key, index: Word): Result<Key> {
    if IsHardened(index) && !k.hasPrivate then Fail(HardenedFromPublic)
    else
      var mac := c.hmacSha512(k.chainCode, MacInput(k, index));
      var il: Bytes32, ir: Bytes32 := mac[..32], mac[32..];
      if !ValidScalar(il) then Fail(KeyDerivationFailed)
      else if k.hasPrivate then PrivateChild(c, k, index, il, ir)
      else PublicChild(c, k, index, il, ir)
  }

  function PrivateChild(c: Crypto, k: Key, index: Word, il: Bytes32, ir: Bytes32): Result<Key> {
    match AddPrivateKeys(il, k.privateKey)
    case Fail(e) => Fail(e)
    case Ok(private) =>
      match PublicKeyFromPrivate(c, private, k.curve)
      case Fail(e) => Fail(e)
      case Ok(public) => Ok(Key(k.curve, (k.depth + 1) % 256, Fingerprint(c, k), index, ir, public, private, true))
  }

  function PublicChild(c: Crypto, k: Key, index: Word, il: Bytes32, ir: Bytes32): Result<Key> {
    match PublicKeyFromPrivate(c, il, k.curve)
    case Fail(e) => Fail(e)
    case Ok(tweak) =>
      match c.addPoints(tweak, k.publicKey)
      case Fail(e) => Fail(e)
      case Ok(public) => Ok(Key(k.curve, (k.depth + 1) % 256, Fingerprint(c, k), index, ir, public, NO_KEY, false))
  }

  datatype Component = Component(index: Word, hardened: bool)

  function FullIndex(component: Component): Word {
    if component.hardened && component.index < HARDENED then component.index + HARDENED else component.index
  }

  /** `index` has the low 31 bits of the component, and its top bit when the component is marked
      or has that bit itself. */
  predicate Numbers(component: Component, index: Word) {
    && index % 0x8000_0000 == component.index % 0x8000_0000
    && (index >= 0x8000_0000 <==> component.hardened || component.index >= 0x8000_0000)
  }

  lemma {:induction false} OneNumber(component: Component, index: Word)
    ensures Numbers(component, index) <==> index == FullIndex(component)
  {
  }

  /** The key at the end of a path, or the first error on the way. */
  function Walk(c: Crypto, k: Key, path: seq<Component>): Result<Key>
    decreases |path|
  {
    if path == [] then Ok(k)
    else match DeriveChild(c, k, FullIndex(path[0]))
      case Fail(e) => Fail(e)
      case Ok(child) => Walk(c, child, path[1..])
  }

  method DerivePath(c: Crypto, k: Key, path: seq<Component>) returns (r: Result<Key>)
    ensures r == Walk(c, k, path)
  {
    hide DeriveChild;
    if path == [] {
      return Ok(k);
    }
    var current := k;
    for i := 0 to |path|
      invariant Walk(c, k, path) == Walk(c, current, path[i..])
    {
      var result := DeriveChild(c, current, FullIndex(path[i]));
      assert path[i..][0] == path[i] && path[i..][1..] == path[i + 1..];
      if result.Fail? {
        return Fail(result.error);
      }
      current := result.value;
    }
    r := Ok(current);
  }

  // ---- private and public derivation commute ----

  /** A key holding a valid private key and the point of it. */
  predicate Paired(c: Crypto, k: Key) {
    k.curve == Secp256k1 && k.hasPrivate && ValidScalar(k.privateKey) && k.publicKey == c.point(Scalar(k.privateKey))
  }

  function Public(r: Result<Key>): Result<Key> {
    match r
    case Ok(k) => Ok(Neutered(k))
    case Fail(e) => Fail(e)
  }

  lemma {:induction false} AddKeys(c: Crypto, a: Bytes32, b: Bytes32)
    requires ValidScalar(a) && ValidScalar(b)
    ensures var sum := (Scalar(a) + Scalar(b)) % N();
            AddPrivateKeys(a, b) == if sum == 0 then Fail(KeyDerivationFailed) else Ok(EncodeScalar(sum))
  {
    hide Value, Pow, EncodeScalar;
    var x, n := Scalar(a) + Scalar(b), N();
    if x >= n {
      DivMod(1, n, x - n);
    } else {
      DivMod(0, n, x);
    }
  }

  lemma {:induction false} PointsAdd(c: Crypto, a: Bytes32, b: Bytes32)
    requires Lawful(c) && ValidScalar(a) && ValidScalar(b)
    ensures c.addPoints(c.point(Scalar(a)), c.point(Scalar(b))) == GroupSum(c, Scalar(a), Scalar(b))
  {
    hide Value, Scalar;
  }

  lemma {:induction false} AddedKey(c: Crypto, a: Bytes32, b: Bytes32)
    requires ValidScalar(a) && ValidScalar(b)
    ensures var r := AddPrivateKeys(a, b);
            match r
            case Fail(e) => GroupSum(c, Scalar(a), Scalar(b)) == Fail(e)
            case Ok(key) => ValidScalar(key) && GroupSum(c, Scalar(a), Scalar(b)) == Ok(c.point(Scalar(key)))
  {
    hide Scalar, EncodeScalar, AddPrivateKeys;
    AddKeys(c, a, b);
    ScalarEncode((Scalar(a) + Scalar(b)) % N());
  }

  lemma {:induction false} SameFingerprint(c: Crypto, k: Key)
    ensures Fingerprint(c, Neutered(k)) == Fingerprint(c, k)
  {
  }

  lemma {:induction false} ChildCommutes(c: Crypto, k: Key, index: Word, il: Bytes32, ir: Bytes32)
    requires Lawful(c) && Paired(c, k) && ValidScalar(il)
    ensures PublicChild(c, Neutered(k), index, il, ir) == Public(PrivateChild(c, k, index, il, ir))
    ensures PrivateChild(c, k, index, il, ir).Ok? ==> Paired(c, PrivateChild(c, k, index, il, ir).value)
  {
    hide Lawful, ValidScalar, Scalar, AddPrivateKeys, GroupSum, N, Pow, Fingerprint;
    AddedKey(c, il, k.privateKey);
    PointsAdd(c, il, k.privateKey);
    SameFingerprint(c, k);
  }

  lemma {:induction false} StepCommutes(c: Crypto, k: Key, index: Word)
    requires Lawful(c) && Paired(c, k) && !IsHardened(index)
    ensures DeriveChild(c, Neutered(k), index) == Public(DeriveChild(c, k, index))
    ensures DeriveChild(c, k, index).Ok? ==> Paired(c, DeriveChild(c, k, index).value)
  {
    hide Lawful, ValidScalar, PrivateChild, PublicChild, Be32;
    var mac := c.hmacSha512(k.chainCode, MacInput(k, index));
    var il: Bytes32, ir: Bytes32 := mac[..32], mac[32..];
    HasPrivate(c, k);
    if ValidScalar(il) {
      ChildCommutes(c, k, index, il, ir);
    }
  }

  lemma {:induction false} HasPrivate(c: Crypto, k: Key)
    requires Paired(c, k)
    ensures k.hasPrivate
  {
  }

  /** Every component is unmarked and below 2^31. */
  predicate Normal(path: seq<Component>) {
    forall i :: 0 <= i < |path| ==> !path[i].hardened && path[i].index < 0x8000_0000
  }

  /** Neutering and then deriving equals deriving and then neutering, in every field, and
      fails with the same error. */
  lemma {:induction false} WalkCommutes(c: Crypto, k: Key, path: seq<Component>)
    requires Lawful(c) && Paired(c, k) && Normal(path)
    ensures Walk(c, Neutered(k), path) == Public(Walk(c, k, path))
    decreases |path|
  {
    hide DeriveChild, Paired, Lawful;
    if path != [] {
      StepCommutes(c, k, FullIndex(path[0]));
      var child := DeriveChild(c, k, FullIndex(path[0]));
      if child.Ok? {
        WalkCommutes(c, child.value, path[1..]);
      }
    }
  }

  function Then(c: Crypto, r: Result<Key>, path: seq<Component>): Result<Key> {
    match r
    case Fail(e) => Fail(e)
    case Ok(k) => Walk(c, k, path)
  }

  lemma {:induction false} WalkConcat(c: Crypto, k: Key, p: seq<Component>, q: seq<Component>)
    ensures Walk(c, k, p + q) == Then(c, Walk(c, k, p), q)
    decreases |p|
  {
    hide DeriveChild;
    if p == [] {
      assert p + q == q;
    } else {
      assert (p + q)[1..] == p[1..] + q;
      var child := DeriveChild(c, k, FullIndex(p[0]));
      if child.Ok? {
        WalkConcat(c, child.value, p[1..], q);
      }
    }
  }

  lemma {:induction false} StaysPublic(c: Crypto, k: Key, path: seq<Component>)
    requires !k.hasPrivate && Walk(c, k, path).Ok?
    ensures !Walk(c, k, path).value.hasPrivate
    decreases |path|
  {
    hide DeriveChild;
    if path != [] {
      PublicStays(c, k, FullIndex(path[0]));
      StaysPublic(c, DeriveChild(c, k, FullIndex(path[0])).value, path[1..]);
    }
  }

  /** A key without its private part never gets past a step that is marked, or numbered from 2^31,
      whatever follows: the walk ends there, or earlier with the error it met earlier. */
  lemma {:induction false} HardenedNeedsPrivate(c: Crypto, k: Key, before: seq<Component>, step: Component, after: seq<Component>)
    requires !k.hasPrivate && (step.hardened || step.index >= 0x8000_0000)
    ensures Walk(c, k, before + [step] + after) == match Walk(c, k, before)
                                                   case Ok(_) => Fail(HardenedFromPublic)
                                                   case Fail(e) => Fail(e)
  {
    assert before + [step] + after == before + ([step] + after);
    WalkConcat(c, k, before, [step] + after);
    OneNumber(step, FullIndex(step));
    if Walk(c, k, before).Ok? {
      StaysPublic(c, k, before);
    }
  }

  /** What a walk ends with: the number of its last component, 2^31 more when that is marked; one
      level deeper than the key before; and below the fingerprint of that key. */
  lemma {:induction false} WalkEnds(c: Crypto, k: Key, path: seq<Component>, step: Component)
    requires Walk(c, k, path + [step]).Ok?
    ensures Walk(c, k, path).Ok?
    ensures var parent, child := Walk(c, k, path).value, Walk(c, k, path + [step]).value;
            && (step.index < 0x8000_0000 ==> child.childIndex == step.index + (if step.hardened then 0x8000_0000 else 0))
            && Numbers(step, child.childIndex) && child.depth == (parent.depth + 1) % 256
            && child.parentFingerprint == FromBe32(c.hash160(parent.publicKey)) && child.curve == parent.curve
            && child.hasPrivate == parent.hasPrivate
  {
    hide DeriveChild, Walk, FullIndex, FromBe32;
    WalkConcat(c, k, path, [step]);
    OneNumber(step, FullIndex(step));
    if step.index < 0x8000_0000 {
      PlainNumber(step);
    }
    OneStep(c, Walk(c, k, path).value, step);
    ChildFields(c, Walk(c, k, path).value, FullIndex(step));
  }

  lemma {:induction false} OneStep(c: Crypto, k: Key, step: Component)
    ensures Walk(c, k, [step]) == DeriveChild(c, k, FullIndex(step))
  {
    hide DeriveChild;
    assert [step][1..] == [];
  }

  lemma {:induction false} PlainNumber(step: Component)
    requires step.index < 0x8000_0000
    ensures FullIndex(step) == step.index + if step.hardened then 0x8000_0000 else 0
  {
  }

  lemma {:induction false} ChildFields(c: Crypto, k: Key, index: Word)
    requires DeriveChild(c, k, index).Ok?
    ensures var child := DeriveChild(c, k, index).value;
            && child.childIndex == index && child.depth == (k.depth + 1) % 256 && child.curve == k.curve
            && child.parentFingerprint == FromBe32(c.hash160(k.publicKey)) && child.hasPrivate == k.hasPrivate
  {
    hide Scalar, ValidScalar, AddPrivateKeys, Be32;
  }

  lemma {:induction false} PublicStays(c: Crypto, k: Key, index: Word)
    requires !k.hasPrivate && DeriveChild(c, k, index).Ok?
    ensures !IsHardened(index) && !DeriveChild(c, k, index).value.hasPrivate
  {
  }

  // ---- master keys ----

  const SEED_KEY: Bytes := [66, 105, 116, 99, 111, 105, 110, 32, 115, 101, 101, 100]   // "Bitcoin seed"

  function FromSeed(c: Crypto, seed: Bytes, curve: Curve): Result<Key> {
    if |seed| < 16 || |seed| > 64 then Fail(InvalidSeed)
    else if curve != Secp256k1 then Fail(NotSupported)
    else
      var mac := c.hmacSha512(SEED_KEY, seed);
      var private: Bytes32, chain: Bytes32 := mac[..32], mac[32..];
      if !ValidScalar(private) then Fail(InvalidPrivateKey)
      else match PublicKeyFromPrivate(c, private, curve)
        case Fail(e) => Fail(e)
        case Ok(public) => Ok(Key(curve, 0, 0, 0, chain, public, private, true))
  }

  /** Every key reached from a seed, hardened steps included, holds the point of its private key. */
  lemma {:induction false} ReachedKeysArePaired(c: Crypto, seed: Bytes, curve: Curve, path: seq<Component>)
    requires FromSeed(c, seed, curve).Ok? && Walk(c, FromSeed(c, seed, curve).value, path).Ok?
    ensures Paired(c, Walk(c, FromSeed(c, seed, curve).value, path).value)
  {
    hide DeriveChild, ValidScalar;
    PairedWalk(c, FromSeed(c, seed, curve).value, path);
  }

  lemma {:induction false} PairedWalk(c: Crypto, k: Key, path: seq<Component>)
    requires Paired(c, k) && Walk(c, k, path).Ok?
    ensures Paired(c, Walk(c, k, path).value)
    decreases |path|
  {
    hide DeriveChild, Paired;
    if path != [] {
      PairedStep(c, k, FullIndex(path[0]));
      PairedWalk(c, DeriveChild(c, k, FullIndex(path[0])).value, path[1..]);
    }
  }

  lemma {:induction false} PairedStep(c: Crypto, k: Key, index: Word)
    requires Paired(c, k) && DeriveChild(c, k, index).Ok?
    ensures Paired(c, DeriveChild(c, k, index).value)
  {
    hide AddPrivateKeys, ValidScalar, Scalar;
  }

  lemma {:induction false} BeInjective(m: Word, n: Word)
    requires Be32(m) == Be32(n)
    ensures m == n
  {
    FromBe(m);
    FromBe(n);
  }

  /** Different indices are hashed differently under one key: a hardened input starts with a zero
      byte, a normal one with the tag of a point, and the index is in the last four bytes. */
  lemma {:induction false} InputsDistinct(c: Crypto, k: Key, i: Word, j: Word)
    requires Lawful(c) && Paired(c, k) && i != j
    ensures MacInput(k, i) != MacInput(k, j)
  {
    hide Be32, ValidScalar;
    var a, b := MacInput(k, i), MacInput(k, j);
    if a == b {
      assert a[33..] == Be32(i) && b[33..] == Be32(j);
      BeInjective(i, j);
    }
  }

  // ---- the second implementation, in the identity module ----

  /** `bip32Master`: any seed is hashed, and an invalid scalar throws. */
  function IdentityMaster(c: Crypto, seed: Bytes): Option<Key> {
    var digest := c.hmacSha512(Ascii("Bitcoin seed"), seed);
    var private: Bytes32, chain: Bytes32 := digest[..32], digest[32..];
    if ValidScalar(private) then Some(Key(Secp256k1, 0, 0, 0, chain, c.point(Scalar(private)), private, true)) else None
  }

  lemma {:induction false} SeedKeys()
    ensures SEED_KEY == Ascii("Bitcoin seed")
  {
  }

  /** The two masters agree except on seeds of a length the first one refuses whose digest
      starts with a valid scalar. */
  lemma {:induction false} MastersAgree(c: Crypto, seed: Bytes)
    ensures IdentityMaster(c, seed) == AsOption(FromSeed(c, seed, Secp256k1))
            <==> 16 <= |seed| <= 64 || !ValidScalar(c.hmacSha512(Ascii("Bitcoin seed"), seed)[..32])
  {
    hide ValidScalar, Scalar, Ascii;
    SeedKeys();
  }

  /** The 37 bytes hashed for a child. */
  function IdentityInput(k: Key, index: Word): Bytes {
    var front := if index < 0x8000_0000 then k.publicKey else [0] + k.privateKey;
    front + [index / 0x100_0000, index / 0x1_0000 % 256, index / 0x100 % 256, index % 256]
  }

  function FingerprintWord(c: Crypto, publicKey: Bytes33): Word {
    var digest := c.hash160(publicKey);
    var a: int, b: int, d: int, e: int := digest[0], digest[1], digest[2], digest[3];
    ((a * 256 + b) * 256 + d) * 256 + e
  }

  lemma {:induction false} SameInput(c: Crypto, k: Key, index: Word)
    ensures IdentityInput(k, index) == MacInput(k, index) && FingerprintWord(c, k.publicKey) == Fingerprint(c, k)
  {
  }

  /** `bip32Child`: it throws where `None`, and does not refuse a zero left half. */
  function IdentityChild(c: Crypto, k: Key, index: Word): Option<Key>
    requires k.hasPrivate
  {
    var mac := c.hmacSha512(k.chainCode, IdentityInput(k, index));
    var il: Bytes32, ir: Bytes32 := mac[..32], mac[32..];
    if Scalar(il) >= N() then None
    else
      var sum := (Scalar(il) + Scalar(k.privateKey)) % N();
      if sum == 0 then None
      else Some(Key(k.curve, (k.depth + 1) % 256, FingerprintWord(c, k.publicKey), index, ir, c.point(sum), EncodeScalar(sum), true))
  }

  function AsOption(r: Result<Key>): Option<Key> {
    match r
    case Ok(k) => Some(k)
    case Fail(_) => None
  }

  function LeftHalf(c: Crypto, k: Key, index: Word): Bytes32 {
    c.hmacSha512(k.chainCode, MacInput(k, index))[..32]
  }

  /** The two agree on a step exactly when the left half of its digest is not zero; when it is,
      the second one returns a child with its parent's private key. */
  lemma {:induction false} ImplementationsAgree(c: Crypto, k: Key, index: Word)
    requires Paired(c, k)
    ensures IdentityChild(c, k, index) == AsOption(DeriveChild(c, k, index)) <==> Scalar(LeftHalf(c, k, index)) != 0
    ensures Scalar(LeftHalf(c, k, index)) == 0 ==>
              DeriveChild(c, k, index) == Fail(KeyDerivationFailed) && IdentityChild(c, k, index).Some?
              && IdentityChild(c, k, index).value.privateKey == k.privateKey
  {
    hide Value, EncodeScalar, AddPrivateKeys, Scalar, IdentityInput, MacInput, FingerprintWord, Fingerprint;
    SameInput(c, k, index);
    var il := LeftHalf(c, k, index);
    if ValidScalar(il) {
      AddKeys(c, il, k.privateKey);
      ScalarEncode((Scalar(il) + Scalar(k.privateKey)) % N());
    }
    if Scalar(il) == 0 {
      DivMod(0, N(), Scalar(k.privateKey));
      EncodeScalarBack(k.privateKey);
    }
  }

  function IdentityWalk(c: Crypto, k: Key, indices: seq<Word>): Option<Key>
    requires k.hasPrivate
    decreases |indices|
  {
    if indices == [] then Some(k)
    else match IdentityChild(c, k, indices[0])
      case None => None
      case Some(child) => IdentityWalk(c, child, indices[1..])
  }

  /** `bip32Path`. */
  method IdentityPath(c: Crypto, seed: Bytes, indices: seq<Word>) returns (r: Option<Key>)
    ensures r == match IdentityMaster(c, seed) case None => None case Some(k) => IdentityWalk(c, k, indices)
  {
    hide IdentityChild, Ascii;
    r := IdentityMaster(c, seed);
    if r == None {
      return;
    }
    ghost var master := r.value;
    var node := r.value;
    assert indices[0..] == indices;
    for i := 0 to |indices|
      invariant node.hasPrivate && IdentityWalk(c, master, indices) == IdentityWalk(c, node, indices[i..])
    {
      var child := IdentityChild(c, node, indices[i]);
      assert indices[i..][1..] == indices[i + 1..];
      if child == None {
        return None;
      }
      ChildPrivate(c, node, indices[i]);
      node := child.value;
    }
    r := Some(node);
  }

  lemma {:induction false} ChildPrivate(c: Crypto, k: Key, index: Word)
    requires k.hasPrivate && IdentityChild(c, k, index).Some?
    ensures IdentityChild(c, k, index).value.hasPrivate
  {
  }

  /** The numbers of a path, marks and all. */
  predicate NumbersAll(path: seq<Component>, indices: seq<Word>) {
    |path| == |indices| && forall i :: 0 <= i < |path| ==> Numbers(path[i], indices[i])
  }

  /** Step `n` of the walk meets a digest with a zero left half. */
  predicate ZeroLeftAt(c: Crypto, k: Key, path: seq<Component>, n: nat) {
    n < |path| && Walk(c, k, path[..n]).Ok? && Scalar(LeftHalf(c, Walk(c, k, path[..n]).value, FullIndex(path[n]))) == 0
  }

  lemma {:induction false} ZeroLeftStops(c: Crypto, k: Key, path: seq<Component>, n: nat)
    requires Paired(c, k) && ZeroLeftAt(c, k, path, n)
    ensures Walk(c, k, path).Fail?
  {
    hide DeriveChild, Paired, LeftHalf, Scalar;
    var reached := Walk(c, k, path[..n]).value;
    PairedWalk(c, k, path[..n]);
    WalkConcat(c, k, path[..n], path[n..]);
    assert path[..n] + path[n..] == path;
    HasPrivate(c, reached);
    ImplementationsAgree(c, reached, FullIndex(path[n]));
  }

  lemma {:induction false} OnlyZeroLeft(c: Crypto, k: Key, path: seq<Component>, indices: seq<Word>)
    requires Paired(c, k) && k.hasPrivate && NumbersAll(path, indices)
    ensures Walk(c, k, path).Ok? ==> IdentityWalk(c, k, indices) == Some(Walk(c, k, path).value)
    ensures IdentityWalk(c, k, indices) != AsOption(Walk(c, k, path)) ==>
              exists n: nat :: ZeroLeftAt(c, k, path, n)
    decreases |path|
  {
    hide DeriveChild, Paired, LeftHalf, Scalar;
    if path != [] {
      var index := FullIndex(path[0]);
      OneNumber(path[0], indices[0]);
      ImplementationsAgree(c, k, index);
      var child := DeriveChild(c, k, index);
      if Scalar(LeftHalf(c, k, index)) == 0 {
        assert path[..0] == [] && Walk(c, k, path[..0]) == Ok(k);
        assert ZeroLeftAt(c, k, path, 0);
      } else if child.Ok? {
        PairedStep(c, k, index);
        HasPrivate(c, child.value);
        OnlyZeroLeft(c, child.value, path[1..], indices[1..]);
        if IdentityWalk(c, k, indices) != AsOption(Walk(c, k, path)) {
          var n: nat :| ZeroLeftAt(c, child.value, path[1..], n);
          ZeroLeftLater(c, k, path, n);
        }
      }
    }
  }

  /** Wherever the first implementation arrives, the second arrives at the same key; the two
      differ exactly when the second arrives past a step whose left half is zero. */
  lemma {:induction false} PathsAgree(c: Crypto, k: Key, path: seq<Component>, indices: seq<Word>)
    requires Paired(c, k) && k.hasPrivate && NumbersAll(path, indices)
    ensures Walk(c, k, path).Ok? ==> IdentityWalk(c, k, indices) == Some(Walk(c, k, path).value)
    ensures IdentityWalk(c, k, indices) != AsOption(Walk(c, k, path)) <==>
              IdentityWalk(c, k, indices).Some? && exists n: nat :: ZeroLeftAt(c, k, path, n)
  {
    hide Walk, IdentityWalk, Paired, ZeroLeftAt;
    OnlyZeroLeft(c, k, path, indices);
    if n: nat :| ZeroLeftAt(c, k, path, n) {
      ZeroLeftStops(c, k, path, n);
    }
  }

  lemma {:induction false} ZeroLeftLater(c: Crypto, k: Key, path: seq<Component>, n: nat)
    requires path != [] && DeriveChild(c, k, FullIndex(path[0])).Ok?
    requires ZeroLeftAt(c, DeriveChild(c, k, FullIndex(path[0])).value, path[1..], n)
    ensures ZeroLeftAt(c, k, path, n + 1)
  {
    hide DeriveChild, LeftHalf, Scalar;
    var q := path[..n + 1];
    assert q[0] == path[0] && q[1..] == path[1..][..n] && path[1..][n] == path[n + 1];
  }

  function HalfZeroDigest(key: Bytes, data: Bytes): Bytes64 {
    (if key == SEED_KEY then EncodeScalar(1) else Repeat(0, 32)) + Repeat(0, 32)
  }

  /** They do differ: lawful hashes exist under which both masters of a seed agree, and the first
      step from it is refused by the first implementation and taken by the second. */
  lemma {:induction false} ZeroLeftHappens() returns (c: Crypto, seed: Bytes, k: Key)
    ensures Lawful(c) && FromSeed(c, seed, Secp256k1) == Ok(k) && IdentityMaster(c, seed) == Some(k) && k.hasPrivate
    ensures var path := [Component(0, true)];
            Walk(c, k, path) == Fail(KeyDerivationFailed) && IdentityWalk(c, k, [0x8000_0000]).Some?
  {
    hide Lawful, EncodeScalar, Scalar, Paired;
    c, seed := ToyCrypto(HalfZeroDigest), Repeat(0, 16);
    ToyLawful(HalfZeroDigest);
    ScalarEncode(1);
    assert HalfZeroDigest(SEED_KEY, seed)[..32] == EncodeScalar(1);
    k := FromSeed(c, seed, Secp256k1).value;
    MasterPaired(c, seed);
    ZeroChild(c, k, 0x8000_0000);
    SeedKeys();
    var path, indices := [Component(0, true)], [0x8000_0000];
    assert path[1..] == [] && indices[1..] == [];
  }

  lemma {:induction false} MasterPaired(c: Crypto, seed: Bytes)
    requires FromSeed(c, seed, Secp256k1).Ok?
    ensures Paired(c, FromSeed(c, seed, Secp256k1).value)
  {
    hide ValidScalar, Scalar;
  }

  lemma {:induction false} ZeroChild(c: Crypto, k: Key, index: Word)
    requires Paired(c, k) && c.hmacSha512(k.chainCode, MacInput(k, index)) == Repeat(0, 64) && k.hasPrivate
    ensures DeriveChild(c, k, index) == Fail(KeyDerivationFailed) && IdentityChild(c, k, index).Some?
  {
    hide DeriveChild, Paired, Value;
    ValueZeros(32, 256);
    assert LeftHalf(c, k, index) == Repeat<Byte>(0, 32);
    assert Scalar(LeftHalf(c, k, index)) == 0;
    ImplementationsAgree(c, k, index);
  }
}
