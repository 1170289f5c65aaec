/** Extended keys as text: Base58Check, and the 78-byte serialization of BIP-32. */
module KeyText {
  import opened BigEndian
  import opened Prelude
  import opened Radix
  import opened ExtendedKeys
  import Base58

  // ---- Base58Check ----

  function CheckEncoded(c: Crypto, data: Bytes): Bytes {
    Base58.Encode(data + c.doubleSha256(data)[..4])
  }

  function CheckDecoded(c: Crypto, text: Bytes): Result<Bytes> {
    var decoded := Base58.Decode(text);
    if |decoded| < 4 then Fail(InvalidExtendedKey)
    else
      var payload := decoded[..|decoded| - 4];
      if decoded[|decoded| - 4..] != c.doubleSha256(payload)[..4] then Fail(InvalidChecksum) else Ok(payload)
  }

  lemma {:induction false} CheckDecodeEncode(c: Crypto, data: Bytes)
    ensures CheckDecoded(c, CheckEncoded(c, data)) == Ok(data)
  {
    hide Base58.Encode, Base58.Decode;
    var all := data + c.doubleSha256(data)[..4];
    Base58.DecodeEncode(all);
    assert all[..|all| - 4] == data && all[|all| - 4..] == c.doubleSha256(data)[..4];
  }

  /** Only one text is accepted for any payload. */
  lemma {:induction false} CheckEncodeDecode(c: Crypto, text: Bytes)
    requires CheckDecoded(c, text).Ok?
    ensures CheckEncoded(c, CheckDecoded(c, text).value) == text
  {
    hide Base58.Encode;
    var decoded := Base58.Decode(text);
    Base58.EncodeDecode(text);
    assert decoded == decoded[..|decoded| - 4] + decoded[|decoded| - 4..];
  }

  // ---- the serialized form ----

  const XPRV: Word := 0x0488ADE4
  const XPUB: Word := 0x0488B21E
  const TPRV: Word := 0x04358394
  const TPUB: Word := 0x043587CF
  const YPRV: Word := 0x049D7878
  const YPUB: Word := 0x049D7CB2
  const ZPRV: Word := 0x04B2430C
  const ZPUB: Word := 0x04B24746

  predicate PrivateVersion(v: Word) { v == XPRV || v == TPRV || v == YPRV || v == ZPRV }

  predicate PublicVersion(v: Word) { v == XPUB || v == TPUB || v == YPUB || v == ZPUB }

  function Payload(version: Word, k: Key, material: Bytes33): (r: Bytes)
    ensures |r| == 78
  {
    Be32(version) + [k.depth] + Be32(k.parentFingerprint) + Be32(k.childIndex) + k.chainCode + material
  }

  function SerializePrivate(c: Crypto, k: Key, version: Word): Result<Bytes> {
    if !k.hasPrivate then Fail(HardenedFromPublic)
    else Ok(CheckEncoded(c, Payload(version, k, [0] + k.privateKey)))
  }

  function SerializePublic(c: Crypto, k: Key, version: Word): Bytes {
    CheckEncoded(c, Payload(version, k, k.publicKey))
  }

  function Parsed(c: Crypto, d: Bytes): Result<Key>
    requires |d| == 78
  {
    var version := FromBe32(d[..4]);
    if PrivateVersion(version) then
      if d[45] != 0 then Fail(InvalidExtendedKey)
      else if !ValidScalar(d[46..]) then Fail(InvalidPrivateKey)
      else match PublicKeyFromPrivate(c, d[46..], Secp256k1)
        case Fail(e) => Fail(e)
        case Ok(public) =>
          Ok(Key(Secp256k1, d[4], FromBe32(d[5..9]), FromBe32(d[9..13]), d[13..45], public, d[46..], true))
    else if PublicVersion(version) then
      if d[45] != 2 && d[45] != 3 then Fail(InvalidPublicKey)
      else Ok(Key(Secp256k1, d[4], FromBe32(d[5..9]), FromBe32(d[9..13]), d[13..45], d[45..], NO_KEY, false))
    else Fail(InvalidExtendedKey)
  }

  function FromString(c: Crypto, text: Bytes): Result<Key> {
    match CheckDecoded(c, text)
    case Fail(e) => Fail(e)
    case Ok(data) => if |data| != 78 then Fail(InvalidExtendedKey) else Parsed(c, data)
  }

  lemma {:induction false} PayloadParts(version: Word, k: Key, material: Bytes33)
    ensures var d := Payload(version, k, material);
            && FromBe32(d[..4]) == version && d[4] == k.depth && FromBe32(d[5..9]) == k.parentFingerprint
            && FromBe32(d[9..13]) == k.childIndex && d[13..45] == k.chainCode && d[45..] == material
            && d[45] == material[0] && d[46..] == material[1..]
  {
    hide Be32, FromBe32;
    var d := Payload(version, k, material);
    assert d[..4] == Be32(version) && d[5..9] == Be32(k.parentFingerprint) && d[9..13] == Be32(k.childIndex);
    FromBe(version);
    FromBe(k.parentFingerprint);
    FromBe(k.childIndex);
  }

  /** The bytes of a text: version, depth, fingerprint and child number with the highest byte first,
      chain code, key, and four bytes of the double hash of all that. */
  predicate LaidOut(c: Crypto, d: Bytes, version: Word, k: Key, material: Bytes33) {
    && |d| == 82
    && ((d[0] as int * 256 + d[1]) * 256 + d[2]) * 256 + d[3] == version && d[4] == k.depth
    && ((d[5] as int * 256 + d[6]) * 256 + d[7]) * 256 + d[8] == k.parentFingerprint
    && ((d[9] as int * 256 + d[10]) * 256 + d[11]) * 256 + d[12] == k.childIndex
    && d[13..45] == k.chainCode && d[45..78] == material && d[78..] == c.doubleSha256(d[..78])[..4]
  }

  /** Both serializers write Base58 of those bytes; the key of the private one follows a zero. */
  lemma {:induction false} SerializedLayout(c: Crypto, k: Key, version: Word)
    ensures LaidOut(c, Base58.Decode(SerializePublic(c, k, version)), version, k, k.publicKey)
    ensures k.hasPrivate ==>
              && SerializePrivate(c, k, version).Ok?
              && LaidOut(c, Base58.Decode(SerializePrivate(c, k, version).value), version, k, [0] + k.privateKey)
  {
    hide LaidOut, Base58.Encode, Base58.Decode, Payload;
    PayloadLaidOut(c, k, version, k.publicKey);
    PayloadLaidOut(c, k, version, [0] + k.privateKey);
  }

  lemma {:induction false} PayloadLaidOut(c: Crypto, k: Key, version: Word, material: Bytes33)
    ensures LaidOut(c, Base58.Decode(CheckEncoded(c, Payload(version, k, material))), version, k, material)
  {
    hide Base58.Encode, Base58.Decode, Be32;
    var p := Payload(version, k, material);
    var d := p + c.doubleSha256(p)[..4];
    Base58.DecodeEncode(d);
    assert d[..78] == p && d[78..] == c.doubleSha256(p)[..4] && d[13..45] == k.chainCode && d[45..78] == material;
    WordBytes(d, 0, version);
    WordBytes(d, 5, k.parentFingerprint);
    WordBytes(d, 9, k.childIndex);
  }

  lemma {:induction false} WordBytes(d: Bytes, at: nat, w: Word)
    requires at + 4 <= |d| && forall i :: 0 <= i < 4 ==> d[at + i] == Be32(w)[i]
    ensures ((d[at] as int * 256 + d[at + 1]) * 256 + d[at + 2]) * 256 + d[at + 3] == w
  {
    assert d[at + 0] == Be32(w)[0] && d[at + 1] == Be32(w)[1] && d[at + 2] == Be32(w)[2] && d[at + 3] == Be32(w)[3];
    FromBe(w);
  }

  /** Parsing the private form gives the key back exactly when the version is a private one
      and the key is a valid secp256k1 pair. */
  lemma {:induction false} PrivateRoundTrip(c: Crypto, k: Key, version: Word)
    requires k.hasPrivate
    ensures SerializePrivate(c, k, version).Ok?
    ensures FromString(c, SerializePrivate(c, k, version).value) == Ok(k) <==> PrivateVersion(version) && Paired(c, k)
  {
    hide CheckDecoded, CheckEncoded, ValidScalar, Scalar, FromBe32, Payload;
    var material: Bytes33 := [0] + k.privateKey;
    assert material[1..] == k.privateKey;
    CheckDecodeEncode(c, Payload(version, k, material));
    PayloadParts(version, k, material);
  }

  /** Parsing the public form gives the neutered key back exactly when the version is a public
      one and the public key is a compressed secp256k1 point encoding. */
  lemma {:induction false} PublicRoundTrip(c: Crypto, k: Key, version: Word)
    ensures FromString(c, SerializePublic(c, k, version)) == Ok(Neutered(k))
            <==> PublicVersion(version) && k.curve == Secp256k1 && (k.publicKey[0] == 2 || k.publicKey[0] == 3)
  {
    hide CheckDecoded, CheckEncoded, ValidScalar, Scalar, FromBe32, Payload;
    CheckDecodeEncode(c, Payload(version, k, k.publicKey));
    PayloadParts(version, k, k.publicKey);
  }

  /** Every accepted text is the serialization of the key it gives. */
  lemma {:induction false} ParsedIsSerialized(c: Crypto, text: Bytes) returns (version: Word)
    requires FromString(c, text).Ok?
    ensures var k := FromString(c, text).value;
            && (k.hasPrivate ==> PrivateVersion(version) && SerializePrivate(c, k, version) == Ok(text) && Paired(c, k))
            && (!k.hasPrivate ==> PublicVersion(version) && SerializePublic(c, k, version) == text)
  {
    hide CheckDecoded, CheckEncoded, ValidScalar, Scalar, Payload, FromBe32;
    CheckEncodeDecode(c, text);
    var d := CheckDecoded(c, text).value;
    version := FromBe32(d[..4]);
    var k := FromString(c, text).value;
    PayloadBack(d, k);
  }

  lemma {:induction false} PayloadBack(d: Bytes, k: Key)
    requires |d| == 78 && d[4] == k.depth && FromBe32(d[5..9]) == k.parentFingerprint
    requires FromBe32(d[9..13]) == k.childIndex && d[13..45] == k.chainCode
    ensures Payload(FromBe32(d[..4]), k, d[45..]) == d
    ensures d[45] == 0 ==> [0] + d[46..] == d[45..]
  {
    hide Be32, FromBe32;
    ToBe(d[..4]);
    ToBe(d[5..9]);
    ToBe(d[9..13]);
    assert d == d[..4] + [d[4]] + d[5..9] + d[9..13] + d[13..45] + d[45..];
  }

  // ---- every serialized key has 111 characters ----

  lemma {:induction false} Squared(b: nat, n: nat)
    ensures Pow(b, n + n) == Pow(b, n) * Pow(b, n)
  {
    PowAdd(b, n, n);
  }

  lemma {:induction false} BigPowers()
    ensures Pow(58, 110) == 0x14ca93f5fdde278feb7a2d86b70e68137dabe875191780a1b5671c7e1f75d33ecb0b8679762726f7d1829f4cd53d231dd06e5865da4de7ba068faf0c54e139e8db346e4000000000000000000000000000
    ensures Pow(58, 111) == 58 * Pow(58, 110)
    ensures Pow(256, 78) == 0x1000000000000000000000000000000000000000000000000000000000000000000000000000000000000000000000000000000000000000000000000000000000000000000000000000000000000
  {
    hide Pow;
    Base58.Powers58();
    Base58.Powers256();
    Squared(58, 11);
    assert Pow(58, 22) == 0x1d5b20ad2d2330b10a7bb82b9f6400000;
    Squared(58, 22);
    Squared(58, 44);
    assert Pow(58, 88) == 0xb54fc645a2e21f104768c055384011689387533d720383c0a7515a85b70f49364144e556b60081e9ea73b30130027f1e8c7d113ece10000000000000000000000;
    PowAdd(58, 88, 22);
    PowAdd(58, 1, 110);
    PowAdd(256, 10, 3);
    Squared(256, 13);
    assert Pow(256, 26) == 0x10000000000000000000000000000000000000000000000000000;
    Squared(256, 26);
    PowAdd(256, 52, 26);
  }

  lemma {:induction false} DigitCount(n: nat, base: nat, count: nat)
    requires 2 <= base <= 256 && count > 0 && Pow(base, count - 1) <= n < Pow(base, count)
    ensures |Digits(n, base)| == count
  {
    hide Digits, Pow, Value;
    var d := Digits(n, base);
    ValueBound(d, base);
    if |d| < count {
      PowMonotone(base, |d|, count - 1);
    } else if |d| > count {
      PowMonotone(base, count, |d| - 1);
      LeadingDigit(d, base);
    }
  }

  lemma {:induction false} VersionBounds(d: Bytes, v: nat, n: nat, p: nat)
    requires p >= 0 && 0x04358394 <= v <= 0x04B24746 && n < p
    ensures 0x04358394 * p <= v * p + n < 0x04B24747 * p
  {
    MulMonotone(p, 0x04358394, v);
    MulMonotone(p, v + 1, 0x04B24747);
  }

  lemma {:induction false} Value4(s: Bytes)
    requires |s| == 4
    ensures Value(s, 256) == FromBe32(s)
  {
    assert s[..1][..0] == [] && s[..2][..1] == s[..1] && s[..3][..2] == s[..2];
    assert Value(s[..1], 256) == s[0];
    assert Value(s[..2], 256) == Value(s[..1], 256) * 256 + s[1];
    assert Value(s[..3], 256) == Value(s[..2], 256) * 256 + s[2];
    assert Value(s, 256) == Value(s[..3], 256) * 256 + s[3];
  }

  lemma {:induction false} TextSize(data: Bytes)
    requires |data| == 82 && 0x04358394 <= FromBe32(data[..4]) <= 0x04B24746
    ensures |Base58.Encode(data)| == 111
  {
    hide Pow, Value, Digits, FromBe32;
    var v, rest := data[..4], data[4..];
    assert data == v + rest;
    ValueConcat(v, rest, 256);
    ValueBound(rest, 256);
    Value4(v);
    BigPowers();
    VersionBounds(data, FromBe32(v), Value(rest, 256), Pow(256, 78));
    DigitCount(Value(data, 256), 58, 111);
    FirstNonzero(data);
  }

  lemma {:induction false} FirstNonzero(data: Bytes)
    requires |data| >= 4 && 0x04358394 <= FromBe32(data[..4])
    ensures LeadingZeros(data) == 0
  {
    var s := data[..4];
    var a: int := s[0];
    assert a > 0 && s[0] == data[0];
  }

  lemma {:induction false} SerializedSize(c: Crypto, k: Key, version: Word)
    requires PrivateVersion(version) || PublicVersion(version)
    ensures |SerializePublic(c, k, version)| == 111
    ensures k.hasPrivate ==> SerializePrivate(c, k, version).Ok? && |SerializePrivate(c, k, version).value| == 111
  {
    hide Base58.Encode, Payload;
    CheckedSize(c, version, k, k.publicKey);
    CheckedSize(c, version, k, [0] + k.privateKey);
  }

  lemma {:induction false} CheckedSize(c: Crypto, version: Word, k: Key, material: Bytes33)
    requires PrivateVersion(version) || PublicVersion(version)
    ensures |CheckEncoded(c, Payload(version, k, material))| == 111
  {
    hide Base58.Encode, Payload, FromBe32;
    var d := Payload(version, k, material);
    PayloadParts(version, k, material);
    var all := d + c.doubleSha256(d)[..4];
    assert all[..4] == d[..4];
    TextSize(all);
  }

  // ---- and starts with the letters of its version ----

  lemma {:induction false} Pow107()
    ensures Pow(58, 107) == 0x6fbcbcc4ff06edd42d2e4a4f3aa1b6129d2c5622f9f43c743481899f6648fa20cac87908e4ce82171a640f2caaf30f6a5ed53c270db22c46616c15763daeb122f2800000000000000000000000000
  {
    hide Pow;
    BigPowers();
    PowAdd(58, 107, 3);
    Base58.Powers58();
  }

  /** The leading digits of a number, from the range it lies in. */
  lemma {:induction false} FirstDigits(n: nat, prefix: Bytes, q: nat, p: nat)
    requires |Digits(n, 58)| == 111 && |prefix| == 4 && Below(prefix, 58) && prefix[0] != 0 && Value(prefix, 58) == q
    requires p == Pow(58, 107) && q * p <= n < q * p + p
    ensures Digits(n, 58)[..4] == prefix
  {
    hide Digits, Pow, Value;
    var d := Digits(n, 58);
    var a, b := d[..4], d[4..];
    assert d == a + b;
    ValueConcat(a, b, 58);
    ValueBound(b, 58);
    OneQuotient(p, Value(a, 58), q, Value(b, 58), n);
    DigitsValue(a, 58);
    DigitsValue(prefix, 58);
  }

  lemma {:induction false} OneQuotient(p: nat, x: nat, q: nat, r: nat, n: nat)
    requires r < p && n == x * p + r && q * p <= n < q * p + p
    ensures x == q
  {
    var x1: nat, q1: nat := x + 1, q + 1;
    assert x1 * p == x * p + p && q1 * p == q * p + p;
    if x < q {
      MulMonotone(p, x1, q);
    } else if q < x {
      MulMonotone(p, q1, x);
    }
  }

  lemma {:induction false} FourDigits(d: Bytes)
    requires |d| == 4
    ensures Value(d, 58) == ((d[0] as int * 58 + d[1]) * 58 + d[2]) * 58 + d[3]
  {
    assert d[..1][..0] == [] && d[..2][..1] == d[..1] && d[..3][..2] == d[..2];
    assert Value(d[..1], 58) == d[0];
    assert Value(d[..2], 58) == Value(d[..1], 58) * 58 + d[1];
    assert Value(d[..3], 58) == Value(d[..2], 58) * 58 + d[2];
    assert Value(d, 58) == Value(d[..3], 58) * 58 + d[3];
  }

  /** The letters every text of a version starts with. */
  function Letters(version: Word): Bytes {
    if version == 0x0488ADE4 then Ascii("xprv") else if version == 0x0488B21E then Ascii("xpub")
    else if version == 0x04358394 then Ascii("tprv") else if version == 0x043587CF then Ascii("tpub")
    else if version == 0x049D7878 then Ascii("yprv") else if version == 0x049D7CB2 then Ascii("ypub")
    else if version == 0x04B2430C then Ascii("zprv") else Ascii("zpub")
  }

  /** Those letters as digits. */
  function LetterDigits(version: Word): Bytes {
    if version == 0x0488ADE4 then [55, 47, 49, 53]
    else if version == 0x0488B21E then [55, 47, 52, 34]
    else if version == 0x04358394 then [51, 47, 49, 53]
    else if version == 0x043587CF then [51, 47, 52, 34]
    else if version == 0x049D7878 then [56, 47, 49, 53]
    else if version == 0x049D7CB2 then [56, 47, 52, 34]
    else if version == 0x04B2430C then [57, 47, 49, 53]
    else [57, 47, 52, 34]
  }

  lemma {:induction false} LettersWritten(version: Word)
    requires PrivateVersion(version) || PublicVersion(version)
    ensures |LetterDigits(version)| == 4 && Below(LetterDigits(version), 58) && Base58.Chars58(LetterDigits(version)) == Letters(version)
  {
    var t := Base58.Chars58(LetterDigits(version));
    assert |t| == 4 && |Letters(version)| == 4;
  }

  lemma {:induction false} LettersRange(version: Word)
    requires PrivateVersion(version) || PublicVersion(version)
    ensures var q, p, b := Value(LetterDigits(version), 58), Pow(58, 107), Pow(256, 78);
            LetterDigits(version)[0] != 0 && q * p <= version * b && version * b + b <= q * p + p
  {
    hide Value, Pow;
    Pow107();
    BigPowers();
    FourDigits(LetterDigits(version));
  }

  lemma {:induction false} PrefixOf(data: Bytes)
    requires |data| == 82 && (PrivateVersion(FromBe32(data[..4])) || PublicVersion(FromBe32(data[..4])))
    ensures |Base58.Encode(data)| == 111 && Base58.Encode(data)[..4] == Letters(FromBe32(data[..4]))
  {
    hide Pow, Value, Digits, FromBe32, Letters, LetterDigits, Base58.Chars58;
    var v, rest := data[..4], data[4..];
    var version := FromBe32(v);
    var digits := LetterDigits(version);
    assert data == v + rest;
    ValueConcat(v, rest, 256);
    ValueBound(rest, 256);
    Value4(v);
    LettersRange(version);
    LettersWritten(version);
    TextSize(data);
    FirstNonzero(data);
    FirstDigits(Value(data, 256), digits, Value(digits, 58), Pow(58, 107));
    assert Convert(data, 256, 58) == Digits(Value(data, 256), 58);
    CharsPrefix(Digits(Value(data, 256), 58), digits);
  }

  lemma {:induction false} CharsPrefix(d: Bytes, digits: Bytes)
    requires Below(d, 58) && Below(digits, 58) && |d| >= 4 && d[..4] == digits
    ensures Base58.Chars58(d)[..4] == Base58.Chars58(digits)
  {
    assert forall i :: 0 <= i < 4 ==> d[i] == d[..4][i];
  }

  /** Every text of a version starts with its letters: "xprv" or "xpub" for the main network. */
  lemma {:induction false} SerializedPrefix(c: Crypto, k: Key, version: Word)
    requires PrivateVersion(version) || PublicVersion(version)
    ensures |SerializePublic(c, k, version)| == 111 && SerializePublic(c, k, version)[..4] == Letters(version)
    ensures k.hasPrivate ==> SerializePrivate(c, k, version).Ok? && |SerializePrivate(c, k, version).value| == 111
                             && SerializePrivate(c, k, version).value[..4] == Letters(version)
  {
    hide Base58.Encode, Payload, Letters;
    CheckedPrefix(c, version, k, k.publicKey);
    CheckedPrefix(c, version, k, [0] + k.privateKey);
  }

  lemma {:induction false} CheckedPrefix(c: Crypto, version: Word, k: Key, material: Bytes33)
    requires PrivateVersion(version) || PublicVersion(version)
    ensures var t := CheckEncoded(c, Payload(version, k, material)); |t| == 111 && t[..4] == Letters(version)
  {
    hide Base58.Encode, Payload, FromBe32, Letters;
    var d := Payload(version, k, material);
    PayloadParts(version, k, material);
    var all := d + c.doubleSha256(d)[..4];
    assert all[..4] == d[..4];
    PrefixOf(all);
  }

  // ---- the serializers ----

  method WriteKey(c: Crypto, k: Key, version: Word, private: bool) returns (text: Result<Bytes>)
    ensures text == if private then SerializePrivate(c, k, version) else Ok(SerializePublic(c, k, version))
  {
    hide Base58.Encode, Be32;
    if private && !k.hasPrivate {
      return Fail(HardenedFromPublic);
    }
    var data: Bytes := Be32(version);
    data := data + [k.depth];
    data := data + Be32(k.parentFingerprint);
    data := data + Be32(k.childIndex);
    data := data + k.chainCode;
    ghost var head := data;
    if private {
      data := data + [0] + k.privateKey;
      assert data == head + ([0] + k.privateKey);
    } else {
      data := data + k.publicKey;
    }
    var checked := data + c.doubleSha256(data)[..4];
    var t := Base58.EncodeFull(checked);
    text := Ok(t);
  }

  /** The identity module's serializer fills a fixed 82-byte buffer in place and uses its own
      Base58 loop; the text is the same. */
  method SerializeXpub(c: Crypto, k: Key) returns (text: Bytes)
    ensures text == SerializePublic(c, k, XPUB)
  {
    hide Base58.Encode, Be32;
    VersionBytes();
    var bytes := new Byte[82](_ => 0);
    bytes[0], bytes[1], bytes[2], bytes[3] := 0x04, 0x88, 0xb2, 0x1e;
    bytes[4] := k.depth;
    Store32(bytes, 5, k.parentFingerprint);
    Store32(bytes, 9, k.childIndex);
    Store(bytes, 13, k.chainCode);
    Store(bytes, 45, k.publicKey);
    var d := bytes[..78];
    assert d == Payload(XPUB, k, k.publicKey);
    Store(bytes, 78, c.doubleSha256(d)[..4]);
    assert bytes[..] == d + c.doubleSha256(d)[..4];
    text := Base58.EncodeWindow(bytes[..]);
  }

  lemma {:induction false} VersionBytes()
    ensures Be32(XPUB) == [0x04, 0x88, 0xb2, 0x1e]
  {
  }

  method Store32(bytes: array<Byte>, at: nat, n: Word)
    requires at + 4 <= bytes.Length
    modifies bytes
    ensures bytes[..] == old(bytes[..at]) + Be32(n) + old(bytes[at + 4..])
  {
    bytes[at] := n / 0x100_0000;
    bytes[at + 1] := n / 0x1_0000 % 256;
    bytes[at + 2] := n / 256 % 256;
    bytes[at + 3] := n % 256;
  }
}
