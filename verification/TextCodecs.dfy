/** Base32 (section 6 of RFC 4648, lower case), base64url (section 5) and the CIDs written with them. */
module TextCodecs {
  import opened Prelude
  import opened Radix
  import opened Regroup
  import opened BitCodecs

  datatype Alphabet = Base32 | Base64Url

  function Width(a: Alphabet): (r: nat)
    ensures r == 5 || r == 6
  {
    if a.Base32? then 5 else 6
  }

  /** "a".."z" "2".."7", or "A".."Z" "a".."z" "0".."9" "-" "_". */
  function Char(a: Alphabet, d: Byte): Byte
    requires d < if a.Base32? then 32 else 64
  {
    match a
    case Base32 => if d < 26 then 97 + d else 50 + (d - 26)
    case Base64Url => if d < 26 then 65 + d else if d < 52 then 97 + (d - 26) else if d < 62 then 48 + (d - 52) else if d == 62 then 45 else 95
  }

  /** The symbol a character stands for, or -1. */
  function Digit(a: Alphabet, c: Byte): (d: int)
    ensures -1 <= d < if a.Base32? then 32 else 64
    ensures d >= 0 ==> Char(a, d) == c
  {
    match a
    case Base32 => if 97 <= c <= 122 then c - 97 else if 50 <= c <= 55 then c - 50 + 26 else -1
    case Base64Url =>
      if 65 <= c <= 90 then c - 65 else if 97 <= c <= 122 then c - 97 + 26
      else if 48 <= c <= 57 then c - 48 + 52 else if c == 45 then 62 else if c == 95 then 63 else -1
  }

  lemma {:induction false} DigitOfChar(a: Alphabet, d: Byte)
    requires d < if a.Base32? then 32 else 64
    ensures Digit(a, Char(a, d)) == d
  {
  }

  /** The alphabets of RFC 4648: a to z and 2 to 7; and A to Z, a to z, 0 to 9, minus and underscore. */
  lemma {:induction false} Alphabets(d: Byte)
    ensures d < 26 ==> Char(Base32, d) == 'a' as int + d && Char(Base64Url, d) == 'A' as int + d && Char(Base64Url, 26 + d) == 'a' as int + d
    ensures d < 6 ==> Char(Base32, 26 + d) == '2' as int + d
    ensures d < 10 ==> Char(Base64Url, 52 + d) == '0' as int + d
    ensures Char(Base64Url, 62) == '-' as int && Char(Base64Url, 63) == '_' as int
  {
  }

  function Chars(a: Alphabet, digits: Bytes): (t: Bytes)
    requires Below(digits, if a.Base32? then 32 else 64)
    ensures |t| == |digits|
  {
    seq(|digits|, i requires 0 <= i < |digits| => Char(a, digits[i]))
  }

  predicate Written(a: Alphabet, t: Bytes) { forall i :: 0 <= i < |t| ==> Digit(a, t[i]) >= 0 }

  function Symbolic(a: Alphabet, t: Bytes): (digits: Bytes)
    requires Written(a, t)
    ensures |digits| == |t| && Below(digits, if a.Base32? then 32 else 64)
    ensures Chars(a, digits) == t
  {
    seq(|t|, i requires 0 <= i < |t| => Digit(a, t[i]))
  }

  lemma {:induction false} SymbolicChars(a: Alphabet, digits: Bytes)
    requires Below(digits, if a.Base32? then 32 else 64)
    ensures Written(a, Chars(a, digits)) && Symbolic(a, Chars(a, digits)) == digits
  {
    forall i | 0 <= i < |digits| ensures Digit(a, Chars(a, digits)[i]) == digits[i] {
      DigitOfChar(a, digits[i]);
    }
  }

  lemma {:induction false} WidthBound(a: Alphabet)
    ensures P2(Width(a)) == if a.Base32? then 32 else 64
    ensures P2(8) == 256
  {
    P2Byte(8);
    P2Byte(Width(a));
  }

  // ---- specification ----

  function Encode(a: Alphabet, s: Bytes): Bytes {
    WidthBound(a);
    Chars(a, Padded(s, 8, Width(a)))
  }

  /** Only base64url looks at the length; both refuse a foreign character or a leftover bit. */
  function Decode(a: Alphabet, t: Bytes): Option<Bytes> {
    if !Written(a, t) || (a.Base64Url? && |t| % 4 == 1) then None
    else Exact(Symbolic(a, t), Width(a), 8)
  }

  // ---- the codecs ----

  method Text(a: Alphabet, digits: Bytes) returns (t: Bytes)
    requires Below(digits, if a.Base32? then 32 else 64)
    ensures t == Chars(a, digits)
  {
    t := [];
    for i := 0 to |digits|
      invariant |t| == i && forall k :: 0 <= k < i ==> t[k] == Char(a, digits[k])
    {
      t := t + [Char(a, digits[i])];
    }
  }

  /** `encodeBase32Lower` and `encodeBase64Url`: the accumulator is masked after every byte. */
  method EncodeMasked(a: Alphabet, input: Bytes) returns (text: Bytes)
    ensures text == Encode(a, input)
  {
    hide P2, Padded, Reading, Shifted, Chars, Value;
    var to := Width(a);
    var out: Bytes, buffer: nat, bits: nat, i: nat := [], 0, 0, 0;
    Start(to, 0);
    ValueEmpty(input, P2(8));
    ZeroBelow();
    WidthBound(a);
    while i < |input|
      invariant i <= |input| && bits < to && buffer < P2(bits)
      invariant Reading(out, buffer, bits, Value(input[..i], P2(8)), i * 8, to, bits)
    {
      out, buffer, bits := TakeMasked(out, buffer, bits, Value(input[..i], P2(8)), i * 8, to, 8, input[i]);
      ValueNext(input, i, 8);
      i := i + 1;
    }
    assert input[..i] == input;
    Finished(out, buffer, bits, input, 8, to, bits);
    if bits != 0 {
      out := out + [Shifted(buffer, to - bits, 0) % P2(to)];
    }
    text := Text(a, out);
  }

  lemma {:induction false} ZeroBelow()
    ensures 0 < P2(0)
  {
  }

  /** The base32 encoder of the libp2p identifiers never masks its 32-bit accumulator, and
      writes the same text for input of every length. */
  method EncodeUnmasked(input: Bytes) returns (text: Bytes)
    ensures text == Encode(Base32, input)
  {
    hide P2, Padded, Reading, Shifted, Chars, Unsigned32, Value;
    var out: Bytes, value: int, bits: nat, i: nat := [], 0, 0, 0;
    Start(5, 32);
    ValueEmpty(input, P2(8));
    WidthBound(Base32);
    while i < |input|
      invariant i <= |input| && bits < 5
      invariant Reading(out, value, bits, Value(input[..i], P2(8)), i * 8, 5, 32)
    {
      out, value, bits := TakeUnsigned(out, value, bits, Value(input[..i], P2(8)), i * 8, 5, 8, input[i]);
      ValueNext(input, i, 8);
      i := i + 1;
    }
    assert input[..i] == input;
    Finished(out, value, bits, input, 8, 5, 32);
    WrapLast(Shifted(value, 5 - bits, 0), 5);
    if bits > 0 {
      out := out + [Unsigned32(Shifted(value, 5 - bits, 0)) % P2(5)];
    }
    text := Text(Base32, out);
  }

  lemma {:induction false} KeptMasked(out: Bytes, acc: nat, bits: nat, s: Bytes, from: nat, to: nat)
    requires 1 <= to <= 8 && Reading(out, acc, bits, Value(s, P2(from)), |s| * from, to, bits) && acc < P2(bits)
    ensures Exact(s, from, to) == if acc == 0 then Some(out) else None
  {
    Kept(out, acc, bits, s, from, to, bits);
    hide *;
    LeftoverZero(acc, bits, to);
    SmallMod(acc, P2(bits));
  }

  /** `decodeBase32Lower` and `decodeBase64Url`. */
  method DecodeMasked(a: Alphabet, text: Bytes) returns (r: Option<Bytes>)
    ensures r == Decode(a, text)
  {
    hide P2, Exact, Reading, Shifted, Value, Digit;
    if a.Base64Url? && |text| % 4 == 1 {
      return None;
    }
    var from := Width(a);
    var out: Bytes, buffer: nat, bits: nat, i: nat := [], 0, 0, 0;
    ghost var digits: Bytes := [];
    Start(8, 0);
    ValueEmpty([], P2(from));
    ZeroBelow();
    WidthBound(a);
    while i < |text|
      invariant i == |digits| <= |text| && bits < 8 && buffer < P2(bits)
      invariant forall k :: 0 <= k < i ==> Digit(a, text[k]) == digits[k]
      invariant Reading(out, buffer, bits, Value(digits, P2(from)), i * from, 8, bits)
    {
      var value := Digit(a, text[i]);
      if value < 0 {
        return None;
      }
      out, buffer, bits := TakeMasked(out, buffer, bits, Value(digits, P2(from)), i * from, 8, from, value);
      digits := digits + [value];
      ValueNext(digits, i, from);
      assert digits[..i + 1] == digits;
      i := i + 1;
    }
    assert digits == Symbolic(a, text);
    KeptMasked(out, buffer, bits, digits, from, 8);
    r := if bits != 0 && buffer != 0 then None else Some(out);
    if bits == 0 {
      P2Byte(0);
    }
  }

  // ---- what is accepted ----

  lemma {:induction false} AllBytes(s: Bytes)
    ensures Below(s, P2(8))
  {
    P2Byte(8);
  }

  lemma {:induction false} DecodeEncode(a: Alphabet, s: Bytes)
    ensures Decode(a, Encode(a, s)) == Some(s)
  {
    hide P2, Padded, Exact;
    AllBytes(s);
    WidthBound(a);
    ExactPadded(s, 8, Width(a));
    SymbolicChars(a, Padded(s, 8, Width(a)));
  }

  /** An accepted text is the encoding of its bytes unless a whole symbol is left over,
      which base64url excludes by its length test and base32 does not. */
  lemma {:induction false} EncodeDecode(a: Alphabet, t: Bytes)
    requires Decode(a, t).Some?
    ensures Encode(a, Decode(a, t).value) == t <==> |t| * Width(a) % 8 < Width(a)
    ensures a.Base64Url? ==> Encode(a, Decode(a, t).value) == t
  {
    hide P2, Padded, Exact;
    WidthBound(a);
    var digits := Symbolic(a, t);
    if |t| * Width(a) % 8 < Width(a) {
      PaddedExact(digits, Width(a), 8);
    } else {
      var s := Decode(a, t).value;
      AllBytes(s);
      ExactPadded(s, 8, Width(a));
    }
    if a.Base64Url? {
      SixBits(|t|);
    }
  }

  lemma {:induction false} SixBits(n: nat)
    requires n % 4 != 1
    ensures n * 6 % 8 < 6
  {
    var q, r := n / 4, n % 4;
    assert n * 6 == 8 * (3 * q) + 6 * r;
  }

  /** base64url accepts exactly the texts its encoder writes. */
  lemma {:induction false} Base64UrlExact(t: Bytes)
    ensures Decode(Base64Url, t).Some? <==> exists s: Bytes :: t == Encode(Base64Url, s)
  {
    hide Encode, Decode;
    if Decode(Base64Url, t).Some? {
      EncodeDecode(Base64Url, t);
      assert t == Encode(Base64Url, Decode(Base64Url, t).value);
    }
    if exists s: Bytes :: t == Encode(Base64Url, s) {
      var s: Bytes :| t == Encode(Base64Url, s);
      DecodeEncode(Base64Url, s);
    }
  }

  /** base32 also accepts texts that no encoder writes: "a" decodes to nothing. */
  lemma {:induction false} Base32Loose()
    ensures Decode(Base32, [97]) == Some([]) && Encode(Base32, []) == []
  {
    P2Byte(0);
    P2Byte(5);
    P2Byte(8);
    assert Symbolic(Base32, [97]) == [0];
    assert Value([0][..0], 32) == 0;
    assert Value([0], 32) == 0;
  }

  // ---- CIDs ----

  predicate LowerHex(s: Bytes, size: nat) {
    |s| == size && forall i :: 0 <= i < |s| ==> 48 <= s[i] <= 57 || 97 <= s[i] <= 102
  }

  function HexChar(d: int): Byte
    requires 0 <= d < 16
  {
    if d < 10 then 48 + d else 97 + (d - 10)
  }

  function HexDigit(c: Byte): (d: int)
    requires 48 <= c <= 57 || 97 <= c <= 102
    ensures 0 <= d < 16 && HexChar(d) == c
  {
    if c <= 57 then c - 48 else c - 97 + 10
  }

  method Hex(input: Bytes) returns (text: Bytes)
    ensures |text| == 2 * |input| && LowerHex(text, |text|)
    ensures forall i :: 0 <= i < |input| ==> HexPair(text, i) == input[i]
  {
    text := Repeat(0, 2 * |input|);
    for i := 0 to |input|
      invariant |text| == 2 * |input|
      invariant forall k :: 0 <= k < 2 * i ==> 48 <= text[k] <= 57 || 97 <= text[k] <= 102
      invariant forall k :: 0 <= k < i ==> HexChar(input[k] / 16) == text[2 * k] && HexChar(input[k] % 16) == text[2 * k + 1]
    {
      text := text[2 * i := HexChar(input[i] / 16)];
      text := text[2 * i + 1 := HexChar(input[i] % 16)];
    }
  }

  /** The byte written by characters 2i and 2i + 1. */
  function HexPair(t: Bytes, i: nat): Byte
    requires 2 * i + 1 < |t| && LowerHex(t, |t|)
  {
    HexDigit(t[2 * i]) * 16 + HexDigit(t[2 * i + 1])
  }

  function FromHex(t: Bytes): (s: Bytes)
    requires LowerHex(t, |t|) && |t| % 2 == 0
    ensures |s| == |t| / 2 && forall i :: 0 <= i < |s| ==> s[i] == HexPair(t, i)
  {
    seq(|t| / 2, i requires 0 <= i < |t| / 2 => HexPair(t, i))
  }

  lemma {:induction false} HexUnique(t: Bytes, u: Bytes)
    requires LowerHex(t, |t|) && LowerHex(u, |u|) && |t| == |u| && |t| % 2 == 0
    ensures FromHex(t) == FromHex(u) <==> t == u
  {
    if FromHex(t) == FromHex(u) {
      forall i | 0 <= i < |t| ensures t[i] == u[i] {
        hide HexDigit;
        assert FromHex(t)[i / 2] == FromHex(u)[i / 2];
        PairUnique(t, u, i / 2);
        assert i == 2 * (i / 2) || i == 2 * (i / 2) + 1;
      }
    }
  }

  lemma {:induction false} PairUnique(t: Bytes, u: Bytes, k: nat)
    requires LowerHex(t, |t|) && LowerHex(u, |u|) && 2 * k + 1 < |t| == |u|
    requires HexPair(t, k) == HexPair(u, k)
    ensures t[2 * k] == u[2 * k] && t[2 * k + 1] == u[2 * k + 1]
  {
    hide HexDigit, HexChar;
    assert HexChar(HexDigit(t[2 * k])) == t[2 * k] && HexChar(HexDigit(t[2 * k + 1])) == t[2 * k + 1];
    assert HexChar(HexDigit(u[2 * k])) == u[2 * k] && HexChar(HexDigit(u[2 * k + 1])) == u[2 * k + 1];
  }

  const CID_HEADER: Bytes := [0x01, 0x55, 0x12, 0x20]

  /** The raw-leaf CIDv1 of a SHA-256 digest: "b" and base32. */
  function CidOf(sha: Bytes): Bytes
    requires LowerHex(sha, 64)
  {
    [98] + Encode(Base32, CID_HEADER + FromHex(sha))
  }

  /** Exactly one CID is accepted for each digest. */
  method ValidCid(cid: Bytes, sha: Bytes) returns (ok: bool)
    ensures ok <==> LowerHex(sha, 64) && cid == CidOf(sha)
  {
    hide Encode, Decode;
    if LowerHex(sha, 64) {
      CidShape(sha);
    }
    if |cid| != 59 || cid[0] != 98 || !LowerHex(sha, 64) {
      return false;
    }
    var decoded := DecodeMasked(Base32, cid[1..]);
    ok := false;
    if decoded.Some? && |decoded.value| == 36 && decoded.value[..4] == CID_HEADER {
      var d := decoded.value;
      var again := EncodeMasked(Base32, d);
      var text := Hex(d[4..]);
      ok := again == cid[1..] && text == sha;
      assert FromHex(text) == d[4..];
      HexUnique(text, sha);
      assert d == CID_HEADER + d[4..];
      assert cid == [98] + cid[1..];
      if cid == CidOf(sha) {
        assert CidOf(sha)[1..] == Encode(Base32, CID_HEADER + FromHex(sha));
        assert d[4..] == FromHex(sha);
      }
    }
    if cid == CidOf(sha) {
      assert cid[1..] == Encode(Base32, CID_HEADER + FromHex(sha));
      assert ok;
    }
  }

  lemma {:induction false} CidShape(sha: Bytes)
    requires LowerHex(sha, 64)
    ensures |CidOf(sha)| == 59 && CidOf(sha)[0] == 98
    ensures Decode(Base32, CidOf(sha)[1..]) == Some(CID_HEADER + FromHex(sha))
  {
    var payload := CID_HEADER + FromHex(sha);
    DecodeEncode(Base32, payload);
    assert Symbols(36, 8, 5) == 58;
    assert CidOf(sha)[1..] == Encode(Base32, payload);
  }

  /** and no CID serves two digests. */
  lemma {:induction false} CidDistinct(sha: Bytes, other: Bytes)
    requires LowerHex(sha, 64) && LowerHex(other, 64) && CidOf(sha) == CidOf(other)
    ensures sha == other
  {
    hide Encode, Decode;
    CidShape(sha);
    CidShape(other);
    assert (CID_HEADER + FromHex(sha))[4..] == FromHex(sha);
    assert (CID_HEADER + FromHex(other))[4..] == FromHex(other);
    HexUnique(sha, other);
  }

  // ---- how a CID starts ----

  /** The digits at the front of a number are the digits of the front of it. */
  lemma {:induction false} FixedFront(n: nat, base: nat, count: nat, k: nat, p: nat)
    requires 1 <= base <= 256 && k <= count && p == Pow(base, k) && p >= 1
    ensures n / p >= 0 && Fixed(n, base, count)[..count - k] == Fixed(n / p, base, count - k)
    decreases k
  {
    hide Pow;
    if k == 0 {
      assert Pow(base, 0) == 1 by { PowZero(base); }
      assert Fixed(n, base, count)[..count] == Fixed(n, base, count);
    } else {
      PowStep(base, k);
      PowPositive(base, k - 1);
      FixedFront(n / base, base, count - 1, k - 1, Pow(base, k - 1));
      DivDiv(n, base, Pow(base, k - 1));
      assert Fixed(n, base, count)[..count - k] == Fixed(n / base, base, count - 1)[..count - k];
    }
  }

  lemma {:induction false} PowZero(base: nat)
    ensures Pow(base, 0) == 1
  {
  }

  lemma {:induction false} HeaderValue()
    ensures Value(CID_HEADER, 256) == 0x01551220
  {
    var s := CID_HEADER;
    assert s[..1][..0] == [] && s[..2][..1] == s[..1] && s[..3][..2] == s[..2];
    assert Value(s[..1], 256) == 0x01 && Value(s[..2], 256) == 0x0155 && Value(s[..3], 256) == 0x015512;
  }

  /** The number of a header and a digest, in front of the last 52 symbols. */
  lemma {:induction false} HeaderFront(h: nat, d: nat, q: nat, b: nat, n: nat)
    requires d < b && 4 * h == 16 * q && n == (h * b + d) * 4
    ensures 16 * b >= 1 && n / (16 * b) == q
  {
    assert n == h * b * 4 + d * 4;
    assert h * b * 4 == q * (16 * b) by {
      assert h * b * 4 == 4 * h * b;
      assert 16 * q * b == q * (16 * b);
    }
    DivMod(q, 16 * b, 4 * d);
  }

  lemma {:induction false} CidNumber(digest: Bytes)
    requires |digest| == 32
    ensures P2(260) >= 1 && Shifted(Value(CID_HEADER + digest, 256), 2, 0) / P2(260) == 0x554488
  {
    hide P2, Value, Pow;
    HeaderValue();
    ValueConcat(CID_HEADER, digest, 256);
    ValueBound(digest, 256);
    P2Byte(8);
    PowPower(8, 32);
    P2Add(4, 256);
    P2Small();
    HeaderFront(0x01551220, Value(digest, 256), 0x554488, P2(256), Shifted(Value(CID_HEADER + digest, 256), 2, 0));
  }

  lemma {:induction false} P2Small()
    ensures P2(2) == 4 && P2(4) == 16
  {
    assert Pow(2, 2) == 4 && Pow(2, 3) == 8 && Pow(2, 4) == 16;
  }

  lemma {:induction false} FrontSymbols()
    ensures Fixed(0x554488, 32, 6) == [0, 5, 10, 17, 4, 8]
  {
    hide Fixed;
    var d: Bytes := [0, 5, 10, 17, 4, 8];
    FrontValue();
    FixedOfValue(d, 32);
  }

  lemma {:induction false} FrontValue()
    ensures Value([0, 5, 10, 17, 4, 8], 32) == 0x554488
  {
    var d: Bytes := [0, 5, 10, 17, 4, 8];
    assert d[..1][..0] == [] && d[..2][..1] == d[..1] && d[..3][..2] == d[..2] && d[..4][..3] == d[..3] && d[..5][..4] == d[..4];
    assert Value(d[..1], 32) == 0 && Value(d[..2], 32) == 5 && Value(d[..3], 32) == 170;
    assert Value(d[..4], 32) == 5457 && Value(d[..5], 32) == 174628;
  }

  /** Every CID starts as those of raw leaves with SHA-256 digests do. */
  lemma {:induction false} CidStarts(sha: Bytes)
    requires LowerHex(sha, 64)
    ensures |CidOf(sha)| == 59 && CidOf(sha)[..7] == Ascii("bafkrei")
  {
    hide P2, Value, Fixed, Shifted, Pow;
    var data := CID_HEADER + FromHex(sha);
    CidShape(sha);
    P2Byte(5);
    P2Byte(8);
    assert Symbols(36, 8, 5) == 58;
    PaddedIs(data, 8, 5, 58, 2);
    var n := Shifted(Value(data, 256), 2, 0);
    CidNumber(FromHex(sha));
    PowPower(5, 52);
    FixedFront(n, 32, 58, 52, P2(260));
    FrontSymbols();
    var v := Padded(data, 8, 5);
    assert v[..6] == [0, 5, 10, 17, 4, 8];
    FrontText(v);
    assert CidOf(sha)[..7] == [98] + Encode(Base32, data)[..6];
  }

  lemma {:induction false} FrontText(v: Bytes)
    requires Below(v, 32) && |v| >= 6 && v[..6] == [0, 5, 10, 17, 4, 8]
    ensures [98] + Chars(Base32, v)[..6] == Ascii("bafkrei")
  {
    assert forall i :: 0 <= i < 6 ==> v[i] == v[..6][i];
  }
}
