/** The Bech32 and Bech32m string forms: human-readable part, "1", data and checksum. */
module Bech32 {
  import opened Prelude
  import opened Radix
  import opened Regroup
  import opened BitCodecs
  import opened Bech32Checksum

  const CHARSET: Bytes := [113, 112, 122, 114, 121, 57, 120, 56, 103, 102, 50, 116, 118, 100, 119, 48,
                           115, 51, 106, 110, 53, 52, 107, 104, 99, 101, 54, 109, 117, 97, 55, 108]

  /** The symbol of a character, or -1. */
  function Reverse(c: Byte): (v: int)
    ensures -1 <= v < 32
  {
    match Lower(c)
    case 48 => 15 case 50 => 10 case 51 => 17 case 52 => 21 case 53 => 20 case 54 => 26 case 55 => 30
    case 56 => 7 case 57 => 5 case 97 => 29 case 99 => 24 case 100 => 13 case 101 => 25 case 102 => 9
    case 103 => 8 case 104 => 23 case 106 => 18 case 107 => 22 case 108 => 31 case 109 => 27 case 110 => 19
    case 112 => 1 case 113 => 0 case 114 => 3 case 115 => 16 case 116 => 11 case 117 => 28 case 118 => 12
    case 119 => 14 case 120 => 6 case 121 => 4 case 122 => 2
    case _ => -1
  }

  function Char(v: Byte): (c: Byte)
    requires v < 32
  {
    CHARSET[v]
  }

  lemma {:induction false} ReverseChar(v: Byte)
    requires v < 32
    ensures Reverse(Char(v)) == v && Lower(Char(v)) == Char(v) && 33 <= Char(v) <= 126 && Char(v) != 49
  {
  }

  lemma {:induction false} CharReverse(c: Byte)
    requires Reverse(c) >= 0
    ensures Char(Reverse(c)) == Lower(c)
  {
  }

  function Chars(symbols: Bytes): (t: Bytes)
    requires Below(symbols, 32)
    ensures |t| == |symbols|
  {
    seq(|symbols|, i requires 0 <= i < |symbols| => Char(symbols[i]))
  }

  predicate Written(t: Bytes) { forall i :: 0 <= i < |t| ==> Reverse(t[i]) >= 0 }

  function Symbols32(t: Bytes): (v: Bytes)
    requires Written(t)
    ensures |v| == |t| && Below(v, 32)
  {
    seq(|t|, i requires 0 <= i < |t| => Reverse(t[i]))
  }

  predicate Printable(t: Bytes) { forall i :: 0 <= i < |t| ==> 33 <= t[i] <= 126 }

  predicate HasLower(t: Bytes) { exists i :: 0 <= i < |t| && 97 <= t[i] <= 122 }

  predicate HasUpper(t: Bytes) { exists i :: 0 <= i < |t| && 65 <= t[i] <= 90 }

  /** Position of the last "1", or -1. */
  function LastOne(t: Bytes): (p: int)
    ensures -1 <= p < |t|
    ensures p >= 0 ==> t[p] == 49
    ensures forall i :: p < i < |t| ==> t[i] != 49
  {
    if t == [] then -1
    else if t[|t| - 1] == 49 then |t| - 1
    else LastOne(t[..|t| - 1])
  }

  // ---- specification ----

  function Payload(hrp: Bytes, data: Bytes, spec: Spec): (v: Bytes)
    ensures Below(v, 32)
  {
    P2Byte(5);
    Padded(data, 8, 5) + Checksum(hrp, Padded(data, 8, 5), spec)
  }

  function Encoded(hrp: Bytes, data: Bytes, spec: Spec): Bytes {
    hrp + [49] + Chars(Payload(hrp, data, spec))
  }

  datatype Outcome = Failure | Decoded(hrp: Bytes, data: Bytes, spec: Spec)

  function Opened(hrp: Bytes, symbols: Bytes): Outcome
    requires |symbols| >= 6
  {
    match Verified(hrp, symbols)
    case None => Failure
    case Some(spec) => Decoded(hrp, Converted(symbols[..|symbols| - 6], 5, 8, false), spec)
  }

  /** One letter case, printable, and the symbols of at least a checksum after the last "1". */
  predicate Shaped(t: Bytes) {
    var lower := Lowered(t);
    var p := LastOne(lower);
    && Printable(t) && !(HasLower(t) && HasUpper(t))
    && p > 0 && p + 7 <= |t| && Written(lower[p + 1..])
  }

  /** The human-readable part of a text, and the symbols after it. */
  function HrpOf(t: Bytes): Bytes
    requires Shaped(t)
  {
    Lowered(t)[..LastOne(Lowered(t))]
  }

  function SymbolsOf(t: Bytes): (v: Bytes)
    requires Shaped(t)
    ensures |v| >= 6 && Below(v, 32)
  {
    Symbols32(Lowered(t)[LastOne(Lowered(t)) + 1..])
  }

  /** The symbols before the checksum. */
  function DataSymbols(t: Bytes): (v: Bytes)
    requires Shaped(t)
    ensures Below(v, 32)
  {
    SymbolsOf(t)[..|SymbolsOf(t)| - 6]
  }

  function Meaning(t: Bytes): Outcome {
    if Shaped(t) then Opened(HrpOf(t), SymbolsOf(t)) else Failure
  }

  // ---- the codec ----

  method Encode(hrp: Bytes, data: Bytes, spec: Spec) returns (text: Bytes)
    ensures text == Encoded(hrp, data, spec)
  {
    hide Padded, Checksum, Char, Chars;
    P2Byte(8);
    P2Byte(5);
    var values := ConvertBits(data, 8, 5, true);
    if values == [] && data != [] {
      PaddedNonempty(data);
      assert false;
    }
    var checksum := CreateChecksum(hrp, values, spec);
    text := hrp + [49];
    var all := values + checksum;
    var part: Bytes := [];
    assert all == Payload(hrp, data, spec);
    assert |Chars(all[..0])| == 0;
    for i := 0 to |all|
      invariant Below(all, 32) && part == Chars(all[..i])
    {
      CharsNext(all, i);
      part := part + [Char(all[i])];
    }
    assert all[..|all|] == all;
    text := text + part;
  }

  lemma {:induction false} CharsNext(v: Bytes, i: nat)
    requires i < |v| && Below(v, 32)
    ensures Chars(v[..i + 1]) == Chars(v[..i]) + [Char(v[i])]
  {
    hide Char;
  }

  lemma {:induction false} PaddedNonempty(data: Bytes)
    requires data != []
    ensures Padded(data, 8, 5) != []
  {
    PaddingBits(|data| * 8, 5);
  }

  /** Whether every character may occur and at most one letter case does. */
  method OneCase(text: Bytes) returns (ok: bool)
    ensures ok <==> Printable(text) && !(HasLower(text) && HasUpper(text))
  {
    var hasLower, hasUpper := false, false;
    for i := 0 to |text|
      invariant hasLower <==> HasLower(text[..i])
      invariant hasUpper <==> HasUpper(text[..i])
      invariant Printable(text[..i])
    {
      Extend(text, i);
      hasLower := hasLower || 97 <= text[i] <= 122;
      hasUpper := hasUpper || 65 <= text[i] <= 90;
      if text[i] < 33 || text[i] > 126 {
        return false;
      }
    }
    assert text[..|text|] == text;
    ok := !(hasLower && hasUpper);
  }

  /** The symbols of a run of characters, or None at the first that is none. */
  method ReadSymbols(part: Bytes) returns (r: Option<Bytes>)
    ensures r == if Written(part) then Some(Symbols32(part)) else None
  {
    hide Reverse;
    var symbols: Bytes := [];
    for i := 0 to |part|
      invariant |symbols| == i && forall k :: 0 <= k < i ==> symbols[k] == Reverse(part[k])
    {
      var v := Reverse(part[i]);
      if v < 0 {
        return None;
      }
      symbols := symbols + [v];
    }
    assert symbols == Symbols32(part);
    r := Some(symbols);
  }

  method Decode(text: Bytes) returns (r: Outcome)
    ensures r == Meaning(text)
  {
    hide Verified, Converted, LastOne, Reverse, Printable, HasLower, HasUpper, Symbols32, Written;
    var oneCase := OneCase(text);
    if !oneCase {
      return Failure;
    }
    var lower := Lowered(text);
    var p := LastOne(lower);
    if p == -1 || p == 0 || p + 7 > |lower| {
      return Failure;
    }
    var symbols := ReadSymbols(lower[p + 1..]);
    if symbols == None {
      return Failure;
    }
    var v := symbols.value;
    var spec := VerifyChecksum(lower[..p], v);
    if spec == None {
      return Failure;
    }
    var data := ConvertBits(v[..|v| - 6], 5, 8, false);
    r := Decoded(lower[..p], data, spec.value);
  }

  lemma {:induction false} Extend(t: Bytes, i: nat)
    requires i < |t|
    ensures HasLower(t[..i + 1]) <==> HasLower(t[..i]) || 97 <= t[i] <= 122
    ensures HasUpper(t[..i + 1]) <==> HasUpper(t[..i]) || 65 <= t[i] <= 90
  {
    var u, v := t[..i], t[..i + 1];
    assert forall k :: 0 <= k < i ==> u[k] == v[k];
    assert v[i] == t[i];
    if HasLower(v) {
      var k :| 0 <= k < |v| && 97 <= v[k] <= 122;
      assert k < i ==> u[k] == v[k];
    }
    if HasUpper(v) {
      var k :| 0 <= k < |v| && 65 <= v[k] <= 90;
      assert k < i ==> u[k] == v[k];
    }
  }

  method VerifyChecksum(hrp: Bytes, data: Bytes) returns (spec: Option<Spec>)
    ensures spec == Verified(hrp, data)
  {
    var expanded := ExpandHrp(hrp);
    var polymod := ComputePolymod(expanded + data);
    spec := if polymod == Constant(Bech32) then Some(Bech32) else if polymod == Constant(Bech32m) then Some(Bech32m) else None;
  }

  // ---- round trips ----

  /** Human-readable parts that survive: not empty, printable ASCII, no capital letter.
      A "1" inside is allowed. */
  predicate GoodHrp(hrp: Bytes) {
    hrp != [] && Printable(hrp) && !HasUpper(hrp)
  }

  /** Decoding gives back what was encoded for exactly the good human-readable parts. */
  lemma {:induction false} DecodeEncode(hrp: Bytes, data: Bytes, spec: Spec)
    ensures Meaning(Encoded(hrp, data, spec)) == Decoded(hrp, data, spec) <==> GoodHrp(hrp)
  {
    hide Encoded, Opened;
    if GoodHrp(hrp) {
      Recovers(hrp, data, spec);
    }
    if Meaning(Encoded(hrp, data, spec)) == Decoded(hrp, data, spec) {
      EncodedStarts(hrp, data, spec);
      Necessary(hrp, Encoded(hrp, data, spec));
    }
  }

  lemma {:induction false} EncodedStarts(hrp: Bytes, data: Bytes, spec: Spec)
    ensures hrp <= Encoded(hrp, data, spec)
  {
    hide Payload, Chars;
  }

  lemma {:induction false} Necessary(hrp: Bytes, t: Bytes)
    requires hrp <= t && Meaning(t).Decoded? && Meaning(t).hrp == hrp
    ensures GoodHrp(hrp)
  {
    hide Converted, Verified;
    var lower := Lowered(t);
    var p := LastOne(lower);
    assert hrp == lower[..p];
    forall i | 0 <= i < |hrp| ensures 33 <= hrp[i] <= 126 && !(65 <= hrp[i] <= 90) {
      assert hrp[i] == t[i];
      assert hrp[i] == lower[i] == Lower(t[i]);
    }
  }

  lemma {:induction false} PayloadChars(v: Bytes)
    requires Below(v, 32)
    ensures Printable(Chars(v)) && !HasUpper(Chars(v)) && Lowered(Chars(v)) == Chars(v)
    ensures forall i :: 0 <= i < |v| ==> Chars(v)[i] != 49
    ensures Written(Chars(v)) && Symbols32(Chars(v)) == v
  {
    hide Char, Reverse, Lower;
    forall i | 0 <= i < |v|
      ensures var c := Chars(v)[i]; c == Char(v[i]) && Reverse(c) == v[i] && Lower(c) == c && 33 <= c <= 126 && c != 49 && !(65 <= c <= 90)
    {
      ReverseChar(v[i]);
      NotUpper(Char(v[i]));
    }
  }

  lemma {:induction false} NotUpper(c: Byte)
    ensures Lower(c) == c <==> !(65 <= c <= 90)
  {
  }

  lemma {:induction false} LastOneAt(t: Bytes, p: nat)
    requires p < |t| && t[p] == 49 && forall i :: p < i < |t| ==> t[i] != 49
    ensures LastOne(t) == p
  {
  }

  lemma {:induction false} Recovers(hrp: Bytes, data: Bytes, spec: Spec)
    requires GoodHrp(hrp)
    ensures Meaning(Encoded(hrp, data, spec)) == Decoded(hrp, data, spec)
  {
    hide Payload, Chars, Opened, Meaning;
    PayloadSize(hrp, data, spec);
    ReadsSymbols(hrp, Payload(hrp, data, spec));
    OpensPayload(hrp, data, spec);
  }

  /** A good human-readable part and any symbols written after it are read as they are. */
  lemma {:induction false} ReadsSymbols(hrp: Bytes, v: Bytes)
    requires GoodHrp(hrp) && |v| >= 6 && Below(v, 32)
    ensures var t := hrp + [49] + Chars(v);
            Shaped(t) && HrpOf(t) == hrp && SymbolsOf(t) == v && Meaning(t) == Opened(hrp, v)
  {
    hide Chars, Opened, Symbols32, Written, Printable, HasUpper, LastOne;
    PayloadChars(v);
    Located(hrp, Chars(v));
  }

  lemma {:induction false} Located(hrp: Bytes, c: Bytes)
    requires Printable(hrp) && !HasUpper(hrp) && Printable(c) && !HasUpper(c)
    requires forall i :: 0 <= i < |c| ==> c[i] != 49
    ensures var t := hrp + [49] + c;
            Printable(t) && !HasUpper(t) && Lowered(t) == t && LastOne(t) == |hrp|
            && t[..|hrp|] == hrp && t[|hrp| + 1..] == c
  {
    hide LastOne;
    var t := hrp + [49] + c;
    Whole(hrp, c);
    forall i | |hrp| < i < |t| ensures t[i] != 49 {
      assert t[i] == c[i - |hrp| - 1];
    }
    LastOneAt(t, |hrp|);
  }

  lemma {:induction false} Whole(hrp: Bytes, c: Bytes)
    requires Printable(hrp) && !HasUpper(hrp) && Printable(c) && !HasUpper(c)
    ensures var t := hrp + [49] + c; Printable(t) && !HasUpper(t) && Lowered(t) == t
  {
    var t := hrp + [49] + c;
    forall i | 0 <= i < |t| ensures 33 <= t[i] <= 126 && !(65 <= t[i] <= 90) {
      if i < |hrp| {
        assert t[i] == hrp[i];
      } else if i > |hrp| {
        assert t[i] == c[i - |hrp| - 1];
      }
    }
  }

  lemma {:induction false} PayloadSize(hrp: Bytes, data: Bytes, spec: Spec)
    ensures |Payload(hrp, data, spec)| >= 6
  {
  }

  lemma {:induction false} OpensPayload(hrp: Bytes, data: Bytes, spec: Spec)
    ensures |Payload(hrp, data, spec)| >= 6
    ensures Opened(hrp, Payload(hrp, data, spec)) == Decoded(hrp, data, spec)
  {
    hide Padded, Checksum, Verified, Exact;
    P2Byte(8);
    P2Byte(5);
    var values := Padded(data, 8, 5);
    var v := Payload(hrp, data, spec);
    ChecksumVerifies(hrp, values, spec);
    assert v[..|v| - 6] == values;
    ConvertBitsInverse(data);
  }

  /** The bits after the last whole byte are fewer than a symbol, and zero. */
  predicate CleanPadding(v: Bytes) {
    var spare := |v| * 5 % 8;
    spare < 5 && (v == [] || v[|v| - 1] % P2(spare) == 0)
  }

  /** A text that decodes is the encoding of what it decodes to, letter case aside, exactly
      when its padding is clean; otherwise it decodes to no data although it holds some. */
  lemma {:induction false} EncodeDecode(t: Bytes)
    requires Meaning(t).Decoded?
    ensures var r := Meaning(t);
            && (Encoded(r.hrp, r.data, r.spec) == Lowered(t) <==> CleanPadding(DataSymbols(t)))
            && (!CleanPadding(DataSymbols(t)) ==> r.data == [] && DataSymbols(t) != [])
  {
    hide Opened, Payload, Reverse, Chars, CleanPadding, Lower;
    var lower := Lowered(t);
    var p := LastOne(lower);
    var part := lower[p + 1..];
    var v := SymbolsOf(t);
    var r := Meaning(t);
    OnlyPayload(HrpOf(t), v);
    assert lower == r.hrp + [49] + part;
    LoweredTwice(t);
    CharsBack(lower, p);
    if Encoded(r.hrp, r.data, r.spec) == lower {
      EncodedTail(r.hrp, r.data, r.spec, part);
    }
  }

  lemma {:induction false} LoweredTwice(t: Bytes)
    ensures forall i :: 0 <= i < |t| ==> Lower(Lowered(t)[i]) == Lowered(t)[i]
  {
  }

  lemma {:induction false} EncodedTail(hrp: Bytes, data: Bytes, spec: Spec, part: Bytes)
    requires Encoded(hrp, data, spec) == hrp + [49] + part
    ensures Written(part) && Symbols32(part) == Payload(hrp, data, spec)
  {
    hide Payload, Chars, Symbols32, Written;
    var v := Payload(hrp, data, spec);
    PayloadChars(v);
    assert (hrp + [49] + part)[|hrp| + 1..] == part;
    assert (hrp + [49] + Chars(v))[|hrp| + 1..] == Chars(v);
  }

  lemma {:induction false} CharsBack(lower: Bytes, p: int)
    requires 0 <= p < |lower| && Written(lower[p + 1..]) && forall i :: 0 <= i < |lower| ==> Lower(lower[i]) == lower[i]
    ensures Chars(Symbols32(lower[p + 1..])) == lower[p + 1..]
  {
    hide Char, Reverse, Lower;
    var part := lower[p + 1..];
    forall i | 0 <= i < |part| ensures Chars(Symbols32(part))[i] == part[i] {
      CharReverse(part[i]);
      assert part[i] == lower[p + 1 + i];
    }
  }

  /** Exactly which texts decode: printable, in one letter case, and in lower case a nonempty
      human-readable part, "1", and characters of symbols whose last six check; and as what. */
  lemma {:induction false} DecodesIff(t: Bytes)
    ensures Meaning(t).Decoded? <==>
              && (forall i :: 0 <= i < |t| ==> 33 <= t[i] <= 126)
              && !((exists i :: 0 <= i < |t| && 97 <= t[i] <= 122) && (exists i :: 0 <= i < |t| && 65 <= t[i] <= 90))
              && exists hrp, v :: Reads(t, hrp, v) && Verified(hrp, v).Some?
    ensures forall hrp, v :: Meaning(t).Decoded? && Reads(t, hrp, v) ==> Meaning(t) == Opened(hrp, v)
  {
    hide Verified, Converted, LastOne, Lower, Chars, Char, Reverse;
    if Meaning(t).Decoded? {
      ShapedReads(t);
      assert Reads(t, HrpOf(t), SymbolsOf(t)) && Verified(HrpOf(t), SymbolsOf(t)).Some?;
    }
    forall hrp, v | Reads(t, hrp, v)
      ensures Printable(t) && !(HasLower(t) && HasUpper(t)) ==> Shaped(t) && HrpOf(t) == hrp && SymbolsOf(t) == v
    {
      if Printable(t) && !(HasLower(t) && HasUpper(t)) {
        ReadsShaped(t, hrp, v);
      }
    }
  }

  /** In lower case the text is `hrp`, "1" and the characters of `v`. */
  predicate Reads(t: Bytes, hrp: Bytes, v: Bytes) {
    hrp != [] && |v| >= 6 && Below(v, 32) && Lowered(t) == hrp + [49] + Chars(v)
  }

  lemma {:induction false} ShapedReads(t: Bytes)
    requires Shaped(t)
    ensures Reads(t, HrpOf(t), SymbolsOf(t))
  {
    hide Chars, Lower, LastOne, Reverse;
    var lower := Lowered(t);
    var p := LastOne(lower);
    LoweredTwice(t);
    CharsBack(lower, p);
    assert lower == lower[..p] + [lower[p]] + lower[p + 1..];
  }

  lemma {:induction false} ReadsShaped(t: Bytes, hrp: Bytes, v: Bytes)
    requires Reads(t, hrp, v) && Printable(t) && !(HasLower(t) && HasUpper(t))
    ensures Shaped(t) && HrpOf(t) == hrp && SymbolsOf(t) == v
  {
    hide Chars, Lower, LastOne, Reverse, Symbols32, Written;
    var lower := Lowered(t);
    PayloadChars(v);
    forall i | |hrp| < i < |lower| ensures lower[i] != 49 {
      assert lower[i] == Chars(v)[i - |hrp| - 1];
    }
    LastOneAt(lower, |hrp|);
    assert lower[|hrp| + 1..] == Chars(v) && lower[..|hrp|] == hrp;
  }

  /** Symbols that open are the payload of what they open to exactly when their padding is clean. */
  lemma {:induction false} OnlyPayload(hrp: Bytes, v: Bytes)
    requires |v| >= 6 && Below(v, 32) && Opened(hrp, v).Decoded?
    ensures var r := Opened(hrp, v);
            var values := v[..|v| - 6];
            && r.hrp == hrp
            && (v == Payload(hrp, r.data, r.spec) <==> CleanPadding(values))
            && (!CleanPadding(values) ==> r.data == [] && values != [])
  {
    hide Verified, Converted, Checksum, Padded, CleanPadding;
    var r := Opened(hrp, v);
    var values, c := v[..|v| - 6], v[|v| - 6..];
    assert v == values + c;
    OnlyChecksum(hrp, values, c, r.spec);
    OnlyValues(values);
    assert Payload(hrp, r.data, r.spec)[..|Padded(r.data, 8, 5)|] == Padded(r.data, 8, 5);
    if v == Payload(hrp, r.data, r.spec) {
      assert |Payload(hrp, r.data, r.spec)| == |Padded(r.data, 8, 5)| + 6;
    }
  }

  /** Regrouping to bytes and back gives the symbols exactly when their padding is clean. */
  lemma {:induction false} OnlyValues(values: Bytes)
    requires Below(values, 32)
    ensures var data := Converted(values, 5, 8, false);
            && (Padded(data, 8, 5) == values <==> CleanPadding(values))
            && (!CleanPadding(values) ==> data == [] && values != [])
  {
    hide Exact, Padded;
    P2Byte(5);
    CleanExact(values);
    if CleanPadding(values) {
      PaddedExact(values, 5, 8);
    } else {
      PaddedNone();
    }
  }

  lemma {:induction false} PaddedNone()
    ensures Padded([], 8, 5) == []
  {
    assert Symbols(0, 8, 5) == 0;
  }

  /** Clean padding is what the regrouping tests. */
  lemma {:induction false} CleanExact(v: Bytes)
    requires Below(v, 32)
    ensures CleanPadding(v) <==> |v| * 5 % 8 < 5 && Exact(v, 5, 8).Some?
    ensures v == [] ==> CleanPadding(v)
  {
    hide P2, Fixed, Above, Value;
    var spare := |v| * 5 % 8;
    P2Byte(5);
    P2Byte(0);
    if v == [] {
      ValueEmpty(v, 32);
    } else if spare < 5 {
      var last: nat := v[|v| - 1];
      ValueLast(v);
      LowFewer(Value(v, 32), last, 5, spare);
    }
  }

  lemma {:induction false} ValueLast(v: Bytes)
    requires v != [] && Below(v, 32)
    ensures Low(Value(v, 32), v[|v| - 1], 5)
  {
    hide P2;
    P2Byte(5);
    var last: nat := v[|v| - 1];
    DivMod(Value(v[..|v| - 1], 32), 32, last);
  }

  /** A symbol too many is not noticed: after any human-readable part, a single zero symbol
      with its checksum opens as the text without it does. */
  lemma {:induction false} PaddingIgnored(hrp: Bytes, spec: Spec)
    requires GoodHrp(hrp)
    ensures var t := hrp + [49] + Chars([0] + Checksum(hrp, [0], spec));
            && Meaning(t) == Meaning(Encoded(hrp, [], spec)) == Decoded(hrp, [], spec)
            && t != Encoded(hrp, [], spec) && Lowered(t) == t
  {
    hide Meaning, Opened, Encoded, Chars, Checksum;
    var v := [0] + Checksum(hrp, [0], spec);
    ChecksumBelow(hrp, [0], spec);
    Recovers(hrp, [], spec);
    ReadsSymbols(hrp, v);
    ExtraZero(hrp, spec);
    PayloadChars(v);
    Located(hrp, Chars(v));
    EmptySize(hrp, spec);
  }

  lemma {:induction false} ExtraZero(hrp: Bytes, spec: Spec)
    ensures Opened(hrp, [0] + Checksum(hrp, [0], spec)) == Decoded(hrp, [], spec)
  {
    hide Verified, Checksum, Exact;
    var v := [0] + Checksum(hrp, [0], spec);
    ChecksumVerifies(hrp, [0], spec);
    assert v[..|v| - 6] == [0];
  }

  lemma {:induction false} EmptySize(hrp: Bytes, spec: Spec)
    ensures |Encoded(hrp, [], spec)| == |hrp| + 7
  {
    hide Checksum;
    PaddedNone();
  }

  lemma {:induction false} OnlyChecksum(hrp: Bytes, values: Bytes, c: Bytes, spec: Spec)
    requires |c| == 6 && Below(c, 32) && Verified(hrp, values + c) == Some(spec)
    ensures c == Checksum(hrp, values, spec)
  {
    hide Verified, Checksum;
    var k := Checksum(hrp, values, spec);
    ChecksumVerifies(hrp, values, spec);
    if c != k {
      ChecksumBelow(hrp, values, spec);
      assert values + k + [] == values + k && values + c + [] == values + c;
      CorruptionDetected(hrp, values, k, c, []);
    }
  }

  lemma {:induction false} ChecksumBelow(hrp: Bytes, values: Bytes, spec: Spec)
    ensures Below(Checksum(hrp, values, spec), 32)
  {
  }
}
