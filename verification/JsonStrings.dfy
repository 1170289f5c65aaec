/** What the reader takes for a string: exactly the pieces of the grammar, with the scalars they stand for. */
module JsonStrings {
  import opened Prelude
  import opened KeyOrder
  import Regroup
  import Utf8
  import opened Decimals
  import opened Json
  import opened JsonWriter
  import opened JsonReader
  import opened JsonGrammar

  // ---- escapes ----

  lemma {:induction false} NibbleIff(b: Byte, n: nat)
    requires n < 16
    ensures HexNibble(b) == n <==> Lower(b) == HexDigit(n)
  {
  }

  /** Four digits at `p` read as the code unit they write, and as no other. */
  lemma {:induction false} HexIff(s: Bytes, p: nat, u: int)
    ensures HexUnit(s, p) == Some(u) <==> p + 4 <= |s| && HexOf(s[p..p + 4], u)
  {
    hide HexNibble, Lower, HexDigit;
    if p + 4 <= |s| && 0 <= u < 0x1_0000 {
      NibbleIff(s[p], u / 4096);
      NibbleIff(s[p + 1], u / 256 % 16);
      NibbleIff(s[p + 2], u / 16 % 16);
      NibbleIff(s[p + 3], u % 16);
      Nibbles(u);
    }
  }

  lemma {:induction false} Nibbles(u: nat)
    requires u < 0x1_0000
    ensures ((u / 4096 * 16 + u / 256 % 16) * 16 + u / 16 % 16) * 16 + u % 16 == u
  {
    Regroup.DivDiv(u, 16, 16);
    Regroup.DivDiv(u, 256, 16);
    assert u == 16 * (u / 16) + u % 16;
    assert u / 16 == 16 * (u / 256) + u / 16 % 16;
    assert u / 256 == 16 * (u / 4096) + u / 256 % 16;
  }

  /** The hexadecimal digits at `p`, and after a second backslash and u, write the code units of `x`. */
  predicate UnitsAt(s: Bytes, p: nat, x: Utf8.Scalar) {
    var units := Utf8.Units(x);
    && p + 4 <= |s| && HexOf(s[p..p + 4], units[0])
    && (|units| == 2 ==>
          p + 10 <= |s| && s[p + 4] == BACKSLASH && s[p + 5] == 0x75 && HexOf(s[p + 6..p + 10], units[1]))
  }

  function EscapeSize(x: Utf8.Scalar): nat { if |Utf8.Units(x)| == 1 then 4 else 10 }

  /** An escape is read as a scalar exactly when it writes the code units of that scalar and the
      scalar is permitted: a pair of surrogates for one beyond the basic plane, and never half of one. */
  lemma {:induction false} EscapeIff(s: Bytes, p: nat, x: Utf8.Scalar)
    ensures UnicodeEscape(s, p) == Emit(Utf8.Encode(x), p + EscapeSize(x)) <==> !Utf8.IsNoncharacter(x) && UnitsAt(s, p, x)
  {
    hide HexUnit, HexOf, Utf8.Encode, Utf8.IsNoncharacter;
    var units := Utf8.Units(x);
    HexIff(s, p, units[0]);
    if |units| == 2 {
      HexIff(s, p + 6, units[1]);
      Surrogates(x);
    }
    if UnicodeEscape(s, p) == Emit(Utf8.Encode(x), p + EscapeSize(x)) {
      var y := EscapedScalar(s, p);
      Utf8.EncodeInjective(x, y);
    }
  }

  lemma {:induction false} Surrogates(x: Utf8.Scalar)
    requires x > 0xffff
    ensures HighSurrogate(Utf8.Units(x)[0]) && LowSurrogate(Utf8.Units(x)[1])
    ensures 0x1_0000 + (Utf8.Units(x)[0] - 0xd800) * 1024 + (Utf8.Units(x)[1] - 0xdc00) == x
  {
  }

  lemma {:induction false} SurrogatesBack(u: nat, low: nat)
    requires HighSurrogate(u) && LowSurrogate(low)
    ensures var x: Utf8.Scalar := 0x1_0000 + (u - 0xd800) * 1024 + (low - 0xdc00);
            x > 0xffff && Utf8.Units(x) == [u, low]
  {
  }

  /** The scalar an accepted escape stands for. */
  lemma {:induction false} EscapedScalar(s: Bytes, p: nat) returns (x: Utf8.Scalar)
    requires UnicodeEscape(s, p).Emit?
    ensures !Utf8.IsNoncharacter(x) && UnicodeEscape(s, p) == Emit(Utf8.Encode(x), p + EscapeSize(x))
    ensures HexUnit(s, p) == Some(Utf8.Units(x)[0])
    ensures |Utf8.Units(x)| == 2 ==>
              p + 10 <= |s| && s[p + 4] == BACKSLASH && s[p + 5] == 0x75 && HexUnit(s, p + 6) == Some(Utf8.Units(x)[1])
  {
    hide HexUnit, Utf8.Encode, Utf8.IsNoncharacter;
    var u := HexUnit(s, p).value;
    if HighSurrogate(u) {
      var low := HexUnit(s, p + 6).value;
      SurrogatesBack(u, low);
      x := 0x1_0000 + (u - 0xd800) * 1024 + (low - 0xdc00);
    } else {
      x := u;
    }
  }

  // ---- one step of a string ----

  lemma {:induction false} UnicodePiece(s: Bytes, p: nat, x: Utf8.Scalar, hex: seq<Bytes>)
    requires ValidPiece(Unicode(x, hex)) && Occurs(s, p, UnitsText(hex))
    ensures |UnitsText(hex)| == EscapeSize(x) + 2 && At(s, p, BACKSLASH) && At(s, p + 1, 0x75) && UnitsAt(s, p + 2, x)
  {
    hide HexOf, Occurs, UnitsText;
    var prefix := [BACKSLASH, 0x75];
    HexLength(hex[0], Utf8.Units(x)[0]);
    if |hex| == 1 {
      assert hex == [hex[0]];
      OneUnit(hex[0]);
      OccursSplit(s, p, prefix, hex[0]);
    } else {
      assert hex == [hex[0], hex[1]];
      TwoUnits(hex[0], hex[1]);
      HexLength(hex[1], Utf8.Units(x)[1]);
      OccursSplit(s, p, prefix, hex[0] + (prefix + hex[1]));
      OccursSplit(s, p + 2, hex[0], prefix + hex[1]);
      OccursSplit(s, p + 6, prefix, hex[1]);
      OccursAt(s, p + 6, prefix, 0);
      OccursAt(s, p + 6, prefix, 1);
      OccursIs(s, p + 8, hex[1]);
    }
    OccursAt(s, p, prefix, 0);
    OccursAt(s, p, prefix, 1);
    OccursIs(s, p + 2, hex[0]);
  }

  lemma {:induction false} HexLength(h: Bytes, u: int)
    requires HexOf(h, u)
    ensures |h| == 4
  {
  }

  lemma {:induction false} OccursIs(s: Bytes, p: nat, t: Bytes)
    ensures Occurs(s, p, t) <==> p + |t| <= |s| && s[p..p + |t|] == t
  {
  }

  lemma {:induction false} RawStep(s: Bytes, p: nat, x: Utf8.Scalar)
    requires ValidPiece(Raw(x)) && Occurs(s, p, Utf8.Encode(x))
    ensures p < |s| && StepAt(s, p) == Emit(Utf8.Encode(x), p + |Utf8.Encode(x)|)
  {
    var e := Utf8.Encode(x);
    OccursAt(s, p, e, 0);
    if |e| > 1 {
      assert s[p..] == e + s[p + |e|..];
      Utf8.DecodeEncode(x, s[p + |e|..]);
    }
  }

  /** A valid piece is read in one step as the bytes of its scalar. */
  lemma {:induction false} PieceStep(s: Bytes, p: nat, piece: Piece)
    requires ValidPiece(piece) && Occurs(s, p, PieceText(piece))
    ensures p < |s| && StepAt(s, p) == Emit(Utf8.Encode(PieceScalar(piece)), p + |PieceText(piece)|)
  {
    hide Utf8.Encode, Occurs, LetterValue, StepAt, UnitsText, HexOf, Utf8.IsNoncharacter;
    match piece {
      case Raw(x) => RawStep(s, p, x);
      case Letter(b) => LetterRead(s, p, b);
      case Unicode(x, hex) => UnicodeRead(s, p, x, hex);
    }
  }

  lemma {:induction false} UnicodeRead(s: Bytes, p: nat, x: Utf8.Scalar, hex: seq<Bytes>)
    requires ValidPiece(Unicode(x, hex)) && Occurs(s, p, UnitsText(hex))
    ensures p < |s| && StepAt(s, p) == Emit(Utf8.Encode(x), p + |UnitsText(hex)|)
  {
    hide Utf8.Encode, Occurs, UnitsAt, UnitsText, HexOf, UnicodeEscape, EscapeSize, StepAt, ValidPiece;
    UnicodePiece(s, p, x, hex);
    EscapeIff(s, p + 2, x);
    UnicodeValid(x, hex);
    StepToEscape(s, p);
  }

  lemma {:induction false} UnicodeValid(x: Utf8.Scalar, hex: seq<Bytes>)
    requires ValidPiece(Unicode(x, hex))
    ensures !Utf8.IsNoncharacter(x)
  {
  }

  lemma {:induction false} StepToEscape(s: Bytes, p: nat)
    requires At(s, p, BACKSLASH) && At(s, p + 1, 0x75)
    ensures StepAt(s, p) == UnicodeEscape(s, p + 2)
  {
    hide UnicodeEscape;
  }

  lemma {:induction false} LetterRead(s: Bytes, p: nat, b: Byte)
    requires IsLetter(b) && Occurs(s, p, [BACKSLASH, b])
    ensures p < |s| && StepAt(s, p) == Emit(Utf8.Encode(LetterValue(b)), p + 2)
  {
    hide UnicodeEscape;
    OccursAt(s, p, [BACKSLASH, b], 0);
    OccursAt(s, p, [BACKSLASH, b], 1);
  }

  lemma {:induction false} UnicodeStep(s: Bytes, p: nat) returns (piece: Piece)
    requires p + 2 <= |s| && s[p] == BACKSLASH && s[p + 1] == 0x75 && UnicodeEscape(s, p + 2).Emit?
    ensures ValidPiece(piece) && Occurs(s, p, PieceText(piece))
    ensures UnicodeEscape(s, p + 2) == Emit(Utf8.Encode(PieceScalar(piece)), p + |PieceText(piece)|)
  {
    hide Utf8.Encode, HexOf, UnicodeEscape, HexUnit;
    var x := EscapedScalar(s, p + 2);
    EscapeIff(s, p + 2, x);
    var first := s[p + 2..p + 6];
    OneUnit(first);
    if |Utf8.Units(x)| == 1 {
      piece := Unicode(x, [first]);
    } else {
      var second := s[p + 8..p + 12];
      piece := Unicode(x, [first, second]);
      TwoUnits(first, second);
      assert s[p..p + 12] == [BACKSLASH, 0x75] + (first + ([BACKSLASH, 0x75] + second));
    }
  }

  lemma {:induction false} OneUnit(h: Bytes)
    ensures UnitsText([h]) == [BACKSLASH, 0x75] + h
  {
    var hex := [h];
    assert hex[1..] == [] && UnitsText([]) == [];
  }

  lemma {:induction false} TwoUnits(g: Bytes, h: Bytes)
    ensures UnitsText([g, h]) == [BACKSLASH, 0x75] + (g + ([BACKSLASH, 0x75] + h))
  {
    var hex := [g, h];
    assert hex[1..] == [h];
    OneUnit(h);
  }

  lemma {:induction false} LetterStep(s: Bytes, p: nat) returns (piece: Piece)
    requires p + 1 < |s| && s[p] == BACKSLASH && s[p + 1] != 0x75 && EscapeStep(s, p + 1).Emit?
    ensures ValidPiece(piece) && Occurs(s, p, PieceText(piece))
    ensures EscapeStep(s, p + 1) == Emit(Utf8.Encode(PieceScalar(piece)), p + |PieceText(piece)|)
  {
    hide UnicodeEscape;
    piece := Letter(s[p + 1]);
    assert s[p..p + 2] == [s[p], s[p + 1]];
  }

  lemma {:induction false} WideStep(s: Bytes, p: nat) returns (piece: Piece)
    requires p < |s| && s[p] >= 0x80 && StepAt(s, p).Emit?
    ensures ValidPiece(piece) && Occurs(s, p, PieceText(piece))
    ensures StepAt(s, p) == Emit(Utf8.Encode(PieceScalar(piece)), p + |PieceText(piece)|)
  {
    hide Utf8.DecodeFront, EscapeStep;
    var x := Utf8.DecodeFront(s[p..]).scalar;
    Utf8.DecodeFrontIsPrefix(s[p..]);
    piece := Raw(x);
    var n := |Utf8.Encode(x)|;
    assert s[p..][..n] == s[p..p + n];
    assert Utf8.Encode(x)[0] == s[p];
  }

  /** What is read in one step is a valid piece. */
  lemma {:induction false} StepIsPiece(s: Bytes, p: nat) returns (piece: Piece)
    requires p < |s| && StepAt(s, p).Emit?
    ensures ValidPiece(piece) && Occurs(s, p, PieceText(piece))
    ensures StepAt(s, p) == Emit(Utf8.Encode(PieceScalar(piece)), p + |PieceText(piece)|)
  {
    hide UnicodeEscape, ValidPiece, PieceText, PieceScalar, Utf8.Encode, Utf8.DecodeFront, Occurs;
    var b := s[p];
    if b == BACKSLASH {
      if s[p + 1] == 0x75 {
        piece := UnicodeStep(s, p);
      } else {
        piece := LetterStep(s, p);
      }
    } else if b < 0x80 {
      piece := PlainStep(s, p);
    } else {
      piece := WideStep(s, p);
    }
  }

  lemma {:induction false} PlainStep(s: Bytes, p: nat) returns (piece: Piece)
    requires p < |s| && 0x20 <= s[p] < 0x80 && s[p] != QUOTE && s[p] != BACKSLASH
    ensures ValidPiece(piece) && Occurs(s, p, PieceText(piece))
    ensures Utf8.Encode(PieceScalar(piece)) == [s[p]] && |PieceText(piece)| == 1
  {
    piece := Raw(s[p]);
    assert s[p..p + 1] == [s[p]];
  }

  // ---- whole strings ----

  lemma {:induction false} FirstPiece(ps: seq<Piece>)
    requires ps != []
    ensures PiecesText(ps) == PieceText(ps[0]) + PiecesText(ps[1..])
    ensures PiecesValue(ps) == Utf8.Encode(PieceScalar(ps[0])) + PiecesValue(ps[1..])
    ensures ValidPieces(ps) ==> ValidPiece(ps[0]) && ValidPieces(ps[1..])
  {
    hide ValidPiece, PieceText, PieceScalar, Utf8.Encode;
  }

  /** One turn of the string loop. */
  lemma {:induction false} BodyTurn(limits: Limits, s: Bytes, p: nat, text: Bytes, bytes: Bytes, next: nat)
    requires p < |s| && StepAt(s, p) == Emit(bytes, next)
    ensures next <= |s| && ReadBody(limits, s, p, text) ==
              if |text + bytes| > limits.maxStringBytes then BadString(StringLimit) else ReadBody(limits, s, next, text + bytes)
  {
    hide StepAt;
  }

  /** Pieces up to the closing quote are read as their string, unless it is longer than permitted. */
  lemma {:induction false} PiecesRead(limits: Limits, s: Bytes, p: nat, ps: seq<Piece>, text: Bytes)
    requires ValidPieces(ps) && Occurs(s, p, PiecesText(ps)) && At(s, p + |PiecesText(ps)|, QUOTE)
    ensures p <= |s| && ReadBody(limits, s, p, text) ==
              if |text| + |PiecesValue(ps)| <= limits.maxStringBytes
              then Ended(text + PiecesValue(ps), p + |PiecesText(ps)| + 1) else BadString(StringLimit)
    decreases |ps|
  {
    hide StepAt, ValidPiece, ValidPieces, PiecesText, PiecesValue, Utf8.Encode, PieceText, PieceScalar, Occurs, ReadBody;
    if ps == [] {
      NoPieces();
      BodyEnds(limits, s, p, text);
    } else {
      var bytes, rest := Utf8.Encode(PieceScalar(ps[0])), PiecesValue(ps[1..]);
      var next := p + |PieceText(ps[0])|;
      FirstPiece(ps);
      OccursSplit(s, p, PieceText(ps[0]), PiecesText(ps[1..]));
      PieceStep(s, p, ps[0]);
      BodyTurn(limits, s, p, text, bytes, next);
      PiecesRead(limits, s, next, ps[1..], text + bytes);
      Grouped(text, bytes, rest);
    }
  }

  lemma {:induction false} NoPieces()
    ensures PiecesText([]) == [] && PiecesValue([]) == []
  {
  }

  lemma {:induction false} Grouped(a: Bytes, b: Bytes, c: Bytes)
    ensures a + b + c == a + (b + c)
  {
  }

  lemma {:induction false} BodyEnds(limits: Limits, s: Bytes, p: nat, text: Bytes)
    requires At(s, p, QUOTE)
    ensures ReadBody(limits, s, p, text) ==
              if |text| <= limits.maxStringBytes then Ended(text + [], p + 1) else BadString(StringLimit)
  {
    hide StepAt;
    CloseStep(s, p);
    assert text + [] == text;
  }

  lemma {:induction false} CloseStep(s: Bytes, p: nat)
    requires At(s, p, QUOTE)
    ensures StepAt(s, p) == Close
  {
  }

  lemma {:induction false} OnlyClose(s: Bytes, p: nat)
    requires p < |s| && StepAt(s, p) == Close
    ensures s[p] == QUOTE
  {
  }

  /** A string that is read to its end is made of pieces. */
  lemma {:induction false} BodyIsPieces(limits: Limits, s: Bytes, p: nat, text: Bytes) returns (ps: seq<Piece>)
    requires p <= |s| && ReadBody(limits, s, p, text).Ended?
    ensures ValidPieces(ps) && Occurs(s, p, PiecesText(ps)) && At(s, p + |PiecesText(ps)|, QUOTE)
    decreases |s| - p
  {
    hide StepAt, ValidPiece, Utf8.Encode, PieceText, PieceScalar, Occurs;
    var step := StepAt(s, p);
    if step.Close? {
      ps := [];
      OnlyClose(s, p);
      OccursIs(s, p, []);
    } else {
      var piece := StepIsPiece(s, p);
      var more := BodyIsPieces(limits, s, step.next, text + step.bytes);
      ps := [piece] + more;
      assert ps[1..] == more;
      OccursSplit(s, p, PieceText(piece), PiecesText(more));
    }
  }

  /** The reader accepts exactly the quoted strings of the grammar, as the strings they stand for,
      up to the length permitted. */
  lemma {:induction false} StringIff(limits: Limits, s: Bytes, p: nat, text: Bytes, end: nat)
    requires p <= |s|
    ensures ReadString(limits, s, p) == Ended(text, end) <==>
              |text| <= limits.maxStringBytes
              && exists ps :: ValidPieces(ps) && Occurs(s, p, Quoted(ps)) && end == p + |Quoted(ps)| && text == PiecesValue(ps)
  {
    hide Occurs, PiecesText, PiecesValue, ValidPieces;
    if ReadString(limits, s, p) == Ended(text, end) {
      var ps := ReadIsQuoted(limits, s, p);
    }
    if |text| <= limits.maxStringBytes {
      if ps :| ValidPieces(ps) && Occurs(s, p, Quoted(ps)) && end == p + |Quoted(ps)| && text == PiecesValue(ps) {
        QuotedReads(limits, s, p, ps);
      }
    }
  }

  /** A quoted string of the grammar is read to its end, or refused for its length alone. */
  lemma {:induction false} QuotedReads(limits: Limits, s: Bytes, p: nat, ps: seq<Piece>)
    requires ValidPieces(ps) && Occurs(s, p, Quoted(ps))
    ensures At(s, p, QUOTE) && p + |Quoted(ps)| <= |s|
    ensures ReadString(limits, s, p) ==
              if |PiecesValue(ps)| <= limits.maxStringBytes then Ended(PiecesValue(ps), p + |Quoted(ps)|) else BadString(StringLimit)
  {
    hide PiecesText, PiecesValue, ValidPieces, ReadBody;
    OccursSplit(s, p, [QUOTE], PiecesText(ps) + [QUOTE]);
    OccursSplit(s, p + 1, PiecesText(ps), [QUOTE]);
    OccursAt(s, p, [QUOTE], 0);
    OccursAt(s, p + 1 + |PiecesText(ps)|, [QUOTE], 0);
    PiecesRead(limits, s, p + 1, ps, []);
    assert [] + PiecesValue(ps) == PiecesValue(ps);
  }

  lemma {:induction false} ReadIsQuoted(limits: Limits, s: Bytes, p: nat) returns (ps: seq<Piece>)
    requires p <= |s| && ReadString(limits, s, p).Ended?
    ensures ValidPieces(ps) && Occurs(s, p, Quoted(ps)) && |PiecesValue(ps)| <= limits.maxStringBytes
    ensures ReadString(limits, s, p) == Ended(PiecesValue(ps), p + |Quoted(ps)|)
  {
    hide PiecesText, PiecesValue, ValidPieces, ReadBody;
    ps := BodyIsPieces(limits, s, p + 1, []);
    var text := PiecesText(ps);
    OccursIs(s, p + 1 + |text|, [QUOTE]);
    OccursSplit(s, p + 1, text, [QUOTE]);
    OccursIs(s, p, [QUOTE]);
    OccursSplit(s, p, [QUOTE], text + [QUOTE]);
    QuotedReads(limits, s, p, ps);
  }
}
