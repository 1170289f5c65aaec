/** Canonical text is in the grammar: the tree of a value, and reading it back. */
module JsonRoundTrip {
  import opened Prelude
  import opened KeyOrder
  import Utf8
  import opened Decimals
  import opened Json
  import opened JsonReader
  import opened JsonGrammar
  import opened JsonStrings
  import opened JsonLanguage

  // ---- the canonical form is a fixed point ----

  lemma {:induction false} CanonKeeps(lib: FloatLibrary, limits: Limits, v: Value)
    requires Clean(limits, v)
    ensures Text(lib, Canon(v)) == Text(lib, v) && Tokens(Canon(v)) == Tokens(v) && Depth(Canon(v)) == Depth(v)
    ensures Clean(limits, Canon(v))
    decreases Tokens(v), 0, 0
  {
    match v {
      case Array(items) =>
        hide ItemsText, CleanAll, TokensAll, DepthAll, CanonAll;
        CanonAllKeeps(lib, limits, items, true);
      case Object(members) =>
        CanonObjectKeeps(lib, limits, members);
      case _ =>
    }
  }

  lemma {:induction false} CanonAllKeeps(lib: FloatLibrary, limits: Limits, vs: seq<Value>, first: bool)
    requires CleanAll(limits, vs)
    ensures ItemsText(lib, CanonAll(vs), first) == ItemsText(lib, vs, first)
    ensures TokensAll(CanonAll(vs)) == TokensAll(vs) && DepthAll(CanonAll(vs)) == DepthAll(vs)
    ensures CleanAll(limits, CanonAll(vs))
    decreases TokensAll(vs), 1, |vs|
  {
    hide Text, Clean, Tokens, Depth, Canon;
    if vs != [] {
      CanonKeeps(lib, limits, vs[0]);
      CanonAllKeeps(lib, limits, vs[1..], false);
      assert CanonAll(vs)[1..] == CanonAll(vs[1..]);
    }
  }

  lemma {:induction false} CanonMembersKeep(lib: FloatLibrary, limits: Limits, ms: seq<Member<Value>>)
    requires CleanMembers(limits, ms)
    ensures MemberTexts(lib, CanonMembers(ms)) == MemberTexts(lib, ms)
    ensures TokensMembers(CanonMembers(ms)) == TokensMembers(ms) && DepthMembers(CanonMembers(ms)) == DepthMembers(ms)
    ensures CleanMembers(limits, CanonMembers(ms))
    decreases TokensMembers(ms), 1, |ms|
  {
    hide Text, Clean, Tokens, Depth, Canon, CleanString;
    if ms != [] {
      CanonKeeps(lib, limits, ms[0].value);
      CanonMembersKeep(lib, limits, ms[1..]);
      assert CanonMembers(ms)[1..] == CanonMembers(ms[1..]);
    }
  }

  lemma {:induction false} CanonObjectKeeps(lib: FloatLibrary, limits: Limits, members: seq<Member<Value>>)
    requires DistinctKeys(members) && CleanMembers(limits, members)
    ensures var c := Object(Sort(CanonMembers(members)));
            && Text(lib, c) == Text(lib, Object(members))
            && TokensMembers(c.members) == TokensMembers(members) && DepthMembers(c.members) == DepthMembers(members)
            && DistinctKeys(c.members) && CleanMembers(limits, c.members)
    decreases TokensMembers(members), 2, |members|
  {
    hide CleanMembers, TokensMembers, DepthMembers, MemberTexts, PairsText, Sort, Sorted, CanonMembers;
    var canon := CanonMembers(members);
    CanonMembersKeep(lib, limits, members);
    CleanMembersKeys(limits, canon);
    assert DistinctKeys(canon);
    SortSorts(canon);
    SortMeasures(limits, canon);
    SortCommutes(lib, canon);
    SortIdempotent(Sort(canon));
    SortCommutes(lib, Sort(canon));
  }

  // ---- strings ----

  lemma {:induction false} EscapeConcat(a: Bytes, b: Bytes)
    ensures EscapeAll(a + b) == EscapeAll(a) + EscapeAll(b)
  {
    hide Escape;
    if a == [] {
      assert a + b == b;
    } else {
      assert (a + b)[1..] == a[1..] + b;
      EscapeConcat(a[1..], b);
    }
  }

  /** The bytes of a multi-byte scalar are all outside ASCII, so none is escaped. */
  lemma {:induction false} EscapeRaw(t: Bytes)
    requires forall i :: 0 <= i < |t| ==> t[i] >= 0x80
    ensures EscapeAll(t) == t
  {
    if t != [] {
      EscapeRaw(t[1..]);
      assert Escape(t[0]) == [t[0]];
    }
  }

  lemma {:induction false} MultiByte(x: Utf8.Scalar)
    requires |Utf8.Encode(x)| > 1
    ensures forall i :: 0 <= i < |Utf8.Encode(x)| ==> Utf8.Encode(x)[i] >= 0x80
  {
  }

  lemma {:induction false} LowerHexDigit(n: nat)
    requires n < 16
    ensures Lower(HexDigit(n)) == HexDigit(n)
  {
  }

  /** How the serializer writes one ASCII scalar. */
  lemma {:induction false} AsciiPiece(b: Byte) returns (piece: Piece)
    requires b < 0x80 && Utf8.Encode(b) == [b]
    ensures ValidPiece(piece) && PieceText(piece) == Escape(b) && PieceScalar(piece) == b
  {
    if b == QUOTE || b == BACKSLASH {
      piece := Letter(b);
    } else if b == 0x08 {
      piece := Letter(0x62);
    } else if b == 0x09 {
      piece := Letter(0x74);
    } else if b == 0x0a {
      piece := Letter(0x6e);
    } else if b == 0x0c {
      piece := Letter(0x66);
    } else if b == 0x0d {
      piece := Letter(0x72);
    } else if b < 0x20 {
      piece := ControlPiece(b);
    } else {
      piece := Raw(b);
    }
  }

  lemma {:induction false} ControlPiece(b: Byte) returns (piece: Piece)
    requires b < 0x20
    ensures ValidPiece(piece) && PieceScalar(piece) == b
    ensures PieceText(piece) == [BACKSLASH, 0x75, 0x30, 0x30, HexDigit(b / 16), HexDigit(b % 16)]
  {
    var digits := [0x30, 0x30, HexDigit(b / 16), HexDigit(b % 16)];
    LowerHexDigit(0);
    LowerHexDigit(b / 16);
    LowerHexDigit(b % 16);
    assert HexOf(digits, b);
    piece := Unicode(b, [digits]);
    OneUnit(digits);
  }

  /** The scalar at the front of a permitted string, as the bytes it occupies. */
  lemma {:induction false} FrontScalar(t: Bytes) returns (x: Utf8.Scalar)
    requires Utf8.IJson(t) && t != []
    ensures !Utf8.IsNoncharacter(x) && |Utf8.Encode(x)| <= |t|
    ensures t[..|Utf8.Encode(x)|] == Utf8.Encode(x) && Utf8.IJson(t[|Utf8.Encode(x)|..])
    ensures |Utf8.Encode(x)| == 1 ==> x == t[0] && t[0] < 0x80
    ensures |Utf8.Encode(x)| > 1 ==> x >= 0x80
  {
    Utf8.IJsonFront(t);
    Utf8.DecodeFrontIsPrefix(t);
    x := Utf8.DecodeFront(t).scalar;
    assert t[..|Utf8.Encode(x)|][0] == t[0];
  }

  /** The pieces the serializer writes a string with. */
  lemma {:induction false} CanonicalPieces(t: Bytes) returns (ps: seq<Piece>)
    requires Utf8.IJson(t)
    ensures ValidPieces(ps) && PiecesText(ps) == EscapeAll(t) && PiecesValue(ps) == t
    decreases |t|
  {
    hide Utf8.IJson, Utf8.IsNoncharacter, Utf8.Encode, Escape;
    if t == [] {
      ps := [];
    } else {
      var x := FrontScalar(t);
      var n := |Utf8.Encode(x)|;
      var piece;
      assert t == t[..n] + t[n..];
      EscapeConcat(t[..n], t[n..]);
      if n == 1 {
        piece := AsciiPiece(t[0]);
        assert t[..1] == [t[0]] && EscapeAll([t[0]]) == Escape(t[0]) by { EscapeOne(t[0]); }
      } else {
        piece := Raw(x);
        MultiByte(x);
        EscapeRaw(t[..n]);
      }
      var more := CanonicalPieces(t[n..]);
      ps := [piece] + more;
      assert ps[1..] == more;
    }
  }

  lemma {:induction false} EscapeOne(b: Byte)
    ensures EscapeAll([b]) == Escape(b)
  {
    assert [b][1..] == [];
  }

  // ---- the escapes are the shortest ----

  /** No capital letters among the hexadecimal digits. */
  predicate SmallHex(p: Piece) {
    p.Unicode? ==> forall i, j :: 0 <= i < |p.hex| && 0 <= j < |p.hex[i]| ==> !(0x41 <= p.hex[i][j] <= 0x46)
  }

  predicate AllSmallHex(ps: seq<Piece>) { forall i :: 0 <= i < |ps| ==> SmallHex(ps[i]) }

  /** How the serializer writes one scalar. */
  lemma {:induction false} EscapeSize(x: Utf8.Scalar)
    ensures var n := |EscapeAll(Utf8.Encode(x))|;
            if x == QUOTE || x == BACKSLASH || x == 0x08 || x == 0x09 || x == 0x0a || x == 0x0c || x == 0x0d then n == 2
            else if x < 0x20 then n == 6
            else EscapeAll(Utf8.Encode(x)) == Utf8.Encode(x)
  {
    var e := Utf8.Encode(x);
    if x < 0x80 {
      EscapeOne(x);
    } else {
      MultiByte(x);
      EscapeRaw(e);
    }
  }

  lemma {:induction false} UnitsSize(x: Utf8.Scalar, hex: seq<Bytes>)
    requires ValidPiece(Unicode(x, hex))
    ensures |UnitsText(hex)| == if x <= 0xffff then 6 else 12
  {
    hide HexOf;
    HexLength(hex[0], Utf8.Units(x)[0]);
    if |hex| == 1 {
      assert hex == [hex[0]];
      OneUnit(hex[0]);
    } else {
      HexLength(hex[1], Utf8.Units(x)[1]);
      assert hex == [hex[0], hex[1]];
      TwoUnits(hex[0], hex[1]);
    }
  }

  lemma {:induction false} LetterShort(b: Byte)
    requires IsLetter(b)
    ensures var x, n := LetterValue(b), |EscapeAll(Utf8.Encode(LetterValue(b)))|;
            n <= 2 && (n == 2 ==> EscapeAll(Utf8.Encode(x)) == [BACKSLASH, b])
  {
    EscapeOne(LetterValue(b));
  }

  lemma {:induction false} UnitSmall(x: Utf8.Scalar, hex: seq<Bytes>)
    requires ValidPiece(Unicode(x, hex)) && SmallHex(Unicode(x, hex)) && x < 0x20 && |Escape(x)| == 6
    ensures UnitsText(hex) == Escape(x)
  {
    var h := hex[0];
    assert hex == [h];
    OneUnit(h);
    SmallDigit(h[0], x / 4096);
    SmallDigit(h[1], x / 256 % 16);
    SmallDigit(h[2], x / 16 % 16);
    SmallDigit(h[3], x % 16);
  }

  lemma {:induction false} SmallDigit(b: Byte, n: nat)
    requires n < 16 && Lower(b) == HexDigit(n) && !(0x41 <= b <= 0x46)
    ensures b == HexDigit(n)
  {
  }

  /** No piece that stands for a scalar is shorter than the serializer's; and one as short, without
      capital hexadecimal digits, is the serializer's. */
  lemma {:induction false} PieceShortest(p: Piece)
    requires ValidPiece(p)
    ensures |EscapeAll(Utf8.Encode(PieceScalar(p)))| <= |PieceText(p)|
    ensures |EscapeAll(Utf8.Encode(PieceScalar(p)))| == |PieceText(p)| && SmallHex(p) ==>
              PieceText(p) == EscapeAll(Utf8.Encode(PieceScalar(p)))
  {
    hide EscapeAll, Utf8.Encode, UnitsText, HexOf;
    var x := PieceScalar(p);
    EscapeSize(x);
    match p {
      case Raw(_) =>
      case Letter(b) => LetterShort(b);
      case Unicode(_, hex) =>
        UnitsSize(x, hex);
        if x < 0x20 {
          AsciiScalar(x);
          if |Escape(x)| == 6 && SmallHex(p) {
            UnitSmall(x, hex);
          }
        }
    }
  }

  lemma {:induction false} AsciiScalar(x: Utf8.Scalar)
    requires x < 0x80
    ensures Utf8.Encode(x) == [x] && EscapeAll([x]) == Escape(x)
  {
    EscapeOne(x);
  }

  /** No way of writing a string is shorter than the serializer's, and no other one of its length
      has only small hexadecimal digits. */
  lemma {:induction false} EscapesShortest(ps: seq<Piece>)
    requires ValidPieces(ps)
    ensures |EscapeAll(PiecesValue(ps))| <= |PiecesText(ps)|
    ensures |EscapeAll(PiecesValue(ps))| == |PiecesText(ps)| && AllSmallHex(ps) ==> PiecesText(ps) == EscapeAll(PiecesValue(ps))
  {
    hide EscapeAll, Utf8.Encode, PieceText, PieceScalar, PiecesText, PiecesValue, ValidPiece, SmallHex;
    if ps == [] {
      NoPieces();
      NoEscapes();
    } else {
      FirstPiece(ps);
      PieceShortest(ps[0]);
      EscapesShortest(ps[1..]);
      EscapeConcat(Utf8.Encode(PieceScalar(ps[0])), PiecesValue(ps[1..]));
    }
  }

  lemma {:induction false} NoEscapes()
    ensures EscapeAll([]) == []
  {
  }

  // ---- values ----

  /** The tree of a value's canonical text: without white space, and with its names in order. */
  lemma {:induction false} CanonicalTree(lib: FloatLibrary, limits: Limits, v: Value) returns (t: Tree)
    requires Lawful(lib) && Clean(limits, v)
    ensures ValidTree(t) && TreeText(t) == Text(lib, v) && TreeValue(lib, t) == Canon(v) && Minimal(t)
    decreases Tokens(v), 0, 0
  {
    hide Lawful, Utf8.IJson, EscapeAll, ItemsText, ItemTexts, PairsText, EntryTexts, CleanAll, CleanMembers, CanonAll, CanonMembers, Sort, ValidItems, ValidEntries,
      ItemValues, EntryValues, PiecesText, PiecesValue, ValidPieces, WellFormed, NumeralText, NumeralValue, MemberTexts, DistinctKeys, NumberText, FormatNumber,
      MinimalItems, MinimalEntries, Sorted, ValidKeys, KeyOrder.Before;
    match v {
      case Null => t := NullTree;
      case Boolean(b) => t := BooleanTree(b);
      case Number(n) =>
        NumberTextIs(lib, n);
        var numeral := FormatIsNumeral(lib, n);
        t := NumberTree(numeral);
      case String(s) =>
        var ps := CanonicalPieces(s);
        t := StringTree(ps);
      case Array(items) =>
        var trees := CanonicalItems(lib, limits, items, true);
        t := ArrayTree([], trees);
        assert [] + ItemTexts(trees, true) == ItemTexts(trees, true);
      case Object(members) =>
        SortCommutes(lib, members);
        SortMeasures(limits, members);
        CleanMembersKeys(limits, members);
        SortSorts(members);
        var entries := CanonicalEntries(lib, limits, Sort(members), true);
        t := ObjectTree([], entries);
        NamesInOrder(lib, entries, Sort(members));
        assert [] + EntryTexts(entries, true) == EntryTexts(entries, true);
    }
  }

  lemma {:induction false} NamesInOrder(lib: FloatLibrary, entries: seq<Entry>, ms: seq<Member<Value>>)
    requires Sorted(ms) && EntryValues(lib, entries) == CanonMembers(ms)
    ensures forall i, j :: 0 <= i < j < |entries| ==> KeyOrder.Before(Names(entries)[i], Names(entries)[j])
  {
    hide KeyOrder.Before, EntryValues, CanonMembers;
    assert |entries| == |ms|;
    forall i | 0 <= i < |entries| ensures Names(entries)[i] == ms[i].key {
      EntryName(lib, entries, i);
    }
  }

  lemma {:induction false} EntryName(lib: FloatLibrary, entries: seq<Entry>, i: nat)
    requires i < |entries|
    ensures EntryValues(lib, entries)[i].key == PiecesValue(entries[i].key)
  {
    hide TreeValue, PiecesValue;
    if i > 0 {
      EntryName(lib, entries[1..], i - 1);
    }
  }

  lemma {:induction false} NumberTextIs(lib: FloatLibrary, n: Double)
    requires Lawful(lib) && n.Finite?
    ensures n.magnitude != 0 ==> WellFormedShortest(lib.toChars(n))
    ensures NumberText(lib, n) == FormatNumber(lib, n)
  {
  }

  /** A tree without white space around it. */
  function Bare(t: Tree): Item { Item([], t, []) }

  lemma {:induction false} BareText(t: Tree)
    requires ValidTree(t)
    ensures ItemText(Bare(t)) == TreeText(t) && ValidItem(Bare(t))
  {
    hide TreeText, ValidTree;
  }

  lemma {:induction false} CanonicalItems(lib: FloatLibrary, limits: Limits, vs: seq<Value>, first: bool) returns (items: seq<Item>)
    requires Lawful(lib) && CleanAll(limits, vs)
    ensures |items| == |vs| && ValidItems(items) && ItemTexts(items, first) == ItemsText(lib, vs, first)
    ensures ItemValues(lib, items) == CanonAll(vs) && MinimalItems(items)
    decreases TokensAll(vs), 1, |vs|
  {
    hide Lawful, Text, Clean, Tokens, Canon, TreeText, TreeValue, ValidTree, ItemText, ValidItem, Minimal;
    if vs == [] {
      items := [];
    } else {
      var t := CanonicalTree(lib, limits, vs[0]);
      var more := CanonicalItems(lib, limits, vs[1..], false);
      BareText(t);
      items := [Bare(t)] + more;
      assert items[1..] == more;
    }
  }

  lemma {:induction false} CanonicalEntries(lib: FloatLibrary, limits: Limits, ms: seq<Member<Value>>, first: bool) returns (entries: seq<Entry>)
    requires Lawful(lib) && CleanMembers(limits, ms)
    ensures |entries| == |ms| && ValidEntries(entries) && EntryTexts(entries, first) == PairsText(MemberTexts(lib, ms), first)
    ensures EntryValues(lib, entries) == CanonMembers(ms) && MinimalEntries(entries)
    decreases TokensMembers(ms), 1, |ms|
  {
    hide Lawful, Text, Clean, Tokens, Canon, TreeText, TreeValue, ValidTree, ItemText, ValidItem, EscapeAll, PiecesText, PiecesValue, ValidPieces, Utf8.IJson, Minimal;
    if ms == [] {
      entries := [];
    } else {
      var key := CanonicalPieces(ms[0].key);
      var t := CanonicalTree(lib, limits, ms[0].value);
      var more := CanonicalEntries(lib, limits, ms[1..], false);
      BareText(t);
      var e := Entry([], key, [], Bare(t));
      entries := [e] + more;
      assert entries[1..] == more;
      assert MemberTexts(lib, ms)[0] == Member(ms[0].key, Text(lib, ms[0].value));
      assert MemberTexts(lib, ms)[1..] == MemberTexts(lib, ms[1..]);
      assert EntryText(e) == StringText(ms[0].key) + ([COLON] + Text(lib, ms[0].value));
    }
  }

  // ---- reading back ----

  /** Inside any text canonical text is read back as the canonical value, using the same depth,
      token, string and byte budget. */
  lemma {:induction false} ValueReads(lib: FloatLibrary, limits: Limits, s: Bytes, p: nat, v: Value, tokens: nat, depth: nat)
    requires Lawful(lib) && Clean(limits, v)
    requires depth + Depth(v) <= limits.maxDepth + 1 && tokens + Tokens(v) <= limits.maxTokens
    requires Occurs(s, p, Text(lib, v)) && Delimited(s, p + |Text(lib, v)|)
    ensures p <= |s| && ReadValue(lib, limits, s, p, tokens, depth) == Done(Canon(v), p + |Text(lib, v)|, tokens + Tokens(v))
  {
    hide Lawful, ReadValue, Occurs, Delimited, TreeText, TreeValue, ValidTree, Text, Clean, Tokens, Depth, Canon;
    CanonKeeps(lib, limits, v);
    var t := CanonicalTree(lib, limits, v);
    TreeStarts(t);
    OccursAt(s, p, TreeText(t), 0);
    NoSkip(s, p);
    TreeReads(lib, limits, s, p, t, tokens, depth);
  }
}
