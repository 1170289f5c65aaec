/**
 The grammar of JSON texts (section 2 of RFC 8259), as trees that record every choice a
 writer has: white space, escapes, numerals and member order.  `TreeText` is the text of a
 tree and `TreeValue` the value it stands for.
 */
module JsonGrammar {
  import opened Prelude
  import opened KeyOrder
  import Utf8
  import opened Decimals
  import opened Json

  predicate Blank(b: Bytes) { forall i :: 0 <= i < |b| ==> IsSpace(b[i]) }

  // ---- strings ----

  /** A scalar as itself, by a letter after a backslash, or by the hexadecimal digits of its
      UTF-16 code units. */
  datatype Piece = Raw(x: Utf8.Scalar) | Letter(letter: Byte) | Unicode(x: Utf8.Scalar, hex: seq<Bytes>)

  /** Four hexadecimal digits, of either case, that write `u`. */
  predicate HexOf(h: Bytes, u: int) {
    && |h| == 4 && 0 <= u < 0x1_0000
    && Lower(h[0]) == HexDigit(u / 4096) && Lower(h[1]) == HexDigit(u / 256 % 16)
    && Lower(h[2]) == HexDigit(u / 16 % 16) && Lower(h[3]) == HexDigit(u % 16)
  }

  predicate IsLetter(b: Byte) {
    b == QUOTE || b == BACKSLASH || b == 0x2f || b == 0x62 || b == 0x66 || b == 0x6e || b == 0x72 || b == 0x74
  }

  function LetterValue(b: Byte): Utf8.Scalar {
    if b == 0x62 then 0x08
    else if b == 0x66 then 0x0c
    else if b == 0x6e then 0x0a
    else if b == 0x72 then 0x0d
    else if b == 0x74 then 0x09
    else b
  }

  predicate ValidPiece(p: Piece) {
    match p
    case Raw(x) => x >= 0x20 && x != QUOTE && x != BACKSLASH && !Utf8.IsNoncharacter(x)
    case Letter(b) => IsLetter(b)
    case Unicode(x, hex) =>
      && !Utf8.IsNoncharacter(x) && |hex| == |Utf8.Units(x)|
      && forall i :: 0 <= i < |hex| ==> HexOf(hex[i], Utf8.Units(x)[i])
  }

  predicate ValidPieces(ps: seq<Piece>) { forall i :: 0 <= i < |ps| ==> ValidPiece(ps[i]) }

  function PieceScalar(p: Piece): Utf8.Scalar {
    match p case Raw(x) => x case Letter(b) => LetterValue(b) case Unicode(x, _) => x
  }

  function UnitsText(hex: seq<Bytes>): Bytes {
    if hex == [] then [] else [BACKSLASH, 0x75] + (hex[0] + UnitsText(hex[1..]))
  }

  function PieceText(p: Piece): Bytes {
    match p case Raw(x) => Utf8.Encode(x) case Letter(b) => [BACKSLASH, b] case Unicode(_, hex) => UnitsText(hex)
  }

  function PiecesText(ps: seq<Piece>): Bytes {
    if ps == [] then [] else PieceText(ps[0]) + PiecesText(ps[1..])
  }

  /** The string the pieces stand for. */
  function PiecesValue(ps: seq<Piece>): Bytes {
    if ps == [] then [] else Utf8.Encode(PieceScalar(ps[0])) + PiecesValue(ps[1..])
  }

  function Quoted(ps: seq<Piece>): Bytes {
    [QUOTE] + (PiecesText(ps) + [QUOTE])
  }

  // ---- values ----

  /** `blank` is the white space of an array or object that holds nothing else. */
  datatype Tree =
    | NullTree
    | BooleanTree(b: bool)
    | NumberTree(n: Numeral)
    | StringTree(pieces: seq<Piece>)
    | ArrayTree(blank: Bytes, items: seq<Item>)
    | ObjectTree(blank: Bytes, entries: seq<Entry>)

  datatype Item = Item(before: Bytes, tree: Tree, after: Bytes)

  datatype Entry = Entry(before: Bytes, key: seq<Piece>, gap: Bytes, item: Item)

  function TreeText(t: Tree): Bytes {
    match t
    case NullTree => NULL_TEXT
    case BooleanTree(b) => if b then TRUE_TEXT else FALSE_TEXT
    case NumberTree(n) => NumeralText(n)
    case StringTree(pieces) => Quoted(pieces)
    case ArrayTree(blank, items) => [OPEN_ARRAY] + ((blank + ItemTexts(items, true)) + [CLOSE_ARRAY])
    case ObjectTree(blank, entries) => [OPEN_OBJECT] + ((blank + EntryTexts(entries, true)) + [CLOSE_OBJECT])
  }

  function ItemText(i: Item): Bytes {
    i.before + (TreeText(i.tree) + i.after)
  }

  function ItemTexts(items: seq<Item>, first: bool): Bytes {
    if items == [] then [] else Comma(first) + (ItemText(items[0]) + ItemTexts(items[1..], false))
  }

  function EntryText(e: Entry): Bytes {
    e.before + (Quoted(e.key) + (e.gap + ([COLON] + ItemText(e.item))))
  }

  function EntryTexts(entries: seq<Entry>, first: bool): Bytes {
    if entries == [] then [] else Comma(first) + (EntryText(entries[0]) + EntryTexts(entries[1..], false))
  }

  predicate ValidTree(t: Tree) {
    match t
    case NumberTree(n) => WellFormed(n)
    case StringTree(pieces) => ValidPieces(pieces)
    case ArrayTree(blank, items) => Blank(blank) && (items != [] ==> blank == []) && ValidItems(items)
    case ObjectTree(blank, entries) => Blank(blank) && (entries != [] ==> blank == []) && ValidEntries(entries)
    case _ => true
  }

  predicate ValidItem(i: Item) { Blank(i.before) && ValidTree(i.tree) && Blank(i.after) }

  predicate ValidItems(items: seq<Item>) {
    items == [] || (ValidItem(items[0]) && ValidItems(items[1..]))
  }

  predicate ValidEntries(entries: seq<Entry>) {
    entries == [] ||
    (var e := entries[0];
     Blank(e.before) && ValidPieces(e.key) && Blank(e.gap) && ValidItem(e.item) && ValidEntries(entries[1..]))
  }

  function TreeValue(lib: FloatLibrary, t: Tree): Value {
    match t
    case NullTree => Null
    case BooleanTree(b) => Boolean(b)
    case NumberTree(n) => if WellFormed(n) then Number(lib.strtod(NumeralValue(n))) else Null
    case StringTree(pieces) => String(PiecesValue(pieces))
    case ArrayTree(_, items) => Array(ItemValues(lib, items))
    case ObjectTree(_, entries) => Object(EntryValues(lib, entries))
  }

  function ItemValues(lib: FloatLibrary, items: seq<Item>): (r: seq<Value>)
    ensures |r| == |items|
  {
    if items == [] then [] else [TreeValue(lib, items[0].tree)] + ItemValues(lib, items[1..])
  }

  function EntryValues(lib: FloatLibrary, entries: seq<Entry>): (r: seq<Member<Value>>)
    ensures |r| == |entries|
  {
    if entries == [] then []
    else [Member(PiecesValue(entries[0].key), TreeValue(lib, entries[0].item.tree))] + EntryValues(lib, entries[1..])
  }

  // ---- trees without choices ----

  /** The names of the entries. */
  function Names(entries: seq<Entry>): (names: seq<Bytes>)
    ensures |names| == |entries| && forall i :: 0 <= i < |names| ==> names[i] == PiecesValue(entries[i].key)
  {
    seq(|entries|, i requires 0 <= i < |entries| => PiecesValue(entries[i].key))
  }

  /** No white space anywhere, and the names of every object strictly in order. */
  predicate Minimal(t: Tree) {
    match t
    case ArrayTree(blank, items) => blank == [] && MinimalItems(items)
    case ObjectTree(blank, entries) =>
      && blank == [] && MinimalEntries(entries)
      && forall i, j :: 0 <= i < j < |entries| ==> Before(Names(entries)[i], Names(entries)[j])
    case _ => true
  }

  predicate MinimalItems(items: seq<Item>) {
    items == [] || (items[0].before == [] && items[0].after == [] && Minimal(items[0].tree) && MinimalItems(items[1..]))
  }

  predicate MinimalEntries(entries: seq<Entry>) {
    entries == [] ||
    (var e := entries[0];
     e.before == [] && e.gap == [] && e.item.before == [] && e.item.after == [] && Minimal(e.item.tree) && MinimalEntries(entries[1..]))
  }

  // ---- the text of a tree ----

  /** What a text starts with: never white space, and never a byte another kind starts with. */
  predicate StartsLike(t: Tree, b: Byte) {
    match t
    case NullTree => b == 0x6e
    case BooleanTree(v) => b == (if v then 0x74 else 0x66)
    case NumberTree(_) => b == 0x2d || 0x30 <= b <= 0x39
    case StringTree(_) => b == QUOTE
    case ArrayTree(_, _) => b == OPEN_ARRAY
    case ObjectTree(_, _) => b == OPEN_OBJECT
  }

  lemma {:induction false} TreeStarts(t: Tree)
    requires ValidTree(t)
    ensures TreeText(t) != [] && StartsLike(t, TreeText(t)[0])
    ensures !IsSpace(TreeText(t)[0]) && TreeText(t)[0] < 0x80
    ensures TreeText(t)[0] != CLOSE_ARRAY && TreeText(t)[0] != CLOSE_OBJECT
  {
    hide ItemTexts, EntryTexts, PiecesText;
    if t.NumberTree? {
      NumeralTextAscii(t.n);
    }
  }

  // ---- its bytes are permitted UTF-8 ----

  lemma {:induction false} EmptyIJson()
    ensures Utf8.IJson([])
  {
  }

  lemma {:induction false} AsciiIJson(s: Bytes)
    requires forall b :: b in s ==> b < 0x80
    ensures Utf8.IJson(s)
  {
    hide Utf8.IJson;
    if s == [] {
      EmptyIJson();
    } else {
      assert s[0] in s;
      assert forall b :: b in s[1..] ==> b in s;
      Utf8.IJsonAscii(s[0]);
      AsciiIJson(s[1..]);
      Utf8.IJsonConcat([s[0]], s[1..]);
      assert s == [s[0]] + s[1..];
    }
  }

  lemma {:induction false} BlankIJson(b: Bytes)
    requires Blank(b)
    ensures Utf8.IJson(b)
  {
    hide Utf8.IJson;
    AsciiIJson(b);
  }

  lemma {:induction false} ScalarIJson(x: Utf8.Scalar)
    requires !Utf8.IsNoncharacter(x)
    ensures Utf8.IJson(Utf8.Encode(x))
  {
    hide Utf8.Encode;
    assert [x][1..] == [];
    assert Utf8.EncodeAll([x]) == Utf8.Encode(x) + [] == Utf8.Encode(x);
    Utf8.ScalarsIff(Utf8.Encode(x), [x]);
  }

  lemma {:induction false} HexAscii(h: Bytes, u: int)
    requires HexOf(h, u)
    ensures forall b :: b in h ==> b < 0x80
  {
  }

  lemma {:induction false} UnitsAscii(hex: seq<Bytes>, units: seq<int>)
    requires |hex| == |units| && forall i :: 0 <= i < |hex| ==> HexOf(hex[i], units[i])
    ensures forall b :: b in UnitsText(hex) ==> b < 0x80
  {
    hide HexOf;
    if hex != [] {
      HexAscii(hex[0], units[0]);
      UnitsAscii(hex[1..], units[1..]);
    }
  }

  lemma {:induction false} PieceIJson(p: Piece)
    requires ValidPiece(p)
    ensures Utf8.IJson(PieceText(p)) && Utf8.IJson(Utf8.Encode(PieceScalar(p)))
  {
    hide Utf8.IJson, Utf8.Encode, UnitsText, HexOf;
    match p {
      case Raw(x) => ScalarIJson(x);
      case Letter(b) =>
        AsciiIJson([BACKSLASH, b]);
        ScalarIJson(LetterValue(b));
      case Unicode(x, hex) =>
        ScalarIJson(x);
        UnitsAscii(hex, Utf8.Units(x));
        AsciiIJson(UnitsText(hex));
    }
  }

  lemma {:induction false} PiecesIJson(ps: seq<Piece>)
    requires ValidPieces(ps)
    ensures Utf8.IJson(PiecesText(ps)) && Utf8.IJson(PiecesValue(ps))
  {
    hide Utf8.IJson, Utf8.Encode, PieceText, PieceScalar, ValidPiece;
    if ps == [] {
      EmptyIJson();
    } else {
      PieceIJson(ps[0]);
      PiecesIJson(ps[1..]);
      Utf8.IJsonConcat(PieceText(ps[0]), PiecesText(ps[1..]));
      Utf8.IJsonConcat(Utf8.Encode(PieceScalar(ps[0])), PiecesValue(ps[1..]));
    }
  }

  lemma {:induction false} BracketIJson(open: Byte, text: Bytes, close: Byte)
    requires open < 0x80 && close < 0x80 && Utf8.IJson(text)
    ensures Utf8.IJson([open] + (text + [close]))
  {
    hide Utf8.IJson;
    AsciiIJson([open]);
    AsciiIJson([close]);
    Utf8.IJsonConcat(text, [close]);
    Utf8.IJsonConcat([open], text + [close]);
  }

  lemma {:induction false} TreeIJson(t: Tree)
    requires ValidTree(t)
    ensures Utf8.IJson(TreeText(t))
    decreases t
  {
    hide Utf8.IJson, ItemTexts, EntryTexts, PiecesText;
    match t {
      case NumberTree(n) =>
        NumeralTextAscii(n);
        AsciiIJson(TreeText(t));
      case StringTree(pieces) =>
        PiecesIJson(pieces);
        BracketIJson(QUOTE, PiecesText(pieces), QUOTE);
      case ArrayTree(blank, items) =>
        BlankIJson(blank);
        ItemsIJson(items, true);
        Utf8.IJsonConcat(blank, ItemTexts(items, true));
        BracketIJson(OPEN_ARRAY, blank + ItemTexts(items, true), CLOSE_ARRAY);
      case ObjectTree(blank, entries) =>
        BlankIJson(blank);
        EntriesIJson(entries, true);
        Utf8.IJsonConcat(blank, EntryTexts(entries, true));
        BracketIJson(OPEN_OBJECT, blank + EntryTexts(entries, true), CLOSE_OBJECT);
      case _ => AsciiIJson(TreeText(t));
    }
  }

  lemma {:induction false} ItemIJson(i: Item)
    requires ValidItem(i)
    ensures Utf8.IJson(ItemText(i))
    decreases i
  {
    hide Utf8.IJson, TreeText, ValidTree;
    BlankIJson(i.before);
    BlankIJson(i.after);
    TreeIJson(i.tree);
    Utf8.IJsonConcat(TreeText(i.tree), i.after);
    Utf8.IJsonConcat(i.before, TreeText(i.tree) + i.after);
  }

  lemma {:induction false} ItemsIJson(items: seq<Item>, first: bool)
    requires ValidItems(items)
    ensures Utf8.IJson(ItemTexts(items, first))
    decreases items
  {
    hide Utf8.IJson, ItemText, ValidItem;
    if items == [] {
      EmptyIJson();
    } else {
      ItemIJson(items[0]);
      ItemsIJson(items[1..], false);
      AsciiIJson(Comma(first));
      Utf8.IJsonConcat(ItemText(items[0]), ItemTexts(items[1..], false));
      Utf8.IJsonConcat(Comma(first), ItemText(items[0]) + ItemTexts(items[1..], false));
    }
  }

  lemma {:induction false} EntriesIJson(entries: seq<Entry>, first: bool)
    requires ValidEntries(entries)
    ensures Utf8.IJson(EntryTexts(entries, first))
    decreases entries
  {
    hide Utf8.IJson, ItemText, ValidItem, PiecesText, ValidPieces;
    if entries == [] {
      EmptyIJson();
    } else {
      var e := entries[0];
      var key, colon := Quoted(e.key), [COLON] + ItemText(e.item);
      BlankIJson(e.before);
      PiecesIJson(e.key);
      BracketIJson(QUOTE, PiecesText(e.key), QUOTE);
      BlankIJson(e.gap);
      ItemIJson(e.item);
      AsciiIJson([COLON]);
      AsciiIJson(Comma(first));
      EntriesIJson(entries[1..], false);
      Utf8.IJsonConcat([COLON], ItemText(e.item));
      Utf8.IJsonConcat(e.gap, colon);
      Utf8.IJsonConcat(key, e.gap + colon);
      Utf8.IJsonConcat(e.before, key + (e.gap + colon));
      Utf8.IJsonConcat(EntryText(e), EntryTexts(entries[1..], false));
      Utf8.IJsonConcat(Comma(first), EntryText(e) + EntryTexts(entries[1..], false));
    }
  }
}
