/** What the reader accepts: exactly the grammar, within the limits, with the values of the trees. */
module JsonLanguage {
  import opened Prelude
  import opened KeyOrder
  import Utf8
  import opened Decimals
  import opened Json
  import opened JsonWriter
  import opened JsonReader
  import opened JsonGrammar
  import opened JsonStrings

  // ---- white space ----

  lemma {:induction false} SkipBlank(s: Bytes, p: nat, b: Bytes)
    requires Occurs(s, p, b) && Blank(b) && (p + |b| < |s| ==> !IsSpace(s[p + |b|]))
    ensures p + |b| <= |s| && SkipSpace(s, p) == p + |b|
    decreases |b|
  {
    if b != [] {
      assert b == [b[0]] + b[1..];
      OccursSplit(s, p, [b[0]], b[1..]);
      OccursAt(s, p, b, 0);
      SkipBlank(s, p + 1, b[1..]);
    }
  }

  lemma {:induction false} SkipSpan(s: Bytes, p: nat)
    requires p <= |s|
    ensures Blank(s[p..SkipSpace(s, p)])
    ensures SkipSpace(s, p) < |s| ==> !IsSpace(s[SkipSpace(s, p)])
    ensures SkipSpace(s, SkipSpace(s, p)) == SkipSpace(s, p)
    decreases |s| - p
  {
    if p < |s| && IsSpace(s[p]) {
      SkipSpan(s, p + 1);
      var q := SkipSpace(s, p);
      assert s[p..q] == [s[p]] + s[p + 1..q];
    }
  }

  /** Reading depends on where it starts only through the first byte that is no white space. */
  lemma {:induction false} SkipItems(lib: FloatLibrary, limits: Limits, s: Bytes, p: nat, tokens: nat, depth: nat, items: seq<Value>)
    requires p <= |s|
    ensures ReadItems(lib, limits, s, SkipSpace(s, p), tokens, depth, items) == ReadItems(lib, limits, s, p, tokens, depth, items)
  {
    hide ReadValue;
    SkipValue(lib, limits, s, p, tokens, depth + 1);
  }

  lemma {:induction false} SkipMembers(lib: FloatLibrary, limits: Limits, s: Bytes, p: nat, tokens: nat, depth: nat, members: seq<Member<Value>>)
    requires p <= |s|
    ensures ReadMembers(lib, limits, s, SkipSpace(s, p), tokens, depth, members) == ReadMembers(lib, limits, s, p, tokens, depth, members)
  {
    hide ReadValue, ReadString;
    SkipSpan(s, p);
    assert ReadMember(lib, limits, s, SkipSpace(s, p), tokens, depth, members) == ReadMember(lib, limits, s, p, tokens, depth, members);
  }

  lemma {:induction false} SkipValue(lib: FloatLibrary, limits: Limits, s: Bytes, p: nat, tokens: nat, depth: nat)
    requires p <= |s|
    ensures ReadValue(lib, limits, s, SkipSpace(s, p), tokens, depth) == ReadValue(lib, limits, s, p, tokens, depth)
  {
    hide ReadString, ReadNumber, ReadItems, ReadMembers, ReadLiteral;
    SkipSpan(s, p);
  }

  // ---- what is in the grammar is read ----

  /** What may follow a value inside an array or an object, or after all. */
  predicate Stop(s: Bytes, p: nat) {
    p == |s| || At(s, p, COMMA) || At(s, p, CLOSE_ARRAY) || At(s, p, CLOSE_OBJECT)
  }

  /** The value is permitted and within what is left of the limits. */
  predicate Affordable(limits: Limits, v: Value, tokens: nat, depth: nat) {
    Clean(limits, v) && depth + Depth(v) <= limits.maxDepth + 1 && tokens + Tokens(v) <= limits.maxTokens
  }

  lemma {:induction false} SpaceDelimits(s: Bytes, p: nat, b: Bytes)
    requires Occurs(s, p, b) && Blank(b) && Stop(s, p + |b|)
    ensures Delimited(s, p)
  {
    if b != [] {
      OccursAt(s, p, b, 0);
    }
  }

  /** Where the parts of an item lie, and what is skipped around it. */
  lemma {:induction false} ItemAt(s: Bytes, p: nat, i: Item)
    requires ValidItem(i) && Occurs(s, p, ItemText(i)) && Stop(s, p + |ItemText(i)|)
    ensures var q := p + |i.before|;
            var next := q + |TreeText(i.tree)|;
            && p <= q < next <= p + |ItemText(i)| <= |s|
            && SkipSpace(s, p) == q && Occurs(s, q, TreeText(i.tree)) && Delimited(s, next)
            && SkipSpace(s, next) == p + |ItemText(i)|
            && !At(s, q, CLOSE_ARRAY) && !At(s, q, CLOSE_OBJECT)
  {
    hide TreeText, ValidTree, Occurs, Delimited, SkipSpace;
    var q := p + |i.before|;
    var next := q + |TreeText(i.tree)|;
    OccursSplit(s, p, i.before, TreeText(i.tree) + i.after);
    OccursSplit(s, q, TreeText(i.tree), i.after);
    TreeStarts(i.tree);
    OccursAt(s, q, TreeText(i.tree), 0);
    SkipBlank(s, p, i.before);
    SkipBlank(s, next, i.after);
    SpaceDelimits(s, next, i.after);
  }

  lemma {:induction false} TreeReads(lib: FloatLibrary, limits: Limits, s: Bytes, p: nat, t: Tree, tokens: nat, depth: nat)
    requires p <= |s| && ValidTree(t) && Affordable(limits, TreeValue(lib, t), tokens, depth)
    requires var q := SkipSpace(s, p); Occurs(s, q, TreeText(t)) && Delimited(s, q + |TreeText(t)|)
    ensures ReadValue(lib, limits, s, p, tokens, depth) ==
              Done(TreeValue(lib, t), SkipSpace(s, p) + |TreeText(t)|, tokens + Tokens(TreeValue(lib, t)))
    decreases t, 1
  {
    hide SkipSpace, Occurs, Delimited, ValidTree, Affordable, TreeText, TreeValue, Tokens, ReadValue;
    match t {
      case ArrayTree(_, _) => ArrayReads(lib, limits, s, p, t, tokens, depth);
      case ObjectTree(_, _) => ObjectReads(lib, limits, s, p, t, tokens, depth);
      case _ => LeafReads(lib, limits, s, p, t, tokens, depth);
    }
  }

  lemma {:induction false} LeafReads(lib: FloatLibrary, limits: Limits, s: Bytes, p: nat, t: Tree, tokens: nat, depth: nat)
    requires p <= |s| && ValidTree(t) && Affordable(limits, TreeValue(lib, t), tokens, depth) && !t.ArrayTree? && !t.ObjectTree?
    requires var q := SkipSpace(s, p); Occurs(s, q, TreeText(t)) && Delimited(s, q + |TreeText(t)|)
    ensures ReadValue(lib, limits, s, p, tokens, depth) ==
              Done(TreeValue(lib, t), SkipSpace(s, p) + |TreeText(t)|, tokens + Tokens(TreeValue(lib, t)))
  {
    hide Quoted, ReadString, ReadItems, ReadMembers, ScanNumber, Utf8.IJson, Delimited, WellFormed, NumeralText, NumeralValue, PiecesValue, ValidPieces;
    var q := SkipSpace(s, p);
    TreeStarts(t);
    OccursAt(s, q, TreeText(t), 0);
    match t {
      case NumberTree(n) =>
        DelimitedEnds(n, s, q + |NumeralText(n)|);
        ScanNumeral(s, q, n);
      case StringTree(pieces) => QuotedReads(limits, s, q, pieces);
      case _ =>
    }
  }

  lemma {:induction false} DelimitedEnds(n: Numeral, s: Bytes, p: nat)
    requires Delimited(s, p)
    ensures Ends(n, s, p)
  {
  }

  lemma {:induction false} Bracketed(s: Bytes, p: nat, open: Byte, text: Bytes, close: Byte)
    ensures Occurs(s, p, [open] + (text + [close])) <==> At(s, p, open) && Occurs(s, p + 1, text) && At(s, p + 1 + |text|, close)
  {
    hide Occurs;
    OccursSplit(s, p, [open], text + [close]);
    OccursSplit(s, p + 1, text, [close]);
    OneByte(s, p, open);
    OneByte(s, p + 1 + |text|, close);
  }

  lemma {:induction false} OneByte(s: Bytes, p: nat, b: Byte)
    ensures Occurs(s, p, [b]) <==> At(s, p, b)
  {
    if At(s, p, b) {
      assert s[p..p + 1] == [b];
    } else if Occurs(s, p, [b]) {
      OccursAt(s, p, [b], 0);
    }
  }

  lemma {:induction false} ArrayReads(lib: FloatLibrary, limits: Limits, s: Bytes, p: nat, t: Tree, tokens: nat, depth: nat)
    requires p <= |s| && ValidTree(t) && Affordable(limits, TreeValue(lib, t), tokens, depth) && t.ArrayTree?
    requires Occurs(s, SkipSpace(s, p), TreeText(t))
    ensures ReadValue(lib, limits, s, p, tokens, depth) ==
              Done(TreeValue(lib, t), SkipSpace(s, p) + |TreeText(t)|, tokens + Tokens(TreeValue(lib, t)))
    decreases t, 0
  {
    hide CleanAll, DepthAll, TokensAll, ReadItems, Occurs, ItemTexts, ItemValues, ValidItems, SkipSpace;
    var q := SkipSpace(s, p);
    var text := t.blank + ItemTexts(t.items, true);
    Bracketed(s, q, OPEN_ARRAY, text, CLOSE_ARRAY);
    if t.items == [] {
      NoItems(lib);
      assert text == t.blank;
      SkipBlank(s, q + 1, t.blank);
      NoTokens();
    } else {
      assert text == ItemTexts(t.items, true);
      ItemsRead(lib, limits, s, q + 1, t.items, true, tokens + 1, depth, []);
      SkipItems(lib, limits, s, q + 1, tokens + 1, depth, []);
      assert [] + ItemValues(lib, t.items) == ItemValues(lib, t.items);
    }
  }

  lemma {:induction false} NoItems(lib: FloatLibrary)
    ensures ItemTexts([], true) == [] && ItemValues(lib, []) == []
    ensures EntryTexts([], true) == [] && EntryValues(lib, []) == []
  {
  }

  lemma {:induction false} NoTokens()
    ensures TokensAll([]) == 0 && TokensMembers([]) == 0
  {
  }

  lemma {:induction false} AppendOne<T>(a: seq<T>, x: T, b: seq<T>)
    ensures a + [x] + b == a + ([x] + b)
    ensures b == [] ==> a + [x] == a + ([x] + b)
  {
  }

  /** One turn of the array loop: a value, then a bracket or a comma. */
  lemma {:induction false} ItemsTurn(lib: FloatLibrary, limits: Limits, s: Bytes, q: nat, tokens: nat, depth: nat, items: seq<Value>, v: Value, next: nat, t: nat)
    requires q <= |s| && ReadValue(lib, limits, s, q, tokens, depth + 1) == Done(v, next, t)
    ensures var n := SkipSpace(s, next);
            && (At(s, n, CLOSE_ARRAY) ==>
                  ReadItems(lib, limits, s, q, tokens, depth, items) == Done(items + [v], n + 1, t))
            && (At(s, n, COMMA) ==>
                  ReadItems(lib, limits, s, q, tokens, depth, items) == ReadItems(lib, limits, s, n + 1, t, depth, items + [v]))
  {
    hide ReadValue;
  }

  lemma {:induction false} FirstItem(lib: FloatLibrary, limits: Limits, items: seq<Item>, first: bool)
    requires items != []
    ensures var vs := ItemValues(lib, items);
            var v, rest := TreeValue(lib, items[0].tree), ItemValues(lib, items[1..]);
            && vs == [v] + rest && (CleanAll(limits, vs) <==> Clean(limits, v) && CleanAll(limits, rest))
            && DepthAll(vs) == Max(Depth(v), DepthAll(rest)) && TokensAll(vs) == Tokens(v) + TokensAll(rest)
    ensures ItemTexts(items, first) == Comma(first) + (ItemText(items[0]) + ItemTexts(items[1..], false))
    ensures ValidItems(items) <==> ValidItem(items[0]) && ValidItems(items[1..])
    ensures items[1..] == [] ==> ItemTexts(items[1..], false) == [] && ItemValues(lib, items[1..]) == []
  {
    var vs := ItemValues(lib, items);
    assert vs[0] == TreeValue(lib, items[0].tree) && vs[1..] == ItemValues(lib, items[1..]);
  }

  /** Where the first item and what follows it lie. */
  lemma {:induction false} ItemParts(lib: FloatLibrary, limits: Limits, s: Bytes, p: nat, items: seq<Item>, first: bool)
    requires items != [] && Occurs(s, p, ItemTexts(items, first))
    ensures var q := p + |Comma(first)|;
            var next := q + |ItemText(items[0])|;
            && (!first ==> At(s, p, COMMA)) && Occurs(s, q, ItemText(items[0]))
            && Occurs(s, next, ItemTexts(items[1..], false))
            && p + |ItemTexts(items, first)| == next + |ItemTexts(items[1..], false)|
            && (items[1..] == [] ==> p + |ItemTexts(items, first)| == next)
  {
    hide ItemText, ItemTexts, Occurs, ItemValues, ValidItems, ValidItem, Clean, CleanAll, Depth, DepthAll, Tokens, TokensAll;
    FirstItem(lib, limits, items, first);
    OccursSplit(s, p, Comma(first), ItemText(items[0]) + ItemTexts(items[1..], false));
    OccursSplit(s, p + |Comma(first)|, ItemText(items[0]), ItemTexts(items[1..], false));
    if !first {
      OccursAt(s, p, Comma(first), 0);
    }
  }

  lemma {:induction false} ItemsRead(lib: FloatLibrary, limits: Limits, s: Bytes, p: nat, items: seq<Item>, first: bool, tokens: nat, depth: nat, done: seq<Value>)
    requires items != [] && ValidItems(items) && CleanAll(limits, ItemValues(lib, items))
    requires depth + DepthAll(ItemValues(lib, items)) <= limits.maxDepth && tokens + TokensAll(ItemValues(lib, items)) <= limits.maxTokens
    requires Occurs(s, p, ItemTexts(items, first)) && At(s, p + |ItemTexts(items, first)|, CLOSE_ARRAY)
    ensures !first ==> At(s, p, COMMA)
    ensures var q := p + |Comma(first)|;
            && q <= |s| && !At(s, SkipSpace(s, q), CLOSE_ARRAY)
            && ReadItems(lib, limits, s, q, tokens, depth, done) ==
                 Done(done + ItemValues(lib, items), p + |ItemTexts(items, first)| + 1, tokens + TokensAll(ItemValues(lib, items)))
    decreases items, 0
  {
    hide TreeText, TreeValue, ValidTree, ItemText, ItemTexts, ItemValues, ValidItems, Clean, CleanAll, Tokens, TokensAll, Depth, DepthAll,
      ReadValue, ReadItems, Occurs, SkipSpace, Delimited;
    var i, rest := items[0], items[1..];
    var q := p + |Comma(first)|;
    var after := q + |ItemText(i)|;
    var v := TreeValue(lib, i.tree);
    FirstItem(lib, limits, items, first);
    ItemParts(lib, limits, s, p, items, first);
    if rest != [] {
      ItemsRead(lib, limits, s, after, rest, false, tokens + Tokens(v), depth, done + [v]);
    }
    ItemAt(s, q, i);
    TreeReads(lib, limits, s, q, i.tree, tokens, depth + 1);
    ItemsTurn(lib, limits, s, q, tokens, depth, done, v, q + |i.before| + |TreeText(i.tree)|, tokens + Tokens(v));
    AppendOne(done, v, ItemValues(lib, rest));
    NoTokens();
  }

  // ---- objects ----

  /** No name in `ms` has been read yet. */
  predicate Unseen(members: seq<Member<Value>>, ms: seq<Member<Value>>) {
    forall i :: 0 <= i < |ms| ==> !HasKey(members, ms[i].key)
  }

  lemma {:induction false} NoneYet(ms: seq<Member<Value>>)
    ensures Unseen([], ms)
  {
  }

  lemma {:induction false} StillUnseen(members: seq<Member<Value>>, m: Member<Value>, rest: seq<Member<Value>>)
    requires Unseen(members, [m] + rest) && DistinctKeys([m] + rest)
    ensures !HasKey(members, m.key) && Unseen(members + [m], rest) && DistinctKeys(rest)
  {
    var ms, all := [m] + rest, members + [m];
    assert ms[0] == m;
    forall i | 0 <= i < |rest| ensures !HasKey(all, rest[i].key) {
      assert ms[i + 1] == rest[i];
      forall j | 0 <= j < |all| ensures all[j].key != rest[i].key {
        if j < |members| {
          assert all[j] == members[j];
        }
      }
    }
    forall i, j | 0 <= i < j < |rest| ensures rest[i].key != rest[j].key {
      assert ms[i + 1] == rest[i] && ms[j + 1] == rest[j];
    }
  }

  lemma {:induction false} ObjectReads(lib: FloatLibrary, limits: Limits, s: Bytes, p: nat, t: Tree, tokens: nat, depth: nat)
    requires p <= |s| && ValidTree(t) && Affordable(limits, TreeValue(lib, t), tokens, depth) && t.ObjectTree?
    requires Occurs(s, SkipSpace(s, p), TreeText(t))
    ensures ReadValue(lib, limits, s, p, tokens, depth) ==
              Done(TreeValue(lib, t), SkipSpace(s, p) + |TreeText(t)|, tokens + Tokens(TreeValue(lib, t)))
    decreases t, 0
  {
    hide CleanMembers, DepthMembers, TokensMembers, ReadMembers, Occurs, EntryTexts, EntryValues, ValidEntries, SkipSpace, DistinctKeys;
    var q := SkipSpace(s, p);
    var text := t.blank + EntryTexts(t.entries, true);
    Bracketed(s, q, OPEN_OBJECT, text, CLOSE_OBJECT);
    if t.entries == [] {
      NoItems(lib);
      assert text == t.blank;
      SkipBlank(s, q + 1, t.blank);
      NoTokens();
    } else {
      assert text == EntryTexts(t.entries, true);
      NoneYet(EntryValues(lib, t.entries));
      EntriesRead(lib, limits, s, q + 1, t.entries, true, tokens + 1, depth, []);
      SkipMembers(lib, limits, s, q + 1, tokens + 1, depth, []);
      assert [] + EntryValues(lib, t.entries) == EntryValues(lib, t.entries);
    }
  }

  /** One turn of the object loop: a name, a colon, a value, then a brace or a comma. */
  lemma {:induction false} MembersTurn(lib: FloatLibrary, limits: Limits, s: Bytes, q: nat, tokens: nat, depth: nat, members: seq<Member<Value>>, key: Bytes, b: nat, v: Value, next: nat, t: nat)
    requires q <= |s| && At(s, SkipSpace(s, q), QUOTE) && ReadString(limits, s, SkipSpace(s, q)) == Ended(key, b)
    requires At(s, SkipSpace(s, b), COLON) && !HasKey(members, key)
    requires ReadValue(lib, limits, s, SkipSpace(s, b) + 1, tokens, depth + 1) == Done(v, next, t)
    ensures var n := SkipSpace(s, next);
            && (At(s, n, CLOSE_OBJECT) ==>
                  ReadMembers(lib, limits, s, q, tokens, depth, members) == Done(members + [Member(key, v)], n + 1, t))
            && (At(s, n, COMMA) ==>
                  ReadMembers(lib, limits, s, q, tokens, depth, members) ==
                    ReadMembers(lib, limits, s, n + 1, t, depth, members + [Member(key, v)]))
  {
    hide ReadValue, ReadString, HasKey;
  }

  lemma {:induction false} FirstEntry(lib: FloatLibrary, limits: Limits, entries: seq<Entry>, first: bool)
    requires entries != []
    ensures var ms := EntryValues(lib, entries);
            var e := entries[0];
            var m, rest := Member(PiecesValue(e.key), TreeValue(lib, e.item.tree)), EntryValues(lib, entries[1..]);
            && ms == [m] + rest
            && (CleanMembers(limits, ms) <==> CleanString(limits, m.key) && Clean(limits, m.value) && CleanMembers(limits, rest))
            && DepthMembers(ms) == Max(Depth(m.value), DepthMembers(rest)) && TokensMembers(ms) == Tokens(m.value) + TokensMembers(rest)
    ensures EntryTexts(entries, first) == Comma(first) + (EntryText(entries[0]) + EntryTexts(entries[1..], false))
    ensures var e := entries[0];
            ValidEntries(entries) <==>
              Blank(e.before) && ValidPieces(e.key) && Blank(e.gap) && ValidItem(e.item) && ValidEntries(entries[1..])
    ensures entries[1..] == [] ==> EntryTexts(entries[1..], false) == [] && EntryValues(lib, entries[1..]) == []
  {
    var ms := EntryValues(lib, entries);
    assert ms[0] == Member(PiecesValue(entries[0].key), TreeValue(lib, entries[0].item.tree)) && ms[1..] == EntryValues(lib, entries[1..]);
  }

  /** Where the parts of an entry lie, and what is skipped between them. */
  lemma {:induction false} EntryAt(s: Bytes, p: nat, e: Entry)
    requires Blank(e.before) && ValidPieces(e.key) && Blank(e.gap) && ValidItem(e.item)
    requires Occurs(s, p, EntryText(e))
    ensures var a := p + |e.before|;
            var b := a + |Quoted(e.key)|;
            var c := b + |e.gap|;
            && p <= |s| && b <= |s| && SkipSpace(s, p) == a && At(s, a, QUOTE) && Occurs(s, a, Quoted(e.key))
            && SkipSpace(s, b) == c && At(s, c, COLON) && Occurs(s, c + 1, ItemText(e.item))
            && p + |EntryText(e)| == c + 1 + |ItemText(e.item)|
  {
    hide Occurs, ItemText, PiecesText, SkipSpace;
    var a := p + |e.before|;
    var b := a + |Quoted(e.key)|;
    var c := b + |e.gap|;
    var colon := [COLON] + ItemText(e.item);
    OccursSplit(s, p, e.before, Quoted(e.key) + (e.gap + colon));
    OccursSplit(s, a, Quoted(e.key), e.gap + colon);
    OccursSplit(s, b, e.gap, colon);
    OccursSplit(s, c, [COLON], ItemText(e.item));
    OccursAt(s, a, Quoted(e.key), 0);
    OccursAt(s, c, [COLON], 0);
    SkipBlank(s, p, e.before);
    SkipBlank(s, b, e.gap);
  }

  /** Where the item of an entry at `q` starts. */
  function ItemStart(q: nat, e: Entry): nat { q + |e.before| + |Quoted(e.key)| + |e.gap| + 1 }

  /** Reading one entry of an object. */
  lemma {:induction false} EntryTurn(lib: FloatLibrary, limits: Limits, s: Bytes, q: nat, e: Entry, v: Value, t: nat, tokens: nat, depth: nat, done: seq<Member<Value>>)
    requires Blank(e.before) && ValidPieces(e.key) && Blank(e.gap) && ValidItem(e.item)
    requires Occurs(s, q, EntryText(e)) && Stop(s, q + |EntryText(e)|) && ItemStart(q, e) <= |s|
    requires !HasKey(done, PiecesValue(e.key)) && |PiecesValue(e.key)| <= limits.maxStringBytes
    requires ReadValue(lib, limits, s, ItemStart(q, e), tokens, depth + 1) ==
               Done(v, ItemStart(q, e) + |e.item.before| + |TreeText(e.item.tree)|, t)
    ensures q <= |s|
    ensures var n, m := q + |EntryText(e)|, Member(PiecesValue(e.key), v);
            && (At(s, n, CLOSE_OBJECT) ==> ReadMembers(lib, limits, s, q, tokens, depth, done) == Done(done + [m], n + 1, t))
            && (At(s, n, COMMA) ==>
                  ReadMembers(lib, limits, s, q, tokens, depth, done) == ReadMembers(lib, limits, s, n + 1, t, depth, done + [m]))
  {
    hide TreeText, ItemText, EntryText, ValidPieces, PiecesValue, Quoted, ReadValue, ReadMembers, ReadString, Occurs, SkipSpace, HasKey, ValidItem, Blank;
    var start := ItemStart(q, e);
    EntryAt(s, q, e);
    QuotedReads(limits, s, q + |e.before|, e.key);
    ItemAt(s, start, e.item);
    MembersTurn(lib, limits, s, q, tokens, depth, done, PiecesValue(e.key), q + |e.before| + |Quoted(e.key)|, v,
                start + |e.item.before| + |TreeText(e.item.tree)|, t);
  }

  lemma {:induction false} EntryParts(lib: FloatLibrary, limits: Limits, s: Bytes, p: nat, entries: seq<Entry>, first: bool)
    requires entries != [] && Occurs(s, p, EntryTexts(entries, first))
    ensures var q := p + |Comma(first)|;
            var next := q + |EntryText(entries[0])|;
            && (!first ==> At(s, p, COMMA)) && Occurs(s, q, EntryText(entries[0]))
            && Occurs(s, next, EntryTexts(entries[1..], false))
            && p + |EntryTexts(entries, first)| == next + |EntryTexts(entries[1..], false)|
            && (entries[1..] == [] ==> p + |EntryTexts(entries, first)| == next)
  {
    hide EntryText, EntryTexts, Occurs, EntryValues, ValidEntries, ValidItem, Clean, CleanMembers, Depth, DepthMembers, Tokens, TokensMembers, CleanString, ValidPieces;
    FirstEntry(lib, limits, entries, first);
    OccursSplit(s, p, Comma(first), EntryText(entries[0]) + EntryTexts(entries[1..], false));
    OccursSplit(s, p + |Comma(first)|, EntryText(entries[0]), EntryTexts(entries[1..], false));
    if !first {
      OccursAt(s, p, Comma(first), 0);
    }
  }

  lemma {:induction false} EntriesRead(lib: FloatLibrary, limits: Limits, s: Bytes, p: nat, entries: seq<Entry>, first: bool, tokens: nat, depth: nat, done: seq<Member<Value>>)
    requires entries != [] && ValidEntries(entries) && CleanMembers(limits, EntryValues(lib, entries))
    requires DistinctKeys(EntryValues(lib, entries)) && Unseen(done, EntryValues(lib, entries))
    requires depth + DepthMembers(EntryValues(lib, entries)) <= limits.maxDepth
    requires tokens + TokensMembers(EntryValues(lib, entries)) <= limits.maxTokens
    requires Occurs(s, p, EntryTexts(entries, first)) && At(s, p + |EntryTexts(entries, first)|, CLOSE_OBJECT)
    ensures !first ==> At(s, p, COMMA)
    ensures var q := p + |Comma(first)|;
            && q <= |s| && At(s, SkipSpace(s, q), QUOTE)
            && ReadMembers(lib, limits, s, q, tokens, depth, done) ==
                 Done(done + EntryValues(lib, entries), p + |EntryTexts(entries, first)| + 1, tokens + TokensMembers(EntryValues(lib, entries)))
    decreases entries, 0
  {
    hide TreeText, TreeValue, ValidTree, ItemText, EntryText, EntryTexts, EntryValues, ValidEntries, ValidPieces, PiecesValue, Quoted, Clean, CleanMembers,
      CleanString, Tokens, TokensMembers, Depth, DepthMembers, ReadValue, ReadMembers, ReadString, Occurs, SkipSpace, Delimited, DistinctKeys, Unseen, HasKey,
      ValidItem, Blank;
    var e, rest := entries[0], entries[1..];
    var q := p + |Comma(first)|;
    var start := ItemStart(q, e);
    var key, v := PiecesValue(e.key), TreeValue(lib, e.item.tree);
    FirstEntry(lib, limits, entries, first);
    EntryParts(lib, limits, s, p, entries, first);
    EntryAt(s, q, e);
    StillUnseen(done, Member(key, v), EntryValues(lib, rest));
    NoTokens();
    if rest != [] {
      EntriesRead(lib, limits, s, q + |EntryText(e)|, rest, false, tokens + Tokens(v), depth, done + [Member(key, v)]);
    }
    CleanSize(limits, key);
    ItemAt(s, start, e.item);
    ItemValid(e.item);
    TreeReads(lib, limits, s, start, e.item.tree, tokens, depth + 1);
    EntryTurn(lib, limits, s, q, e, v, tokens + Tokens(v), tokens, depth, done);
    AppendOne(done, Member(key, v), EntryValues(lib, rest));
  }

  lemma {:induction false} ItemValid(i: Item)
    requires ValidItem(i)
    ensures ValidTree(i.tree)
  {
  }

  lemma {:induction false} CleanSize(limits: Limits, key: Bytes)
    ensures CleanString(limits, key) ==> |key| <= limits.maxStringBytes
  {
  }

  // ---- and nothing else is ----

  /** What is read at a position is the text of a tree, with its value, within the limits. */
  lemma {:induction false} ValueIsTree(lib: FloatLibrary, limits: Limits, s: Bytes, p: nat, tokens: nat, depth: nat) returns (t: Tree)
    requires p <= |s| && ReadValue(lib, limits, s, p, tokens, depth).Done?
    ensures var r := ReadValue(lib, limits, s, p, tokens, depth);
            var q := SkipSpace(s, p);
            && ValidTree(t) && Occurs(s, q, TreeText(t)) && r.pos == q + |TreeText(t)|
            && r.value == TreeValue(lib, t) && r.tokens == tokens + Tokens(r.value) && Affordable(limits, r.value, tokens, depth)
    decreases |s| - p, 1
  {
    hide SkipSpace, ReadItems, ReadMembers, ReadString, ReadNumber, ReadLiteral, Occurs, Affordable;
    var q := SkipSpace(s, p);
    SkipSpan(s, p);
    SkipValue(lib, limits, s, p, tokens, depth);
    if s[q] == OPEN_ARRAY {
      t := ArrayIsTree(lib, limits, s, q, tokens, depth);
    } else if s[q] == OPEN_OBJECT {
      t := ObjectIsTree(lib, limits, s, q, tokens, depth);
    } else {
      t := LeafIsTree(lib, limits, s, p, tokens, depth);
    }
  }

  lemma {:induction false} LeafIsTree(lib: FloatLibrary, limits: Limits, s: Bytes, p: nat, tokens: nat, depth: nat) returns (t: Tree)
    requires p <= |s| && ReadValue(lib, limits, s, p, tokens, depth).Done?
    requires var q := SkipSpace(s, p); s[q] != OPEN_ARRAY && s[q] != OPEN_OBJECT
    ensures var r := ReadValue(lib, limits, s, p, tokens, depth);
            var q := SkipSpace(s, p);
            && ValidTree(t) && Occurs(s, q, TreeText(t)) && r.pos == q + |TreeText(t)|
            && r.value == TreeValue(lib, t) && r.tokens == tokens + Tokens(r.value) && Affordable(limits, r.value, tokens, depth)
  {
    hide SkipSpace, ReadItems, ReadMembers, ReadString, ScanNumber, Occurs, WellFormed, NumeralText, NumeralValue, Quoted, PiecesValue, Utf8.IJson;
    var q := SkipSpace(s, p);
    var b := s[q];
    if b == 0x6e {
      t := NullTree;
    } else if b == 0x74 {
      t := BooleanTree(true);
    } else if b == 0x66 {
      t := BooleanTree(false);
    } else if b == QUOTE {
      var pieces := ReadIsQuoted(limits, s, q);
      PiecesIJson(pieces);
      t := StringTree(pieces);
    } else {
      var n := ScannedIsNumeral(s, q);
      t := NumberTree(n);
    }
  }

  lemma {:induction false} ArrayIsTree(lib: FloatLibrary, limits: Limits, s: Bytes, q: nat, tokens: nat, depth: nat) returns (t: Tree)
    requires At(s, q, OPEN_ARRAY) && ReadValue(lib, limits, s, q, tokens, depth).Done?
    ensures var r := ReadValue(lib, limits, s, q, tokens, depth);
            && ValidTree(t) && Occurs(s, q, TreeText(t)) && r.pos == q + |TreeText(t)|
            && r.value == TreeValue(lib, t) && r.tokens == tokens + Tokens(r.value) && Affordable(limits, r.value, tokens, depth)
    decreases |s| - q, 0
  {
    hide SkipSpace, ReadItems, ReadMembers, ReadString, ReadNumber, ReadLiteral, Occurs, ItemTexts, ItemValues, ValidItems, CleanAll, TokensAll, DepthAll;
    assert SkipSpace(s, q) == q by { NoSkip(s, q); }
    var a := SkipSpace(s, q + 1);
    NoItems(lib);
    NoTokens();
    if At(s, a, CLOSE_ARRAY) {
      SkipSpan(s, q + 1);
      OccursSpan(s, q + 1, a);
      NothingValid(limits);
      t := ArrayTree(s[q + 1..a], []);
      assert s[q + 1..a] + [] == s[q + 1..a];
      Bracketed(s, q, OPEN_ARRAY, s[q + 1..a], CLOSE_ARRAY);
    } else {
      SkipItems(lib, limits, s, q + 1, tokens + 1, depth, []);
      var items := ItemsAreTrees(lib, limits, s, q + 1, tokens + 1, depth, []);
      t := ArrayTree([], items);
      assert [] + ItemTexts(items, true) == ItemTexts(items, true) && [] + ItemValues(lib, items) == ItemValues(lib, items);
      Bracketed(s, q, OPEN_ARRAY, ItemTexts(items, true), CLOSE_ARRAY);
    }
  }

  lemma {:induction false} NoSkip(s: Bytes, q: nat)
    requires q < |s| && !IsSpace(s[q])
    ensures SkipSpace(s, q) == q
  {
  }

  lemma {:induction false} NothingValid(limits: Limits)
    ensures ValidItems([]) && ValidEntries([]) && CleanAll(limits, []) && CleanMembers(limits, []) && DistinctKeys<Value>([])
    ensures DepthAll([]) == 0 && DepthMembers([]) == 0
  {
  }

  lemma {:induction false} ItemsAfterComma(items: seq<Item>)
    requires items != []
    ensures ItemTexts(items, false) == [COMMA] + ItemTexts(items, true)
  {
    hide ItemText;
    var text := ItemText(items[0]) + ItemTexts(items[1..], false);
    assert [] + text == text;
  }

  lemma {:induction false} EntriesAfterComma(entries: seq<Entry>)
    requires entries != []
    ensures EntryTexts(entries, false) == [COMMA] + EntryTexts(entries, true)
  {
    hide EntryText;
    var text := EntryText(entries[0]) + EntryTexts(entries[1..], false);
    assert [] + text == text;
  }

  /** The item around a tree read at `p`, with the white space on both sides. */
  lemma {:induction false} ItemRead(s: Bytes, p: nat, tree: Tree) returns (i: Item)
    requires p <= |s| && ValidTree(tree) && Occurs(s, SkipSpace(s, p), TreeText(tree))
    ensures var next := SkipSpace(s, p) + |TreeText(tree)|;
            && next <= |s| && ValidItem(i) && i.tree == tree && Occurs(s, p, ItemText(i))
            && SkipSpace(s, next) == p + |ItemText(i)| <= |s|
  {
    hide TreeText, ValidTree, SkipSpace, Occurs;
    var q := SkipSpace(s, p);
    var next := q + |TreeText(tree)|;
    OccursIs(s, q, TreeText(tree));
    var n := SkipSpace(s, next);
    SkipSpan(s, p);
    SkipSpan(s, next);
    i := Item(s[p..q], tree, s[next..n]);
    OccursSpan(s, p, q);
    OccursSpan(s, next, n);
    OccursSplit(s, q, TreeText(tree), i.after);
    OccursSplit(s, p, i.before, TreeText(tree) + i.after);
  }

  lemma {:induction false} ItemsAreTrees(lib: FloatLibrary, limits: Limits, s: Bytes, p: nat, tokens: nat, depth: nat, done: seq<Value>) returns (items: seq<Item>)
    requires p <= |s| && ReadItems(lib, limits, s, p, tokens, depth, done).Done?
    ensures var r := ReadItems(lib, limits, s, p, tokens, depth, done);
            var vs := ItemValues(lib, items);
            && items != [] && ValidItems(items) && Occurs(s, p, ItemTexts(items, true)) && At(s, p + |ItemTexts(items, true)|, CLOSE_ARRAY)
            && r.pos == p + |ItemTexts(items, true)| + 1 && r.value == done + vs && r.tokens == tokens + TokensAll(vs)
            && CleanAll(limits, vs) && depth + DepthAll(vs) <= limits.maxDepth && r.tokens <= limits.maxTokens
    decreases |s| - p, 2
  {
    hide TreeText, TreeValue, ValidTree, ItemText, ItemTexts, ItemValues, ValidItem, ValidItems, Clean, CleanAll, Tokens, TokensAll, Depth, DepthAll,
      ReadValue, ReadItems, Occurs, SkipSpace;
    ItemsStep(lib, limits, s, p, tokens, depth, done);
    var Done(v, next, t) := ReadValue(lib, limits, s, p, tokens, depth + 1);
    var tree := ValueIsTree(lib, limits, s, p, tokens, depth + 1);
    var i := ItemRead(s, p, tree);
    var n := SkipSpace(s, next);
    ItemsTurn(lib, limits, s, p, tokens, depth, done, v, next, t);
    var more := [];
    NoItems(lib);
    NoTokens();
    NothingValid(limits);
    if !At(s, n, CLOSE_ARRAY) {
      more := ItemsAreTrees(lib, limits, s, n + 1, t, depth, done + [v]);
      ItemsAfterComma(more);
      OneByte(s, n, COMMA);
      OccursSplit(s, n, [COMMA], ItemTexts(more, true));
    } else {
      assert ItemTexts(more, false) == [] by { NoTexts(); }
      OccursIs(s, n, []);
    }
    items := [i] + more;
    assert items[1..] == more;
    FirstItem(lib, limits, items, true);
    OccursSplit(s, p, ItemText(i), ItemTexts(more, false));
    assert [] + (ItemText(i) + ItemTexts(more, false)) == ItemText(i) + ItemTexts(more, false);
    AppendOne(done, v, ItemValues(lib, more));
  }

  lemma {:induction false} NoTexts()
    ensures ItemTexts([], false) == [] && EntryTexts([], false) == []
  {
  }

  lemma {:induction false} ItemsStep(lib: FloatLibrary, limits: Limits, s: Bytes, p: nat, tokens: nat, depth: nat, done: seq<Value>)
    requires p <= |s| && ReadItems(lib, limits, s, p, tokens, depth, done).Done?
    ensures ReadValue(lib, limits, s, p, tokens, depth + 1).Done?
    ensures var r := ReadValue(lib, limits, s, p, tokens, depth + 1);
            p < r.pos <= |s| && (At(s, SkipSpace(s, r.pos), CLOSE_ARRAY) || At(s, SkipSpace(s, r.pos), COMMA))
  {
    hide ReadValue;
  }

  lemma {:induction false} ObjectIsTree(lib: FloatLibrary, limits: Limits, s: Bytes, q: nat, tokens: nat, depth: nat) returns (t: Tree)
    requires At(s, q, OPEN_OBJECT) && ReadValue(lib, limits, s, q, tokens, depth).Done?
    ensures var r := ReadValue(lib, limits, s, q, tokens, depth);
            && ValidTree(t) && Occurs(s, q, TreeText(t)) && r.pos == q + |TreeText(t)|
            && r.value == TreeValue(lib, t) && r.tokens == tokens + Tokens(r.value) && Affordable(limits, r.value, tokens, depth)
    decreases |s| - q, 0
  {
    hide SkipSpace, ReadItems, ReadMembers, ReadString, ReadNumber, ReadLiteral, Occurs, EntryTexts, EntryValues, ValidEntries, CleanMembers, TokensMembers,
      DepthMembers, DistinctKeys;
    assert SkipSpace(s, q) == q by { NoSkip(s, q); }
    var a := SkipSpace(s, q + 1);
    NoItems(lib);
    NoTokens();
    NothingValid(limits);
    if At(s, a, CLOSE_OBJECT) {
      SkipSpan(s, q + 1);
      OccursSpan(s, q + 1, a);
      t := ObjectTree(s[q + 1..a], []);
      assert s[q + 1..a] + [] == s[q + 1..a];
      Bracketed(s, q, OPEN_OBJECT, s[q + 1..a], CLOSE_OBJECT);
    } else {
      SkipMembers(lib, limits, s, q + 1, tokens + 1, depth, []);
      var entries := EntriesAreTrees(lib, limits, s, q + 1, tokens + 1, depth, []);
      t := ObjectTree([], entries);
      assert [] + EntryTexts(entries, true) == EntryTexts(entries, true) && [] + EntryValues(lib, entries) == EntryValues(lib, entries);
      Bracketed(s, q, OPEN_OBJECT, EntryTexts(entries, true), CLOSE_OBJECT);
    }
  }

  lemma {:induction false} MembersStep(lib: FloatLibrary, limits: Limits, s: Bytes, p: nat, tokens: nat, depth: nat, done: seq<Member<Value>>)
      returns (key: Bytes, b: nat, v: Value, next: nat, t: nat)
    requires p <= |s| && ReadMembers(lib, limits, s, p, tokens, depth, done).Done?
    ensures At(s, SkipSpace(s, p), QUOTE) && ReadString(limits, s, SkipSpace(s, p)) == Ended(key, b) && !HasKey(done, key)
    ensures p < b <= |s| && At(s, SkipSpace(s, b), COLON)
    ensures ReadValue(lib, limits, s, SkipSpace(s, b) + 1, tokens, depth + 1) == Done(v, next, t) && b < next <= |s|
    ensures At(s, SkipSpace(s, next), CLOSE_OBJECT) || At(s, SkipSpace(s, next), COMMA)
  {
    hide ReadValue, ReadString, HasKey;
    b := ReadString(limits, s, SkipSpace(s, p)).pos;
    key := ReadString(limits, s, SkipSpace(s, p)).text;
    var r := ReadValue(lib, limits, s, SkipSpace(s, b) + 1, tokens, depth + 1);
    v, next, t := r.value, r.pos, r.tokens;
  }

  /** The entry around a name and a tree, with the white space between them. */
  lemma {:induction false} EntryRead(s: Bytes, p: nat, key: seq<Piece>, item: Item) returns (e: Entry)
    requires p <= |s| && ValidPieces(key) && ValidItem(item) && Occurs(s, SkipSpace(s, p), Quoted(key))
    requires var b := SkipSpace(s, p) + |Quoted(key)|;
             b <= |s| && At(s, SkipSpace(s, b), COLON) && Occurs(s, SkipSpace(s, b) + 1, ItemText(item))
    ensures Blank(e.before) && Blank(e.gap) && e.key == key && e.item == item && Occurs(s, p, EntryText(e))
    ensures p + |EntryText(e)| == SkipSpace(s, SkipSpace(s, p) + |Quoted(key)|) + 1 + |ItemText(item)|
  {
    hide ItemText, ValidItem, SkipSpace, Occurs, Quoted, ValidPieces;
    var a := SkipSpace(s, p);
    var b := a + |Quoted(key)|;
    var c := SkipSpace(s, b);
    SkipSpan(s, p);
    SkipSpan(s, b);
    e := Entry(s[p..a], key, s[b..c], item);
    OccursSpan(s, p, a);
    OccursSpan(s, b, c);
    OneByte(s, c, COLON);
    OccursSplit(s, c, [COLON], ItemText(item));
    OccursSplit(s, b, e.gap, [COLON] + ItemText(item));
    OccursSplit(s, a, Quoted(key), e.gap + ([COLON] + ItemText(item)));
    OccursSplit(s, p, e.before, Quoted(key) + (e.gap + ([COLON] + ItemText(item))));
  }

  lemma {:induction false} FreshKey(done: seq<Member<Value>>, m: Member<Value>)
    requires DistinctKeys(done) && !HasKey(done, m.key)
    ensures DistinctKeys(done + [m])
  {
    assert forall i :: 0 <= i < |done| ==> done[i].key != m.key;
  }

  lemma {:induction false} DistinctPart(done: seq<Member<Value>>, ms: seq<Member<Value>>)
    requires DistinctKeys(done + ms)
    ensures DistinctKeys(ms)
  {
    var all := done + ms;
    forall i, j | 0 <= i < j < |ms| ensures ms[i].key != ms[j].key {
      assert all[|done| + i] == ms[i] && all[|done| + j] == ms[j];
    }
  }

  /** What one turn of the object loop reads is an entry. */
  lemma {:induction false} EntryIsTree(lib: FloatLibrary, limits: Limits, s: Bytes, p: nat, tokens: nat, depth: nat, done: seq<Member<Value>>)
      returns (e: Entry, m: Member<Value>)
    requires p <= |s| && ReadMembers(lib, limits, s, p, tokens, depth, done).Done?
    ensures Blank(e.before) && ValidPieces(e.key) && Blank(e.gap) && ValidItem(e.item) && Occurs(s, p, EntryText(e)) && EntryText(e) != []
    ensures m == Member(PiecesValue(e.key), TreeValue(lib, e.item.tree)) && !HasKey(done, m.key) && CleanString(limits, m.key)
    ensures Affordable(limits, m.value, tokens, depth + 1)
    ensures var n, t := p + |EntryText(e)|, tokens + Tokens(m.value);
            var r := ReadMembers(lib, limits, s, p, tokens, depth, done);
            && n <= |s| && (At(s, n, CLOSE_OBJECT) || At(s, n, COMMA))
            && (At(s, n, CLOSE_OBJECT) ==> r == Done(done + [m], n + 1, t))
            && (At(s, n, COMMA) ==> r == ReadMembers(lib, limits, s, n + 1, t, depth, done + [m]))
    decreases |s| - p, 1
  {
    hide TreeText, TreeValue, ValidTree, ItemText, EntryText, ValidPieces, PiecesValue, Quoted, Affordable, Tokens,
      ReadValue, ReadMembers, ReadString, Occurs, SkipSpace, HasKey, Utf8.IJson, ValidItem, Blank;
    var name, b, v, next, t := MembersStep(lib, limits, s, p, tokens, depth, done);
    var key := ReadIsQuoted(limits, s, SkipSpace(s, p));
    var c := SkipSpace(s, b);
    var tree := ValueIsTree(lib, limits, s, c + 1, tokens, depth + 1);
    var item := ItemRead(s, c + 1, tree);
    e := EntryRead(s, p, key, item);
    m := Member(name, v);
    MembersTurn(lib, limits, s, p, tokens, depth, done, name, b, v, next, t);
    PiecesIJson(key);
    assert |EntryText(e)| > 0;
  }

  lemma {:induction false} EntriesAreTrees(lib: FloatLibrary, limits: Limits, s: Bytes, p: nat, tokens: nat, depth: nat, done: seq<Member<Value>>) returns (entries: seq<Entry>)
    requires p <= |s| && ReadMembers(lib, limits, s, p, tokens, depth, done).Done? && DistinctKeys(done)
    ensures var r := ReadMembers(lib, limits, s, p, tokens, depth, done);
            var ms := EntryValues(lib, entries);
            && entries != [] && ValidEntries(entries) && Occurs(s, p, EntryTexts(entries, true)) && At(s, p + |EntryTexts(entries, true)|, CLOSE_OBJECT)
            && r.pos == p + |EntryTexts(entries, true)| + 1 && r.value == done + ms && r.tokens == tokens + TokensMembers(ms)
            && CleanMembers(limits, ms) && DistinctKeys(r.value) && DistinctKeys(ms)
            && depth + DepthMembers(ms) <= limits.maxDepth && r.tokens <= limits.maxTokens
    decreases |s| - p, 2
  {
    hide TreeText, TreeValue, ValidTree, EntryText, EntryTexts, EntryValues, ValidEntries, ValidPieces, PiecesValue, Clean, CleanMembers, CleanString,
      Tokens, TokensMembers, Depth, DepthMembers, ReadMembers, Occurs, DistinctKeys, HasKey, ValidItem, Blank;
    var e, m := EntryIsTree(lib, limits, s, p, tokens, depth, done);
    var n := p + |EntryText(e)|;
    FreshKey(done, m);
    NoItems(lib);
    NoTokens();
    NothingValid(limits);
    NoTexts();
    var more := [];
    if At(s, n, CLOSE_OBJECT) {
      OccursIs(s, n, []);
    } else {
      more := EntriesAreTrees(lib, limits, s, n + 1, tokens + Tokens(m.value), depth, done + [m]);
      EntriesAfterComma(more);
      OneByte(s, n, COMMA);
      OccursSplit(s, n, [COMMA], EntryTexts(more, true));
    }
    entries := [e] + more;
    assert entries[1..] == more;
    FirstEntry(lib, limits, entries, true);
    EntriesJoin(s, p, e, more);
    AppendOne(done, m, EntryValues(lib, more));
    DistinctPart(done, EntryValues(lib, entries));
  }

  lemma {:induction false} EntriesJoin(s: Bytes, p: nat, e: Entry, more: seq<Entry>)
    requires Occurs(s, p, EntryText(e)) && Occurs(s, p + |EntryText(e)|, EntryTexts(more, false))
    ensures Occurs(s, p, EntryTexts([e] + more, true))
    ensures |EntryTexts([e] + more, true)| == |EntryText(e)| + |EntryTexts(more, false)|
  {
    hide EntryText, Occurs;
    var entries := [e] + more;
    assert entries[1..] == more;
    OccursSplit(s, p, EntryText(e), EntryTexts(more, false));
    assert [] + (EntryText(e) + EntryTexts(more, false)) == EntryText(e) + EntryTexts(more, false);
  }

  // ---- whole texts ----

  /** The text is white space, a tree and white space. */
  predicate Spells(s: Bytes, before: Bytes, t: Tree, after: Bytes) {
    Blank(before) && ValidTree(t) && Blank(after) && s == before + (TreeText(t) + after)
  }

  /** A value and the size of its text are within the limits. */
  predicate Within(limits: Limits, v: Value, bytes: nat) {
    Clean(limits, v) && Depth(v) <= limits.maxDepth && Tokens(v) <= limits.maxTokens && bytes <= limits.maxBytes
  }

  lemma {:induction false} SpellsIJson(s: Bytes, before: Bytes, t: Tree, after: Bytes)
    requires Spells(s, before, t, after)
    ensures Utf8.IJson(s) && !StartsWithBom(s)
  {
    hide Utf8.IJson, TreeText, ValidTree;
    BlankIJson(before);
    BlankIJson(after);
    TreeIJson(t);
    TreeStarts(t);
    Utf8.IJsonConcat(TreeText(t), after);
    Utf8.IJsonConcat(before, TreeText(t) + after);
    assert s[0] == (if before == [] then TreeText(t)[0] else before[0]);
  }

  lemma {:induction false} SpellsParses(lib: FloatLibrary, limits: Limits, s: Bytes, before: Bytes, t: Tree, after: Bytes)
    requires Spells(s, before, t, after) && Within(limits, TreeValue(lib, t), |s|)
    ensures Parse(lib, limits, s) == Done(TreeValue(lib, t), |s|, Tokens(TreeValue(lib, t)))
  {
    hide Utf8.IJson, Utf8Problem, TreeText, ValidTree, TreeValue, Clean, Tokens, Depth, ReadValue, SkipSpace, Delimited, StartsWithBom;
    SpellsIJson(s, before, t, after);
    Utf8ProblemIff(s);
    var i := Item(before, t, after);
    assert s[0..|s|] == s;
    ItemAt(s, 0, i);
    SkipSpan(s, 0);
    TreeReads(lib, limits, s, |before|, t, 0, 1);
  }

  lemma {:induction false} ParsesSpells(lib: FloatLibrary, limits: Limits, s: Bytes) returns (before: Bytes, t: Tree, after: Bytes)
    requires Parse(lib, limits, s).Done?
    ensures Spells(s, before, t, after) && Within(limits, TreeValue(lib, t), |s|)
    ensures Parse(lib, limits, s) == Done(TreeValue(lib, t), |s|, Tokens(TreeValue(lib, t)))
  {
    hide Utf8Problem, TreeText, ValidTree, TreeValue, Clean, Tokens, Depth, ReadValue, SkipSpace, StartsWithBom;
    var p := SkipSpace(s, 0);
    SkipSpan(s, 0);
    t := ValueIsTree(lib, limits, s, p, 0, 1);
    var i := ItemRead(s, 0, t);
    before, after := i.before, i.after;
    assert s[0..|s|] == s;
  }

  /** A text of the grammar that stands for `v`, within the limits. */
  ghost predicate Accepts(lib: FloatLibrary, limits: Limits, s: Bytes, v: Value) {
    Within(limits, v, |s|) && exists before, t, after :: Spells(s, before, t, after) && TreeValue(lib, t) == v
  }

  /** The parser accepts exactly the texts of the grammar whose value and size are within the limits;
      it returns that value, and counts its values. */
  lemma {:induction false} ParseIff(lib: FloatLibrary, limits: Limits, s: Bytes, v: Value)
    ensures Parse(lib, limits, s) == Done(v, |s|, Tokens(v)) <==>
              Accepts(lib, limits, s, v)
    ensures Parse(lib, limits, s).Done? ==>
              Parse(lib, limits, s) == Done(Parse(lib, limits, s).value, |s|, Tokens(Parse(lib, limits, s).value))
  {
    hide Parse, Spells, Within, TreeValue, Tokens;
    if Parse(lib, limits, s).Done? {
      var before, t, after := ParsesSpells(lib, limits, s);
      assert Spells(s, before, t, after) && TreeValue(lib, t) == Parse(lib, limits, s).value;
    }
    if Within(limits, v, |s|) {
      if before, t, after :| Spells(s, before, t, after) && TreeValue(lib, t) == v {
        SpellsParses(lib, limits, s, before, t, after);
      }
    }
  }

  /** The same, as what it means to be accepted. */
  lemma {:induction false} ParseMeans(lib: FloatLibrary, limits: Limits, s: Bytes)
    ensures forall v :: (Parse(lib, limits, s).Done? && Parse(lib, limits, s).value == v) <==> Accepts(lib, limits, s, v)
  {
    hide Parse, Spells, Within, TreeValue;
    forall v ensures (Parse(lib, limits, s).Done? && Parse(lib, limits, s).value == v) <==> Accepts(lib, limits, s, v) {
      ParseIff(lib, limits, s, v);
    }
  }

  // ---- the limits ----

  function Wider(a: Limits, b: Limits): Limits {
    Limits(Max(a.maxBytes, b.maxBytes), Max(a.maxDepth, b.maxDepth), Max(a.maxTokens, b.maxTokens), Max(a.maxStringBytes, b.maxStringBytes))
  }

  lemma {:induction false} CleanWider(a: Limits, b: Limits, v: Value)
    requires Clean(a, v) && a.maxStringBytes <= b.maxStringBytes
    ensures Clean(b, v)
  {
    match v {
      case Array(items) => CleanAllWider(a, b, items);
      case Object(members) =>
        hide DistinctKeys;
        CleanMembersWider(a, b, members);
      case _ =>
    }
  }

  lemma {:induction false} CleanAllWider(a: Limits, b: Limits, vs: seq<Value>)
    requires CleanAll(a, vs) && a.maxStringBytes <= b.maxStringBytes
    ensures CleanAll(b, vs)
  {
    hide Clean;
    if vs != [] {
      CleanWider(a, b, vs[0]);
      CleanAllWider(a, b, vs[1..]);
    }
  }

  lemma {:induction false} CleanMembersWider(a: Limits, b: Limits, ms: seq<Member<Value>>)
    requires CleanMembers(a, ms) && a.maxStringBytes <= b.maxStringBytes
    ensures CleanMembers(b, ms)
  {
    hide Clean, Utf8.IJson;
    if ms != [] {
      CleanWider(a, b, ms[0].value);
      CleanMembersWider(a, b, ms[1..]);
    }
  }

  /** Wider limits change nothing about what is accepted already. */
  lemma {:induction false} ParseWider(lib: FloatLibrary, a: Limits, b: Limits, s: Bytes)
    requires Parse(lib, a, s).Done?
    ensures Parse(lib, Wider(a, b), s) == Parse(lib, a, s) && Parse(lib, Wider(b, a), s) == Parse(lib, a, s)
  {
    hide Parse, Spells, TreeValue, Tokens, Clean;
    var before, t, after := ParsesSpells(lib, a, s);
    CleanWider(a, Wider(a, b), TreeValue(lib, t));
    SpellsParses(lib, Wider(a, b), s, before, t, after);
  }

  /** A text that some limits admit is admitted by others exactly when its value and size are within
      them, and then as the same value. */
  lemma {:induction false} LimitsIff(lib: FloatLibrary, wide: Limits, limits: Limits, s: Bytes)
    requires Parse(lib, wide, s).Done?
    ensures Parse(lib, limits, s).Done? <==> Within(limits, Parse(lib, wide, s).value, |s|)
    ensures Parse(lib, limits, s).Done? ==> Parse(lib, limits, s) == Parse(lib, wide, s)
  {
    hide Parse, Spells, TreeValue, Within, Tokens, Wider;
    var before, t, after := ParsesSpells(lib, wide, s);
    if Parse(lib, limits, s).Done? {
      ParseWider(lib, wide, limits, s);
      ParseWider(lib, limits, wide, s);
      assert Parse(lib, limits, s) == Parse(lib, wide, s);
      var before', t', after' := ParsesSpells(lib, limits, s);
    }
    if Within(limits, TreeValue(lib, t), |s|) {
      SpellsParses(lib, limits, s, before, t, after);
    }
  }
}
