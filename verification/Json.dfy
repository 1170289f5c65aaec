/**
 JSON values, their canonical text (sections 3.2.2 and 3.2.3 of RFC 8785), and the
 order-insensitive facts about values that both sides of the round trip count.
 */
module Json {
  import opened Prelude
  import opened KeyOrder
  import Utf8
  import opened Decimals

  datatype Error =
    | ByteLimit | DepthLimit | TokenLimit | StringLimit
    | InvalidUtf8 | InvalidSyntax | InvalidString | InvalidNumber
    | NonFiniteNumber | Noncharacter | DuplicateKey | TrailingData | NotCanonical

  datatype Limits = Limits(maxBytes: nat, maxDepth: nat, maxTokens: nat, maxStringBytes: nat)

  datatype Value =
    | Null
    | Boolean(b: bool)
    | Number(n: Double)
    | String(s: Bytes)
    | Array(items: seq<Value>)
    | Object(members: seq<Member<Value>>)

  const QUOTE: Byte := 0x22
  const BACKSLASH: Byte := 0x5c
  const COMMA: Byte := 0x2c
  const COLON: Byte := 0x3a
  const OPEN_ARRAY: Byte := 0x5b
  const CLOSE_ARRAY: Byte := 0x5d
  const OPEN_OBJECT: Byte := 0x7b
  const CLOSE_OBJECT: Byte := 0x7d

  predicate IsSpace(b: Byte) { b == 0x20 || b == 0x09 || b == 0x0a || b == 0x0d }

  const NULL_TEXT: Bytes := [0x6e, 0x75, 0x6c, 0x6c]
  const TRUE_TEXT: Bytes := [0x74, 0x72, 0x75, 0x65]
  const FALSE_TEXT: Bytes := [0x66, 0x61, 0x6c, 0x73, 0x65]

  // ---- strings ----

  function HexDigit(n: nat): Byte
    requires n < 16
  {
    if n < 10 then 0x30 + n else 0x61 + n - 10
  }

  /** How one byte of a string is written. */
  function Escape(b: Byte): (r: Bytes)
    ensures r != []
  {
    if b == QUOTE || b == BACKSLASH then [BACKSLASH, b]
    else if b == 0x08 then [BACKSLASH, 0x62]
    else if b == 0x09 then [BACKSLASH, 0x74]
    else if b == 0x0a then [BACKSLASH, 0x6e]
    else if b == 0x0c then [BACKSLASH, 0x66]
    else if b == 0x0d then [BACKSLASH, 0x72]
    else if b < 0x20 then [BACKSLASH, 0x75, 0x30, 0x30, HexDigit(b / 16), HexDigit(b % 16)]
    else [b]
  }

  function EscapeAll(s: Bytes): Bytes {
    if s == [] then [] else Escape(s[0]) + EscapeAll(s[1..])
  }

  function StringText(s: Bytes): Bytes {
    [QUOTE] + (EscapeAll(s) + [QUOTE])
  }

  // ---- text ----

  function NumberText(lib: FloatLibrary, n: Double): Bytes {
    if n.Finite? && (n.magnitude != 0 ==> WellFormedShortest(lib.toChars(n))) then FormatNumber(lib, n) else []
  }

  function Comma(first: bool): Bytes { if first then [] else [COMMA] }

  /** The canonical text of a value. */
  function Text(lib: FloatLibrary, v: Value): Bytes {
    match v
    case Null => NULL_TEXT
    case Boolean(b) => if b then TRUE_TEXT else FALSE_TEXT
    case Number(n) => NumberText(lib, n)
    case String(s) => StringText(s)
    case Array(items) => [OPEN_ARRAY] + (ItemsText(lib, items, true) + [CLOSE_ARRAY])
    case Object(members) => [OPEN_OBJECT] + (PairsText(Sort(MemberTexts(lib, members)), true) + [CLOSE_OBJECT])
  }

  function ItemsText(lib: FloatLibrary, vs: seq<Value>, first: bool): Bytes {
    if vs == [] then [] else Comma(first) + (Text(lib, vs[0]) + ItemsText(lib, vs[1..], false))
  }

  function MemberTexts(lib: FloatLibrary, ms: seq<Member<Value>>): (r: seq<Member<Bytes>>)
    ensures |r| == |ms|
  {
    if ms == [] then [] else [Member(ms[0].key, Text(lib, ms[0].value))] + MemberTexts(lib, ms[1..])
  }

  function PairText(m: Member<Bytes>): Bytes {
    StringText(m.key) + ([COLON] + m.value)
  }

  function PairsText(ms: seq<Member<Bytes>>, first: bool): Bytes {
    if ms == [] then [] else Comma(first) + (PairText(ms[0]) + PairsText(ms[1..], false))
  }

  // ---- canonical values ----

  function CanonNumber(n: Double): Double {
    if n.Finite? && n.magnitude == 0 then Finite(false, 0) else n
  }

  /** The value a canonical text stands for: members in order, -0 read as 0. */
  function Canon(v: Value): Value {
    match v
    case Number(n) => Number(CanonNumber(n))
    case Array(items) => Array(CanonAll(items))
    case Object(members) => Object(Sort(CanonMembers(members)))
    case _ => v
  }

  function CanonAll(vs: seq<Value>): (r: seq<Value>)
    ensures |r| == |vs|
  {
    if vs == [] then [] else [Canon(vs[0])] + CanonAll(vs[1..])
  }

  function CanonMembers(ms: seq<Member<Value>>): (r: seq<Member<Value>>)
    ensures |r| == |ms|
    ensures forall i :: 0 <= i < |ms| ==> r[i].key == ms[i].key
  {
    if ms == [] then [] else [Member(ms[0].key, Canon(ms[0].value))] + CanonMembers(ms[1..])
  }

  // ---- measures ----

  /** Number of values in `v`, itself included. */
  function Tokens(v: Value): (n: nat)
    ensures n >= 1
  {
    match v
    case Array(items) => 1 + TokensAll(items)
    case Object(members) => 1 + TokensMembers(members)
    case _ => 1
  }

  function TokensAll(vs: seq<Value>): nat {
    if vs == [] then 0 else Tokens(vs[0]) + TokensAll(vs[1..])
  }

  function TokensMembers(ms: seq<Member<Value>>): nat {
    if ms == [] then 0 else Tokens(ms[0].value) + TokensMembers(ms[1..])
  }

  function Max(a: nat, b: nat): nat { if a < b then b else a }

  function Depth(v: Value): (n: nat)
    ensures n >= 1
  {
    match v
    case Array(items) => 1 + DepthAll(items)
    case Object(members) => 1 + DepthMembers(members)
    case _ => 1
  }

  function DepthAll(vs: seq<Value>): nat {
    if vs == [] then 0 else Max(Depth(vs[0]), DepthAll(vs[1..]))
  }

  function DepthMembers(ms: seq<Member<Value>>): nat {
    if ms == [] then 0 else Max(Depth(ms[0].value), DepthMembers(ms[1..]))
  }

  predicate CleanString(limits: Limits, s: Bytes) {
    |s| <= limits.maxStringBytes && Utf8.IJson(s)
  }

  /** Finite numbers, permitted strings, distinct names, at every depth. */
  predicate Clean(limits: Limits, v: Value) {
    match v
    case Number(n) => n.Finite?
    case String(s) => CleanString(limits, s)
    case Array(items) => CleanAll(limits, items)
    case Object(members) => DistinctKeys(members) && CleanMembers(limits, members)
    case _ => true
  }

  predicate CleanAll(limits: Limits, vs: seq<Value>) {
    vs == [] || (Clean(limits, vs[0]) && CleanAll(limits, vs[1..]))
  }

  predicate CleanMembers(limits: Limits, ms: seq<Member<Value>>) {
    ms == [] || (CleanString(limits, ms[0].key) && Clean(limits, ms[0].value) && CleanMembers(limits, ms[1..]))
  }

  /** Everything a serialization needs, starting `depth` deep after `bytes` bytes and `tokens` values. */
  predicate Fits(lib: FloatLibrary, limits: Limits, v: Value, depth: nat, bytes: nat, tokens: nat) {
    && Clean(limits, v)
    && depth + Depth(v) <= limits.maxDepth + 1
    && tokens + Tokens(v) <= limits.maxTokens
    && bytes + |Text(lib, v)| <= limits.maxBytes
  }

  // ---- sorting commutes with everything that looks at one member at a time ----

  lemma {:induction false} CleanMembersKeys(limits: Limits, ms: seq<Member<Value>>)
    requires CleanMembers(limits, ms)
    ensures ValidKeys(ms)
  {
    if ms != [] {
      CleanMembersKeys(limits, ms[1..]);
      assert ms == [ms[0]] + ms[1..];
    }
  }

  lemma {:induction false} InsertCommutes(lib: FloatLibrary, m: Member<Value>, ms: seq<Member<Value>>)
    ensures MemberTexts(lib, Insert(m, ms)) == Insert(Member(m.key, Text(lib, m.value)), MemberTexts(lib, ms))
    ensures CanonMembers(Insert(m, ms)) == Insert(Member(m.key, Canon(m.value)), CanonMembers(ms))
  {
    hide Before, Text, Canon;
    var r := Insert(m, ms);
    if ms == [] || Before(m.key, ms[0].key) {
      assert r == [m] + ms && r[1..] == ms;
    } else {
      InsertCommutes(lib, m, ms[1..]);
      assert r[0] == ms[0] && r[1..] == Insert(m, ms[1..]);
      assert MemberTexts(lib, ms)[1..] == MemberTexts(lib, ms[1..]);
      assert CanonMembers(ms)[1..] == CanonMembers(ms[1..]);
    }
  }

  lemma {:induction false} SortCommutes(lib: FloatLibrary, ms: seq<Member<Value>>)
    ensures MemberTexts(lib, Sort(ms)) == Sort(MemberTexts(lib, ms))
    ensures CanonMembers(Sort(ms)) == Sort(CanonMembers(ms))
  {
    hide Before, Text, Canon, Insert;
    if ms != [] {
      SortCommutes(lib, ms[1..]);
      InsertCommutes(lib, ms[0], Sort(ms[1..]));
      assert MemberTexts(lib, ms)[1..] == MemberTexts(lib, ms[1..]);
      assert CanonMembers(ms)[1..] == CanonMembers(ms[1..]);
    }
  }

  lemma {:induction false} InsertMeasures(limits: Limits, m: Member<Value>, ms: seq<Member<Value>>)
    ensures TokensMembers(Insert(m, ms)) == Tokens(m.value) + TokensMembers(ms)
    ensures DepthMembers(Insert(m, ms)) == Max(Depth(m.value), DepthMembers(ms))
    ensures CleanMembers(limits, Insert(m, ms)) <==>
              CleanString(limits, m.key) && Clean(limits, m.value) && CleanMembers(limits, ms)
  {
    hide Before, Tokens, Depth, Clean, CleanString;
    var r := Insert(m, ms);
    if ms == [] || Before(m.key, ms[0].key) {
      assert r == [m] + ms && r[1..] == ms;
    } else {
      InsertMeasures(limits, m, ms[1..]);
      assert r[0] == ms[0] && r[1..] == Insert(m, ms[1..]);
    }
  }

  lemma {:induction false} SortMeasures(limits: Limits, ms: seq<Member<Value>>)
    ensures TokensMembers(Sort(ms)) == TokensMembers(ms)
    ensures DepthMembers(Sort(ms)) == DepthMembers(ms)
    ensures CleanMembers(limits, Sort(ms)) <==> CleanMembers(limits, ms)
  {
    hide Before, Tokens, Depth, Clean, CleanString, Insert;
    if ms != [] {
      SortMeasures(limits, ms[1..]);
      InsertMeasures(limits, ms[0], Sort(ms[1..]));
    }
  }
}
