/** The bounded recursive-descent reader, and its inversion of the canonical writer. */
module JsonReader {
  import opened Prelude
  import opened KeyOrder
  import Utf8
  import opened Decimals
  import opened Json
  import opened JsonWriter

  datatype Read<+T> = Done(value: T, pos: nat, tokens: nat) | Failed(error: Error)

  datatype StringRead = Ended(text: Bytes, pos: nat) | BadString(error: Error)

  function SkipSpace(s: Bytes, p: nat): (r: nat)
    requires p <= |s|
    ensures p <= r <= |s|
    decreases |s| - p
  {
    if p < |s| && IsSpace(s[p]) then SkipSpace(s, p + 1) else p
  }

  // ---- strings ----

  datatype StringStep = Close | Emit(bytes: Bytes, next: nat) | Reject(error: Error)

  function HexNibble(b: int): (r: int)
    ensures r < 16
  {
    if 0x30 <= b <= 0x39 then b - 0x30
    else if 0x61 <= b <= 0x66 then b - 0x61 + 10
    else if 0x41 <= b <= 0x46 then b - 0x41 + 10
    else -1
  }

  /** parseHexUnit: four hexadecimal digits at `p`. */
  function HexUnit(s: Bytes, p: nat): (r: Option<nat>)
    ensures r.Some? ==> r.value < 0x1_0000
  {
    if p + 4 > |s| then None
    else
      var a, b, c, d := HexNibble(s[p]), HexNibble(s[p + 1]), HexNibble(s[p + 2]), HexNibble(s[p + 3]);
      if a < 0 || b < 0 || c < 0 || d < 0 then None
      else Some(((a * 16 + b) * 16 + c) * 16 + d)
  }

  predicate HighSurrogate(u: nat) { 0xd800 <= u <= 0xdbff }

  predicate LowSurrogate(u: nat) { 0xdc00 <= u <= 0xdfff }

  function EmitScalar(x: int, next: nat): StringStep
    requires Utf8.IsScalar(x)
  {
    if Utf8.IsNoncharacter(x) then Reject(Error.Noncharacter) else Emit(Utf8.Encode(x), next)
  }

  /** The escape whose `u` is just before `p`. */
  function UnicodeEscape(s: Bytes, p: nat): StringStep {
    match HexUnit(s, p)
    case None => Reject(InvalidString)
    case Some(u) =>
      if HighSurrogate(u) then
        if p + 10 > |s| || s[p + 4] != BACKSLASH || s[p + 5] != 0x75 then Reject(InvalidString)
        else
          match HexUnit(s, p + 6)
          case None => Reject(InvalidString)
          case Some(low) =>
            if !LowSurrogate(low) then Reject(InvalidString)
            else EmitScalar(0x1_0000 + (u - 0xd800) * 1024 + (low - 0xdc00), p + 10)
      else if LowSurrogate(u) then Reject(InvalidString)
      else EmitScalar(u, p + 4)
  }

  /** The escape whose backslash is just before `p`. */
  function EscapeStep(s: Bytes, p: nat): StringStep {
    if p >= |s| then Reject(InvalidString)
    else
      var e := s[p];
      if e == QUOTE || e == BACKSLASH || e == 0x2f then Emit([e], p + 1)
      else if e == 0x62 then Emit([0x08], p + 1)
      else if e == 0x66 then Emit([0x0c], p + 1)
      else if e == 0x6e then Emit([0x0a], p + 1)
      else if e == 0x72 then Emit([0x0d], p + 1)
      else if e == 0x74 then Emit([0x09], p + 1)
      else if e == 0x75 then UnicodeEscape(s, p + 1)
      else Reject(InvalidString)
  }

  /** One step of reading a string body at `p`. */
  function StepAt(s: Bytes, p: nat): (r: StringStep)
    requires p < |s|
    ensures r.Emit? ==> p < r.next <= |s|
  {
    var b := s[p];
    if b == QUOTE then Close
    else if b < 0x20 then Reject(InvalidString)
    else if b == BACKSLASH then EscapeStep(s, p + 1)
    else if b < 0x80 then Emit([b], p + 1)
    else
      match Utf8.DecodeFront(s[p..])
      case Malformed => Reject(InvalidUtf8)
      case Decoded(x, n) =>
        if Utf8.IsNoncharacter(x) then Reject(Error.Noncharacter)
        else
          Utf8.DecodeFrontIsPrefix(s[p..]);
          Emit(s[p..p + n], p + n)
  }

  function ReadBody(limits: Limits, s: Bytes, p: nat, text: Bytes): (r: StringRead)
    requires p <= |s|
    ensures r.Ended? ==> p < r.pos <= |s|
    decreases |s| - p
  {
    if p == |s| then BadString(InvalidString)
    else
      match StepAt(s, p)
      case Close => if |text| > limits.maxStringBytes then BadString(StringLimit) else Ended(text, p + 1)
      case Reject(e) => BadString(e)
      case Emit(bytes, next) =>
        if |text + bytes| > limits.maxStringBytes then BadString(StringLimit)
        else ReadBody(limits, s, next, text + bytes)
  }

  function ReadString(limits: Limits, s: Bytes, p: nat): (r: StringRead)
    requires p <= |s|
    ensures r.Ended? ==> p < r.pos <= |s|
  {
    if !At(s, p, QUOTE) then BadString(InvalidString) else ReadBody(limits, s, p + 1, [])
  }

  // ---- values ----

  function ReadLiteral(s: Bytes, p: nat, tokens: nat, text: Bytes, v: Value): Read<Value> {
    if Occurs(s, p, text) then Done(v, p + |text|, tokens) else Failed(InvalidSyntax)
  }

  function ReadNumber(lib: FloatLibrary, s: Bytes, p: nat, tokens: nat): Read<Value>
    requires p <= |s|
  {
    match ScanNumber(s, p)
    case NotANumber => Failed(InvalidNumber)
    case Scanned(end, d) =>
      var n := lib.strtod(d);
      if n.Finite? then Done(Number(n), end, tokens) else Failed(InvalidNumber)
  }

  /** Parser::parseValue. */
  function ReadValue(lib: FloatLibrary, limits: Limits, s: Bytes, p: nat, tokens: nat, depth: nat): (r: Read<Value>)
    requires p <= |s|
    ensures r.Done? ==> p < r.pos <= |s|
    decreases |s| - p, 0
  {
    if depth > limits.maxDepth then Failed(DepthLimit)
    else if tokens + 1 > limits.maxTokens then Failed(TokenLimit)
    else
      var q := SkipSpace(s, p);
      if q == |s| then Failed(InvalidSyntax)
      else if s[q] == 0x6e then ReadLiteral(s, q, tokens + 1, NULL_TEXT, Null)
      else if s[q] == 0x74 then ReadLiteral(s, q, tokens + 1, TRUE_TEXT, Boolean(true))
      else if s[q] == 0x66 then ReadLiteral(s, q, tokens + 1, FALSE_TEXT, Boolean(false))
      else if s[q] == QUOTE then
        match ReadString(limits, s, q)
        case BadString(e) => Failed(e)
        case Ended(text, next) => Done(String(text), next, tokens + 1)
      else if s[q] == OPEN_ARRAY then
        var a := SkipSpace(s, q + 1);
        if At(s, a, CLOSE_ARRAY) then Done(Array([]), a + 1, tokens + 1)
        else
          match ReadItems(lib, limits, s, a, tokens + 1, depth, [])
          case Failed(e) => Failed(e)
          case Done(items, next, t) => Done(Array(items), next, t)
      else if s[q] == OPEN_OBJECT then
        var a := SkipSpace(s, q + 1);
        if At(s, a, CLOSE_OBJECT) then Done(Object([]), a + 1, tokens + 1)
        else
          match ReadMembers(lib, limits, s, a, tokens + 1, depth, [])
          case Failed(e) => Failed(e)
          case Done(members, next, t) => Done(Object(members), next, t)
      else ReadNumber(lib, s, q, tokens + 1)
  }

  /** The elements of an array up to its closing bracket. */
  function ReadItems(lib: FloatLibrary, limits: Limits, s: Bytes, p: nat, tokens: nat, depth: nat, items: seq<Value>): (r: Read<seq<Value>>)
    requires p <= |s|
    ensures r.Done? ==> p < r.pos <= |s|
    decreases |s| - p, 1
  {
    match ReadValue(lib, limits, s, p, tokens, depth + 1)
    case Failed(e) => Failed(e)
    case Done(v, next, t) =>
      var q := SkipSpace(s, next);
      if At(s, q, CLOSE_ARRAY) then Done(items + [v], q + 1, t)
      else if At(s, q, COMMA) then ReadItems(lib, limits, s, q + 1, t, depth, items + [v])
      else Failed(InvalidSyntax)
  }

  predicate HasKey(members: seq<Member<Value>>, key: Bytes) {
    exists i :: 0 <= i < |members| && members[i].key == key
  }

  /** A name not read before, a colon and a value. */
  function ReadMember(lib: FloatLibrary, limits: Limits, s: Bytes, p: nat, tokens: nat, depth: nat, members: seq<Member<Value>>): (r: Read<Member<Value>>)
    requires p <= |s|
    ensures r.Done? ==> p < r.pos <= |s|
    decreases |s| - p, 1
  {
    var a := SkipSpace(s, p);
    if !At(s, a, QUOTE) then Failed(InvalidSyntax)
    else
      match ReadString(limits, s, a)
      case BadString(e) => Failed(e)
      case Ended(key, b) =>
        if HasKey(members, key) then Failed(DuplicateKey)
        else
          var c := SkipSpace(s, b);
          if !At(s, c, COLON) then Failed(InvalidSyntax)
          else
            match ReadValue(lib, limits, s, c + 1, tokens, depth + 1)
            case Failed(e) => Failed(e)
            case Done(v, next, t) => Done(Member(key, v), next, t)
  }

  /** The members of an object up to its closing brace. */
  function ReadMembers(lib: FloatLibrary, limits: Limits, s: Bytes, p: nat, tokens: nat, depth: nat, members: seq<Member<Value>>): (r: Read<seq<Member<Value>>>)
    requires p <= |s|
    ensures r.Done? ==> p < r.pos <= |s|
    decreases |s| - p, 2
  {
    match ReadMember(lib, limits, s, p, tokens, depth, members)
    case Failed(e) => Failed(e)
    case Done(m, next, t) =>
      var q := SkipSpace(s, next);
      if At(s, q, CLOSE_OBJECT) then Done(members + [m], q + 1, t)
      else if At(s, q, COMMA) then ReadMembers(lib, limits, s, q + 1, t, depth, members + [m])
      else Failed(InvalidSyntax)
  }

  predicate StartsWithBom(s: Bytes) { |s| >= 3 && s[0] == 0xef && s[1] == 0xbb && s[2] == 0xbf }

  /** parse_json. */
  function Parse(lib: FloatLibrary, limits: Limits, s: Bytes): Read<Value> {
    if |s| > limits.maxBytes then Failed(ByteLimit)
    else if StartsWithBom(s) then Failed(InvalidSyntax)
    else
      match Utf8Problem(s)
      case Some(e) => Failed(e)
      case None =>
        match ReadValue(lib, limits, s, SkipSpace(s, 0), 0, 1)
        case Failed(e) => Failed(e)
        case Done(v, next, t) =>
          var q := SkipSpace(s, next);
          if q != |s| then Failed(TrailingData) else Done(v, q, t)
  }

  /** parse_exact_jcs: accepted only if serializing again gives the same bytes. */
  function ParseExact(lib: FloatLibrary, limits: Limits, s: Bytes): Read<Value> {
    match Parse(lib, limits, s)
    case Failed(e) => Failed(e)
    case Done(v, next, t) =>
      match Serialize(lib, limits, v)
      case Refused(e) => Failed(e)
      case Wrote(out, _) => if out != s then Failed(NotCanonical) else Done(v, next, t)
  }
}
