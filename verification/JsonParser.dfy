/** The parser object: a position and a token count advanced in place. */
module JsonParser {
  import opened Prelude
  import opened KeyOrder
  import Utf8
  import opened DecimalText
  import opened Decimals
  import opened Json
  import opened JsonWriter
  import opened JsonReader
  import opened JsonLanguage
  import JsonSerializer

  type Outcome<+T> = Fallible<T, Error>

  lemma {:induction false} NothingToScan(s: Bytes)
    ensures ScanWhole(s, |s|).None?
  {
  }

  class Parser {
    const lib: FloatLibrary
    const limits: Limits
    const input: Bytes
    var position: nat
    var tokens: nat

    constructor (lib: FloatLibrary, limits: Limits, input: Bytes)
      ensures this.lib == lib && this.limits == limits && this.input == input
      ensures position == 0 && tokens == 0
    {
      this.lib, this.limits, this.input, position, tokens := lib, limits, input, 0, 0;
    }

    method SkipWhitespace()
      requires position <= |input|
      modifies this`position
      ensures position == SkipSpace(input, old(position))
    {
      while position < |input| && IsSpace(input[position])
        invariant old(position) <= position <= |input|
        invariant SkipSpace(input, position) == SkipSpace(input, old(position))
      {
        position := position + 1;
      }
    }

    method Consume(expected: Byte) returns (found: bool)
      modifies this`position
      ensures found == At(input, old(position), expected)
      ensures position == if found then old(position) + 1 else old(position)
    {
      found := position < |input| && input[position] == expected;
      if found {
        position := position + 1;
      }
    }

    method ParseHexUnit() returns (unit: Option<nat>)
      requires position <= |input|
      modifies this`position
      ensures unit == HexUnit(input, old(position))
      ensures unit.Some? ==> position == old(position) + 4 <= |input|
    {
      if |input| - position < 4 {
        return None;
      }
      var value := 0;
      ghost var p := position;
      ghost var d := [HexNibble(input[p]), HexNibble(input[p + 1]), HexNibble(input[p + 2]), HexNibble(input[p + 3])];
      var i := 0;
      while i < 4
        invariant 0 <= i <= 4 && position == p + i
        invariant forall k :: 0 <= k < i ==> d[k] >= 0
        invariant 0 <= value && value == (
          if i == 0 then 0 else if i == 1 then d[0] else if i == 2 then d[0] * 16 + d[1]
          else if i == 3 then (d[0] * 16 + d[1]) * 16 + d[2]
          else ((d[0] * 16 + d[1]) * 16 + d[2]) * 16 + d[3])
      {
        var nibble := HexNibble(input[position]);
        assert nibble == d[i];
        position := position + 1;
        if nibble < 0 {
          return None;
        }
        value := value * 16 + nibble;
        i := i + 1;
      }
      return Some(value);
    }

    /** The escape after a backslash. */
    method ParseEscape() returns (step: StringStep)
      requires position <= |input|
      modifies this`position
      ensures step == EscapeStep(input, old(position)) && !step.Close?
      ensures step.Emit? ==> position == step.next
    {
      hide HexUnit;
      if position >= |input| {
        return Reject(InvalidString);
      }
      var escaped := input[position];
      position := position + 1;
      if escaped == QUOTE || escaped == BACKSLASH || escaped == 0x2f {
        return Emit([escaped], position);
      } else if escaped == 0x62 {
        return Emit([0x08], position);
      } else if escaped == 0x66 {
        return Emit([0x0c], position);
      } else if escaped == 0x6e {
        return Emit([0x0a], position);
      } else if escaped == 0x72 {
        return Emit([0x0d], position);
      } else if escaped == 0x74 {
        return Emit([0x09], position);
      } else if escaped != 0x75 {
        return Reject(InvalidString);
      }
      var unit := ParseHexUnit();
      if unit == None {
        return Reject(InvalidString);
      }
      var scalar: int := unit.value;
      if HighSurrogate(scalar) {
        if |input| - position < 6 || input[position] != BACKSLASH || input[position + 1] != 0x75 {
          return Reject(InvalidString);
        }
        position := position + 2;
        var low := ParseHexUnit();
        if low == None || !LowSurrogate(low.value) {
          return Reject(InvalidString);
        }
        scalar := 0x1_0000 + (scalar - 0xd800) * 1024 + (low.value - 0xdc00);
      } else if LowSurrogate(scalar) {
        return Reject(InvalidString);
      }
      if Utf8.IsNoncharacter(scalar) {
        return Reject(Error.Noncharacter);
      }
      return Emit(Utf8.Encode(scalar), position);
    }

    /** One step of a string body: the closing quote, an escape, or a scalar. */
    method ParseStep() returns (step: StringStep)
      requires position < |input|
      modifies this`position
      ensures step == StepAt(input, old(position))
      ensures match step
              case Emit(_, next) => position == next
              case Close => position == old(position) + 1
              case Reject(_) => true
    {
      hide EscapeStep;
      var byte := input[position];
      if byte == QUOTE {
        position := position + 1;
        return Close;
      }
      if byte < 0x20 {
        return Reject(InvalidString);
      }
      if byte == BACKSLASH {
        position := position + 1;
        step := ParseEscape();
      } else if byte < 0x80 {
        position := position + 1;
        return Emit([byte], position);
      } else {
        var begin := position;
        var ok, next, scalar := Utf8.DecodeStep(input, position);
        if !ok {
          return Reject(InvalidUtf8);
        }
        position := next;
        if Utf8.IsNoncharacter(scalar) {
          return Reject(Error.Noncharacter);
        }
        return Emit(input[begin..position], position);
      }
    }

    method ParseString() returns (r: Outcome<Bytes>)
      requires position <= |input|
      modifies this`position
      ensures match ReadString(limits, input, old(position))
              case Ended(text, next) => r == Ok(text) && position == next
              case BadString(e) => r == Fail(e)
    {
      hide StepAt;
      var quoted := Consume(QUOTE);
      if !quoted {
        return Fail(InvalidString);
      }
      var output: Bytes := [];
      ghost var start := position;
      while position < |input|
        invariant start <= position <= |input|
        invariant ReadBody(limits, input, position, output) == ReadBody(limits, input, start, [])
        decreases |input| - position
      {
        var step := ParseStep();
        match step {
          case Close =>
            if |output| > limits.maxStringBytes {
              return Fail(StringLimit);
            }
            return Ok(output);
          case Reject(e) =>
            return Fail(e);
          case Emit(bytes, _) =>
            output := output + bytes;
        }
        if |output| > limits.maxStringBytes {
          return Fail(StringLimit);
        }
      }
      return Fail(InvalidString);
    }

    method SkipDigits()
      requires position <= |input|
      modifies this`position
      ensures position == DigitsEnd(input, old(position))
    {
      while position < |input| && IsDigit(input[position])
        invariant old(position) <= position <= |input|
        invariant DigitsEnd(input, position) == DigitsEnd(input, old(position))
      {
        position := position + 1;
      }
    }

    method ScanWholePart() returns (ok: bool)
      requires position <= |input|
      modifies this`position
      ensures ok == ScanWhole(input, old(position)).Some?
      ensures ok ==> position == ScanWhole(input, old(position)).value
    {
      var zero := Consume(0x30);
      if zero {
        return !DigitAt(input, position);
      }
      if position >= |input| || input[position] < 0x31 || input[position] > 0x39 {
        return false;
      }
      SkipDigits();
      return true;
    }

    method ScanFractionPart() returns (ok: bool)
      requires position <= |input|
      modifies this`position
      ensures ok == ScanFraction(input, old(position)).Some?
      ensures ok ==> position == ScanFraction(input, old(position)).value
    {
      var dot := Consume(0x2e);
      if dot {
        if !DigitAt(input, position) {
          return false;
        }
        SkipDigits();
      }
      return true;
    }

    method ScanExponentPart() returns (ok: bool, exponent: int)
      requires position <= |input|
      modifies this`position
      ensures ok == ScanExponent(input, old(position)).Some?
      ensures ok ==> ScanExponent(input, old(position)).value == (position, exponent)
    {
      hide DecimalValue;
      exponent := 0;
      if position < |input| && (input[position] == 0x65 || input[position] == 0x45) {
        position := position + 1;
        var minus := At(input, position, 0x2d);
        if At(input, position, 0x2b) || minus {
          position := position + 1;
        }
        if !DigitAt(input, position) {
          return false, 0;
        }
        var digits := position;
        SkipDigits();
        exponent := DecimalValue(input[digits..position]);
        if minus {
          exponent := -exponent;
        }
      }
      return true, exponent;
    }

    method ParseNumber() returns (r: Outcome<Value>)
      requires position <= |input|
      modifies this`position
      ensures match ReadNumber(lib, input, old(position), tokens)
              case Done(v, next, _) => r == Ok(v) && position == next
              case Failed(e) => r == Fail(e)
    {
      hide DecimalValue, ScanWhole, ScanFraction, ScanExponent;
      var negative := Consume(0x2d);
      if negative && position >= |input| {
        NothingToScan(input);
        return Fail(InvalidNumber);
      }
      var wholeBegin := position;
      var ok := ScanWholePart();
      if !ok {
        return Fail(InvalidNumber);
      }
      var wholeEnd := position;
      ok := ScanFractionPart();
      if !ok {
        return Fail(InvalidNumber);
      }
      var fractionEnd := position;
      var exponent;
      ok, exponent := ScanExponentPart();
      if !ok {
        return Fail(InvalidNumber);
      }
      var fraction := if fractionEnd > wholeEnd then input[wholeEnd + 1..fractionEnd] else [];
      var value := lib.strtod(Decimal(negative, DecimalValue(input[wholeBegin..wholeEnd] + fraction), exponent - |fraction|));
      if !value.Finite? {
        return Fail(InvalidNumber);
      }
      return Ok(Number(value));
    }

    method Literal(expected: Bytes, value: Value) returns (r: Outcome<Value>)
      requires position <= |input|
      modifies this`position
      ensures match ReadLiteral(input, old(position), tokens, expected, value)
              case Done(v, next, _) => r == Ok(v) && position == next
              case Failed(e) => r == Fail(e)
    {
      if |input| - position < |expected| || input[position..position + |expected|] != expected {
        return Fail(InvalidSyntax);
      }
      position := position + |expected|;
      return Ok(value);
    }

    method ParseValue(depth: nat) returns (r: Outcome<Value>)
      requires position <= |input|
      modifies this
      ensures match ReadValue(lib, limits, input, old(position), old(tokens), depth)
              case Done(v, next, count) => r == Ok(v) && position == next && tokens == count
              case Failed(e) => r == Fail(e)
      decreases |input| - position, 0
    {
      if depth > limits.maxDepth {
        return Fail(DepthLimit);
      }
      tokens := tokens + 1;
      if tokens > limits.maxTokens {
        return Fail(TokenLimit);
      }
      SkipWhitespace();
      if position >= |input| {
        return Fail(InvalidSyntax);
      }
      var byte := input[position];
      if byte == 0x6e {
        r := Literal(NULL_TEXT, Null);
      } else if byte == 0x74 {
        r := Literal(TRUE_TEXT, Boolean(true));
      } else if byte == 0x66 {
        r := Literal(FALSE_TEXT, Boolean(false));
      } else if byte == QUOTE {
        var text := ParseString();
        match text
        case Fail(e) => return Fail(e);
        case Ok(s) => return Ok(String(s));
      } else if byte == OPEN_ARRAY {
        r := ParseArray(depth);
      } else if byte == OPEN_OBJECT {
        r := ParseObject(depth);
      } else {
        r := ParseNumber();
      }
    }

    method ParseArray(depth: nat) returns (r: Outcome<Value>)
      requires position < |input|
      modifies this
      ensures var a := SkipSpace(input, old(position) + 1);
              if At(input, a, CLOSE_ARRAY) then
                r == Ok(Array([])) && position == a + 1 && tokens == old(tokens)
              else
                match ReadItems(lib, limits, input, a, old(tokens), depth, [])
                case Done(items, next, count) => r == Ok(Array(items)) && position == next && tokens == count
                case Failed(e) => r == Fail(e)
      decreases |input| - position - 1, 2
    {
      hide ReadValue;
      position := position + 1;
      var values: seq<Value> := [];
      SkipWhitespace();
      var closed := Consume(CLOSE_ARRAY);
      if closed {
        return Ok(Array(values));
      }
      ghost var a, t := position, tokens;
      while true
        invariant a <= position <= |input|
        invariant ReadItems(lib, limits, input, position, tokens, depth, values) == ReadItems(lib, limits, input, a, t, depth, [])
        decreases |input| - position
      {
        ghost var before := position;
        var value := ParseValue(depth + 1);
        if value.Fail? {
          return Fail(value.error);
        }
        values := values + [value.value];
        SkipWhitespace();
        closed := Consume(CLOSE_ARRAY);
        if closed {
          return Ok(Array(values));
        }
        var more := Consume(COMMA);
        if !more {
          return Fail(InvalidSyntax);
        }
      }
    }

    method ParseMember(depth: nat, members: seq<Member<Value>>) returns (r: Outcome<Member<Value>>)
      requires position <= |input|
      modifies this
      ensures match ReadMember(lib, limits, input, old(position), old(tokens), depth, members)
              case Done(m, next, count) => r == Ok(m) && position == next && tokens == count
              case Failed(e) => r == Fail(e)
      decreases |input| - position, 1
    {
      hide ReadValue, ReadString, HasKey;
      SkipWhitespace();
      if position >= |input| || input[position] != QUOTE {
        return Fail(InvalidSyntax);
      }
      var key := ParseString();
      if key.Fail? {
        return Fail(key.error);
      }
      if HasKey(members, key.value) {
        return Fail(DuplicateKey);
      }
      SkipWhitespace();
      var colon := Consume(COLON);
      if !colon {
        return Fail(InvalidSyntax);
      }
      var value := ParseValue(depth + 1);
      if value.Fail? {
        return Fail(value.error);
      }
      return Ok(Member(key.value, value.value));
    }

    method ParseObject(depth: nat) returns (r: Outcome<Value>)
      requires position < |input|
      modifies this
      ensures var a := SkipSpace(input, old(position) + 1);
              if At(input, a, CLOSE_OBJECT) then
                r == Ok(Object([])) && position == a + 1 && tokens == old(tokens)
              else
                match ReadMembers(lib, limits, input, a, old(tokens), depth, [])
                case Done(members, next, count) => r == Ok(Object(members)) && position == next && tokens == count
                case Failed(e) => r == Fail(e)
      decreases |input| - position - 1, 3
    {
      hide ReadMember;
      position := position + 1;
      var members: seq<Member<Value>> := [];
      SkipWhitespace();
      var closed := Consume(CLOSE_OBJECT);
      if closed {
        return Ok(Object(members));
      }
      ghost var a, t := position, tokens;
      while true
        invariant a <= position <= |input|
        invariant ReadMembers(lib, limits, input, position, tokens, depth, members) == ReadMembers(lib, limits, input, a, t, depth, [])
        decreases |input| - position
      {
        var member := ParseMember(depth, members);
        if member.Fail? {
          return Fail(member.error);
        }
        members := members + [member.value];
        SkipWhitespace();
        closed := Consume(CLOSE_OBJECT);
        if closed {
          return Ok(Object(members));
        }
        var more := Consume(COMMA);
        if !more {
          return Fail(InvalidSyntax);
        }
      }
    }
  }

  /** The pass over the raw bytes that comes before any parsing. */
  method CheckUtf8(s: Bytes) returns (problem: Option<Error>)
    ensures problem == Utf8Problem(s)
  {
    var position := 0;
    assert s[0..] == s;
    while position < |s|
      invariant position <= |s|
      invariant Utf8Problem(s[position..]) == Utf8Problem(s)
    {
      var ok, next, scalar := Utf8.DecodeStep(s, position);
      if !ok {
        return Some(InvalidUtf8);
      }
      if Utf8.IsNoncharacter(scalar) {
        return Some(Error.Noncharacter);
      }
      assert s[position..][next - position..] == s[next..];
      position := next;
    }
    return None;
  }

  /** parse_json. */
  method ParseJson(lib: FloatLibrary, limits: Limits, s: Bytes) returns (r: Outcome<Value>)
    ensures match Parse(lib, limits, s)
            case Done(v, _, _) => r == Ok(v)
            case Failed(e) => r == Fail(e)
    ensures forall v :: r == Ok(v) <==> Accepts(lib, limits, s, v)
  {
    hide ReadValue, Accepts, Utf8Problem;
    ParseMeans(lib, limits, s);
    if |s| > limits.maxBytes {
      return Fail(ByteLimit);
    }
    if |s| >= 3 && s[0] == 0xef && s[1] == 0xbb && s[2] == 0xbf {
      return Fail(InvalidSyntax);
    }
    var problem := CheckUtf8(s);
    if problem != None {
      return Fail(problem.value);
    }
    var parser := new Parser(lib, limits, s);
    parser.SkipWhitespace();
    r := parser.ParseValue(1);
    if r.Fail? {
      return;
    }
    parser.SkipWhitespace();
    if parser.position != |s| {
      return Fail(TrailingData);
    }
  }

  /** parse_exact_jcs. */
  method ParseExactJcs(lib: FloatLibrary, limits: Limits, s: Bytes) returns (r: Outcome<Value>)
    ensures match ParseExact(lib, limits, s)
            case Done(v, _, _) => r == Ok(v)
            case Failed(e) => r == Fail(e)
  {
    r := ParseJson(lib, limits, s);
    if r.Fail? {
      return;
    }
    var serialized := JsonSerializer.SerializeJcs(lib, limits, r.value);
    match serialized {
      case Refused(e) => return Fail(e);
      case Wrote(canonical, _) =>
        if canonical != s {
          return Fail(NotCanonical);
        }
    }
  }
}
