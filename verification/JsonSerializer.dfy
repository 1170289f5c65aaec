/** The serializer object: an output buffer and a token count updated in place. */
module JsonSerializer {
  import opened Prelude
  import opened KeyOrder
  import Utf8
  import opened Decimals
  import opened Json
  import opened JsonWriter

  lemma {:induction false} ItemTokens(vs: seq<Value>, i: nat)
    requires i < |vs|
    ensures Tokens(vs[i]) <= TokensAll(vs)
    decreases i
  {
    if i > 0 {
      ItemTokens(vs[1..], i - 1);
    }
  }

  lemma {:induction false} MemberTokens(ms: seq<Member<Value>>, i: nat)
    requires i < |ms|
    ensures Tokens(ms[i].value) <= TokensMembers(ms)
    decreases i
  {
    if i > 0 {
      MemberTokens(ms[1..], i - 1);
    }
  }

  /** classifyInvalid. */
  method ClassifyInvalid(s: Bytes) returns (e: Error)
    ensures e == Classify(s)
  {
    var position := 0;
    assert s[0..] == s;
    while position < |s|
      invariant position <= |s|
      invariant Utf8Problem(s[position..]) == Utf8Problem(s)
    {
      var ok, next, scalar := Utf8.DecodeStep(s, position);
      if ok && Utf8.IsNoncharacter(scalar) {
        return Error.Noncharacter;
      }
      if !ok {
        return InvalidUtf8;
      }
      assert s[position..][next - position..] == s[next..];
      position := next;
    }
    return InvalidString;
  }

  class Serializer {
    const lib: FloatLibrary
    const limits: Limits
    var output: Bytes
    var tokens: nat

    constructor (lib: FloatLibrary, limits: Limits)
      ensures this.lib == lib && this.limits == limits && output == [] && tokens == 0
    {
      this.lib, this.limits, output, tokens := lib, limits, [], 0;
    }

    method Literal(text: Bytes) returns (error: Option<Error>)
      modifies this`output
      ensures match Put(limits, old(output), text)
              case None => error == Some(ByteLimit) && output == old(output)
              case Some(out) => error == None && output == out
    {
      if |output| > limits.maxBytes || |text| > limits.maxBytes - |output| {
        return Some(ByteLimit);
      }
      output := output + text;
      return None;
    }

    method AppendByte(byte: Byte) returns (error: Option<Error>)
      modifies this`output
      ensures match Put(limits, old(output), Escape(byte))
              case None => error == Some(ByteLimit)
              case Some(out) => error == None && output == out
    {
      if byte == QUOTE || byte == BACKSLASH {
        error := Literal([BACKSLASH, byte]);
      } else if byte == 0x08 {
        error := Literal([BACKSLASH, 0x62]);
      } else if byte == 0x09 {
        error := Literal([BACKSLASH, 0x74]);
      } else if byte == 0x0a {
        error := Literal([BACKSLASH, 0x6e]);
      } else if byte == 0x0c {
        error := Literal([BACKSLASH, 0x66]);
      } else if byte == 0x0d {
        error := Literal([BACKSLASH, 0x72]);
      } else if byte < 0x20 {
        error := Literal([BACKSLASH, 0x75, 0x30, 0x30, HexDigit(byte / 16), HexDigit(byte % 16)]);
      } else {
        if |output| + 1 > limits.maxBytes {
          return Some(ByteLimit);
        }
        output := output + [byte];
        return None;
      }
    }

    method AppendString(value: Bytes) returns (error: Option<Error>)
      modifies this`output
      ensures match WriteString(limits, old(output), value)
              case Stop(e) => error == Some(e)
              case Next(out) => error == None && output == out
    {
      if |value| > limits.maxStringBytes {
        return Some(StringLimit);
      }
      var valid := Utf8.ValidIJson(value);
      if !valid {
        var e := ClassifyInvalid(value);
        return Some(e);
      }
      error := Literal([QUOTE]);
      if error != None {
        return;
      }
      ghost var start := output;
      assert value[0..] == value;
      for i := 0 to |value|
        invariant PutEscaped(limits, output, value[i..]) == PutEscaped(limits, start, value)
      {
        error := AppendByte(value[i]);
        if error != None {
          return;
        }
        assert value[i..][1..] == value[i + 1..];
      }
      error := Literal([QUOTE]);
    }

    method CheckKeys(members: seq<Member<Value>>) returns (error: Option<Error>)
      ensures error == KeyProblem(members, 0)
    {
      for i := 0 to |members|
        invariant KeyProblem(members, i) == KeyProblem(members, 0)
      {
        var valid := Utf8.ValidIJson(members[i].key);
        if !valid {
          var e := ClassifyInvalid(members[i].key);
          return Some(e);
        }
        if exists j :: 0 <= j < i && members[j].key == members[i].key {
          return Some(DuplicateKey);
        }
      }
      return None;
    }

    method Append(value: Value, depth: nat) returns (error: Option<Error>)
      modifies this
      ensures match Write(lib, limits, value, depth, old(output), old(tokens))
              case Refused(e) => error == Some(e)
              case Wrote(out, count) => error == None && output == out && tokens == count
      decreases Tokens(value), 1
    {
      hide WriteItems, WriteMembers, WriteString, KeyProblem, Sort, NumberText, TokensAll, TokensMembers, DepthAll, DepthMembers, CleanMembers;
      if depth > limits.maxDepth {
        return Some(DepthLimit);
      }
      tokens := tokens + 1;
      if tokens > limits.maxTokens {
        return Some(TokenLimit);
      }
      match value {
        case Null => error := Literal(NULL_TEXT);
        case Boolean(b) => error := Literal(if b then TRUE_TEXT else FALSE_TEXT);
        case Number(n) =>
          if !n.Finite? {
            return Some(NonFiniteNumber);
          }
          error := Literal(NumberText(lib, n));
        case String(s) => error := AppendString(s);
        case Array(items) =>
          error := Literal([OPEN_ARRAY]);
          if error != None {
            return;
          }
          error := AppendItems(items, depth);
          if error == None {
            error := Literal([CLOSE_ARRAY]);
          }
        case Object(members) =>
          error := CheckKeys(members);
          if error != None {
            return;
          }
          var sorted := Sort(members);
          SortMeasures(limits, members);
          error := Literal([OPEN_OBJECT]);
          if error != None {
            return;
          }
          error := AppendMembers(sorted, depth);
          if error == None {
            error := Literal([CLOSE_OBJECT]);
          }
      }
    }

    method AppendItems(items: seq<Value>, depth: nat) returns (error: Option<Error>)
      modifies this
      ensures match WriteItems(lib, limits, items, true, depth, old(output), old(tokens))
              case Refused(e) => error == Some(e)
              case Wrote(out, count) => error == None && output == out && tokens == count
      decreases TokensAll(items), 2
    {
      var first := true;
      assert items[0..] == items;
      ghost var goal := WriteItems(lib, limits, items, true, depth, output, tokens);
      for i := 0 to |items|
        invariant first == (i == 0)
        invariant WriteItems(lib, limits, items[i..], first, depth, output, tokens) == goal
      {
        assert items[i..][1..] == items[i + 1..];
        if !first {
          error := Literal([COMMA]);
          if error != None {
            return;
          }
        }
        first := false;
        ItemTokens(items, i);
        error := Append(items[i], depth + 1);
        if error != None {
          return;
        }
      }
      return None;
    }

    method AppendMembers(sorted: seq<Member<Value>>, depth: nat) returns (error: Option<Error>)
      modifies this
      ensures match WriteMembers(lib, limits, sorted, true, depth, old(output), old(tokens))
              case Refused(e) => error == Some(e)
              case Wrote(out, count) => error == None && output == out && tokens == count
      decreases TokensMembers(sorted), 2
    {
      var first := true;
      assert sorted[0..] == sorted;
      ghost var goal := WriteMembers(lib, limits, sorted, true, depth, output, tokens);
      for i := 0 to |sorted|
        invariant first == (i == 0)
        invariant WriteMembers(lib, limits, sorted[i..], first, depth, output, tokens) == goal
      {
        assert sorted[i..][1..] == sorted[i + 1..];
        if !first {
          error := Literal([COMMA]);
          if error != None {
            return;
          }
        }
        first := false;
        error := AppendString(sorted[i].key);
        if error != None {
          return;
        }
        error := Literal([COLON]);
        if error != None {
          return;
        }
        MemberTokens(sorted, i);
        error := Append(sorted[i].value, depth + 1);
        if error != None {
          return;
        }
      }
      return None;
    }
  }

  /** serialize_jcs. */
  method SerializeJcs(lib: FloatLibrary, limits: Limits, value: Value) returns (result: Written)
    ensures result == Serialize(lib, limits, value)
  {
    var serializer := new Serializer(lib, limits);
    var error := serializer.Append(value, 1);
    match error
    case Some(e) => result := Refused(e);
    case None => result := Wrote(serializer.output, serializer.tokens);
  }
}
