/** The bounded canonical serializer, and exactly when it succeeds. */
module JsonWriter {
  import opened Prelude
  import opened KeyOrder
  import Utf8
  import opened Decimals
  import opened Json

  datatype Written = Wrote(output: Bytes, tokens: nat) | Refused(error: Error)

  /** Append `text` unless that would pass the byte limit. */
  function Put(limits: Limits, output: Bytes, text: Bytes): Option<Bytes> {
    if |output| > limits.maxBytes || |text| > limits.maxBytes - |output| then None else Some(output + text)
  }

  /** The separator before every element but the first. */
  function PutComma(limits: Limits, output: Bytes, first: bool): Option<Bytes> {
    if first then Some(output) else Put(limits, output, [COMMA])
  }

  lemma {:induction false} PutCommaIff(limits: Limits, output: Bytes, first: bool)
    requires |output| <= limits.maxBytes
    ensures PutComma(limits, output, first) ==
              if |output| + |Comma(first)| <= limits.maxBytes then Some(output + Comma(first)) else None
  {
    assert output + [] == output;
  }

  /** The first decoding failure of a byte string, if any. */
  function Utf8Problem(s: Bytes): Option<Error>
    decreases |s|
  {
    if s == [] then None
    else
      match Utf8.DecodeFront(s)
      case Malformed => Some(InvalidUtf8)
      case Decoded(x, n) =>
        if Utf8.IsNoncharacter(x) then Some(Error.Noncharacter)
        else
          Utf8.DecodeFrontIsPrefix(s);
          Utf8Problem(s[n..])
  }

  lemma {:induction false} Utf8ProblemIff(s: Bytes)
    ensures Utf8Problem(s).None? <==> Utf8.IJson(s)
    decreases |s|
  {
    if s != [] {
      var d := Utf8.DecodeFront(s);
      if d.Decoded? && !Utf8.IsNoncharacter(d.scalar) {
        Utf8.IJsonStep(s);
        Utf8ProblemIff(s[d.length..]);
      } else if Utf8.IJson(s) {
        Utf8.IJsonFront(s);
      }
    }
  }

  function Classify(s: Bytes): Error {
    match Utf8Problem(s) case None => InvalidString case Some(e) => e
  }

  /** Escaped bytes appended one at a time. */
  function PutEscaped(limits: Limits, output: Bytes, s: Bytes): Option<Bytes>
    decreases |s|
  {
    if s == [] then Some(output)
    else
      match Put(limits, output, Escape(s[0]))
      case None => None
      case Some(out) => PutEscaped(limits, out, s[1..])
  }

  datatype Step = Next(output: Bytes) | Stop(error: Error)

  function WriteString(limits: Limits, output: Bytes, s: Bytes): Step {
    if |s| > limits.maxStringBytes then Stop(StringLimit)
    else if !Utf8.IJson(s) then Stop(Classify(s))
    else
      match Put(limits, output, [QUOTE])
      case None => Stop(ByteLimit)
      case Some(a) =>
        match PutEscaped(limits, a, s)
        case None => Stop(ByteLimit)
        case Some(b) =>
          match Put(limits, b, [QUOTE])
          case None => Stop(ByteLimit)
          case Some(c) => Next(c)
  }

  /** The first member name that is not permitted or repeats an earlier one. */
  function KeyProblem(ms: seq<Member<Value>>, i: nat): Option<Error>
    requires i <= |ms|
    decreases |ms| - i
  {
    if i == |ms| then None
    else if !Utf8.IJson(ms[i].key) then Some(Classify(ms[i].key))
    else if exists j :: 0 <= j < i && ms[j].key == ms[i].key then Some(DuplicateKey)
    else KeyProblem(ms, i + 1)
  }

  function Emit(limits: Limits, output: Bytes, tokens: nat, text: Bytes): Written {
    match Put(limits, output, text)
    case None => Refused(ByteLimit)
    case Some(out) => Wrote(out, tokens)
  }

  /** Serializer::append. */
  function Write(lib: FloatLibrary, limits: Limits, v: Value, depth: nat, output: Bytes, tokens: nat): Written
    decreases Tokens(v), 0, 0
  {
    if depth > limits.maxDepth then Refused(DepthLimit)
    else if tokens + 1 > limits.maxTokens then Refused(TokenLimit)
    else
      match v
      case Null => Emit(limits, output, tokens + 1, NULL_TEXT)
      case Boolean(b) => Emit(limits, output, tokens + 1, if b then TRUE_TEXT else FALSE_TEXT)
      case Number(n) =>
        if !n.Finite? then Refused(NonFiniteNumber) else Emit(limits, output, tokens + 1, NumberText(lib, n))
      case String(s) =>
        (match WriteString(limits, output, s)
         case Stop(e) => Refused(e)
         case Next(out) => Wrote(out, tokens + 1))
      case Array(items) =>
        (match Put(limits, output, [OPEN_ARRAY])
         case None => Refused(ByteLimit)
         case Some(out) =>
           match WriteItems(lib, limits, items, true, depth, out, tokens + 1)
           case Refused(e) => Refused(e)
           case Wrote(o, t) => Emit(limits, o, t, [CLOSE_ARRAY]))
      case Object(members) =>
        match KeyProblem(members, 0)
        case Some(e) => Refused(e)
        case None =>
          match Put(limits, output, [OPEN_OBJECT])
          case None => Refused(ByteLimit)
          case Some(out) =>
            SortMeasures(limits, members);
            match WriteMembers(lib, limits, Sort(members), true, depth, out, tokens + 1)
            case Refused(e) => Refused(e)
            case Wrote(o, t) => Emit(limits, o, t, [CLOSE_OBJECT])
  }

  function WriteItems(lib: FloatLibrary, limits: Limits, vs: seq<Value>, first: bool, depth: nat, output: Bytes, tokens: nat): Written
    decreases TokensAll(vs), 1, |vs|
  {
    if vs == [] then Wrote(output, tokens)
    else
      match PutComma(limits, output, first)
      case None => Refused(ByteLimit)
      case Some(out) =>
        match Write(lib, limits, vs[0], depth + 1, out, tokens)
        case Refused(e) => Refused(e)
        case Wrote(o, t) => WriteItems(lib, limits, vs[1..], false, depth, o, t)
  }

  function WriteMembers(lib: FloatLibrary, limits: Limits, ms: seq<Member<Value>>, first: bool, depth: nat, output: Bytes, tokens: nat): Written
    decreases TokensMembers(ms), 1, |ms|
  {
    if ms == [] then Wrote(output, tokens)
    else
      match PutComma(limits, output, first)
      case None => Refused(ByteLimit)
      case Some(a) =>
        match WriteString(limits, a, ms[0].key)
        case Stop(e) => Refused(e)
        case Next(b) =>
          match Put(limits, b, [COLON])
          case None => Refused(ByteLimit)
          case Some(c) =>
            match Write(lib, limits, ms[0].value, depth + 1, c, tokens)
            case Refused(e) => Refused(e)
            case Wrote(o, t) => WriteMembers(lib, limits, ms[1..], false, depth, o, t)
  }

  /** serialize_jcs. */
  function Serialize(lib: FloatLibrary, limits: Limits, v: Value): Written {
    Write(lib, limits, v, 1, [], 0)
  }

  // ---- exactly when it succeeds ----

  lemma {:induction false} PutEscapedIff(limits: Limits, output: Bytes, s: Bytes)
    requires |output| <= limits.maxBytes
    ensures PutEscaped(limits, output, s) ==
              if |output| + |EscapeAll(s)| <= limits.maxBytes then Some(output + EscapeAll(s)) else None
    decreases |s|
  {
    hide Escape;
    if s == [] {
      assert output + EscapeAll(s) == output;
    } else if |output| + |Escape(s[0])| <= limits.maxBytes {
      PutEscapedIff(limits, output + Escape(s[0]), s[1..]);
      assert output + Escape(s[0]) + EscapeAll(s[1..]) == output + EscapeAll(s);
    }
  }

  lemma {:induction false} WriteStringIff(limits: Limits, output: Bytes, s: Bytes)
    requires |output| <= limits.maxBytes
    ensures WriteString(limits, output, s).Next? <==>
              CleanString(limits, s) && |output| + |StringText(s)| <= limits.maxBytes
    ensures WriteString(limits, output, s).Next? ==> WriteString(limits, output, s).output == output + StringText(s)
  {
    hide EscapeAll, PutEscaped, Utf8.IJson, Utf8Problem;
    if CleanString(limits, s) && |output| + 1 <= limits.maxBytes {
      PutEscapedIff(limits, output + [QUOTE], s);
      assert output + [QUOTE] + EscapeAll(s) + [QUOTE] == output + StringText(s);
    }
  }

  lemma {:induction false} KeyProblemIff(ms: seq<Member<Value>>, i: nat)
    requires i <= |ms|
    ensures KeyProblem(ms, i).None? <==>
              forall k :: i <= k < |ms| ==> Utf8.IJson(ms[k].key) && forall j :: 0 <= j < k ==> ms[j].key != ms[k].key
    decreases |ms| - i
  {
    hide Utf8.IJson, Classify;
    if i < |ms| {
      KeyProblemIff(ms, i + 1);
    }
  }

  /** Where an object's names are all permitted and different, and nowhere else, it is written. */
  lemma {:induction false} KeysFine(ms: seq<Member<Value>>)
    ensures KeyProblem(ms, 0).None? <==> ValidKeys(ms) && DistinctKeys(ms)
  {
    hide Utf8.IJson, KeyProblem;
    KeyProblemIff(ms, 0);
  }

  /** The serializer writes a value's canonical text when the value fits its limits, and
      refuses every other value. */
  lemma {:induction false} WriteIff(lib: FloatLibrary, limits: Limits, v: Value, depth: nat, output: Bytes, tokens: nat)
    requires |output| <= limits.maxBytes
    ensures Write(lib, limits, v, depth, output, tokens).Wrote? <==> Fits(lib, limits, v, depth, |output|, tokens)
    ensures Write(lib, limits, v, depth, output, tokens).Wrote? ==>
              Write(lib, limits, v, depth, output, tokens) == Wrote(output + Text(lib, v), tokens + Tokens(v))
    decreases Tokens(v), 0, 0
  {
    match v {
      case Array(items) => WriteArrayIff(lib, limits, items, depth, output, tokens);
      case Object(members) => WriteObjectIff(lib, limits, members, depth, output, tokens);
      case String(s) => WriteStringIff(limits, output, s);
      case _ =>
    }
  }

  lemma {:induction false} WriteArrayIff(lib: FloatLibrary, limits: Limits, items: seq<Value>, depth: nat, output: Bytes, tokens: nat)
    requires |output| <= limits.maxBytes
    ensures var w := Write(lib, limits, Array(items), depth, output, tokens);
            && (w.Wrote? <==> Fits(lib, limits, Array(items), depth, |output|, tokens))
            && (w.Wrote? ==> w == Wrote(output + Text(lib, Array(items)), tokens + 1 + TokensAll(items)))
    decreases TokensAll(items), 2, |items|
  {
    hide WriteItems, ItemsText, CleanAll, TokensAll, DepthAll;
    if |output| + 1 <= limits.maxBytes && tokens + 1 <= limits.maxTokens && depth <= limits.maxDepth {
      var out := output + [OPEN_ARRAY];
      WriteItemsIff(lib, limits, items, true, depth, out, tokens + 1);
      assert out + ItemsText(lib, items, true) + [CLOSE_ARRAY] == output + Text(lib, Array(items));
    }
  }

  lemma {:induction false} WriteItemsIff(lib: FloatLibrary, limits: Limits, vs: seq<Value>, first: bool, depth: nat, output: Bytes, tokens: nat)
    requires |output| <= limits.maxBytes && tokens <= limits.maxTokens && depth <= limits.maxDepth
    ensures var w := WriteItems(lib, limits, vs, first, depth, output, tokens);
            && (w.Wrote? <==>
                  && CleanAll(limits, vs) && depth + DepthAll(vs) <= limits.maxDepth
                  && tokens + TokensAll(vs) <= limits.maxTokens
                  && |output| + |ItemsText(lib, vs, first)| <= limits.maxBytes)
            && (w.Wrote? ==> w == Wrote(output + ItemsText(lib, vs, first), tokens + TokensAll(vs)))
    decreases TokensAll(vs), 1, |vs|
  {
    hide Write, Text, Clean, Tokens, Depth;
    if vs == [] {
      assert output + ItemsText(lib, vs, first) == output;
      return;
    }
    PutCommaIff(limits, output, first);
    if |output| + |Comma(first)| <= limits.maxBytes {
      var a := output + Comma(first);
      WriteIff(lib, limits, vs[0], depth + 1, a, tokens);
      if Fits(lib, limits, vs[0], depth + 1, |a|, tokens) {
        var b := a + Text(lib, vs[0]);
        WriteItemsIff(lib, limits, vs[1..], false, depth, b, tokens + Tokens(vs[0]));
        assert b + ItemsText(lib, vs[1..], false) == output + ItemsText(lib, vs, first);
      }
    }
  }

  lemma {:induction false} WriteObjectIff(lib: FloatLibrary, limits: Limits, members: seq<Member<Value>>, depth: nat, output: Bytes, tokens: nat)
    requires |output| <= limits.maxBytes
    ensures var w := Write(lib, limits, Object(members), depth, output, tokens);
            && (w.Wrote? <==> Fits(lib, limits, Object(members), depth, |output|, tokens))
            && (w.Wrote? ==> w == Wrote(output + Text(lib, Object(members)), tokens + 1 + TokensMembers(members)))
    decreases TokensMembers(members), 2, |members|
  {
    hide WriteMembers, PairsText, CleanMembers, TokensMembers, DepthMembers, Sort, KeyProblem, MemberTexts, ValidKeys, DistinctKeys;
    KeysFine(members);
    if CleanMembers(limits, members) {
      CleanMembersKeys(limits, members);
    }
    SortMeasures(limits, members);
    SortCommutes(lib, members);
    if |output| + 1 <= limits.maxBytes && tokens + 1 <= limits.maxTokens && depth <= limits.maxDepth {
      var out := output + [OPEN_OBJECT];
      WriteMembersIff(lib, limits, Sort(members), true, depth, out, tokens + 1);
      assert out + PairsText(MemberTexts(lib, Sort(members)), true) + [CLOSE_OBJECT] == output + Text(lib, Object(members));
    }
  }

  lemma {:induction false} PairAppended(output: Bytes, comma: Bytes, key: Bytes, text: Bytes, rest: Bytes)
    ensures output + comma + key + [COLON] + text + rest == output + (comma + ((key + ([COLON] + text)) + rest))
  {
  }

  lemma {:induction false} WriteMembersIff(lib: FloatLibrary, limits: Limits, ms: seq<Member<Value>>, first: bool, depth: nat, output: Bytes, tokens: nat)
    requires |output| <= limits.maxBytes && tokens <= limits.maxTokens && depth <= limits.maxDepth
    ensures var w := WriteMembers(lib, limits, ms, first, depth, output, tokens);
            var text := PairsText(MemberTexts(lib, ms), first);
            && (w.Wrote? <==>
                  && CleanMembers(limits, ms) && depth + DepthMembers(ms) <= limits.maxDepth
                  && tokens + TokensMembers(ms) <= limits.maxTokens
                  && |output| + |text| <= limits.maxBytes)
            && (w.Wrote? ==> w == Wrote(output + text, tokens + TokensMembers(ms)))
    decreases TokensMembers(ms), 1, |ms|
  {
    hide Write, Text, Clean, Tokens, Depth, WriteString, StringText, CleanString;
    if ms == [] {
      assert output + PairsText(MemberTexts(lib, ms), first) == output;
      return;
    }
    PutCommaIff(limits, output, first);
    if |output| + |Comma(first)| <= limits.maxBytes {
      var a := output + Comma(first);
      WriteStringIff(limits, a, ms[0].key);
      assert MemberTexts(lib, ms)[0] == Member(ms[0].key, Text(lib, ms[0].value));
      assert MemberTexts(lib, ms)[1..] == MemberTexts(lib, ms[1..]);
      if CleanString(limits, ms[0].key) && |a| + |StringText(ms[0].key)| + 1 <= limits.maxBytes {
        var b := a + StringText(ms[0].key) + [COLON];
        WriteIff(lib, limits, ms[0].value, depth + 1, b, tokens);
        if Fits(lib, limits, ms[0].value, depth + 1, |b|, tokens) {
          var c := b + Text(lib, ms[0].value);
          WriteMembersIff(lib, limits, ms[1..], false, depth, c, tokens + Tokens(ms[0].value));
          PairAppended(output, Comma(first), StringText(ms[0].key), Text(lib, ms[0].value), PairsText(MemberTexts(lib, ms[1..]), false));
        }
      }
    }
  }
}
