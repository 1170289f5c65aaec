/** What an error of the serializer says about the value. */
module JsonErrors {
  import opened Prelude
  import opened KeyOrder
  import Utf8
  import opened Decimals
  import opened Json
  import opened JsonWriter

  /** The string is too long, or `e` is its first decoding problem. */
  predicate BadString(limits: Limits, s: Bytes, e: Error) {
    (e == StringLimit && |s| > limits.maxStringBytes) || Utf8Problem(s) == Some(e)
  }

  /** Somewhere in the value is a number that is not finite, a string that is not permitted, or an
      object that repeats a name, and `e` says which. */
  ghost predicate Faulty(limits: Limits, v: Value, e: Error)
    decreases v
  {
    match v
    case Number(n) => e == NonFiniteNumber && !n.Finite?
    case String(s) => BadString(limits, s, e)
    case Array(items) => exists i :: 0 <= i < |items| && Faulty(limits, items[i], e)
    case Object(members) =>
      || (e == DuplicateKey && !DistinctKeys(members))
      || exists i :: 0 <= i < |members| && (BadString(limits, members[i].key, e) || Faulty(limits, members[i].value, e))
    case _ => false
  }

  ghost predicate FaultyMember(limits: Limits, m: Member<Value>, e: Error) {
    BadString(limits, m.key, e) || Faulty(limits, m.value, e)
  }

  ghost predicate FaultyAmong(limits: Limits, ms: seq<Member<Value>>, e: Error) {
    exists i :: 0 <= i < |ms| && FaultyMember(limits, ms[i], e)
  }

  lemma {:induction false} AmongMore(limits: Limits, ms: seq<Member<Value>>, e: Error)
    requires |ms| > 0
    ensures FaultyMember(limits, ms[0], e) || FaultyAmong(limits, ms[1..], e) ==> FaultyAmong(limits, ms, e)
  {
    hide FaultyMember;
    assert forall i :: 0 <= i < |ms| - 1 ==> ms[1..][i] == ms[i + 1];
  }

  /** The limit named by `e` is passed. */
  predicate Passed(limits: Limits, e: Error, depth: int, tokens: int, bytes: int) {
    || (e == DepthLimit && depth > limits.maxDepth)
    || (e == TokenLimit && tokens > limits.maxTokens)
    || (e == ByteLimit && bytes > limits.maxBytes)
  }

  lemma {:induction false} PassedMore(limits: Limits, e: Error, depth: int, tokens: int, bytes: int, d: int, t: int, b: int)
    requires Passed(limits, e, depth, tokens, bytes) && depth <= d && tokens <= t && bytes <= b
    ensures Passed(limits, e, d, t, b)
  {
  }

  lemma {:induction false} StringErrors(limits: Limits, output: Bytes, s: Bytes)
    requires |output| <= limits.maxBytes && WriteString(limits, output, s).Stop?
    ensures var e := WriteString(limits, output, s).error;
            BadString(limits, s, e) || (e == ByteLimit && |output| + |StringText(s)| > limits.maxBytes)
  {
    hide Utf8.IJson, Utf8Problem;
    Utf8ProblemIff(s);
    WriteStringIff(limits, output, s);
  }

  /** Whatever the serializer refuses is beyond the limit it names, or has the fault it names. */
  lemma {:induction false} WriteErrors(lib: FloatLibrary, limits: Limits, v: Value, depth: nat, output: Bytes, tokens: nat)
    requires |output| <= limits.maxBytes && Write(lib, limits, v, depth, output, tokens).Refused?
    ensures var e := Write(lib, limits, v, depth, output, tokens).error;
            Faulty(limits, v, e) || Passed(limits, e, depth + Depth(v) - 1, tokens + Tokens(v), |output| + |Text(lib, v)|)
    decreases Tokens(v), 0, 0
  {
    hide Write, Text, Faulty, Passed, FaultyAmong, DistinctKeys, TokensAll, TokensMembers, DepthAll, DepthMembers;
    match v {
      case Array(items) => ArrayErrors(lib, limits, items, depth, output, tokens);
      case Object(members) => ObjectErrors(lib, limits, members, depth, output, tokens);
      case _ => LeafErrors(lib, limits, v, depth, output, tokens);
    }
  }

  lemma {:induction false} LeafErrors(lib: FloatLibrary, limits: Limits, v: Value, depth: nat, output: Bytes, tokens: nat)
    requires !v.Array? && !v.Object?
    requires |output| <= limits.maxBytes && Write(lib, limits, v, depth, output, tokens).Refused?
    ensures var e := Write(lib, limits, v, depth, output, tokens).error;
            Faulty(limits, v, e) || Passed(limits, e, depth, tokens + 1, |output| + |Text(lib, v)|)
  {
    hide WriteString, StringText, NumberText;
    if v.String? && depth <= limits.maxDepth && tokens + 1 <= limits.maxTokens {
      StringErrors(limits, output, v.s);
    }
  }

  lemma {:induction false} ArrayErrors(lib: FloatLibrary, limits: Limits, items: seq<Value>, depth: nat, output: Bytes, tokens: nat)
    requires |output| <= limits.maxBytes && Write(lib, limits, Array(items), depth, output, tokens).Refused?
    ensures var e := Write(lib, limits, Array(items), depth, output, tokens).error;
            || Faulty(limits, Array(items), e)
            || Passed(limits, e, depth + DepthAll(items), tokens + 1 + TokensAll(items), |output| + |Text(lib, Array(items))|)
    decreases TokensAll(items), 2, |items|
  {
    hide WriteItems, ItemsText, DepthAll, TokensAll;
    if depth <= limits.maxDepth && tokens + 1 <= limits.maxTokens && |output| + 1 <= limits.maxBytes {
      var out := output + [OPEN_ARRAY];
      WriteItemsIff(lib, limits, items, true, depth, out, tokens + 1);
      if WriteItems(lib, limits, items, true, depth, out, tokens + 1).Refused? {
        ItemsErrors(lib, limits, items, true, depth, out, tokens + 1);
      }
    }
  }

  lemma {:induction false} ItemsErrors(lib: FloatLibrary, limits: Limits, vs: seq<Value>, first: bool, depth: nat, output: Bytes, tokens: nat)
    requires |output| <= limits.maxBytes && tokens <= limits.maxTokens && depth <= limits.maxDepth
    requires WriteItems(lib, limits, vs, first, depth, output, tokens).Refused?
    ensures var e := WriteItems(lib, limits, vs, first, depth, output, tokens).error;
            || (exists i :: 0 <= i < |vs| && Faulty(limits, vs[i], e))
            || Passed(limits, e, depth + DepthAll(vs), tokens + TokensAll(vs), |output| + |ItemsText(lib, vs, first)|)
    decreases TokensAll(vs), 1, |vs|
  {
    hide Write, Text, Tokens, Depth, Faulty;
    PutCommaIff(limits, output, first);
    if |output| + |Comma(first)| <= limits.maxBytes {
      var a := output + Comma(first);
      WriteIff(lib, limits, vs[0], depth + 1, a, tokens);
      if Write(lib, limits, vs[0], depth + 1, a, tokens).Refused? {
        WriteErrors(lib, limits, vs[0], depth + 1, a, tokens);
      } else {
        var b := a + Text(lib, vs[0]);
        ItemsErrors(lib, limits, vs[1..], false, depth, b, tokens + Tokens(vs[0]));
        assert forall i :: 0 <= i < |vs| - 1 ==> vs[1..][i] == vs[i + 1];
      }
    }
  }

  lemma {:induction false} KeyErrors(limits: Limits, ms: seq<Member<Value>>, i: nat)
    requires i <= |ms| && KeyProblem(ms, i).Some?
    ensures var e := KeyProblem(ms, i).value;
            (e == DuplicateKey && !DistinctKeys(ms)) || FaultyAmong(limits, ms, e)
    decreases |ms| - i
  {
    hide Utf8.IJson, Utf8Problem, Faulty;
    Utf8ProblemIff(ms[i].key);
    if Utf8.IJson(ms[i].key) && !exists j :: 0 <= j < i && ms[j].key == ms[i].key {
      KeyErrors(limits, ms, i + 1);
    } else if !Utf8.IJson(ms[i].key) {
      assert FaultyMember(limits, ms[i], KeyProblem(ms, i).value);
    }
  }

  lemma {:induction false} ObjectErrors(lib: FloatLibrary, limits: Limits, members: seq<Member<Value>>, depth: nat, output: Bytes, tokens: nat)
    requires |output| <= limits.maxBytes && Write(lib, limits, Object(members), depth, output, tokens).Refused?
    ensures var e := Write(lib, limits, Object(members), depth, output, tokens).error;
            || Faulty(limits, Object(members), e)
            || Passed(limits, e, depth + DepthMembers(members), tokens + 1 + TokensMembers(members), |output| + |Text(lib, Object(members))|)
    decreases TokensMembers(members), 3, |members|
  {
    hide WriteMembers, PairsText, DepthMembers, TokensMembers, FaultyAmong, Sort, MemberTexts, KeyProblem, DistinctKeys, Faulty;
    SortMeasures(limits, members);
    FaultyObject(limits, members, Write(lib, limits, Object(members), depth, output, tokens).error);
    if depth <= limits.maxDepth && tokens + 1 <= limits.maxTokens {
      if KeyProblem(members, 0).Some? {
        KeyErrors(limits, members, 0);
      } else if |output| + 1 <= limits.maxBytes {
        BodyErrors(lib, limits, members, depth, output + [OPEN_OBJECT], tokens + 1);
      }
    }
  }

  lemma {:induction false} BodyErrors(lib: FloatLibrary, limits: Limits, members: seq<Member<Value>>, depth: nat, output: Bytes, tokens: nat)
    requires |output| <= limits.maxBytes && tokens <= limits.maxTokens && depth <= limits.maxDepth
    ensures var w := WriteMembers(lib, limits, Sort(members), true, depth, output, tokens);
            var size := |output| + |Text(lib, Object(members))| - 2;
            && (w.Refused? ==> FaultyAmong(limits, members, w.error) ||
                               Passed(limits, w.error, depth + DepthMembers(members), tokens + TokensMembers(members), size))
            && (w.Wrote? ==> |w.output| == size)
    decreases TokensMembers(members), 2, 0
  {
    hide WriteMembers, PairsText, DepthMembers, TokensMembers, FaultyAmong, Sort, MemberTexts, Passed;
    SortMeasures(limits, members);
    SortCommutes(lib, members);
    WriteMembersIff(lib, limits, Sort(members), true, depth, output, tokens);
    var w := WriteMembers(lib, limits, Sort(members), true, depth, output, tokens);
    if w.Refused? {
      MembersErrors(lib, limits, Sort(members), true, depth, output, tokens);
      SortedFaults(limits, members, w.error);
    }
  }

  lemma {:induction false} FaultyObject(limits: Limits, members: seq<Member<Value>>, e: Error)
    ensures FaultyAmong(limits, members, e) || (e == DuplicateKey && !DistinctKeys(members)) ==> Faulty(limits, Object(members), e)
  {
    hide DistinctKeys, BadString;
  }

  lemma {:induction false} SortedFaults(limits: Limits, members: seq<Member<Value>>, e: Error)
    ensures FaultyAmong(limits, Sort(members), e) ==> FaultyAmong(limits, members, e)
  {
    hide Sort, FaultyMember;
    var sorted := Sort(members);
    if i :| 0 <= i < |sorted| && FaultyMember(limits, sorted[i], e) {
      SortMember(members, sorted[i]);
      var k := IndexOf(members, sorted[i]);
    }
  }

  lemma {:induction false} MembersErrors(lib: FloatLibrary, limits: Limits, ms: seq<Member<Value>>, first: bool, depth: nat, output: Bytes, tokens: nat)
    requires |output| <= limits.maxBytes && tokens <= limits.maxTokens && depth <= limits.maxDepth
    requires WriteMembers(lib, limits, ms, first, depth, output, tokens).Refused?
    ensures var e := WriteMembers(lib, limits, ms, first, depth, output, tokens).error;
            || FaultyAmong(limits, ms, e)
            || Passed(limits, e, depth + DepthMembers(ms), tokens + TokensMembers(ms), |output| + |PairsText(MemberTexts(lib, ms), first)|)
    decreases TokensMembers(ms), 1, |ms|
  {
    hide Write, Text, Tokens, Depth, FaultyMember, FaultyAmong, WriteString, StringText, PairsText, MemberTexts, DepthMembers, TokensMembers;
    PutCommaIff(limits, output, first);
    MembersGrow(lib, ms, first);
    if |output| + |Comma(first)| <= limits.maxBytes {
      var a := output + Comma(first);
      WriteStringIff(limits, a, ms[0].key);
      if WriteString(limits, a, ms[0].key).Stop? {
        NameErrors(limits, a, ms, WriteString(limits, a, ms[0].key).error);
      } else if |a| + |StringText(ms[0].key)| + 1 <= limits.maxBytes {
        var b := a + StringText(ms[0].key) + [COLON];
        WriteIff(lib, limits, ms[0].value, depth + 1, b, tokens);
        if Write(lib, limits, ms[0].value, depth + 1, b, tokens).Refused? {
          WriteErrors(lib, limits, ms[0].value, depth + 1, b, tokens);
          ValueErrors(limits, ms, Write(lib, limits, ms[0].value, depth + 1, b, tokens).error);
        } else {
          var c := b + Text(lib, ms[0].value);
          MembersErrors(lib, limits, ms[1..], false, depth, c, tokens + Tokens(ms[0].value));
          AmongMore(limits, ms, WriteMembers(lib, limits, ms, first, depth, output, tokens).error);
        }
      }
    }
  }

  lemma {:induction false} NameErrors(limits: Limits, output: Bytes, ms: seq<Member<Value>>, e: Error)
    requires |ms| > 0 && |output| <= limits.maxBytes && WriteString(limits, output, ms[0].key) == Stop(e)
    ensures FaultyAmong(limits, ms, e) || (e == ByteLimit && |output| + |StringText(ms[0].key)| > limits.maxBytes)
  {
    hide WriteString, StringText, BadString, Faulty, FaultyAmong;
    StringErrors(limits, output, ms[0].key);
    AmongMore(limits, ms, e);
  }

  lemma {:induction false} ValueErrors(limits: Limits, ms: seq<Member<Value>>, e: Error)
    requires |ms| > 0
    ensures Faulty(limits, ms[0].value, e) ==> FaultyAmong(limits, ms, e)
  {
    hide BadString, Faulty, FaultyAmong;
    AmongMore(limits, ms, e);
  }

  lemma {:induction false} MembersGrow(lib: FloatLibrary, ms: seq<Member<Value>>, first: bool)
    requires |ms| > 0
    ensures |PairsText(MemberTexts(lib, ms), first)| ==
              |Comma(first)| + |StringText(ms[0].key)| + 1 + |Text(lib, ms[0].value)| + |PairsText(MemberTexts(lib, ms[1..]), false)|
    ensures DepthMembers(ms) >= Depth(ms[0].value) && DepthMembers(ms) >= DepthMembers(ms[1..])
    ensures TokensMembers(ms) == Tokens(ms[0].value) + TokensMembers(ms[1..])
  {
    hide Text, Tokens, Depth, StringText;
    assert MemberTexts(lib, ms)[0] == Member(ms[0].key, Text(lib, ms[0].value));
    assert MemberTexts(lib, ms)[1..] == MemberTexts(lib, ms[1..]);
  }
}
