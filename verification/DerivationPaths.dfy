/** Derivation path strings such as "m/44'/60'/0'/0/0". */
module DerivationPaths {
  import opened BigEndian
  import opened DecimalText
  import opened Prelude
  import opened Radix
  import opened ExtendedKeys

  const MAX_DEPTH := 10

  // ---- printing ----

  function Printed(component: Component): Bytes {
    DecimalDigits(component.index) + if component.hardened then [39] else []
  }

  function Steps(path: seq<Component>): Bytes {
    if path == [] then [] else [47] + Printed(path[0]) + Steps(path[1..])
  }

  function ToString(path: seq<Component>): Bytes { [109] + Steps(path) }

  // ---- parsing ----

  predicate HardenedMark(c: Byte) { c == 39 || c == 104 || c == 72 }

  /** How many digits `s` starts with. */
  function DigitRun(s: Bytes): (n: nat)
    ensures n <= |s| && (forall i :: 0 <= i < n ==> IsDigit(s[i])) && (n < |s| ==> !IsDigit(s[n]))
  {
    if s == [] || !IsDigit(s[0]) then 0 else 1 + DigitRun(s[1..])
  }

  /** The number at the front, and how many characters it takes with its hardened mark. */
  function Component1(s: Bytes): (r: Result<(Component, nat)>)
    ensures r.Ok? ==> 1 <= r.value.1 <= |s| && r.value.0.index < HARDENED
  {
    var n := DigitRun(s);
    if n == 0 || n > 10 then Fail(InvalidPath)
    else if DecimalValue(s[..n]) >= HARDENED then Fail(InvalidChildIndex)
    else if n < |s| && HardenedMark(s[n]) then Ok((Component(DecimalValue(s[..n]), true), n + 1))
    else Ok((Component(DecimalValue(s[..n]), false), n))
  }

  /** What is left to read: after a slash a component must follow; without one it may. */
  function Rest(s: Bytes, awaiting: bool, count: nat): Result<seq<Component>>
    decreases |s|
  {
    if s == [] then if awaiting then Fail(InvalidPath) else Ok([])
    else if s[0] == 47 then if awaiting then Fail(InvalidPath) else Rest(s[1..], true, count)
    else match Component1(s)
      case Fail(e) => Fail(e)
      case Ok((component, used)) =>
        if count + 1 > MAX_DEPTH then Fail(InvalidPath)
        else match Rest(s[used..], false, count + 1)
          case Fail(e) => Fail(e)
          case Ok(more) => Ok([component] + more)
  }

  function Parsed(text: Bytes): Result<seq<Component>> {
    if text == [] || (text[0] != 109 && text[0] != 77) then Fail(InvalidPath)
    else if |text| > 1 && text[1] == 47 then Rest(text[2..], true, 0)
    else Rest(text[1..], false, 0)
  }

  method ParseNumber(text: Bytes, start: nat) returns (r: Result<nat>, pos: nat)
    requires start <= |text|
    ensures pos == start + DigitRun(text[start..])
    ensures var n := DigitRun(text[start..]);
            if n == 0 || n > 10 then r == Fail(InvalidPath)
            else if DecimalValue(text[start..][..n]) > 0xFFFF_FFFF then r == Fail(InvalidChildIndex)
            else r == Ok(DecimalValue(text[start..][..n]))
  {
    hide Value, DigitRun;
    pos := start;
    while pos < |text| && IsDigit(text[pos])
      invariant start <= pos <= |text|
      invariant forall k :: start <= k < pos ==> IsDigit(text[k])
    {
      pos := pos + 1;
    }
    ghost var s := text[start..];
    var digits := text[start..pos];
    RunIs(s, pos - start);
    assert s[..pos - start] == digits;
    if |digits| == 0 || |digits| > 10 {
      return Fail(InvalidPath), pos;
    }
    var index: nat := 0;
    assert digits[..0] == [];
    NoDigits();
    for i := 0 to |digits|
      invariant index == DecimalValue(digits[..i])
    {
      NextDigit(digits, i);
      NumberGrows(digits, i + 1);
      index := index * 10 + (digits[i] - 48);
      if index > 0xFFFF_FFFF {
        return Fail(InvalidChildIndex), pos;
      }
    }
    assert digits[..|digits|] == digits;
    r := Ok(index);
  }

  lemma {:induction false} RunIs(s: Bytes, n: nat)
    requires n <= |s| && (forall i :: 0 <= i < n ==> IsDigit(s[i])) && (n < |s| ==> !IsDigit(s[n]))
    ensures DigitRun(s) == n
  {
  }

  lemma {:induction false} NumberGrows(t: Bytes, i: nat)
    requires i <= |t| && forall k :: 0 <= k < |t| ==> IsDigit(t[k])
    ensures DecimalValue(t[..i]) <= DecimalValue(t)
    decreases |t| - i
  {
    if i == |t| {
      assert t[..i] == t;
    } else {
      NextDigit(t, i);
      NumberGrows(t, i + 1);
    }
  }

  method Parse(text: Bytes) returns (r: Result<seq<Component>>)
    ensures r == Parsed(text)
  {
    hide Rest, DigitRun, DecimalValue;
    if text == [] || (text[0] != 109 && text[0] != 77) {
      return Fail(InvalidPath);
    }
    var pos := 1;
    var awaiting := false;
    if pos < |text| && text[pos] == 47 {
      pos := pos + 1;
      awaiting := true;
    }
    var components: seq<Component> := [];
    AfterNone(Rest(text[pos..], awaiting, 0));
    while pos < |text|
      invariant 0 < pos <= |text| && |components| <= MAX_DEPTH
      invariant Parsed(text) == After(components, Rest(text[pos..], awaiting, |components|))
      decreases |text| - pos
    {
      RestUnfolds(text, pos, awaiting, components);
      if text[pos] == 47 {
        if awaiting {
          return Fail(InvalidPath);
        }
        pos := pos + 1;
        awaiting := true;
      } else {
        awaiting := false;
        var index, next := ParseNumber(text, pos);
        ghost var s := text[pos..];
        if index.Fail? {
          return Fail(index.error);
        }
        var hardened := false;
        var start := pos;
        pos := next;
        assert next < |text| ==> text[next] == s[next - start];
        if pos < |text| && HardenedMark(text[pos]) {
          hardened := true;
          pos := pos + 1;
        }
        if index.value >= HARDENED {
          return Fail(InvalidChildIndex);
        }
        assert Component1(s) == Ok((Component(index.value, hardened), pos - start));
        assert s[pos - start..] == text[pos..];
        components := components + [Component(index.value, hardened)];
        if |components| > MAX_DEPTH {
          return Fail(InvalidPath);
        }
      }
    }
    RestUnfolds(text, pos, awaiting, components);
    r := if awaiting then Fail(InvalidPath) else Ok(components);
  }

  function After(before: seq<Component>, r: Result<seq<Component>>): Result<seq<Component>> {
    match r
    case Fail(e) => Fail(e)
    case Ok(more) => Ok(before + more)
  }

  lemma {:induction false} AfterNone(r: Result<seq<Component>>)
    ensures After([], r) == r
  {
    if r.Ok? {
      assert [] + r.value == r.value;
    }
  }

  lemma {:induction false} RestUnfolds(text: Bytes, pos: nat, awaiting: bool, before: seq<Component>)
    requires pos <= |text|
    ensures var r := Rest(text[pos..], awaiting, |before|);
            if pos == |text| then After(before, r) == if awaiting then Fail(InvalidPath) else Ok(before)
            else if text[pos] == 47 then r == if awaiting then Fail(InvalidPath) else Rest(text[pos + 1..], true, |before|)
            else match Component1(text[pos..])
              case Fail(e) => r == Fail(e)
              case Ok((component, used)) =>
                After(before, r) == if |before| + 1 > MAX_DEPTH then Fail(InvalidPath)
                                    else After(before + [component], Rest(text[pos..][used..], false, |before| + 1))
  {
    hide Component1;
    var s := text[pos..];
    assert before + [] == before;
    if pos < |text| {
      assert s[0] == text[pos] && s[1..] == text[pos + 1..];
      if text[pos] != 47 && Component1(s).Ok? {
        var component, used := Component1(s).value.0, Component1(s).value.1;
        var inner := Rest(s[used..], false, |before| + 1);
        if inner.Ok? {
          assert before + ([component] + inner.value) == before + [component] + inner.value;
        }
        assert Rest(s, awaiting, |before|) == if |before| + 1 > MAX_DEPTH then Fail(InvalidPath)
                                              else After([component], inner);
      }
    }
  }

  // ---- round trip ----

  predicate Printable(path: seq<Component>) {
    |path| <= MAX_DEPTH && forall i :: 0 <= i < |path| ==> path[i].index < HARDENED
  }

  lemma {:induction false} IndexSize(n: Word)
    ensures |DecimalDigits(n)| <= 10
  {
    hide Value, Digits;
    if n > 0 {
      var t := DecimalDigits(n);
      assert Figures(t)[0] != 0;
      TenDigits(Figures(t));
    }
  }

  lemma {:induction false} TenDigits(d: Bytes)
    requires d != [] && d[0] != 0 && Value(d, 10) < 0x1_0000_0000
    ensures |d| <= 10
  {
    hide Value, Pow;
    if |d| > 10 {
      LongIsLarge(d);
    }
  }

  lemma {:induction false} LongIsLarge(d: Bytes)
    requires |d| > 10 && d[0] != 0
    ensures Value(d, 10) >= 0x1_0000_0000
  {
    hide Value, Pow;
    LeadingDigit(d, 10);
    PowMonotone(10, 10, |d| - 1);
    Pow10();
  }

  lemma {:induction false} Pow10()
    ensures Pow(10, 10) == 100_0000_0000
  {
    assert Pow(10, 5) == 100000 by { assert Pow(10, 2) == 100; assert Pow(10, 4) == 10000; }
    PowAdd(10, 5, 5);
  }

  /** A printed component followed by a slash or the end is read back as it was. */
  lemma {:induction false} ReadPrinted(component: Component, tail: Bytes)
    requires tail != [] ==> tail[0] == 47
    ensures Component1(Printed(component) + tail) ==
            if component.index >= HARDENED then Fail(InvalidChildIndex) else Ok((component, |Printed(component)|))
  {
    hide DecimalDigits, DecimalValue, DigitRun;
    var t := DecimalDigits(component.index);
    var s := Printed(component) + tail;
    IndexSize(component.index);
    assert forall i :: 0 <= i < |t| ==> s[i] == t[i];
    assert |t| < |s| ==> !IsDigit(s[|t|]);
    RunIs(s, |t|);
    assert s[..|t|] == t;
  }

  lemma {:induction false} StepsRest(path: seq<Component>, count: nat)
    ensures Steps(path) != [] ==> Steps(path)[0] == 47
    ensures count <= MAX_DEPTH && count + |path| <= MAX_DEPTH && Printable(path) ==> Rest(Steps(path), false, count) == Ok(path)
    decreases |path|
  {
    hide Printed, Component1, Printable, Steps, Rest;
    if path == [] {
      StepsNone();
      RestNothing(false, count);
    } else {
      var printed, tail := Printed(path[0]), Steps(path[1..]);
      StepsAre(path);
      StepsRest(path[1..], count + 1);
      if Printable(path) && count + |path| <= MAX_DEPTH {
        PrintableParts(path);
        ReadPrinted(path[0], tail);
        PrintedStarts(path[0], tail);
        RestAfterSlash(Steps(path), false, count);
        assert Steps(path)[1..] == printed + tail && (printed + tail)[|printed|..] == tail;
        RestComponent(printed + tail, true, count);
        assert [path[0]] + path[1..] == path;
      }
    }
  }

  lemma {:induction false} PrintableParts(path: seq<Component>)
    requires path != [] && Printable(path)
    ensures Printable(path[1..]) && path[0].index < HARDENED
  {
  }

  lemma {:induction false} PrintedStarts(component: Component, tail: Bytes)
    ensures Printed(component) + tail != [] && (Printed(component) + tail)[0] != 47
  {
  }

  /** What is parsed is printable. */
  lemma {:induction false} RestPrintable(s: Bytes, awaiting: bool, count: nat)
    requires count <= MAX_DEPTH && Rest(s, awaiting, count).Ok?
    ensures var p := Rest(s, awaiting, count).value;
            count + |p| <= MAX_DEPTH && forall i :: 0 <= i < |p| ==> p[i].index < HARDENED
    decreases |s|
  {
    hide Component1;
    if s != [] {
      if s[0] == 47 {
        RestPrintable(s[1..], true, count);
      } else {
        RestPrintable(s[Component1(s).value.1..], false, count + 1);
      }
    }
  }

  /** The slash before the first component is one of those that may be there or not. */
  lemma {:induction false} ParsedRest(text: Bytes)
    requires text != [] && (text[0] == 109 || text[0] == 77)
    ensures Parsed(text) == Rest(text[1..], false, 0)
  {
    if |text| > 1 && text[1] == 47 {
      assert text[1..][1..] == text[2..];
    }
  }

  /** Parsing inverts printing for exactly the paths of at most ten components below the
      hardened offset. */
  lemma {:induction false} ParsePrinted(path: seq<Component>)
    ensures Parsed(ToString(path)) == Ok(path) <==> Printable(path)
  {
    hide Rest, Steps;
    var s := ToString(path);
    assert s[1..] == Steps(path);
    ParsedRest(s);
    StepsRest(path, 0);
    if Parsed(s) == Ok(path) {
      RestPrintable(s[1..], false, 0);
    }
  }

  /** What is accepted prints as a text that reads the same. */
  lemma {:induction false} PrintedReads(text: Bytes)
    requires Parsed(text).Ok?
    ensures Parsed(ToString(Parsed(text).value)) == Parsed(text)
  {
    hide Rest, ToString;
    ParsedRest(text);
    RestPrintable(text[1..], false, 0);
    ParsePrinted(Parsed(text).value);
  }

  /** A slash may be left out wherever no digit comes before it: the two texts are accepted
      with the same path, or refused with the same error. */
  lemma {:induction false} SlashOptional(front: Bytes, rest: Bytes)
    requires Parsed(front).Ok? && !IsDigit(front[|front| - 1]) && rest != [] && rest[0] != 47
    ensures Parsed(front + rest) == Parsed(front + [47] + rest)
  {
    hide Rest, Parsed;
    var path := Parsed(front).value;
    TextParts(front, rest);
    TextParts(front, [47] + rest);
    assert front + ([47] + rest) == front + [47] + rest;
    RestSlash(rest, |path|);
  }

  lemma {:induction false} TextParts(front: Bytes, x: Bytes)
    requires Parsed(front).Ok? && !IsDigit(front[|front| - 1])
    ensures Parsed(front + x) == After(Parsed(front).value, Rest(x, false, |Parsed(front).value|))
  {
    hide Rest;
    ParsedRest(front);
    ParsedRest(front + x);
    assert (front + x)[1..] == front[1..] + x;
    RestPrefix(front[1..], x, false, 0);
  }

  lemma {:induction false} RestSlash(rest: Bytes, count: nat)
    requires rest != [] && rest[0] != 47
    ensures Rest([47] + rest, false, count) == Rest(rest, false, count)
  {
    hide Component1;
    assert ([47] + rest)[1..] == rest;
  }

  /** What is accepted and ends without a digit is read before whatever follows. */
  lemma {:induction false} RestPrefix(a: Bytes, x: Bytes, awaiting: bool, count: nat)
    requires Rest(a, awaiting, count).Ok? && (a != [] ==> !IsDigit(a[|a| - 1]))
    ensures var path := Rest(a, awaiting, count).value;
            Rest(a + x, awaiting, count) == After(path, Rest(x, false, count + |path|))
    decreases |a|
  {
    hide Rest, Component1;
    if a == [] {
      RestNothing(awaiting, count);
      assert a + x == x;
      AfterNone(Rest(x, false, count));
    } else if a[0] == 47 {
      RestAfterSlash(a, awaiting, count);
      RestAfterSlash(a + x, awaiting, count);
      assert (a + x)[1..] == a[1..] + x;
      RestPrefix(a[1..], x, true, count);
    } else {
      RestParts(a, awaiting, count);
      RestDepth(a, awaiting, count);
      PrefixComponent(a, x);
      var (component, used) := Component1(a).value;
      var more := Rest(a[used..], false, count + 1).value;
      RestComponent(a + x, awaiting, count);
      assert (a + x)[used..] == a[used..] + x;
      RestPrefix(a[used..], x, false, count + 1);
      AfterBoth([component], more, Rest(x, false, count + 1 + |more|));
    }
  }

  lemma {:induction false} RestNothing(awaiting: bool, count: nat)
    ensures Rest([], awaiting, count) == if awaiting then Fail(InvalidPath) else Ok([])
  {
  }

  lemma {:induction false} RestAfterSlash(s: Bytes, awaiting: bool, count: nat)
    requires s != [] && s[0] == 47
    ensures Rest(s, awaiting, count) == if awaiting then Fail(InvalidPath) else Rest(s[1..], true, count)
  {
    hide Component1;
  }

  lemma {:induction false} RestDepth(s: Bytes, awaiting: bool, count: nat)
    requires s != [] && s[0] != 47 && Rest(s, awaiting, count).Ok?
    ensures count < MAX_DEPTH
  {
    hide Component1;
  }

  lemma {:induction false} AfterBoth(a: seq<Component>, b: seq<Component>, r: Result<seq<Component>>)
    ensures After(a, After(b, r)) == After(a + b, r)
  {
    if r.Ok? {
      assert a + (b + r.value) == a + b + r.value;
    }
  }

  lemma {:induction false} PrefixComponent(a: Bytes, x: Bytes)
    requires a != [] && !IsDigit(a[|a| - 1]) && Component1(a).Ok?
    ensures Component1(a + x) == Component1(a)
  {
    hide DigitRun, DecimalValue;
    var n := DigitRun(a);
    assert n < |a|;
    RunIs(a + x, n);
    assert (a + x)[..n] == a[..n];
  }

  // ---- which texts print back ----

  /** The character at `i` is as printing writes it: a slash before every number, no redundant
      zero at its front, and no hardened mark but the apostrophe. */
  predicate CanonicalAt(t: Bytes, i: nat)
    requires 1 <= i < |t|
  {
    && t[i] != 104 && t[i] != 72
    && (IsDigit(t[i]) && !IsDigit(t[i - 1]) ==> t[i - 1] == 47 && (t[i] == 48 ==> i + 1 == |t| || !IsDigit(t[i + 1])))
  }

  predicate CanonicalBetween(t: Bytes, from: nat, to: nat)
    requires to <= |t|
  {
    forall i :: from < i < to ==> CanonicalAt(t, i)
  }

  /** Starts with "m", and is as printing writes it from there on. */
  predicate Canonical(t: Bytes) { t != [] && t[0] == 109 && CanonicalBetween(t, 0, |t|) }

  /** An accepted text is the one printing gives exactly when it is canonical. */
  lemma {:induction false} PrintsBack(text: Bytes)
    requires Parsed(text).Ok?
    ensures ToString(Parsed(text).value) == text <==> Canonical(text)
  {
    hide Rest, Steps, CanonicalAt;
    ParsedRest(text);
    RestPrintsBack(text, 1, 0);
    assert text == [text[0]] + text[1..];
    assert ToString(Parsed(text).value)[1..] == Steps(Parsed(text).value);
  }

  /** The slash already read, if one was. */
  function Lead(awaiting: bool): Bytes { if awaiting then [47] else [] }

  /** The part of a text from `p` on; the character before it is a slash exactly when a
      component is awaited, and is never a digit of the same number. */
  lemma {:induction false} RestPrintsBack(t: Bytes, p: nat, count: nat)
    requires 1 <= p <= |t| && (p < |t| && IsDigit(t[p]) ==> !IsDigit(t[p - 1]))
    requires Rest(t[p..], t[p - 1] == 47, count).Ok?
    ensures Steps(Rest(t[p..], t[p - 1] == 47, count).value) == Lead(t[p - 1] == 47) + t[p..] <==> CanonicalBetween(t, p - 1, |t|)
    decreases |t| - p, 2
  {
    hide Rest, Steps, CanonicalBetween;
    var awaiting := t[p - 1] == 47;
    var s := t[p..];
    if s == [] {
      RestNothing(awaiting, count);
      StepsNone();
      EndCanonical(t);
    } else if s[0] == 47 {
      assert s[1..] == t[p + 1..] && [47] + s[1..] == s && Lead(false) + s == s;
      RestAfterSlash(s, awaiting, count);
      RestPrintsBack(t, p + 1, count);
      SlashCanonical(t, p);
    } else {
      ComponentPrintsBack(t, p, count);
    }
  }

  lemma {:induction false} EndCanonical(t: Bytes)
    requires t != []
    ensures CanonicalBetween(t, |t| - 1, |t|)
  {
  }

  lemma {:induction false} SlashCanonical(t: Bytes, p: nat)
    requires 1 <= p < |t| && t[p] == 47
    ensures CanonicalBetween(t, p - 1, |t|) <==> CanonicalBetween(t, p, |t|)
  {
    assert CanonicalAt(t, p);
  }

  lemma {:induction false} ComponentPrintsBack(t: Bytes, p: nat, count: nat)
    requires 1 <= p < |t| && t[p] != 47 && (IsDigit(t[p]) ==> !IsDigit(t[p - 1]))
    requires Rest(t[p..], t[p - 1] == 47, count).Ok?
    ensures Steps(Rest(t[p..], t[p - 1] == 47, count).value) == Lead(t[p - 1] == 47) + t[p..] <==> CanonicalBetween(t, p - 1, |t|)
    decreases |t| - p, 0
  {
    hide Component1, CanonicalAt, Printed, CanonicalBetween, DigitRun, Steps, Rest, DecimalValue;
    var awaiting := t[p - 1] == 47;
    var s := t[p..];
    RestParts(s, awaiting, count);
    var (component, used) := Component1(s).value;
    var more := Rest(s[used..], false, count + 1).value;
    assert s[used..] == t[p + used..] && s[..used] == t[p..p + used];
    NextPrintsBack(t, p, used, count);
    CanonicalSplit(t, p, p + used);
    ComponentCanonical(t, p);
    StepsEqual(component, more, s, used);
    assert Lead(false) + s == s;
  }

  lemma {:induction false} NextPrintsBack(t: Bytes, p: nat, used: nat, count: nat)
    requires 1 <= p < |t| && Component1(t[p..]).Ok? && Component1(t[p..]).value.1 == used
    requires Rest(t[p + used..], false, count + 1).Ok?
    ensures Steps(Rest(t[p + used..], false, count + 1).value) == t[p + used..] <==> CanonicalBetween(t, p + used - 1, |t|)
    decreases |t| - p - used, 3
  {
    hide Component1, CanonicalBetween, DigitRun, Steps, Rest, DecimalValue;
    ComponentEnds(t, p);
    RestPrintsBack(t, p + used, count + 1);
    assert Lead(false) + t[p + used..] == t[p + used..];
  }

  lemma {:induction false} RestParts(s: Bytes, awaiting: bool, count: nat)
    requires s != [] && s[0] != 47 && Rest(s, awaiting, count).Ok?
    ensures Component1(s).Ok? && IsDigit(s[0])
    ensures var (component, used) := Component1(s).value;
            var more := Rest(s[used..], false, count + 1);
            more.Ok? && Rest(s, awaiting, count).value == [component] + more.value
  {
    hide DecimalValue;
  }

  /** Printing starts with a slash, and the rest of it is cut where reading cuts it. */
  lemma {:induction false} StepsEqual(component: Component, more: seq<Component>, s: Bytes, used: nat)
    requires Component1(s) == Ok((component, used)) && IsDigit(s[0])
    ensures Steps([component] + more) != s
    ensures Steps([component] + more) == [47] + s <==> Printed(component) == s[..used] && Steps(more) == s[used..]
  {
    hide Component1, Printed;
    var printed := Printed(component) + Steps(more);
    assert ([component] + more)[1..] == more;
    assert Steps([component] + more) == [47] + printed;
    assert ([47] + printed)[1..] == printed && ([47] + s)[1..] == s;
    StepsRest(more, 0);
    ReadPrinted(component, Steps(more));
    if printed == s {
      assert printed[..used] == Printed(component) && printed[used..] == Steps(more);
    }
    assert s == s[..used] + s[used..];
  }

  lemma {:induction false} CanonicalSplit(t: Bytes, p: nat, next: nat)
    requires 1 <= p < next <= |t|
    ensures CanonicalBetween(t, p - 1, |t|) <==> CanonicalBetween(t, p - 1, next) && CanonicalBetween(t, next - 1, |t|)
  {
    hide CanonicalAt;
  }

  /** A component takes all digits in a row and the mark after them. */
  lemma {:induction false} ComponentEnds(t: Bytes, p: nat)
    requires p < |t| && Component1(t[p..]).Ok?
    ensures var s := t[p..];
            var (component, used) := Component1(s).value;
            var n := DigitRun(s);
            && 1 <= n <= used <= n + 1 && p + used <= |t|
            && component == Component(DecimalValue(s[..n]), used > n) && (used > n ==> n < |s| && HardenedMark(s[n]))
            && t[p + used - 1] != 47
            && (p + used < |t| && IsDigit(t[p + used]) ==> !IsDigit(t[p + used - 1]))
  {
    hide DigitRun, DecimalValue;
    var s := t[p..];
    var n := DigitRun(s);
    assert forall i :: 0 <= i < |s| ==> s[i] == t[p + i];
  }

  /** The characters of a component are as printing writes them. */
  lemma {:induction false} ComponentCanonical(t: Bytes, p: nat)
    requires 1 <= p < |t| && Component1(t[p..]).Ok? && !IsDigit(t[p - 1])
    ensures var (component, used) := Component1(t[p..]).value;
            && p + used <= |t|
            && (CanonicalBetween(t, p - 1, p + used) <==> t[p - 1] == 47 && Printed(component) == t[p..p + used])
  {
    hide DigitRun, DecimalValue, DecimalDigits, Component1;
    ComponentEnds(t, p);
    var s := t[p..];
    var (component, used) := Component1(s).value;
    var n := DigitRun(s);
    var digits := s[..n];
    assert s[0] == t[p] && (n < |s| ==> s[n] == t[p + n]);
    ShortestDigits(digits);
    assert t[p..p + used] == digits + if used > n then [s[n]] else [];
    MarkedEqual(DecimalDigits(component.index), digits, s[n..]);
    FirstCanonical(t, p, n);
    assert used > n ==> CanonicalAt(t, p + n) == (s[n] == 39);
    assert digits == [48] <==> s[0] == 48 && n == 1;
    if CanonicalAt(t, p) && (used > n ==> s[n] == 39) {
      forall i | p - 1 < i < p + used ensures CanonicalAt(t, i) {
      }
    }
  }

  lemma {:induction false} FirstCanonical(t: Bytes, p: nat, n: nat)
    requires 1 <= p < |t| && !IsDigit(t[p - 1]) && 1 <= n <= |t| - p && n == DigitRun(t[p..])
    ensures CanonicalAt(t, p) <==> t[p - 1] == 47 && (t[p] == 48 ==> n == 1)
    ensures forall i :: p < i < p + n ==> CanonicalAt(t, i)
  {
    hide DigitRun;
    var s := t[p..];
    assert forall i :: 0 <= i < |s| ==> s[i] == t[p + i];
    if n > 1 {
      assert IsDigit(s[1]);
    }
  }

  lemma {:induction false} MarkedEqual(x: Bytes, y: Bytes, rest: Bytes)
    ensures rest != [] ==> (x + [39] == y + [rest[0]] <==> x == y && rest[0] == 39)
    ensures x + [] == y + [] <==> x == y
  {
    assert x + [] == x && y + [] == y;
    if rest != [] && x + [39] == y + [rest[0]] {
      assert (x + [39])[..|x|] == x && (y + [rest[0]])[..|x|] == y;
      assert (x + [39])[|x|] == (y + [rest[0]])[|x|];
    }
  }

  lemma {:induction false} TwoFigures(a: Byte, b: Byte)
    requires IsDigit(a) && IsDigit(b)
    ensures DecimalValue([a]) == a - 48 && DecimalValue([a, b]) == 10 * (a - 48) + (b - 48)
  {
    hide DecimalValue;
    NoDigits();
    LastDigit([a]);
    LastDigit([a, b]);
    assert [a][..0] == [] && [a, b][..1] == [a];
  }

  /** A component with a mark or at the end. */
  lemma {:induction false} ReadComponent(s: Bytes, n: nat)
    requires 1 <= n <= |s| && n <= 10 && AllDigits(s[..n]) && (n < |s| ==> !IsDigit(s[n])) && DecimalValue(s[..n]) < HARDENED
    ensures var hardened := n < |s| && HardenedMark(s[n]);
            Component1(s) == Ok((Component(DecimalValue(s[..n]), hardened), if hardened then n + 1 else n))
  {
    hide DecimalValue;
    assert forall i :: 0 <= i < n ==> s[i] == s[..n][i];
    RunIs(s, n);
  }

  /** An accepted text that does not print back: "m1'2" lacks slashes and prints as "m/1'/2". */
  lemma {:induction false} MissingSlashes()
    ensures Parsed([109, 49, 39, 50]) == Ok([Component(1, true), Component(2, false)])
    ensures ToString([Component(1, true), Component(2, false)]) == [109, 47, 49, 39, 47, 50]
    ensures !Canonical([109, 49, 39, 50])
  {
    hide Component1, DecimalValue, Rest, CanonicalAt, Steps, DecimalDigits, Digits;
    var t := [109, 49, 39, 50];
    var s, u := [49, 39, 50], [50];
    assert t[1..] == s && s[2..] == u && u[1..] == [] && s[..1] == [49] && u[..1] == [50];
    TwoFigures(49, 50);
    TwoFigures(50, 50);
    ReadComponent(s, 1);
    ReadComponent(u, 1);
    ParsedRest(t);
    RestComponent(s, false, 0);
    RestComponent(u, false, 1);
    RestNothing(false, 2);
    assert [Component(1, true)] + ([Component(2, false)] + []) == [Component(1, true), Component(2, false)];
    PrintsBack(t);
    Digit(1);
    Digit(2);
    var path := [Component(1, true), Component(2, false)];
    assert path[1..] == [Component(2, false)] && path[1..][1..] == [];
    StepsAre(path);
    StepsAre(path[1..]);
    StepsNone();
  }

  /** Another: "M/07h" has a capital, a redundant zero and another mark, and prints as "m/7'". */
  lemma {:induction false} OtherMarks()
    ensures Parsed([77, 47, 48, 55, 104]) == Ok([Component(7, true)])
    ensures ToString([Component(7, true)]) == [109, 47, 55, 39]
    ensures !Canonical([77, 47, 48, 55, 104])
  {
    hide Component1, DecimalValue, Rest, Steps, DecimalDigits, Digits;
    var t := [77, 47, 48, 55, 104];
    var s := [48, 55, 104];
    assert t[2..] == s && s[3..] == [] && s[..2] == [48, 55];
    TwoFigures(48, 55);
    ReadComponent(s, 2);
    RestComponent(s, true, 0);
    RestNothing(false, 1);
    assert [Component(7, true)] + [] == [Component(7, true)];
    Digit(7);
    StepsAre([Component(7, true)]);
    assert [Component(7, true)][1..] == [];
    StepsNone();
  }

  lemma {:induction false} RestComponent(s: Bytes, awaiting: bool, count: nat)
    requires s != [] && s[0] != 47 && Component1(s).Ok? && count < MAX_DEPTH
    ensures var (component, used) := Component1(s).value;
            Rest(s, awaiting, count) == After([component], Rest(s[used..], false, count + 1))
  {
    hide Component1;
  }

  lemma {:induction false} StepsNone()
    ensures Steps([]) == []
  {
  }

  lemma {:induction false} StepsAre(path: seq<Component>)
    requires path != []
    ensures Steps(path) == [47] + Printed(path[0]) + Steps(path[1..])
  {
  }

  lemma {:induction false} Digit(n: nat)
    requires 0 < n < 10
    ensures DecimalDigits(n) == [48 + n]
  {
    hide Digits, Value;
    var d := [n];
    assert d[..0] == [];
    OneFigure(n);
    DigitsValue(d, 10);
  }

  lemma {:induction false} OneFigure(n: Byte)
    ensures Value([n], 10) == n
  {
    assert [n][..0] == [];
  }
}
