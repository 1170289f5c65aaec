/** The grammar of derivation path strings, and that the parser accepts exactly it. */
module PathGrammar {
  import opened BigEndian
  import opened DecimalText
  import opened DerivationPaths
  import opened ExtendedKeys
  import opened Prelude

  /** A component as written: after a slash or not, its digits, and its mark or none. */
  datatype Token = Token(slash: bool, digits: Bytes, mark: Bytes)

  predicate ValidToken(t: Token) {
    && 1 <= |t.digits| <= 10 && AllDigits(t.digits) && DecimalValue(t.digits) < 0x8000_0000
    && (t.mark == [] || t.mark == ['\'' as int] || t.mark == ['h' as int] || t.mark == ['H' as int])
  }

  function TokenText(t: Token): Bytes {
    (if t.slash then ['/' as int] else []) + (t.digits + t.mark)
  }

  function TokenTexts(ts: seq<Token>): Bytes {
    if ts == [] then [] else TokenText(ts[0]) + TokenTexts(ts[1..])
  }

  function TokenValue(t: Token): Component
    requires ValidToken(t)
  {
    Component(DecimalValue(t.digits), t.mark != [])
  }

  predicate AllValid(ts: seq<Token>) { forall i :: 0 <= i < |ts| ==> ValidToken(ts[i]) }

  /** A slash may be missing only at the front or after a mark. */
  predicate ValidTokens(ts: seq<Token>) {
    && AllValid(ts)
    && (forall i :: 0 < i < |ts| && !ts[i].slash ==> ts[i - 1].mark != [])
  }

  function TokenValues(ts: seq<Token>): (path: seq<Component>)
    requires AllValid(ts)
    ensures |path| == |ts| && forall i :: 0 <= i < |ts| ==> path[i] == TokenValue(ts[i])
  {
    seq(|ts|, i requires 0 <= i < |ts| => TokenValue(ts[i]))
  }

  /** "m" or "M" and the texts of the tokens. */
  predicate Spells(text: Bytes, ts: seq<Token>) {
    text == ['m' as int] + TokenTexts(ts) || text == ['M' as int] + TokenTexts(ts)
  }

  // ---- what is in the grammar is read ----

  /** A token followed by anything but another of its digits, or a mark where it has none. */
  lemma {:induction false} TokenRead(t: Token, tail: Bytes)
    requires ValidToken(t) && (t.mark == [] && tail != [] ==> tail[0] == 47)
    ensures Component1(t.digits + t.mark + tail) == Ok((TokenValue(t), |t.digits| + |t.mark|))
    ensures (t.digits + t.mark + tail)[|t.digits| + |t.mark|..] == tail && t.digits + t.mark + tail != []
    ensures IsDigit((t.digits + t.mark + tail)[0])
  {
    hide DecimalValue, Component1;
    var s := t.digits + t.mark + tail;
    var n := |t.digits|;
    assert s[..n] == t.digits && s[0] == t.digits[0];
    assert n < |s| ==> s[n] == if t.mark != [] then t.mark[0] else tail[0];
    ReadComponent(s, n);
  }

  lemma {:induction false} TokensRead(ts: seq<Token>, count: nat)
    requires ValidTokens(ts) && count + |ts| <= MAX_DEPTH
    ensures Rest(TokenTexts(ts), false, count) == Ok(TokenValues(ts))
    decreases |ts|
  {
    hide Rest, DecimalValue, Component1, ValidToken, TokenValue, TokenTexts;
    if ts == [] {
      NoTokens();
      RestNothing(false, count);
    } else {
      var t, tail := ts[0], TokenTexts(ts[1..]);
      var s := t.digits + t.mark + tail;
      TokensRead(ts[1..], count + 1);
      TailStarts(ts);
      TokenRead(t, tail);
      TokensFront(ts);
      if t.slash {
        RestAfterSlash(TokenTexts(ts), false, count);
      }
      RestComponent(s, t.slash, count);
      assert [TokenValue(t)] + TokenValues(ts[1..]) == TokenValues(ts);
    }
  }

  lemma {:induction false} FrontText(t: Token, rest: Bytes)
    ensures TokenText(t) + rest == Lead(t.slash) + (t.digits + t.mark + rest)
  {
    assert t.slash ==> TokenText(t) == [47] + (t.digits + t.mark);
    assert !t.slash ==> TokenText(t) == t.digits + t.mark;
    assert Lead(t.slash) + (t.digits + t.mark) + rest == Lead(t.slash) + (t.digits + t.mark + rest);
  }

  lemma {:induction false} FirstText(ts: seq<Token>)
    requires ts != []
    ensures TokenTexts(ts) == TokenText(ts[0]) + TokenTexts(ts[1..])
  {
  }

  lemma {:induction false} TokensFront(ts: seq<Token>)
    requires ts != []
    ensures var s := ts[0].digits + ts[0].mark + TokenTexts(ts[1..]);
            if ts[0].slash then TokenTexts(ts) != [] && TokenTexts(ts)[0] == 47 && TokenTexts(ts)[1..] == s else TokenTexts(ts) == s
  {
    hide TokenText, TokenTexts;
    var s := ts[0].digits + ts[0].mark + TokenTexts(ts[1..]);
    FirstText(ts);
    FrontText(ts[0], TokenTexts(ts[1..]));
    assert [] + s == s && ([47] + s)[1..] == s;
  }

  lemma {:induction false} TailStarts(ts: seq<Token>)
    requires ts != [] && ValidTokens(ts)
    ensures ts[0].mark == [] && TokenTexts(ts[1..]) != [] ==> TokenTexts(ts[1..])[0] == 47
  {
    hide DecimalValue;
    if |ts| > 1 && ts[0].mark == [] {
      assert ts[1..][0] == ts[1] && ts[1].slash;
      TokensFront(ts[1..]);
    }
  }

  // ---- and nothing else is ----

  /** The token at the front of what is read. */
  lemma {:induction false} FrontToken(s: Bytes, slash: bool) returns (t: Token)
    requires Component1(s).Ok?
    ensures ValidToken(t) && t.slash == slash
    ensures var (component, used) := Component1(s).value;
            && TokenValue(t) == component && |t.digits| + |t.mark| == used && s == t.digits + t.mark + s[used..]
            && (t.mark == [] && used < |s| ==> !IsDigit(s[used]))
  {
    hide DecimalValue;
    var n := DigitRun(s);
    var used := Component1(s).value.1;
    t := Token(slash, s[..n], s[n..used]);
    assert used > n ==> s[n..used] == [s[n]];
    assert s == s[..n] + s[n..used] + s[used..];
    assert forall i :: 0 <= i < n ==> s[..n][i] == s[i];
  }

  /** Tokens in front of tokens that may follow them. */
  lemma {:induction false} Prepended(t: Token, ts: seq<Token>)
    requires ValidToken(t) && ValidTokens(ts) && (ts != [] && !ts[0].slash ==> t.mark != [])
    ensures ValidTokens([t] + ts) && TokenValues([t] + ts) == [TokenValue(t)] + TokenValues(ts)
    ensures TokenTexts([t] + ts) == TokenText(t) + TokenTexts(ts)
  {
    hide DecimalValue, ValidToken, TokenText;
    var all := [t] + ts;
    assert all[1..] == ts;
    forall i | 0 <= i < |all| ensures ValidToken(all[i]) {
      assert i > 0 ==> all[i] == ts[i - 1];
    }
    forall i | 0 < i < |all| && !all[i].slash ensures all[i - 1].mark != [] {
      assert all[i] == ts[i - 1];
      assert i > 1 ==> all[i - 1] == ts[i - 2];
    }
  }

  /** What is read, after a slash when one was awaiting a component, is made of tokens. */
  lemma {:induction false} RestIsTokens(s: Bytes, awaiting: bool, count: nat) returns (ts: seq<Token>)
    requires Rest(s, awaiting, count).Ok? && count <= MAX_DEPTH
    ensures ValidTokens(ts) && TokenTexts(ts) == Lead(awaiting) + s && TokenValues(ts) == Rest(s, awaiting, count).value
    ensures count + |ts| <= MAX_DEPTH && (awaiting ==> ts != [] && ts[0].slash)
    ensures ts != [] && !ts[0].slash ==> s != [] && IsDigit(s[0])
    decreases |s|
  {
    hide Rest, Component1, DecimalValue, ValidToken, TokenValue, TokenText, TokenTexts, ValidTokens, Lead;
    if s == [] {
      RestNothing(awaiting, count);
      ts := [];
      NoTokens();
    } else if s[0] == 47 {
      RestAfterSlash(s, awaiting, count);
      ts := RestIsTokens(s[1..], true, count);
      Slashed(s);
    } else {
      RestParts(s, awaiting, count);
      RestDepth(s, awaiting, count);
      var used := Component1(s).value.1;
      var t := FrontToken(s, awaiting);
      var more := RestIsTokens(s[used..], false, count + 1);
      Slashed(s[used..]);
      ts := [t] + more;
      Prepended(t, more);
      FrontText(t, s[used..]);
    }
  }

  lemma {:induction false} NoTokens()
    ensures ValidTokens([]) && TokenTexts([]) == [] && TokenValues([]) == [] && Lead(false) + [] == []
  {
  }

  lemma {:induction false} Slashed(s: Bytes)
    ensures s != [] && s[0] == 47 ==> Lead(true) + s[1..] == s && Lead(false) + s == s
    ensures Lead(false) + s == s
  {
  }

  /** A text is accepted as a path exactly when it is "m" or "M" and at most ten components: each a
      number below 2^31 of at most ten digits, a mark or none, and a slash in front unless it comes
      first or after a mark. */
  lemma {:induction false} ParsedIff(text: Bytes, path: seq<Component>)
    ensures Parsed(text) == Ok(path) <==>
              exists ts :: ValidTokens(ts) && |ts| <= 10 && Spells(text, ts) && TokenValues(ts) == path
  {
    hide Rest, DecimalValue, ValidTokens, TokenTexts, TokenValues;
    if Parsed(text) == Ok(path) {
      ParsedRest(text);
      var ts := RestIsTokens(text[1..], false, 0);
      Slashed(text[1..]);
      assert text == [text[0]] + text[1..];
      TokensValid(ts);
      assert ValidTokens(ts) && |ts| <= 10 && Spells(text, ts);
    }
    forall ts | ValidTokens(ts) && |ts| <= 10 && Spells(text, ts) ensures AllValid(ts) && Parsed(text) == Ok(TokenValues(ts)) {
      TokensValid(ts);
      TokensRead(ts, 0);
      assert text[1..] == TokenTexts(ts);
      ParsedRest(text);
    }
  }

  lemma {:induction false} TokensValid(ts: seq<Token>)
    requires ValidTokens(ts)
    ensures AllValid(ts)
  {
  }
}
