/** Mnemonic phrases as text: normalising, splitting and joining words. */
module MnemonicText {
  import opened Prelude

  /** The white space of the C locale. */
  predicate IsSpace(c: Byte) { 9 <= c <= 13 || c == 32 }

  // ---- specification ----

  /** The words completed in a text, and the word it ends inside of, if any. */
  datatype Reading = Reading(words: seq<Bytes>, part: Bytes)

  function Closed(r: Reading): seq<Bytes> { if r.part == [] then r.words else r.words + [r.part] }

  function ReadByte(r: Reading, c: Byte, fold: bool): Reading {
    if IsSpace(c) then Reading(Closed(r), []) else Reading(r.words, r.part + [if fold then Lower(c) else c])
  }

  function Read(s: Bytes, fold: bool): Reading {
    if s == [] then Reading([], []) else ReadByte(Read(s[..|s| - 1], fold), s[|s| - 1], fold)
  }

  /** The words of a text, in lower case if asked. */
  function Fields(s: Bytes, fold: bool): seq<Bytes> { Closed(Read(s, fold)) }

  function Join(words: seq<Bytes>): Bytes {
    if words == [] then []
    else if |words| == 1 then words[0]
    else Join(words[..|words| - 1]) + [32] + words[|words| - 1]
  }

  function Normalized(s: Bytes): Bytes { Join(Fields(s, true)) }

  // ---- words ----

  predicate NoSpaces(w: Bytes) { forall i :: 0 <= i < |w| ==> !IsSpace(w[i]) }

  predicate IsLower(w: Bytes) { forall i :: 0 <= i < |w| ==> Lower(w[i]) == w[i] }

  predicate Plain(words: seq<Bytes>) {
    forall k :: 0 <= k < |words| ==> words[k] != [] && NoSpaces(words[k]) && IsLower(words[k])
  }

  lemma {:induction false} ReadPlain(s: Bytes)
    ensures Plain(Read(s, true).words) && NoSpaces(Read(s, true).part) && IsLower(Read(s, true).part)
  {
    if s != [] {
      ReadPlain(s[..|s| - 1]);
    }
  }

  lemma {:induction false} FieldsPlain(s: Bytes)
    ensures Plain(Fields(s, true))
  {
    ReadPlain(s);
  }

  lemma {:induction false} ReadWord(s: Bytes, w: Bytes, fold: bool)
    requires NoSpaces(w) && (fold ==> IsLower(w))
    ensures Read(s + w, fold) == Reading(Read(s, fold).words, Read(s, fold).part + w)
    decreases |w|
  {
    if w == [] {
      assert s + w == s;
    } else {
      var h := w[..|w| - 1];
      ReadWord(s, h, fold);
      assert (s + w)[..|s + w| - 1] == s + h;
      assert w == h + [w[|w| - 1]];
    }
  }

  lemma {:induction false} ReadJoined(words: seq<Bytes>, fold: bool)
    requires Plain(words) && words != []
    ensures Read(Join(words), fold) == Reading(words[..|words| - 1], words[|words| - 1])
    decreases |words|
  {
    var k := |words| - 1;
    var h, w := words[..k], words[k];
    if k == 0 {
      ReadWord([], w, fold);
      assert [] + w == w;
    } else {
      ReadJoined(h, fold);
      var s := Join(h);
      assert (s + [32])[..|s|] == s;
      assert h[..|h| - 1] + [h[|h| - 1]] == h;
      assert Read(s + [32], fold) == Reading(h, []);
      ReadWord(s + [32], w, fold);
      assert [] + w == w;
    }
  }

  /** Joined words are read back as they are. */
  lemma {:induction false} FieldsJoined(words: seq<Bytes>, fold: bool)
    requires Plain(words)
    ensures Fields(Join(words), fold) == words
  {
    hide Read;
    if words != [] {
      ReadJoined(words, fold);
      assert words[..|words| - 1] + [words[|words| - 1]] == words;
    } else {
      ReadNothing(fold);
    }
  }

  lemma {:induction false} ReadNothing(fold: bool)
    ensures Read([], fold) == Reading([], [])
  {
  }

  lemma {:induction false} ReadNext(s: Bytes, i: nat, fold: bool)
    requires i < |s|
    ensures Read(s[..i + 1], fold) == ReadByte(Read(s[..i], fold), s[i], fold)
  {
    assert s[..i + 1][..i] == s[..i];
  }

  // ---- the loops ----

  /** The text after a reading: its words, and a space if it is between two words. */
  function Trailing(r: Reading): Bytes {
    Join(Closed(r)) + if r.part == [] && r.words != [] then [32] else []
  }

  lemma {:induction false} JoinNext(words: seq<Bytes>, w: Bytes)
    ensures Join(words + [w]) == if words == [] then w else Join(words) + [32] + w
  {
    assert (words + [w])[..|words|] == words;
  }

  lemma {:induction false} TrailingNext(r: Reading, c: Byte, fold: bool)
    ensures var t := Trailing(r); var next := ReadByte(r, c, fold);
            Trailing(next) == if !IsSpace(c) then t + [if fold then Lower(c) else c] else if r.part != [] then t + [32] else t
  {
    hide Join;
    var d := if fold then Lower(c) else c;
    JoinNext(r.words, r.part);
    JoinNext(r.words, r.part + [d]);
    JoinNothing();
    if IsSpace(c) && r.part != [] {
      assert Closed(r) != [];
    }
  }

  lemma {:induction false} JoinNothing()
    ensures Join([]) == []
  {
  }

  lemma {:induction false} TrailingLast(r: Reading)
    requires NoSpaces(r.part) && Plain(r.words)
    ensures var t := Trailing(r);
            (t != [] && t[|t| - 1] == 32 <==> r.part == [] && r.words != [])
            && (t != [] && t[|t| - 1] == 32 ==> t[..|t| - 1] == Join(Closed(r)))
            && (t == [] <==> r.part == [] && r.words == [])
  {
    hide Join;
    JoinNext(r.words, r.part);
    JoinNothing();
  }

  method NormalizeMnemonic(mnemonic: Bytes) returns (result: Bytes)
    ensures result == Normalized(mnemonic)
  {
    hide Join, Trailing, Lower, Read;
    result := [];
    var inSpace := true;
    ReadNothing(true);
    TrailingNothing();
    assert mnemonic[..0] == [];
    for i := 0 to |mnemonic|
      invariant var r := Read(mnemonic[..i], true); result == Trailing(r) && (inSpace <==> r.part == [])
    {
      var c := mnemonic[i];
      ReadNext(mnemonic, i, true);
      ReadPlain(mnemonic[..i]);
      TrailingNext(Read(mnemonic[..i], true), c, true);
      TrailingLast(Read(mnemonic[..i], true));
      if IsSpace(c) {
        if !inSpace && result != [] {
          result := result + [32];
          inSpace := true;
        }
      } else {
        result := result + [Lower(c)];
        inSpace := false;
      }
    }
    assert mnemonic[..|mnemonic|] == mnemonic;
    ReadPlain(mnemonic);
    TrailingLast(Read(mnemonic, true));
    TrailingIs(Read(mnemonic, true));
    if result != [] && result[|result| - 1] == 32 {
      result := result[..|result| - 1];
    }
  }

  lemma {:induction false} TrailingNothing()
    ensures Trailing(Reading([], [])) == []
  {
  }

  lemma {:induction false} TrailingIs(r: Reading)
    ensures !(r.part == [] && r.words != []) ==> Trailing(r) == Join(Closed(r))
  {
  }

  /** The text so far, its last space held back. */
  predicate Held(r: Reading, normalized: Bytes, pending: bool) {
    && normalized == Join(Closed(r))
    && (pending <==> r.part == [] && r.words != [])
  }

  lemma {:induction false} JoinNonempty(words: seq<Bytes>)
    requires Plain(words)
    ensures Join(words) == [] <==> words == []
  {
  }

  lemma {:induction false} HeldNext(r: Reading, normalized: Bytes, pending: bool, c: Byte)
    requires Held(r, normalized, pending) && NoSpaces(r.part) && Plain(r.words) && IsLower(r.part)
    ensures var next := ReadByte(r, c, true);
            if IsSpace(c) then Held(next, normalized, normalized != [])
            else Held(next, (if pending then normalized + [32] else normalized) + [Lower(c)], false)
  {
    hide Join;
    JoinNext(r.words, r.part);
    JoinNext(r.words, r.part + [Lower(c)]);
    JoinNothing();
    JoinNonempty(r.words);
    if r.part != [] {
      JoinNonempty(Closed(r));
    }
  }

  /** The identity module's normalisation holds a space back until the next word starts, and
      refuses bytes beyond ASCII. */
  method NormalizeHeldBack(mnemonic: Bytes) returns (result: Option<Bytes>)
    ensures result == if AllAscii(mnemonic) then Some(Normalized(mnemonic)) else None
  {
    hide Join, Held, Lower, Read;
    var normalized: Bytes := [];
    var pendingSpace := false;
    ReadNothing(true);
    HeldNothing();
    assert mnemonic[..0] == [];
    for i := 0 to |mnemonic|
      invariant forall k :: 0 <= k < i ==> mnemonic[k] <= 0x7f
      invariant Held(Read(mnemonic[..i], true), normalized, pendingSpace)
    {
      var byte := mnemonic[i];
      if byte > 0x7f {
        return None;
      }
      ReadNext(mnemonic, i, true);
      ReadPlain(mnemonic[..i]);
      HeldNext(Read(mnemonic[..i], true), normalized, pendingSpace, byte);
      if IsSpace(byte) {
        pendingSpace := normalized != [];
      } else {
        if pendingSpace {
          normalized := normalized + [32];
          pendingSpace := false;
        }
        normalized := normalized + [Lower(byte)];
      }
    }
    assert mnemonic[..|mnemonic|] == mnemonic;
    HeldIs(Read(mnemonic, true), normalized, pendingSpace);
    result := Some(normalized);
  }

  predicate AllAscii(s: Bytes) { forall i :: 0 <= i < |s| ==> s[i] <= 0x7f }

  lemma {:induction false} HeldNothing()
    ensures Held(Reading([], []), [], false)
  {
  }

  lemma {:induction false} HeldIs(r: Reading, normalized: Bytes, pending: bool)
    requires Held(r, normalized, pending)
    ensures normalized == Join(Closed(r))
  {
  }

  method SplitMnemonic(s: Bytes) returns (words: seq<Bytes>)
    ensures words == Fields(s, false)
  {
    hide Read;
    words := [];
    var i := 0;
    ReadNothing(false);
    assert s[..0] == [];
    while i < |s|
      invariant i <= |s| && words == Closed(Read(s[..i], false))
      invariant i < |s| ==> IsSpace(s[i]) || Read(s[..i], false).part == []
      decreases |s| - i
    {
      if IsSpace(s[i]) {
        ReadNext(s, i, false);
        i := i + 1;
      } else {
        var word: Bytes := [];
        while i < |s| && !IsSpace(s[i])
          invariant i <= |s| && Read(s[..i], false) == Reading(words, word)
          invariant word == [] ==> i < |s| && !IsSpace(s[i])
        {
          ReadNext(s, i, false);
          word := word + [s[i]];
          i := i + 1;
        }
        words := words + [word];
      }
    }
    assert s[..|s|] == s;
  }

  method JoinMnemonic(words: seq<Bytes>) returns (result: Bytes)
    ensures result == Join(words)
  {
    if words == [] {
      return [];
    }
    result := words[0];
    for i := 1 to |words|
      invariant result == Join(words[..i])
    {
      assert words[..i + 1] == words[..i] + [words[i]];
      JoinNext(words[..i], words[i]);
      result := result + ([32] + words[i]);
      assert Join(words[..i]) + ([32] + words[i]) == Join(words[..i]) + [32] + words[i];
    }
    assert words[..|words|] == words;
  }
}
