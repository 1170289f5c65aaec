/** What the specification of BIP-39 phrases means, in numbers and in text. */
module MnemonicMeaning {
  import opened Bits
  import opened MnemonicText
  import opened Mnemonics
  import opened Prelude
  import opened Radix
  import opened Regroup

  // ---- phrases as numbers ----

  /** The number written by `xs` in a base. */
  function Horner(xs: seq<nat>, base: nat): nat {
    if xs == [] then 0 else Horner(xs[..|xs| - 1], base) * base + xs[|xs| - 1]
  }

  lemma {:induction false} HornerBytes(s: Bytes)
    ensures Horner(s, 256) == Value(s, 256)
  {
    if s != [] {
      HornerBytes(s[..|s| - 1]);
    }
  }

  lemma {:induction false} NumberConcat(a: seq<bool>, b: seq<bool>)
    ensures Number(a + b) == Number(a) * P2(|b|) + Number(b)
    decreases |b|
  {
    hide Number, P2;
    P2Next(0);
    NumberEmpty();
    if b == [] {
      assert a + b == a;
    } else {
      var h, x := b[..|b| - 1], b[|b| - 1];
      assert a + b == (a + h) + [x] && b == h + [x];
      NumberConcat(a, h);
      NumberAppend(a + h, x);
      NumberAppend(h, x);
      P2Next(|h|);
      Spread(Number(a), P2(|h|), Number(h), Bit(x));
    }
  }

  lemma {:induction false} Spread(a: nat, p: nat, h: nat, x: nat)
    ensures (a * p + h) * 2 + x == a * (2 * p) + (h * 2 + x)
  {
  }

  /** The bits of a row of numbers write the number with those digits. */
  lemma {:induction false} RowNumber(xs: seq<nat>, w: nat)
    requires forall i :: 0 <= i < |xs| ==> xs[i] < P2(w)
    ensures Number(Row(xs, w)) == Horner(xs, P2(w))
  {
    hide Number, P2;
    if xs == [] {
      NumberEmpty();
    } else {
      var h, x := xs[..|xs| - 1], xs[|xs| - 1];
      RowNumber(h, w);
      NumberOfBits(x, w);
      NumberConcat(Row(h, w), BitsOf(x, w));
    }
  }

  lemma {:induction false} NumberFront(b: seq<bool>, k: nat)
    requires k <= |b|
    ensures Number(b[..k]) == Number(b) / P2(|b| - k)
  {
    hide Number, P2;
    assert b == b[..k] + b[k..];
    NumberConcat(b[..k], b[k..]);
    BitsOfNumber(b[k..]);
    DivMod(Number(b[..k]), P2(|b| - k), Number(b[k..]));
  }

  /** The words of valid entropy of n bytes are three for each four of them, and their indices are
      the digits in base 2048 of the entropy followed by the first n/4 bits of its digest. */
  lemma {:induction false} PhraseNumber(sha: Bytes -> Digest, entropy: Bytes)
    requires ValidEntropySize(|entropy|)
    ensures var n := |entropy|;
            var indices := IndicesOf(sha, entropy);
            && |indices| == 3 * n / 4 && (forall i :: 0 <= i < |indices| ==> indices[i] < 2048)
            && Horner(indices, 2048) == Value(entropy, 256) * P2(n / 4) + Value(sha(entropy), 256) / P2(256 - n / 4)
  {
    hide Number, P2, Row, IndicesOf, Horner, Value;
    var n := |entropy|;
    var indices := IndicesOf(sha, entropy);
    var digest := sha(entropy);
    WordWidth();
    RowNumber(indices, 11);
    NumberConcat(Row(entropy, 8), Check(sha, entropy));
    RowNumber(entropy, 8);
    HornerBytes(entropy);
    RowNumber(digest, 8);
    HornerBytes(digest);
    NumberFront(Row(digest, 8), n / 4);
  }

  lemma {:induction false} ChosenIs(list: seq<Bytes>, indices: seq<nat>)
    requires forall i :: 0 <= i < |indices| ==> indices[i] < |list|
    ensures Chosen(list, indices) == seq(|indices|, i requires 0 <= i < |indices| => list[indices[i]])
  {
  }

  /** A phrase is made of 16, 20, 24, 28 or 32 bytes, and of nothing else. */
  lemma {:induction false} PhraseSizes(list: seq<Bytes>, sha: Bytes -> Digest, entropy: Bytes)
    requires WordList(list)
    ensures Phrase(list, sha, entropy).Ok? <==> |entropy| % 4 == 0 && 16 <= |entropy| <= 32
    ensures Phrase(list, sha, entropy).Fail? ==> Phrase(list, sha, entropy) == Fail(InvalidEntropyLength)
  {
    hide IndicesOf, Join, Chosen;
  }

  /** It is the words at the indices, joined. */
  lemma {:induction false} PhraseWords(list: seq<Bytes>, sha: Bytes -> Digest, entropy: Bytes)
    requires |list| == 2048 && ValidEntropySize(|entropy|)
    ensures var indices := IndicesOf(sha, entropy);
            Phrase(list, sha, entropy) == Ok(Join(seq(|indices|, i requires 0 <= i < |indices| => list[indices[i]])))
  {
    hide IndicesOf, Join, Chosen, ValidEntropySize;
    ChosenIs(list, IndicesOf(sha, entropy));
  }

  /** A mnemonic decodes to some entropy exactly when its normalised text is the phrase of it. */
  lemma {:induction false} DecodesIff(list: seq<Bytes>, sha: Bytes -> Digest, mnemonic: Bytes, entropy: Bytes)
    requires WordList(list)
    ensures Entropy(list, sha, mnemonic) == Ok(entropy) <==> Phrase(list, sha, entropy) == Ok(Normalized(mnemonic))
  {
    hide Phrase, Decoded, Normalized;
    if Entropy(list, sha, mnemonic) == Ok(entropy) {
      PhraseOfEntropy(list, sha, mnemonic);
    }
    if Phrase(list, sha, entropy) == Ok(Normalized(mnemonic)) {
      PhraseSizes(list, sha, entropy);
      EntropyOfPhrase(list, sha, entropy);
      Twice(mnemonic);
    }
  }

  lemma {:induction false} Twice(s: Bytes)
    ensures Normalized(Normalized(s)) == Normalized(s)
  {
    hide Fields, Join;
    FieldsPlain(s);
    FieldsJoined(Fields(s, true), true);
  }

  /** A mnemonic is refused for its length unless it has 12, 15, 18, 21 or 24 words, then for a word
      that is not in the list, and only then for its checksum. */
  lemma {:induction false} DecodeErrors(list: seq<Bytes>, sha: Bytes -> Digest, mnemonic: Bytes)
    requires WordList(list)
    ensures var words, r := Fields(mnemonic, true), Entropy(list, sha, mnemonic);
            && (r == Fail(InvalidMnemonicLength) <==> !(|words| % 3 == 0 && 12 <= |words| <= 24))
            && (r == Fail(InvalidWord) <==> |words| % 3 == 0 && 12 <= |words| <= 24 && exists i :: 0 <= i < |words| && words[i] !in list)
  {
    hide IndexOfWord, Row, Check, EntropyPart, Fields, Join, Indices;
    var words := Fields(mnemonic, true);
    FieldsPlain(mnemonic);
    FieldsJoined(words, false);
    forall i | 0 <= i < |words| ensures IndexOfWord(list, words[i]) >= 0 <==> words[i] in list {
      if words[i] in list {
        var k := IndexOf(list, words[i]);
        OneIndex(list, k);
      }
    }
  }

  // ---- words in a text ----

  predicate IsWhite(c: Byte) { c == 9 || c == 10 || c == 11 || c == 12 || c == 13 || c == 32 }

  predicate White(b: Bytes) { forall i :: 0 <= i < |b| ==> IsWhite(b[i]) }

  predicate IsWord(w: Bytes) { w != [] && forall i :: 0 <= i < |w| ==> !IsWhite(w[i]) }

  /** The words with the blanks before, between and after them. */
  function Laid(words: seq<Bytes>, blanks: seq<Bytes>): Bytes
    requires |blanks| == |words| + 1
  {
    if words == [] then blanks[0]
    else
      var n := |words| - 1;
      Laid(words[..n], blanks[..n + 1]) + (words[n] + blanks[n + 1])
  }

  /** Words of no white space, with white space between any two. */
  predicate LaidOut(words: seq<Bytes>, blanks: seq<Bytes>) {
    && |blanks| == |words| + 1
    && (forall i :: 0 <= i < |words| ==> IsWord(words[i]))
    && (forall i :: 0 <= i < |blanks| ==> White(blanks[i]))
    && (forall i :: 0 < i < |words| ==> blanks[i] != [])
  }

  function InLower(words: seq<Bytes>): (r: seq<Bytes>)
    ensures |r| == |words| && forall i :: 0 <= i < |r| ==> r[i] == Lowered(words[i])
  {
    seq(|words|, i requires 0 <= i < |words| => Lowered(words[i]))
  }

  lemma {:induction false} ReadStep(s: Bytes, c: Byte)
    ensures Read(s + [c], true) ==
              if IsWhite(c) then Reading(Closed(Read(s, true)), []) else Reading(Read(s, true).words, Read(s, true).part + [Lower(c)])
  {
    assert (s + [c])[..|s|] == s;
  }

  lemma {:induction false} ReadBlank(s: Bytes, b: Bytes)
    requires White(b)
    ensures Read(s + b, true) == if b == [] then Read(s, true) else Reading(Closed(Read(s, true)), [])
    decreases |b|
  {
    hide Read;
    if b == [] {
      assert s + b == s;
    } else {
      var h, c := b[..|b| - 1], b[|b| - 1];
      assert s + b == (s + h) + [c];
      ReadBlank(s, h);
      ReadStep(s + h, c);
    }
  }

  lemma {:induction false} ReadLetters(s: Bytes, w: Bytes)
    requires forall i :: 0 <= i < |w| ==> !IsWhite(w[i])
    ensures Read(s + w, true) == Reading(Read(s, true).words, Read(s, true).part + Lowered(w))
    decreases |w|
  {
    hide Read;
    if w == [] {
      assert s + w == s && Read(s, true).part + Lowered(w) == Read(s, true).part;
    } else {
      var h, c := w[..|w| - 1], w[|w| - 1];
      assert s + w == (s + h) + [c];
      ReadLetters(s, h);
      ReadStep(s + h, c);
      assert Lowered(w) == Lowered(h) + [Lower(c)];
      assert Read(s, true).part + Lowered(h) + [Lower(c)] == Read(s, true).part + Lowered(w);
    }
  }

  /** What has been read of such a text. */
  function Outcome(words: seq<Bytes>, last: Bytes): Reading {
    if words != [] && last == [] then Reading(InLower(words)[..|words| - 1], Lowered(words[|words| - 1])) else Reading(InLower(words), [])
  }

  lemma {:induction false} OutcomeCloses(words: seq<Bytes>, last: Bytes)
    requires forall i :: 0 <= i < |words| ==> IsWord(words[i])
    ensures Closed(Outcome(words, last)) == InLower(words)
  {
    if words != [] {
      assert Lowered(words[|words| - 1]) != [];
    }
  }

  lemma {:induction false} LaidReads(words: seq<Bytes>, blanks: seq<Bytes>)
    requires LaidOut(words, blanks)
    ensures Read(Laid(words, blanks), true) == Outcome(words, blanks[|words|])
    decreases |words|
  {
    hide Read, IsWord, White;
    if words == [] {
      assert [] + blanks[0] == blanks[0];
      ReadBlank([], blanks[0]);
      NothingRead();
    } else {
      var n := |words| - 1;
      var front, w, b := Laid(words[..n], blanks[..n + 1]), words[n], blanks[n + 1];
      LaidReads(words[..n], blanks[..n + 1]);
      assert front + (w + b) == (front + w) + b;
      OutcomeCloses(words[..n], blanks[n]);
      WordLetters(w);
      ReadLetters(front, w);
      ReadBlank(front + w, b);
      assert InLower(words) == InLower(words[..n]) + [Lowered(w)];
      assert n > 0 ==> blanks[n] != [];
      assert [] + Lowered(w) == Lowered(w);
    }
  }

  lemma {:induction false} WordLetters(w: Bytes)
    requires IsWord(w)
    ensures (forall i :: 0 <= i < |w| ==> !IsWhite(w[i])) && Lowered(w) != []
  {
  }

  lemma {:induction false} NothingRead()
    ensures Read([], true) == Reading([], [])
  {
  }

  /** Any text is laid out in one such way. */
  lemma {:induction false} TextLaid(s: Bytes) returns (words: seq<Bytes>, blanks: seq<Bytes>)
    ensures LaidOut(words, blanks) && Laid(words, blanks) == s
    decreases |s|
  {
    if s == [] {
      words, blanks := [], [[]];
    } else {
      hide Laid;
      var h, c := s[..|s| - 1], s[|s| - 1];
      assert s == h + [c];
      words, blanks := TextLaid(h);
      var n := |words|;
      if IsWhite(c) {
        MoreBlank(words, blanks, c);
        blanks := blanks[n := blanks[n] + [c]];
      } else if n > 0 && blanks[n] == [] {
        MoreWord(words, blanks, c);
        words := words[n - 1 := words[n - 1] + [c]];
      } else {
        NewWord(words, blanks, c);
        words, blanks := words + [[c]], blanks + [[]];
      }
    }
  }

  lemma {:induction false} MoreBlank(words: seq<Bytes>, blanks: seq<Bytes>, c: Byte)
    requires LaidOut(words, blanks) && IsWhite(c)
    ensures var n := |words|;
            var more := blanks[n := blanks[n] + [c]];
            LaidOut(words, more) && Laid(words, more) == Laid(words, blanks) + [c]
  {
    var n := |words|;
    var more := blanks[n := blanks[n] + [c]];
    if n > 0 {
      assert more[..n] == blanks[..n];
      var front := Laid(words[..n - 1], blanks[..n]);
      assert front + (words[n - 1] + (blanks[n] + [c])) == front + (words[n - 1] + blanks[n]) + [c];
    }
  }

  lemma {:induction false} MoreWord(words: seq<Bytes>, blanks: seq<Bytes>, c: Byte)
    requires LaidOut(words, blanks) && words != [] && blanks[|words|] == [] && !IsWhite(c)
    ensures var n := |words|;
            var more := words[n - 1 := words[n - 1] + [c]];
            LaidOut(more, blanks) && Laid(more, blanks) == Laid(words, blanks) + [c]
  {
    var n := |words|;
    var more := words[n - 1 := words[n - 1] + [c]];
    assert more[..n - 1] == words[..n - 1];
    var front := Laid(words[..n - 1], blanks[..n]);
    assert front + (words[n - 1] + [c] + []) == front + (words[n - 1] + []) + [c];
  }

  lemma {:induction false} NewWord(words: seq<Bytes>, blanks: seq<Bytes>, c: Byte)
    requires LaidOut(words, blanks) && !IsWhite(c) && (words != [] ==> blanks[|words|] != [])
    ensures LaidOut(words + [[c]], blanks + [[]]) && Laid(words + [[c]], blanks + [[]]) == Laid(words, blanks) + [c]
  {
    var more, wider := words + [[c]], blanks + [[]];
    assert more[..|words|] == words && wider[..|words| + 1] == blanks;
    assert [c] + [] == [c];
  }

  /** The words of a text are the runs of bytes between its white space, in lower case. */
  lemma {:induction false} FieldsIff(s: Bytes, fields: seq<Bytes>)
    ensures Fields(s, true) == fields <==>
              exists words, blanks :: LaidOut(words, blanks) && Laid(words, blanks) == s && fields == InLower(words)
  {
    hide Read, Laid;
    var words, blanks := TextLaid(s);
    LaidFields(words, blanks);
    assert LaidOut(words, blanks) && Laid(words, blanks) == s;
    forall v, b | LaidOut(v, b) && Laid(v, b) == s ensures Fields(s, true) == InLower(v) {
      LaidFields(v, b);
    }
  }

  lemma {:induction false} LaidFields(words: seq<Bytes>, blanks: seq<Bytes>)
    requires LaidOut(words, blanks)
    ensures |blanks| == |words| + 1 && Fields(Laid(words, blanks), true) == InLower(words)
  {
    hide Read, Laid;
    LaidReads(words, blanks);
    OutcomeCloses(words, blanks[|words|]);
  }

  /** One space between any two of n words. */
  function OneSpace(n: nat): (b: seq<Bytes>)
    ensures |b| == n + 1 && forall i :: 0 <= i <= n ==> b[i] == if 0 < i < n then [32] else []
  {
    seq(n + 1, i => if 0 < i < n then [32] else [])
  }

  /** Joined words are laid out with one space between any two. */
  lemma {:induction false} JoinIs(words: seq<Bytes>)
    ensures Join(words) == Laid(words, OneSpace(|words|))
  {
    var blanks := OneSpace(|words|);
    if |words| > 1 {
      var n := |words| - 1;
      var shorter := blanks[..n + 1];
      JoinIs(words[..n]);
      assert forall i :: 0 <= i < n ==> shorter[i] == OneSpace(n)[i];
      LastBlank(words[..n], OneSpace(n), shorter);
      assert Laid(words[..n], OneSpace(n)) + [32] + words[n] == Laid(words, blanks);
    } else if |words| == 1 {
      assert Laid(words[..0], blanks[..1]) == [];
    }
  }

  lemma {:induction false} LastBlank(words: seq<Bytes>, a: seq<Bytes>, b: seq<Bytes>)
    requires |a| == |b| == |words| + 1 && a[..|words|] == b[..|words|] && a[|words|] == [] && b[|words|] == [32]
    ensures Laid(words, b) == Laid(words, a) + [32]
  {
    if words != [] {
      var n := |words| - 1;
      var front := Laid(words[..n], a[..n + 1]);
      assert front + (words[n] + [32]) == front + (words[n] + []) + [32];
    }
  }
}
