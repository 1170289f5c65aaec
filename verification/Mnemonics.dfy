/** BIP-39 phrases: entropy to words, words to entropy, and the two validators. */
module Mnemonics {
  import opened Bits
  import opened MnemonicText
  import opened Prelude
  import opened Radix
  import opened Regroup
  import Lexicographic

  type Digest = s: Bytes | |s| == 32 witness Repeat(0, 32)

  datatype Error = InvalidEntropyLength | InvalidMnemonicLength | InvalidWord | InvalidChecksum

  type Result<+T> = Fallible<T, Error>

  const LIST_SIZE := 2048

  // ---- the word list ----

  /** What is relied on of a word list: strictly sorted, of lower-case letters. */
  predicate WordList(list: seq<Bytes>) {
    && |list| == LIST_SIZE && Plain(list)
    && (forall i :: 0 <= i < |list| ==> AllAscii(list[i]))
    && (forall i, j :: 0 <= i < j < |list| ==> Lexicographic.Less(list[i], list[j]))
  }

  function ThreeLetters(i: nat): Bytes
    requires i < LIST_SIZE
  {
    [97 + i / 676, 97 + i / 26 % 26, 97 + i % 26]
  }

  /** Such lists exist. */
  lemma {:induction false} WordListExists() returns (list: seq<Bytes>)
    ensures WordList(list)
  {
    list := seq(LIST_SIZE, i requires 0 <= i < LIST_SIZE => ThreeLetters(i));
    forall i, j | 0 <= i < j < LIST_SIZE ensures Lexicographic.Less(list[i], list[j]) {
      LettersSorted(i, j);
    }
  }

  lemma {:induction false} LettersSorted(i: nat, j: nat)
    requires i < j < LIST_SIZE
    ensures Lexicographic.Less(ThreeLetters(i), ThreeLetters(j))
  {
    var a, b := ThreeLetters(i), ThreeLetters(j);
    var p, q := i / 26, j / 26;
    assert p / 26 == i / 676 && q / 26 == j / 676;
    assert a[1..] == [a[1], a[2]] && b[1..] == [b[1], b[2]];
    assert a[1..][1..] == [a[2]] && b[1..][1..] == [b[2]];
    assert Lexicographic.Less([a[2]], [b[2]]) <==> a[2] < b[2] by {
      assert [a[2]][1..] == [] && [b[2]][1..] == [];
    }
  }

  /** The index of a word, or -1. */
  function IndexOfWord(list: seq<Bytes>, word: Bytes): (r: int)
    ensures -1 <= r < |list|
    ensures r >= 0 ==> list[r] == word
    ensures r == -1 ==> word !in list
  {
    if list == [] then -1
    else if list[|list| - 1] == word then |list| - 1
    else IndexOfWord(list[..|list| - 1], word)
  }

  lemma {:induction false} OneIndex(list: seq<Bytes>, i: nat)
    requires WordList(list) && i < |list|
    ensures IndexOfWord(list, list[i]) == i
  {
    forall k | 0 <= k < |list| && k != i ensures list[k] != list[i] {
      if k < i {
        Apart(list, k, i);
      } else {
        Apart(list, i, k);
      }
    }
  }

  lemma {:induction false} Apart(list: seq<Bytes>, i: nat, j: nat)
    requires WordList(list) && i < j < |list|
    ensures list[i] != list[j]
  {
    Lexicographic.Irreflexive(list[i]);
    assert Lexicographic.Less(list[i], list[j]);
  }

  lemma {:induction false} NoIndex(list: seq<Bytes>, word: Bytes)
    requires word !in list
    ensures IndexOfWord(list, word) == -1
  {
  }

  /** `findWord`: binary search by three-way comparison. */
  method FindWord(list: seq<Bytes>, word: Bytes) returns (index: int)
    requires WordList(list)
    ensures index == IndexOfWord(list, word)
  {
    hide IndexOfWord, Lexicographic.Less, Plain, AllAscii;
    var left, right := 0, LIST_SIZE - 1;
    while left <= right
      invariant 0 <= left <= LIST_SIZE && -1 <= right < LIST_SIZE
      invariant forall k :: 0 <= k < left ==> Lexicographic.Less(list[k], word)
      invariant forall k :: right < k < LIST_SIZE ==> Lexicographic.Less(word, list[k])
    {
      var mid := left + (right - left) / 2;
      if word == list[mid] {
        OneIndex(list, mid);
        return mid;
      } else if Lexicographic.Less(word, list[mid]) {
        forall k | mid - 1 < k < LIST_SIZE ensures Lexicographic.Less(word, list[k]) {
          if mid < k {
            Lexicographic.Transitive(word, list[mid], list[k]);
          }
        }
        right := mid - 1;
      } else {
        Lexicographic.Trichotomy(word, list[mid]);
        forall k | 0 <= k < mid + 1 ensures Lexicographic.Less(list[k], word) {
          if k < mid {
            Lexicographic.Transitive(list[k], list[mid], word);
          }
        }
        left := mid + 1;
      }
    }
    Lexicographic.Irreflexive(word);
    Absent(list, word, left);
    index := -1;
  }

  lemma {:induction false} Absent(list: seq<Bytes>, word: Bytes, n: nat)
    requires n <= |list|
    requires forall k :: 0 <= k < n ==> Lexicographic.Less(list[k], word)
    requires forall k :: n <= k < |list| ==> list[k] == word || Lexicographic.Less(word, list[k])
    requires n < |list| ==> list[n] != word
    requires n < |list| ==> forall k :: n < k < |list| ==> Lexicographic.Less(list[n], list[k])
    ensures IndexOfWord(list, word) == -1
  {
    hide IndexOfWord;
    Lexicographic.Irreflexive(word);
    if word in list {
      var k := IndexOf(list, word);
      if k >= n {
        Lexicographic.Transitive(word, list[n], list[k]);
      }
      assert false;
    }
    NoIndex(list, word);
  }

  /** `wordIndex` of the identity module: the standard lower bound, then one comparison. */
  method LowerBoundIndex(list: seq<Bytes>, word: Bytes) returns (index: int)
    requires WordList(list)
    ensures index == IndexOfWord(list, word)
  {
    hide IndexOfWord, Lexicographic.Less, Plain, AllAscii;
    var first, count := 0, LIST_SIZE;
    while count > 0
      invariant 0 <= first && 0 <= count && first + count <= LIST_SIZE
      invariant forall k :: 0 <= k < first ==> Lexicographic.Less(list[k], word)
      invariant forall k :: first + count <= k < LIST_SIZE ==> list[k] == word || Lexicographic.Less(word, list[k])
    {
      var step := count / 2;
      var mid := first + step;
      if Lexicographic.Less(list[mid], word) {
        forall k | 0 <= k < mid + 1 ensures Lexicographic.Less(list[k], word) {
          if k < mid {
            Lexicographic.Transitive(list[k], list[mid], word);
          }
        }
        first := mid + 1;
        count := count - step - 1;
      } else {
        Lexicographic.Trichotomy(list[mid], word);
        forall k | mid <= k < LIST_SIZE ensures list[k] == word || Lexicographic.Less(word, list[k]) {
          if mid < k && list[mid] != word {
            Lexicographic.Transitive(word, list[mid], list[k]);
          }
        }
        count := step;
      }
    }
    if first < LIST_SIZE && word == list[first] {
      OneIndex(list, first);
      index := first;
    } else {
      Absent(list, word, first);
      index := -1;
    }
  }

  // ---- specification ----

  predicate ValidEntropySize(n: nat) { n == 16 || n == 20 || n == 24 || n == 28 || n == 32 }

  predicate ValidWordCount(n: nat) { n == 12 || n == 15 || n == 18 || n == 21 || n == 24 }

  /** The first bits of the digest of the entropy, one for each four bytes. */
  function Check(sha: Bytes -> Digest, entropy: Bytes): (b: seq<bool>)
    requires |entropy| <= 1024
    ensures |b| == |entropy| / 4
  {
    Row(sha(entropy), 8)[..|entropy| / 4]
  }

  function PhraseBits(sha: Bytes -> Digest, entropy: Bytes): seq<bool>
    requires |entropy| <= 1024
  {
    Row(entropy, 8) + Check(sha, entropy)
  }

  function Chosen(list: seq<Bytes>, indices: seq<nat>): (words: seq<Bytes>)
    requires forall i :: 0 <= i < |indices| ==> indices[i] < |list|
    ensures |words| == |indices| && forall i :: 0 <= i < |words| ==> words[i] == list[indices[i]]
  {
    seq(|indices|, i requires 0 <= i < |indices| => list[indices[i]])
  }

  predicate Known(list: seq<Bytes>, words: seq<Bytes>) {
    forall i :: 0 <= i < |words| ==> IndexOfWord(list, words[i]) >= 0
  }

  function Indices(list: seq<Bytes>, words: seq<Bytes>): (r: seq<nat>)
    requires Known(list, words)
    ensures |r| == |words| && forall i :: 0 <= i < |words| ==> r[i] == IndexOfWord(list, words[i]) < |list|
  {
    seq(|words|, i requires 0 <= i < |words| => IndexOfWord(list, words[i]))
  }

  function ToBytes(xs: seq<nat>): (r: Bytes)
    requires forall i :: 0 <= i < |xs| ==> xs[i] < 256
    ensures |r| == |xs| && forall i :: 0 <= i < |xs| ==> r[i] == xs[i]
  {
    xs
  }

  lemma {:induction false} WordWidth()
    ensures P2(11) == LIST_SIZE && P2(8) == 256
  {
    P2Byte(8);
    P2Byte(3);
    P2Add(8, 3);
    assert Pow(2, 3) == 8;
  }

  lemma {:induction false} ElevenFits(b: seq<bool>, n: nat)
    requires ValidEntropySize(n) && |b| == n * 8 + n / 4
    ensures |Cut(b, 11)| == n / 4 * 3 && Narrow(Cut(b, 11), 11) && Row(Cut(b, 11), 11) == b
    ensures forall i :: 0 <= i < |Cut(b, 11)| ==> Cut(b, 11)[i] < LIST_SIZE
  {
    hide Row, Cut;
    WordWidth();
    assert |b| % 11 == 0;
    RowCut(b, 11);
  }

  /** The word indices of valid entropy: eleven bits each, and none left over. */
  function IndicesOf(sha: Bytes -> Digest, entropy: Bytes): (r: seq<nat>)
    requires ValidEntropySize(|entropy|)
    ensures |r| == |entropy| / 4 * 3 && Narrow(r, 11) && Row(r, 11) == PhraseBits(sha, entropy)
    ensures forall i :: 0 <= i < |r| ==> r[i] < LIST_SIZE
  {
    ElevenFits(PhraseBits(sha, entropy), |entropy|);
    Cut(PhraseBits(sha, entropy), 11)
  }

  /** `entropyToMnemonic`. */
  function Phrase(list: seq<Bytes>, sha: Bytes -> Digest, entropy: Bytes): Result<Bytes>
    requires |list| == LIST_SIZE
  {
    if !ValidEntropySize(|entropy|) then Fail(InvalidEntropyLength)
    else Ok(Join(Chosen(list, IndicesOf(sha, entropy))))
  }

  /** The entropy part of the bits of `n` words, as bytes. */
  function EntropyPart(bits: seq<bool>, n: nat): (r: Bytes)
    requires ValidWordCount(n) && |bits| == n * 11
    ensures |r| == n / 3 * 4 && Row(r, 8) == bits[..n * 11 - n / 3]
  {
    WordWidth();
    var front := bits[..n * 11 - n / 3];
    RowCut(front, 8);
    ToBytes(Cut(front, 8))
  }

  function Decoded(list: seq<Bytes>, sha: Bytes -> Digest, words: seq<Bytes>): Result<Bytes> {
    if !ValidWordCount(|words|) then Fail(InvalidMnemonicLength)
    else if !Known(list, words) then Fail(InvalidWord)
    else
      var bits := Row(Indices(list, words), 11);
      var entropy := EntropyPart(bits, |words|);
      if bits[|bits| - |words| / 3..] != Check(sha, entropy) then Fail(InvalidChecksum) else Ok(entropy)
  }

  /** `mnemonicToEntropy`. */
  function Entropy(list: seq<Bytes>, sha: Bytes -> Digest, mnemonic: Bytes): Result<Bytes> {
    Decoded(list, sha, Fields(Normalized(mnemonic), false))
  }

  // ---- the two directions ----

  lemma {:induction false} ChosenIndices(list: seq<Bytes>, indices: seq<nat>)
    requires WordList(list) && forall i :: 0 <= i < |indices| ==> indices[i] < |list|
    ensures Known(list, Chosen(list, indices)) && Indices(list, Chosen(list, indices)) == indices
    ensures Plain(Chosen(list, indices))
  {
    hide IndexOfWord;
    forall i | 0 <= i < |indices| ensures IndexOfWord(list, Chosen(list, indices)[i]) == indices[i] {
      OneIndex(list, indices[i]);
    }
  }

  lemma {:induction false} IndicesChosen(list: seq<Bytes>, words: seq<Bytes>)
    requires Known(list, words)
    ensures Chosen(list, Indices(list, words)) == words
  {
    hide IndexOfWord;
  }

  lemma {:induction false} DecodesPhrase(list: seq<Bytes>, sha: Bytes -> Digest, entropy: Bytes)
    requires WordList(list) && ValidEntropySize(|entropy|)
    ensures Decoded(list, sha, Chosen(list, IndicesOf(sha, entropy))) == Ok(entropy)
  {
    hide Row, Cut, Check, IndexOfWord;
    var indices := IndicesOf(sha, entropy);
    ChosenIndices(list, indices);
    var n := |indices|;
    var bits := Row(indices, 11);
    assert bits == Row(entropy, 8) + Check(sha, entropy);
    assert bits[..n * 11 - n / 3] == Row(entropy, 8);
    assert bits[|bits| - n / 3..] == Check(sha, entropy);
    SameRow(EntropyPart(bits, n), entropy);
  }

  lemma {:induction false} SameRow(a: Bytes, b: Bytes)
    requires Row(a, 8) == Row(b, 8)
    ensures a == b
  {
    WordWidth();
    CutRow(a, 8);
    CutRow(b, 8);
  }

  /** Reading a phrase back gives the entropy, for every entropy of a valid length. */
  lemma {:induction false} EntropyOfPhrase(list: seq<Bytes>, sha: Bytes -> Digest, entropy: Bytes)
    requires WordList(list)
    ensures ValidEntropySize(|entropy|) ==>
              Phrase(list, sha, entropy).Ok? && Entropy(list, sha, Phrase(list, sha, entropy).value) == Ok(entropy)
  {
    hide Decoded, IndicesOf, Chosen;
    if ValidEntropySize(|entropy|) {
      var words := Chosen(list, IndicesOf(sha, entropy));
      ChosenIndices(list, IndicesOf(sha, entropy));
      FieldsJoined(words, true);
      FieldsJoined(words, false);
      DecodesPhrase(list, sha, entropy);
    }
  }

  lemma {:induction false} PhraseOfDecoded(list: seq<Bytes>, sha: Bytes -> Digest, words: seq<Bytes>)
    requires WordList(list) && Decoded(list, sha, words).Ok?
    ensures ValidEntropySize(|Decoded(list, sha, words).value|)
    ensures Chosen(list, IndicesOf(sha, Decoded(list, sha, words).value)) == words
  {
    hide Row, Cut, Check, IndexOfWord;
    var n := |words|;
    var indices := Indices(list, words);
    var bits := Row(indices, 11);
    var entropy := EntropyPart(bits, n);
    assert bits == bits[..n * 11 - n / 3] + bits[|bits| - n / 3..];
    SameIndices(indices, IndicesOf(sha, entropy));
    IndicesChosen(list, words);
  }

  lemma {:induction false} SameIndices(a: seq<nat>, b: seq<nat>)
    requires Row(a, 11) == Row(b, 11) && (forall i :: 0 <= i < |a| ==> a[i] < LIST_SIZE) && Narrow(b, 11)
    ensures a == b
  {
    WordWidth();
    CutRow(a, 11);
    CutRow(b, 11);
  }

  /** The phrase of an accepted mnemonic's entropy is that mnemonic, normalised. */
  lemma {:induction false} PhraseOfEntropy(list: seq<Bytes>, sha: Bytes -> Digest, mnemonic: Bytes)
    requires WordList(list) && Entropy(list, sha, mnemonic).Ok?
    ensures Phrase(list, sha, Entropy(list, sha, mnemonic).value) == Ok(Normalized(mnemonic))
  {
    hide Decoded, IndicesOf, Chosen;
    var words := Fields(mnemonic, true);
    FieldsPlain(mnemonic);
    FieldsJoined(words, false);
    PhraseOfDecoded(list, sha, words);
  }

  // ---- the first implementation ----

  method BytesToBits(data: Bytes) returns (bits: seq<bool>)
    ensures bits == Row(data, 8)
  {
    hide Row, BitsOf, P2;
    bits := [];
    RowNone(8);
    assert data[..0] == [];
    for i := 0 to |data|
      invariant bits == Row(data[..i], 8)
    {
      var byte: nat := data[i];
      for j := 8 downto 0
        invariant bits == Row(data[..i], 8) + BitsOf(byte, 8)[..8 - j]
      {
        BitAt(byte, 8, 7 - j);
        bits := bits + [Above(byte, j) % 2 == 1];
      }
      assert data[..i + 1] == data[..i] + [data[i]];
      RowAppend(data[..i], byte, 8);
    }
    assert data[..|data|] == data;
  }

  /** The bits that are there, read as the top of a number of `w` bits: set bits are added one
      weight at a time. */
  method ReadNumber(bits: seq<bool>, start: nat, w: nat) returns (n: nat)
    requires start < |bits|
    ensures n == Leading(bits[start..], w)
  {
    hide P2, Number;
    n := 0;
    NumberEmpty();
    ghost var b := bits[start..];
    var i := 0;
    assert b[..0] == [];
    while i < w && start + i < |bits|
      invariant i <= w && start + i <= |bits| && n == Number(b[..i]) * P2(w - i)
    {
      LeadingNext(b, w, i);
      if bits[start + i] {
        n := n + P2(w - 1 - i);
      }
      i := i + 1;
    }
  }

  function Leading(b: seq<bool>, w: nat): nat {
    var c := if |b| < w then |b| else w;
    Number(b[..c]) * P2(w - c)
  }

  lemma {:induction false} LeadingNext(b: seq<bool>, w: nat, i: nat)
    requires i < w && i < |b|
    ensures Number(b[..i + 1]) * P2(w - i - 1) == Number(b[..i]) * P2(w - i) + if b[i] then P2(w - 1 - i) else 0
  {
    hide P2, Number;
    assert b[..i + 1] == b[..i] + [b[i]];
    NumberAppend(b[..i], b[i]);
    P2Next(w - i - 1);
  }

  lemma {:induction false} CutFront(b: seq<bool>, w: nat)
    requires w >= 1 && b != []
    ensures Cut(b, w) == [Leading(b, w)] + Cut(if |b| <= w then [] else b[w..], w)
  {
    hide P2, Number;
    P2Next(0);
    if |b| <= w {
      assert b[..|b|] == b;
    }
  }

  method BitsToBytes(bits: seq<bool>) returns (bytes: seq<nat>)
    ensures bytes == Cut(bits, 8)
  {
    hide Cut, Leading;
    bytes := [];
    var i := 0;
    assert bits[0..] == bits;
    CutNone();
    while i < |bits|
      invariant 0 <= i
      invariant Cut(bits, 8) == bytes + Cut(if i < |bits| then bits[i..] else [], 8)
      decreases |bits| - i
    {
      CutFront(bits[i..], 8);
      var byte := ReadNumber(bits, i, 8);
      assert i + 8 < |bits| ==> bits[i..][8..] == bits[i + 8..];
      bytes := bytes + [byte];
      i := i + 8;
    }
  }

  lemma {:induction false} CutNone()
    ensures Cut([], 8) == [] && Cut([], 11) == []
  {
  }

  /** Bit `i` of a digest, counted from its first bit. */
  predicate DigestBit(hash: Bytes, i: nat)
    requires i < 8 * |hash|
  {
    Above(hash[i / 8], 7 - i % 8) % 2 == 1
  }

  lemma {:induction false} DigestBitAt(hash: Bytes, i: nat)
    requires i < 8 * |hash|
    ensures DigestBit(hash, i) <==> Row(hash, 8)[i]
  {
    hide Row, BitsOf, Above;
    RowAt(hash, 8, i / 8, i % 8);
    BitAt(hash[i / 8], 8, i % 8);
  }

  method EntropyToMnemonic(list: seq<Bytes>, sha: Bytes -> Digest, entropy: Bytes) returns (r: Result<Bytes>)
    requires WordList(list)
    ensures r == Phrase(list, sha, entropy)
  {
    hide Row, Cut, Leading, DigestBit, WordList, Narrow, Join;
    ListSize(list);
    if !ValidEntropySize(|entropy|) {
      return Fail(InvalidEntropyLength);
    }
    var hash := sha(entropy);
    var checksumBits := |entropy| / 4;
    var bits := BytesToBits(entropy);
    for i := 0 to checksumBits
      invariant bits == Row(entropy, 8) + Row(hash, 8)[..i]
    {
      DigestBitAt(hash, i);
      bits := bits + [DigestBit(hash, i)];
    }
    var words := PickWords(list, bits, IndicesOf(sha, entropy));
    var phrase := JoinMnemonic(words);
    r := Ok(phrase);
  }

  lemma {:induction false} ListSize(list: seq<Bytes>)
    requires WordList(list)
    ensures |list| == LIST_SIZE
  {
  }

  method PickWords(list: seq<Bytes>, bits: seq<bool>, ghost indices: seq<nat>) returns (words: seq<Bytes>)
    requires |list| == LIST_SIZE && indices == Cut(bits, 11) && |bits| == |indices| * 11
    requires forall i :: 0 <= i < |indices| ==> indices[i] < LIST_SIZE
    ensures words == Chosen(list, indices)
  {
    hide Cut, Leading;
    words := [];
    assert bits[0 * 11..] == bits && indices[0..] == indices;
    var count := |bits| / 11;
    for i := 0 to count
      invariant words == Chosen(list, indices[..i])
      invariant indices[i..] == Cut(bits[i * 11..], 11)
    {
      var rest := bits[i * 11..];
      CutFront(rest, 11);
      CutNone();
      var index := ReadNumber(bits, i * 11, 11);
      assert index == indices[i..][0] == indices[i];
      assert rest[11..] == bits[(i + 1) * 11..];
      assert indices[i + 1..] == indices[i..][1..];
      words := words + [list[index]];
    }
    assert indices[..count] == indices;
  }

  method MnemonicToEntropy(list: seq<Bytes>, sha: Bytes -> Digest, mnemonic: Bytes) returns (r: Result<Bytes>)
    requires WordList(list)
    ensures r == Entropy(list, sha, mnemonic)
  {
    hide Row, Cut, DigestBit, WordList, IndexOfWord, Fields, Normalized, Check, EntropyPart;
    var normalized := NormalizeMnemonic(mnemonic);
    var words := SplitMnemonic(normalized);
    if !ValidWordCount(|words|) {
      return Fail(InvalidMnemonicLength);
    }
    var bits: seq<bool> := [];
    ghost var indices: seq<nat> := [];
    RowNone(11);
    for i := 0 to |words|
      invariant |indices| == i && bits == Row(indices, 11)
      invariant forall k :: 0 <= k < i ==> indices[k] == IndexOfWord(list, words[k])
    {
      var index := FindWord(list, words[i]);
      if index < 0 {
        return Fail(InvalidWord);
      }
      bits := PushBits(bits, index);
      RowAppend(indices, index, 11);
      indices := indices + [index];
    }
    assert indices == Indices(list, words);
    var entropy := CheckBits(sha, bits, |words|);
    r := if entropy.None? then Fail(InvalidChecksum) else Ok(entropy.value);
  }

  /** Splits the bits of `n` words into entropy and checksum, and compares the checksum. */
  method CheckBits(sha: Bytes -> Digest, bits: seq<bool>, n: nat) returns (r: Option<Bytes>)
    requires ValidWordCount(n) && |bits| == n * 11
    ensures var entropy := EntropyPart(bits, n);
            r == if bits[|bits| - n / 3..] == Check(sha, entropy) then Some(entropy) else None
  {
    hide Row, Cut, DigestBit, Check, EntropyPart;
    var checksumBits := n / 3;
    var entropyBits := |bits| - checksumBits;
    EntropyIs(bits, n);
    var bytes := BitsToBytes(bits[..entropyBits]);
    var entropy: Bytes := ToBytes(bytes);
    var hash := sha(entropy);
    CheckIs(sha, entropy);
    ghost var check := Check(sha, entropy);
    ghost var tail := bits[entropyBits..];
    for i := 0 to checksumBits
      invariant forall k :: 0 <= k < i ==> tail[k] == check[k]
    {
      DigestBitAt(hash, i);
      if bits[entropyBits + i] != DigestBit(hash, i) {
        assert tail[i] != check[i];
        return None;
      }
      assert tail[i] == check[i];
    }
    assert tail == check;
    r := Some(entropy);
  }

  method PushBits(bits: seq<bool>, index: nat) returns (r: seq<bool>)
    ensures r == bits + BitsOf(index, 11)
  {
    hide BitsOf;
    r := bits;
    for i := 11 downto 0
      invariant r == bits + BitsOf(index, 11)[..11 - i]
    {
      BitAt(index, 11, 10 - i);
      r := r + [Above(index, i) % 2 == 1];
    }
  }

  lemma {:induction false} EntropyIs(bits: seq<bool>, n: nat)
    requires ValidWordCount(n) && |bits| == n * 11
    ensures var cut := Cut(bits[..|bits| - n / 3], 8);
            (forall i :: 0 <= i < |cut| ==> cut[i] < 256) && ToBytes(cut) == EntropyPart(bits, n)
  {
    hide Row, Cut;
    WordWidth();
    RowCut(bits[..|bits| - n / 3], 8);
  }

  lemma {:induction false} CheckIs(sha: Bytes -> Digest, entropy: Bytes)
    requires |entropy| <= 1024
    ensures forall i :: 0 <= i < |entropy| / 4 ==> Check(sha, entropy)[i] == Row(sha(entropy), 8)[i]
  {
  }

  // ---- the identity module's validator ----

  /** The checksum rule on word indices. */
  predicate Checked(sha: Bytes -> Digest, indices: seq<nat>) {
    ValidWordCount(|indices|)
    && var bits := Row(indices, 11);
       bits[|bits| - |indices| / 3..] == Check(sha, EntropyPart(bits, |indices|))
  }

  /** Bit `k` of the indices, eleven for each. */
  predicate IndexBit(indices: seq<nat>, k: nat)
    requires k < |indices| * 11
  {
    Above(indices[k / 11], 10 - k % 11) % 2 == 1
  }

  lemma {:induction false} IndexBitAt(indices: seq<nat>, k: nat)
    requires k < |indices| * 11
    ensures IndexBit(indices, k) <==> Row(indices, 11)[k]
  {
    hide Row, BitsOf, Above;
    RowAt(indices, 11, k / 11, k % 11);
    BitAt(indices[k / 11], 11, k % 11);
  }

  /** Sets the entropy bits one at a time in a zeroed buffer. */
  method FillEntropy(indices: seq<nat>, entropyBits: nat) returns (entropy: array<Byte>)
    requires entropyBits <= |indices| * 11 && entropyBits % 8 == 0
    ensures fresh(entropy) && entropy[..] == Cut(Row(indices, 11)[..entropyBits], 8)
  {
    hide Row, IndexBit, Filled, Cut, P2;
    var size := entropyBits / 8;
    entropy := new Byte[size](_ => 0);
    ghost var bits := Row(indices, 11);
    WordWidth();
    FilledNothing(size);
    assert bits[..0] == [];
    for bit := 0 to entropyBits
      invariant entropy[..] == Filled(bits[..bit], 8, size)
    {
      IndexBitAt(indices, bit);
      FilledNext(bits[..bit], bits[bit], 8, size);
      assert bits[..bit + 1] == bits[..bit] + [bits[bit]];
      var added := if IndexBit(indices, bit) then P2(7 - bit % 8) else 0;
      SetBit(entropy, bit / 8, added, Filled(bits[..bit + 1], 8, size));
    }
    FilledAll(bits[..entropyBits], size);
  }

  method SetBit(entropy: array<Byte>, k: nat, weight: nat, ghost result: seq<nat>)
    requires k < entropy.Length && |result| == entropy.Length && (forall i :: 0 <= i < |result| ==> result[i] < 256)
    requires forall i :: 0 <= i < |result| ==> result[i] == if i == k then entropy[i] as int + weight else entropy[i] as int
    modifies entropy
    ensures entropy[..] == result
  {
    var value: int := entropy[k];
    assert result[k] == value + weight;
    entropy[k] := value + weight;
  }

  lemma {:induction false} FilledNothing(size: nat)
    ensures Filled([], 8, size) == seq(size, _ => 0)
  {
  }

  lemma {:induction false} FilledAll(b: seq<bool>, size: nat)
    requires |b| == size * 8
    ensures Filled(b, 8, size) == Cut(b, 8)
  {
    hide Cut;
    CutSize(b, 8);
  }

  method ValidateIndices(sha: Bytes -> Digest, indices: seq<nat>) returns (ok: bool)
    ensures ok <==> Checked(sha, indices)
  {
    hide Row, Cut, IndexBit, DigestBit, Check, EntropyPart;
    if !ValidWordCount(|indices|) {
      return false;
    }
    var totalBits := |indices| * 11;
    var entropyBits := totalBits * 32 / 33;
    var checksumBits := totalBits - entropyBits;
    ghost var bits := Row(indices, 11);
    assert checksumBits == |indices| / 3;
    var buffer := FillEntropy(indices, entropyBits);
    EntropyIs(bits, |indices|);
    var entropy := buffer[..];
    var digest := sha(entropy);
    CheckIs(sha, entropy);
    ghost var check := Check(sha, entropy);
    ghost var tail := bits[entropyBits..];
    for bit := 0 to checksumBits
      invariant forall k :: 0 <= k < bit ==> tail[k] == check[k]
    {
      IndexBitAt(indices, entropyBits + bit);
      DigestBitAt(digest, bit);
      if IndexBit(indices, entropyBits + bit) != DigestBit(digest, bit) {
        assert tail[bit] != check[bit];
        return false;
      }
      assert tail[bit] == check[bit];
    }
    assert tail == check;
    ok := true;
  }

  lemma {:induction false} JoinFront(words: seq<Bytes>)
    requires words != []
    ensures Join(words) == words[0] + if |words| == 1 then [] else [32] + Join(words[1..])
    decreases |words|
  {
    if |words| > 1 {
      var h, w := words[..|words| - 1], words[|words| - 1];
      JoinFront(h);
      assert h[1..] == words[1..][..|words| - 2];
      if |words| == 2 {
        assert words[1..] == [w];
      } else {
        assert words[0] + ([32] + Join(h[1..])) + [32] + w == words[0] + ([32] + (Join(h[1..]) + [32] + w));
      }
    }
  }

  method WordEnd(s: Bytes, begin: nat, ghost w: Bytes) returns (end: nat)
    requires begin + |w| <= |s| && s[begin..begin + |w|] == w && NoSpaces(w)
    requires begin + |w| < |s| ==> s[begin + |w|] == 32
    ensures end == begin + |w|
  {
    forall i | begin <= i < begin + |w| ensures s[i] != 32 {
      assert s[i] == s[begin..begin + |w|][i - begin] == w[i - begin];
    }
    end := begin;
    while end < |s| && s[end] != 32
      invariant begin <= end <= begin + |w|
    {
      end := end + 1;
    }
  }

  /** Splits at single spaces and looks every word up; the text is always a normalised one. */
  method ValidateNormalized(list: seq<Bytes>, sha: Bytes -> Digest, normalized: Bytes, ghost words: seq<Bytes>) returns (ok: bool)
    requires WordList(list) && Plain(words) && normalized == Join(words)
    ensures ok <==> Decoded(list, sha, words).Ok?
  {
    hide Join, Checked, WordList, IndexOfWord, Plain, NoSpaces, Decoded;
    var indices: seq<nat> := [];
    var begin := 0;
    assert words[0..] == words && normalized[0..] == normalized;
    JoinNothing();
    while begin < |normalized|
      invariant begin <= |normalized| && |indices| <= |words|
      invariant normalized[begin..] == Join(words[|indices|..])
      invariant forall k :: 0 <= k < |indices| ==> indices[k] == IndexOfWord(list, words[k])
      decreases |normalized| - begin
    {
      var k := |indices|;
      ghost var rest := words[k..];
      FirstWord(words, k);
      ghost var w := words[k];
      assert forall i :: begin <= i < |normalized| ==> normalized[i] == Join(rest)[i - begin];
      var end := WordEnd(normalized, begin, w);
      var index := LowerBoundIndex(list, normalized[begin..end]);
      if index < 0 {
        UnknownWord(list, sha, words, k);
        return false;
      }
      indices := indices + [index];
      begin := if end == |normalized| then end else end + 1;
      assert normalized[begin..] == Join(rest)[begin - (end - |w|)..];
    }
    PlainTail(words, |indices|);
    JoinNonempty(words[|indices|..]);
    ok := ValidateIndices(sha, indices);
    KnownIndices(list, sha, words, indices);
  }

  lemma {:induction false} PlainTail(words: seq<Bytes>, k: nat)
    requires k <= |words| && Plain(words)
    ensures Plain(words[k..])
  {
  }

  lemma {:induction false} FirstWord(words: seq<Bytes>, k: nat)
    requires k <= |words| && Plain(words) && Join(words[k..]) != []
    ensures k < |words|
    ensures var s, w := Join(words[k..]), words[k];
            && w != [] && NoSpaces(w) && |w| <= |s| && s[..|w|] == w
            && (|w| < |s| ==> s[|w|] == 32)
            && Join(words[k + 1..]) == s[if |w| == |s| then |w| else |w| + 1..]
  {
    JoinNothing();
    JoinFront(words[k..]);
    assert words[k..][1..] == words[k + 1..];
  }

  lemma {:induction false} UnknownWord(list: seq<Bytes>, sha: Bytes -> Digest, words: seq<Bytes>, k: nat)
    requires k < |words| && IndexOfWord(list, words[k]) < 0
    ensures Decoded(list, sha, words).Fail?
  {
    hide IndexOfWord;
    assert !Known(list, words);
  }

  lemma {:induction false} KnownIndices(list: seq<Bytes>, sha: Bytes -> Digest, words: seq<Bytes>, indices: seq<nat>)
    requires |indices| == |words| && forall k :: 0 <= k < |words| ==> indices[k] == IndexOfWord(list, words[k])
    ensures Decoded(list, sha, words).Ok? <==> Checked(sha, indices)
  {
    hide IndexOfWord, Row, EntropyPart, Check;
    assert Known(list, words) && Indices(list, words) == indices;
  }

  lemma {:induction false} ReadAscii(s: Bytes)
    requires forall k :: 0 <= k < |Read(s, true).words| ==> AllAscii(Read(s, true).words[k])
    requires AllAscii(Read(s, true).part)
    ensures AllAscii(s)
  {
    if s != [] {
      var h, c := s[..|s| - 1], s[|s| - 1];
      var before, after := Read(h, true), Read(s, true);
      if IsSpace(c) {
        assert after.words == Closed(before);
        if before.part != [] {
          assert Closed(before)[|before.words|] == before.part;
        }
        assert forall k :: 0 <= k < |before.words| ==> before.words[k] == Closed(before)[k];
      } else {
        assert after.part[|before.part|] == Lower(c);
        assert forall i :: 0 <= i < |before.part| ==> before.part[i] == after.part[i];
      }
      ReadAscii(h);
      assert s == h + [c];
    }
  }

  /** Only ASCII mnemonics are accepted. */
  lemma {:induction false} AcceptedIsAscii(list: seq<Bytes>, sha: Bytes -> Digest, mnemonic: Bytes)
    requires WordList(list) && Entropy(list, sha, mnemonic).Ok?
    ensures AllAscii(mnemonic) && mnemonic != []
  {
    hide IndexOfWord, Row, EntropyPart, Check, Read, Join;
    var words := Fields(mnemonic, true);
    FieldsPlain(mnemonic);
    FieldsJoined(words, false);
    forall k | 0 <= k < |words| ensures AllAscii(words[k]) {
      assert words[k] == list[IndexOfWord(list, words[k])];
    }
    ReadNothing(true);
    var r := Read(mnemonic, true);
    assert r.part != [] ==> words[|r.words|] == r.part;
    assert forall k :: 0 <= k < |r.words| ==> r.words[k] == words[k];
    ReadAscii(mnemonic);
  }

  /** The identity module's check of a mnemonic accepts exactly what the first implementation
      accepts, up to 1024 bytes. */
  method ValidateLegacy(list: seq<Bytes>, sha: Bytes -> Digest, mnemonic: Bytes) returns (ok: bool)
    requires WordList(list)
    ensures ok <==> |mnemonic| <= 1024 && Entropy(list, sha, mnemonic).Ok?
  {
    hide Decoded, Fields, Join, Read;
    if Entropy(list, sha, mnemonic).Ok? {
      AcceptedIsAscii(list, sha, mnemonic);
    }
    if mnemonic == [] || |mnemonic| > 1024 {
      return false;
    }
    var normalized := NormalizeHeldBack(mnemonic);
    if normalized.None? {
      return false;
    }
    ghost var words := Fields(mnemonic, true);
    FieldsPlain(mnemonic);
    FieldsJoined(words, false);
    if normalized.value == [] {
      JoinNonempty(words);
      NoWords(list, sha);
      return false;
    }
    ok := ValidateNormalized(list, sha, normalized.value, words);
  }

  lemma {:induction false} NoWords(list: seq<Bytes>, sha: Bytes -> Digest)
    ensures Decoded(list, sha, []).Fail?
  {
  }
}
