/** Strings published with BIP-173 and BIP-350, read and written by the codec. */
module Bech32Vectors {
  import opened Prelude
  import opened Bech32Checksum
  import opened Bech32
  import BitCodecs
  import opened Radix

  // ---- the register, by plain words ----

  /** `chk ^= g` under a condition. */
  function Fed(chk: bv32, on: bool, g: bv32): bv32 { if on then chk ^ g else chk }

  /** One step of the register as BIP-173 writes it, generator by generator. */
  function PlainStep(chk: bv32, v: bv32): bv32 {
    var top := Top(chk);
    Fed(Fed(Fed(Fed(Fed(Xor(Kept(chk), v), Bit(top, 0), 0x3b6a57b2), Bit(top, 1), 0x26508e6d), Bit(top, 2), 0x1ea119fa),
            Bit(top, 3), 0x3d4233dd), Bit(top, 4), 0x2a1462b3)
  }

  function PlainPolymod(chk: bv32, values: seq<bv32>): bv32
    decreases |values|
  {
    if values == [] then chk else PlainPolymod(PlainStep(chk, values[0]), values[1..])
  }

  lemma {:induction false} Chain(a: bv32, t0: bv32, t1: bv32, t2: bv32, t3: bv32, t4: bv32)
    ensures Xor(a, Xor(Xor(Xor(Xor(Xor(0, t0), t1), t2), t3), t4)) == Xor(Xor(Xor(Xor(Xor(a, t0), t1), t2), t3), t4)
  {
    hide Xor;
    Identities(t0);
    Associative(a, Xor(Xor(Xor(t0, t1), t2), t3), t4);
    Associative(a, Xor(Xor(t0, t1), t2), t3);
    Associative(a, Xor(t0, t1), t2);
    Associative(a, t0, t1);
  }

  lemma {:induction false} FedIs(chk: bv32, on: bool, g: bv32)
    ensures Fed(chk, on, g) == Xor(chk, Tap(on, g))
  {
    Identities(chk);
  }

  lemma {:induction false} FiveFed(c: bv32, p0: bool, p1: bool, p2: bool, p3: bool, p4: bool, g0: bv32, g1: bv32, g2: bv32, g3: bv32, g4: bv32)
    ensures Fed(Fed(Fed(Fed(Fed(c, p0, g0), p1, g1), p2, g2), p3, g3), p4, g4)
            == Xor(c, Xor(Xor(Xor(Xor(Xor(0, Tap(p0, g0)), Tap(p1, g1)), Tap(p2, g2)), Tap(p3, g3)), Tap(p4, g4)))
  {
    hide Xor, Tap, Fed;
    var c1 := Fed(c, p0, g0);
    var c2 := Fed(c1, p1, g1);
    var c3 := Fed(c2, p2, g2);
    FedIs(c, p0, g0);
    FedIs(c1, p1, g1);
    FedIs(c2, p2, g2);
    FedIs(c3, p3, g3);
    FedIs(Fed(c3, p3, g3), p4, g4);
    Chain(c, Tap(p0, g0), Tap(p1, g1), Tap(p2, g2), Tap(p3, g3), Tap(p4, g4));
  }

  lemma {:induction false} PlainIs(chk: bv32, v: bv32)
    ensures Step(chk, v) == PlainStep(chk, v)
  {
    hide Xor, Bit, Tap, Kept, Top, Taps, Fed;
    var top := Top(chk);
    FiveFed(Xor(Kept(chk), v), Bit(top, 0), Bit(top, 1), Bit(top, 2), Bit(top, 3), Bit(top, 4),
            0x3b6a57b2, 0x26508e6d, 0x1ea119fa, 0x3d4233dd, 0x2a1462b3);
    TapsFlat(top);
  }

  lemma {:induction false} PolymodIsPlain(chk: bv32, values: seq<bv32>)
    ensures Polymod(chk, values) == PlainPolymod(chk, values)
    decreases |values|
  {
    hide Step, PlainStep, Polymod;
    if values == [] {
      NoValues(chk);
    } else {
      assert values == [values[0]] + values[1..];
      PolymodConcat(chk, [values[0]], values[1..]);
      OneValue(chk, values[0]);
      PlainIs(chk, values[0]);
      PolymodIsPlain(PlainStep(chk, values[0]), values[1..]);
    }
  }

  lemma {:induction false} NoValues(chk: bv32)
    ensures Polymod(chk, []) == chk
  {
  }

  lemma {:induction false} OneValue(chk: bv32, v: bv32)
    ensures Polymod(chk, [v]) == Step(chk, v)
  {
    hide Step;
    assert [v][..0] == [];
  }

  lemma {:induction false} PlainConcat(chk: bv32, v: seq<bv32>, w: seq<bv32>)
    ensures PlainPolymod(chk, v + w) == PlainPolymod(PlainPolymod(chk, v), w)
  {
    hide Polymod, PlainPolymod;
    PolymodConcat(chk, v, w);
    PolymodIsPlain(chk, v + w);
    PolymodIsPlain(chk, v);
    PolymodIsPlain(Polymod(chk, v), w);
  }

  // ---- published strings ----

  /** How a string whose symbols leave the constant of a specification is read, and that it is also written. */
  lemma {:induction false} Published(hrp: Bytes, v: Bytes, words: seq<bv32>, spec: Spec, t: Bytes)
    requires GoodHrp(hrp) && |v| >= 6 && Below(v, 32) && t == hrp + [49] + Chars(v) && CleanPadding(v[..|v| - 6])
    requires words == Words(HrpExpand(hrp) + v) && PlainPolymod(1, words) == Constant(spec)
    ensures Shaped(t) && HrpOf(t) == hrp && DataSymbols(t) == v[..|v| - 6] && Meaning(t).Decoded?
    ensures var r := Meaning(t); r == Decoded(hrp, r.data, spec) && Encoded(hrp, r.data, spec) == t
  {
    hide Chars, Polymod, PlainPolymod, HrpExpand, Words, BitCodecs.Converted, Encoded, CleanPadding, Symbols32, Written, LastOne;
    PolymodIsPlain(1, words);
    ReadsSymbols(hrp, v);
    assert Constant(Bech32) != Constant(Bech32m);
    EncodeDecode(t);
    PayloadChars(v);
    Located(hrp, Chars(v));
  }

  lemma {:induction false} ExpandA()
    ensures HrpExpand([97]) == [3, 0, 1] && GoodHrp([97])
  {
  }

  /** A string with the human-readable part "a" and no data. */
  lemma {:induction false} EmptyData(v: Bytes, w: seq<bv32>, spec: Spec, t: Bytes)
    requires |v| == |w| == 6 && Below(v, 32) && forall i :: 0 <= i < 6 ==> w[i] == Word(v[i])
    requires PlainPolymod(1, [3, 0, 1] + w) == Constant(spec) && t == [97] + [49] + Chars(v)
    ensures Meaning(t) == Decoded([97], [], spec) && Encoded([97], [], spec) == t
  {
    hide Chars, PlainPolymod, HrpExpand, Meaning, Encoded, GoodHrp, Shaped;
    ExpandA();
    WordsConcat([3, 0, 1], v);
    WordsOfA();
    assert Words(v) == w;
    assert v[..0] == [];
    Nothing();
    Published([97], v, [3, 0, 1] + w, spec, t);
    NoData(t);
  }

  lemma {:induction false} WordsOfA()
    ensures Words([3, 0, 1]) == [3, 0, 1]
  {
  }

  lemma {:induction false} Nothing()
    ensures CleanPadding([])
  {
    CleanExact([]);
  }

  lemma {:induction false} NoData(t: Bytes)
    requires Meaning(t).Decoded? && DataSymbols(t) == []
    ensures Meaning(t).data == []
  {
    hide Verified;
  }

  /** The empty data part of BIP-173, with the human-readable part "a". */
  lemma {:induction false} EmptyBech32()
    ensures Meaning(Ascii("a12uel5l")) == Decoded(Ascii("a"), [], Bech32)
    ensures Encoded(Ascii("a"), [], Bech32) == Ascii("a12uel5l")
  {
    hide Meaning, Encoded, Chars, Word, PlainPolymod;
    TextBech32();
    WordsBech32();
    RegisterBech32();
    EmptyData([10, 28, 25, 31, 20, 31], [10, 28, 25, 31, 20, 31], Bech32, Ascii("a12uel5l"));
    assert Ascii("a") == [97];
  }

  lemma {:induction false} TextBech32()
    ensures Ascii("a12uel5l") == [97] + [49] + Chars([10, 28, 25, 31, 20, 31])
  {
    assert Chars([10, 28, 25, 31, 20, 31]) == [50, 117, 101, 108, 53, 108];
  }

  lemma {:induction false} WordsBech32()
    ensures Word(10) == 10 && Word(28) == 28 && Word(25) == 25 && Word(31) == 31 && Word(20) == 20
  {
  }

  lemma {:induction false} RegisterBech32()
    ensures PlainPolymod(1, [3, 0, 1] + [10, 28, 25, 31, 20, 31]) == Constant(Bech32)
  {
    var words: seq<bv32> := [3, 0, 1, 10, 28, 25, 31, 20, 31];
    assert PlainPolymod(1, [3, 0, 1, 10, 28, 25, 31, 20, 31]) == 1;
    assert words == [3, 0, 1] + [10, 28, 25, 31, 20, 31];
  }

  /** Its Bech32m counterpart of BIP-350. */
  lemma {:induction false} EmptyBech32m()
    ensures Meaning(Ascii("a1lqfn3a")) == Decoded(Ascii("a"), [], Bech32m)
    ensures Encoded(Ascii("a"), [], Bech32m) == Ascii("a1lqfn3a")
  {
    hide Meaning, Encoded, Chars, Word, PlainPolymod;
    TextBech32m();
    WordsBech32m();
    RegisterBech32m();
    EmptyData([31, 0, 9, 19, 17, 29], [31, 0, 9, 19, 17, 29], Bech32m, Ascii("a1lqfn3a"));
    assert Ascii("a") == [97];
  }

  lemma {:induction false} TextBech32m()
    ensures Ascii("a1lqfn3a") == [97] + [49] + Chars([31, 0, 9, 19, 17, 29])
  {
    assert Chars([31, 0, 9, 19, 17, 29]) == [108, 113, 102, 110, 51, 97];
  }

  lemma {:induction false} WordsBech32m()
    ensures Word(31) == 31 && Word(0) == 0 && Word(9) == 9 && Word(19) == 19 && Word(17) == 17 && Word(29) == 29
  {
  }

  lemma {:induction false} RegisterBech32m()
    ensures PlainPolymod(1, [3, 0, 1] + [31, 0, 9, 19, 17, 29]) == Constant(Bech32m)
  {
    var words: seq<bv32> := [3, 0, 1, 31, 0, 9, 19, 17, 29];
    assert PlainPolymod(1, [3, 0, 1, 31, 0, 9, 19, 17, 29]) == 0x2bc830a3;
    assert words == [3, 0, 1] + [31, 0, 9, 19, 17, 29];
  }

  // ---- the whole character set ----

  const FRONT: seq<bv32> := [3, 3, 3, 3, 3, 3, 0, 1, 2, 3, 4, 5, 6]
  const PART0: seq<bv32> := [0, 1, 2, 3, 4, 5, 6, 7]
  const PART1: seq<bv32> := [8, 9, 10, 11, 12, 13, 14, 15]
  const PART2: seq<bv32> := [16, 17, 18, 19, 20, 21, 22, 23]
  const PART3: seq<bv32> := [24, 25, 26, 27, 28, 29, 30, 31]
  const CHECK: seq<bv32> := [27, 0, 0, 0, 6, 14]

  lemma {:induction false} RegisterFront()
    ensures PlainPolymod(0x1, FRONT) == 0x3be80e6a
  {
    assert PlainPolymod(0x1, [3, 3, 3, 3, 3, 3, 0, 1, 2, 3, 4, 5, 6]) == 0x3be80e6a;
  }

  lemma {:induction false} RegisterPart0()
    ensures PlainPolymod(0x3be80e6a, PART0) == 0x11e88668
  {
    assert PlainPolymod(0x3be80e6a, [0, 1, 2, 3, 4, 5, 6, 7]) == 0x11e88668;
  }

  lemma {:induction false} RegisterPart1()
    ensures PlainPolymod(0x11e88668, PART1) == 0x31223f8a
  {
    assert PlainPolymod(0x11e88668, [8, 9, 10, 11, 12, 13, 14, 15]) == 0x31223f8a;
  }

  lemma {:induction false} RegisterPart2()
    ensures PlainPolymod(0x31223f8a, PART2) == 0x297c48e0
  {
    assert PlainPolymod(0x31223f8a, [16, 17, 18, 19, 20, 21, 22, 23]) == 0x297c48e0;
  }

  lemma {:induction false} RegisterPart3()
    ensures PlainPolymod(0x297c48e0, PART3) == 0x1a0d3656
  {
    assert PlainPolymod(0x297c48e0, [24, 25, 26, 27, 28, 29, 30, 31]) == 0x1a0d3656;
  }

  lemma {:induction false} RegisterCheck()
    ensures PlainPolymod(0x1a0d3656, CHECK) == 0x1
  {
    assert PlainPolymod(0x1a0d3656, [27, 0, 0, 0, 6, 14]) == 0x1;
  }

  function AllWords(): (w: seq<bv32>) { FRONT + (PART0 + (PART1 + (PART2 + (PART3 + CHECK)))) }

  lemma {:induction false} AllRegister()
    ensures PlainPolymod(1, AllWords()) == 1
  {
    hide PlainPolymod;
    RegisterFront();
    RegisterPart0();
    RegisterPart1();
    RegisterPart2();
    RegisterPart3();
    RegisterCheck();
    PlainConcat(1, FRONT, PART0 + (PART1 + (PART2 + (PART3 + CHECK))));
    PlainConcat(0x3be80e6a, PART0, PART1 + (PART2 + (PART3 + CHECK)));
    PlainConcat(0x11e88668, PART1, PART2 + (PART3 + CHECK));
    PlainConcat(0x31223f8a, PART2, PART3 + CHECK);
    PlainConcat(0x297c48e0, PART3, CHECK);
  }

  /** The symbols 0 to 31 in order. */
  function AllSymbols(): (v: Bytes)
    ensures |v| == 32 && forall i :: 0 <= i < 32 ==> v[i] == i
  {
    seq(32, i => if 0 <= i < 32 then i else 0)
  }

  const SIX: Bytes := [27, 0, 0, 0, 6, 14]

  lemma {:induction false} WordsPart0()
    ensures forall i :: 0 <= i < 8 ==> Word(i) == PART0[i]
  {
    assert Word(0) == 0 && Word(1) == 1 && Word(2) == 2 && Word(3) == 3 && Word(4) == 4 && Word(5) == 5 && Word(6) == 6 && Word(7) == 7;
  }

  lemma {:induction false} WordsPart1()
    ensures forall i :: 0 <= i < 8 ==> Word(8 + i) == PART1[i]
  {
    assert Word(8) == 8 && Word(9) == 9 && Word(10) == 10 && Word(11) == 11 && Word(12) == 12 && Word(13) == 13 && Word(14) == 14 && Word(15) == 15;
  }

  lemma {:induction false} WordsPart2()
    ensures forall i :: 0 <= i < 8 ==> Word(16 + i) == PART2[i]
  {
    assert Word(16) == 16 && Word(17) == 17 && Word(18) == 18 && Word(19) == 19 && Word(20) == 20 && Word(21) == 21 && Word(22) == 22 && Word(23) == 23;
  }

  lemma {:induction false} WordsPart3()
    ensures forall i :: 0 <= i < 8 ==> Word(24 + i) == PART3[i]
  {
    assert Word(24) == 24 && Word(25) == 25 && Word(26) == 26 && Word(27) == 27 && Word(28) == 28 && Word(29) == 29 && Word(30) == 30 && Word(31) == 31;
  }

  lemma {:induction false} AllExpanded()
    ensures HrpExpand(Ascii("abcdef")) == [3, 3, 3, 3, 3, 3, 0, 1, 2, 3, 4, 5, 6] && GoodHrp(Ascii("abcdef"))
  {
  }

  lemma {:induction false} FrontWords()
    ensures Words([3, 3, 3, 3, 3, 3, 0, 1, 2, 3, 4, 5, 6]) == FRONT
  {
  }

  lemma {:induction false} CheckWords()
    ensures Words(SIX) == CHECK
  {
  }

  lemma {:induction false} AllRead()
    ensures Words(HrpExpand(Ascii("abcdef")) + (AllSymbols() + SIX)) == AllWords()
  {
    hide Word, Words, HrpExpand;
    AllExpanded();
    FrontWords();
    CheckWords();
    WordsConcat(HrpExpand(Ascii("abcdef")), AllSymbols() + SIX);
    WordsConcat(AllSymbols(), SIX);
    SymbolsRead();
    assert PART0 + (PART1 + (PART2 + (PART3 + CHECK))) == PART0 + (PART1 + (PART2 + PART3)) + CHECK;
  }

  lemma {:induction false} SymbolsRead()
    ensures Words(AllSymbols()) == PART0 + (PART1 + (PART2 + PART3))
  {
    hide Word;
    WordsPart0();
    WordsPart1();
    WordsPart2();
    WordsPart3();
    var w, all := Words(AllSymbols()), PART0 + (PART1 + (PART2 + PART3));
    forall i | 0 <= i < 32 ensures w[i] == all[i] {
      if i < 8 {
        assert Word(i) == PART0[i];
      } else if i < 16 {
        assert Word(8 + (i - 8)) == PART1[i - 8];
      } else if i < 24 {
        assert Word(16 + (i - 16)) == PART2[i - 16];
      } else {
        assert Word(24 + (i - 24)) == PART3[i - 24];
      }
    }
  }

  /** The characters of the symbols 0 to 31. */
  function Alphabet(): Bytes {
    Ascii("qpzry9x8") + (Ascii("gf2tvdw0") + (Ascii("s3jn54kh") + Ascii("ce6mua7l")))
  }

  lemma {:induction false} CharsFirst()
    ensures forall i :: 0 <= i < 8 ==> Char(i) == Ascii("qpzry9x8")[i]
  {
  }

  lemma {:induction false} CharsSecond()
    ensures forall i :: 0 <= i < 8 ==> Char(8 + i) == Ascii("gf2tvdw0")[i]
  {
  }

  lemma {:induction false} CharsThird()
    ensures forall i :: 0 <= i < 8 ==> Char(16 + i) == Ascii("s3jn54kh")[i]
  {
  }

  lemma {:induction false} CharsFourth()
    ensures forall i :: 0 <= i < 8 ==> Char(24 + i) == Ascii("ce6mua7l")[i]
  {
  }

  lemma {:induction false} AllChars()
    ensures Chars(AllSymbols()) == Alphabet()
  {
    hide Char, Ascii;
    CharsFirst();
    CharsSecond();
    CharsThird();
    CharsFourth();
    var c := Chars(AllSymbols());
    forall i | 0 <= i < 32 ensures c[i] == Alphabet()[i] {
      if i < 8 {
        assert Char(i) == Ascii("qpzry9x8")[i];
      } else if i < 16 {
        assert Char(8 + (i - 8)) == Ascii("gf2tvdw0")[i - 8];
      } else if i < 24 {
        assert Char(16 + (i - 16)) == Ascii("s3jn54kh")[i - 16];
      } else {
        assert Char(24 + (i - 24)) == Ascii("ce6mua7l")[i - 24];
      }
    }
  }

  lemma {:induction false} SixChars()
    ensures Chars(SIX) == Ascii("mqqqxw")
  {
  }

  /** The string of BIP-173 whose data part runs through all symbols. */
  lemma {:induction false} AllCharacters()
    ensures var t := Ascii("abcdef") + Ascii("1") + (Alphabet() + Ascii("mqqqxw"));
            && Shaped(t) && DataSymbols(t) == AllSymbols() && Meaning(t).Decoded?
            && Meaning(t) == Decoded(Ascii("abcdef"), Meaning(t).data, Bech32)
            && Encoded(Ascii("abcdef"), Meaning(t).data, Bech32) == t
  {
    hide Meaning, Encoded, Chars, PlainPolymod, HrpExpand, Words, Shaped, DataSymbols, GoodHrp;
    var hrp, v := Ascii("abcdef"), AllSymbols() + SIX;
    AllExpanded();
    AllRead();
    AllRegister();
    AllText();
    assert v[..|v| - 6] == AllSymbols();
    AllClean();
    Published(hrp, v, AllWords(), Bech32, hrp + [49] + Chars(v));
  }

  lemma {:induction false} AllClean()
    ensures CleanPadding(AllSymbols())
  {
    BitCodecs.ShiftNone(0);
    assert AllSymbols()[31] % 1 == 0;
  }

  lemma {:induction false} AllText()
    ensures Ascii("abcdef") + [49] + Chars(AllSymbols() + SIX)
            == Ascii("abcdef") + Ascii("1") + (Alphabet() + Ascii("mqqqxw"))
  {
    hide Ascii, Char, Alphabet;
    AllChars();
    SixChars();
    assert Chars(AllSymbols() + SIX) == Chars(AllSymbols()) + Chars(SIX);
    assert Ascii("1") == [49];
  }
}
