/** Base58 and base36 text: three encoders, two decoders, one meaning. */
module Base58 {
  import opened Prelude
  import opened Radix

  // ---- buffer sizes ----

  /** Smallest power of 58 the size estimate allows for `r` < 8 bytes. */
  function Size58(r: nat): nat { r * 138 / 100 + 1 }

  lemma {:induction false} Powers58()
    ensures Pow(58, 0) == 1
    ensures Pow(58, 1) == 58
    ensures Pow(58, 2) == 3364
    ensures Pow(58, 3) == 195112
    ensures Pow(58, 4) == 11316496
    ensures Pow(58, 5) == 656356768
    ensures Pow(58, 6) == 38068692544
    ensures Pow(58, 7) == 2207984167552
    ensures Pow(58, 8) == 128063081718016
    ensures Pow(58, 9) == 7427658739644928
    ensures Pow(58, 10) == 430804206899405824
    ensures Pow(58, 11) == 24986644000165537792
    ensures Pow(58, 12) == 1449225352009601191936
    ensures Pow(58, 13) == 84055070416556869132288
    ensures Pow(58, 14) == 4875194084160298409672704
    ensures Pow(58, 15) == 282761256881297307761016832
  {
    assert Pow(58, 1) == 58 * Pow(58, 0);
    assert Pow(58, 2) == 58 * Pow(58, 1);
    assert Pow(58, 3) == 58 * Pow(58, 2);
    assert Pow(58, 4) == 58 * Pow(58, 3);
    assert Pow(58, 5) == 58 * Pow(58, 4);
    assert Pow(58, 6) == 58 * Pow(58, 5);
    assert Pow(58, 7) == 58 * Pow(58, 6);
    assert Pow(58, 8) == 58 * Pow(58, 7);
    assert Pow(58, 9) == 58 * Pow(58, 8);
    assert Pow(58, 10) == 58 * Pow(58, 9);
    assert Pow(58, 11) == 58 * Pow(58, 10);
    assert Pow(58, 12) == 58 * Pow(58, 11);
    assert Pow(58, 13) == 58 * Pow(58, 12);
    assert Pow(58, 14) == 58 * Pow(58, 13);
    assert Pow(58, 15) == 58 * Pow(58, 14);
  }

  lemma {:induction false} Powers256()
    ensures Pow(256, 0) == 1
    ensures Pow(256, 1) == 256
    ensures Pow(256, 2) == 65536
    ensures Pow(256, 3) == 16777216
    ensures Pow(256, 4) == 4294967296
    ensures Pow(256, 5) == 1099511627776
    ensures Pow(256, 6) == 281474976710656
    ensures Pow(256, 7) == 72057594037927936
    ensures Pow(256, 8) == 18446744073709551616
    ensures Pow(256, 9) == 4722366482869645213696
    ensures Pow(256, 10) == 1208925819614629174706176
    ensures Pow(256, 11) == 309485009821345068724781056
  {
    assert Pow(256, 1) == 256 * Pow(256, 0);
    assert Pow(256, 2) == 256 * Pow(256, 1);
    assert Pow(256, 3) == 256 * Pow(256, 2);
    assert Pow(256, 4) == 256 * Pow(256, 3);
    assert Pow(256, 5) == 256 * Pow(256, 4);
    assert Pow(256, 6) == 256 * Pow(256, 5);
    assert Pow(256, 7) == 256 * Pow(256, 6);
    assert Pow(256, 8) == 256 * Pow(256, 7);
    assert Pow(256, 9) == 256 * Pow(256, 8);
    assert Pow(256, 10) == 256 * Pow(256, 9);
    assert Pow(256, 11) == 256 * Pow(256, 10);
  }

  lemma {:induction false} EncodeTable(r: nat)
    requires r < 8
    ensures Pow(256, r) <= Pow(58, Size58(r))
  {
    hide Pow;
    Powers58();
    Powers256();
  }

  /** If `b` digits of one base cover `a` of another, a period can be added to any bound. */
  lemma {:induction false} AddPeriod(from: nat, to: nat, a: nat, b: nat, k: nat, size: nat)
    requires Pow(from, a) <= Pow(to, b) && Pow(from, k) <= Pow(to, size)
    ensures Pow(from, a + k) <= Pow(to, b + size)
  {
    hide Pow;
    PowAdd(from, a, k);
    PowAdd(to, b, size);
    MulMonotone(Pow(from, a), Pow(from, k), Pow(to, size));
    MulMonotone(Pow(to, size), Pow(from, a), Pow(to, b));
  }

  /** The 138/100 estimate: a buffer of that many base-58 digits holds any `k` bytes. */
  lemma {:induction false} EncodeFits(k: nat)
    ensures Pow(256, k) <= Pow(58, k * 138 / 100 + 1)
    decreases k
  {
    hide Pow;
    if k < 8 {
      EncodeTable(k);
    } else {
      EncodeFits(k - 8);
      Powers58();
      Powers256();
      AddPeriod(256, 58, 8, 11, k - 8, (k - 8) * 138 / 100 + 1);
      PowMonotone(58, 11 + ((k - 8) * 138 / 100 + 1), k * 138 / 100 + 1);
    }
  }

  lemma {:induction false} DecodeTable(r: nat)
    requires r < 15
    ensures Pow(58, r) <= Pow(256, r * 733 / 1000 + 1)
  {
    hide Pow;
    Powers58();
    Powers256();
  }

  lemma {:induction false} DecodeFits71(k: nat)
    requires k < 71
    ensures Pow(58, k) <= Pow(256, k * 733 / 1000 + 1)
    decreases k
  {
    hide Pow;
    if k < 15 {
      DecodeTable(k);
    } else {
      // 15 digits need 11 bytes; four such periods stay within the estimate.
      DecodePeriods(k / 15, k % 15);
      PeriodsFit(k / 15, k % 15);
      PowMonotone(256, 11 * (k / 15) + Bytes58(k % 15), k * 733 / 1000 + 1);
    }
  }

  /** Bytes needed for fewer than 15 digits, none for none. */
  function Bytes58(r: nat): nat { if r == 0 then 0 else r * 733 / 1000 + 1 }

  lemma {:induction false} PeriodsFit(q: nat, r: nat)
    requires q <= 4 && r < 15
    ensures 11 * q + Bytes58(r) <= (15 * q + r) * 733 / 1000 + 1
  {
    if q == 0 {} else if q == 1 {} else if q == 2 {} else if q == 3 {} else {}
  }

  lemma {:induction false} DecodePeriods(q: nat, r: nat)
    requires r < 15
    ensures Pow(58, 15 * q + r) <= Pow(256, 11 * q + Bytes58(r))
  {
    hide Pow;
    if q == 0 {
      Powers58();
      Powers256();
      if r > 0 {
        DecodeTable(r);
      }
    } else {
      DecodePeriods(q - 1, r);
      Powers58();
      Powers256();
      AddPeriod(58, 256, 15, 11, 15 * (q - 1) + r, 11 * (q - 1) + Bytes58(r));
      assert 15 + (15 * (q - 1) + r) == 15 * q + r;
      assert 11 + (11 * (q - 1) + Bytes58(r)) == 11 * q + Bytes58(r);
    }
  }

  /** The 733/1000 estimate: a buffer of that many bytes holds any `k` base-58 digits. */
  lemma {:induction false} DecodeFits(k: nat)
    ensures Pow(58, k) <= Pow(256, k * 733 / 1000 + 1)
    decreases k
  {
    hide Pow;
    if k < 71 {
      DecodeFits71(k);
    } else {
      DecodeFits(k - 71);
      Period71();
      AddPeriod(58, 256, 71, 52, k - 71, (k - 71) * 733 / 1000 + 1);
      PowMonotone(256, 52 + ((k - 71) * 733 / 1000 + 1), k * 733 / 1000 + 1);
    }
  }

  lemma {:induction false} Period71()
    ensures Pow(58, 71) <= Pow(256, 52)
  {
    hide Pow;
    Powers58();
    Powers256();
    PowAdd(58, 15, 15);
    PowAdd(58, 30, 30);
    PowAdd(58, 60, 11);
    PowAdd(256, 11, 11);
    PowAdd(256, 22, 22);
    PowAdd(256, 44, 8);
    assert Pow(58, 60) == 6392630665487523829925705590507004456832030712891733088851577912861189652777515686114891080333114973618176;
    assert Pow(58, 71) == 159730386663078066345306447337161584696769904898410078913243029577507397293846405390982563136983769384625594118558891106107392;
    assert Pow(256, 52) == 169230328010303641331690318856389386196071598838855992136870091590247882556495704531248437872567112920983350278405979725889536;
  }

  lemma {:induction false} Powers36()
    ensures Pow(36, 0) == 1
    ensures Pow(36, 1) == 36
    ensures Pow(36, 2) == 1296
    ensures Pow(36, 3) == 46656
    ensures Pow(36, 4) == 1679616
    ensures Pow(36, 5) == 60466176
    ensures Pow(36, 6) == 2176782336
    ensures Pow(36, 7) == 78364164096
    ensures Pow(36, 8) == 2821109907456
    ensures Pow(36, 9) == 101559956668416
    ensures Pow(36, 10) == 3656158440062976
    ensures Pow(36, 11) == 131621703842267136
    ensures Pow(36, 12) == 4738381338321616896
    ensures Pow(36, 13) == 170581728179578208256
    ensures Pow(36, 14) == 6140942214464815497216
    ensures Pow(36, 15) == 221073919720733357899776
    ensures Pow(36, 16) == 7958661109946400884391936
    ensures Pow(36, 17) == 286511799958070431838109696
    ensures Pow(36, 18) == 10314424798490535546171949056
    ensures Pow(36, 19) == 371319292745659279662190166016
    ensures Pow(36, 20) == 13367494538843734067838845976576
    ensures Pow(36, 21) == 481229803398374426442198455156736
    ensures Pow(36, 22) == 17324272922341479351919144385642496
    ensures Pow(36, 23) == 623673825204293256669089197883129856
    ensures Pow(36, 24) == 22452257707354557240087211123792674816
    ensures Pow(36, 25) == 808281277464764060643139600456536293376
    ensures Pow(36, 26) == 29098125988731506183153025616435306561536
    ensures Pow(36, 27) == 1047532535594334222593508922191671036215296
    ensures Pow(36, 28) == 37711171281396032013366321198900157303750656
    ensures Pow(36, 29) == 1357602166130257152481187563160405662935023616
    ensures Pow(36, 30) == 48873677980689257489322752273774603865660850176
    ensures Pow(36, 31) == 1759452407304813269615619081855885739163790606336
  {
    assert Pow(36, 1) == 36 * Pow(36, 0);
    assert Pow(36, 2) == 36 * Pow(36, 1);
    assert Pow(36, 3) == 36 * Pow(36, 2);
    assert Pow(36, 4) == 36 * Pow(36, 3);
    assert Pow(36, 5) == 36 * Pow(36, 4);
    assert Pow(36, 6) == 36 * Pow(36, 5);
    assert Pow(36, 7) == 36 * Pow(36, 6);
    assert Pow(36, 8) == 36 * Pow(36, 7);
    assert Pow(36, 9) == 36 * Pow(36, 8);
    assert Pow(36, 10) == 36 * Pow(36, 9);
    assert Pow(36, 11) == 36 * Pow(36, 10);
    assert Pow(36, 12) == 36 * Pow(36, 11);
    assert Pow(36, 13) == 36 * Pow(36, 12);
    assert Pow(36, 14) == 36 * Pow(36, 13);
    assert Pow(36, 15) == 36 * Pow(36, 14);
    assert Pow(36, 16) == 36 * Pow(36, 15);
    assert Pow(36, 17) == 36 * Pow(36, 16);
    assert Pow(36, 18) == 36 * Pow(36, 17);
    assert Pow(36, 19) == 36 * Pow(36, 18);
    assert Pow(36, 20) == 36 * Pow(36, 19);
    assert Pow(36, 21) == 36 * Pow(36, 20);
    assert Pow(36, 22) == 36 * Pow(36, 21);
    assert Pow(36, 23) == 36 * Pow(36, 22);
    assert Pow(36, 24) == 36 * Pow(36, 23);
    assert Pow(36, 25) == 36 * Pow(36, 24);
    assert Pow(36, 26) == 36 * Pow(36, 25);
    assert Pow(36, 27) == 36 * Pow(36, 26);
    assert Pow(36, 28) == 36 * Pow(36, 27);
    assert Pow(36, 29) == 36 * Pow(36, 28);
    assert Pow(36, 30) == 36 * Pow(36, 29);
    assert Pow(36, 31) == 36 * Pow(36, 30);
  }

  lemma {:induction false} Table36(r: nat)
    requires r < 20
    ensures Pow(256, r) <= Pow(36, r * 155 / 100 + 2)
  {
    hide Pow;
    Powers36();
    Powers256();
    if r >= 11 {
      PowAdd(256, 11, r - 11);
    }
  }

  /** The 155/100 estimate: a buffer of that many base-36 digits holds any `k` bytes. */
  lemma {:induction false} Fits36(k: nat)
    ensures Pow(256, k) <= Pow(36, k * 155 / 100 + 2)
    decreases k
  {
    hide Pow;
    if k < 20 {
      Table36(k);
    } else {
      Fits36(k - 20);
      Powers36();
      Powers256();
      PowAdd(256, 10, 10);
      AddPeriod(256, 36, 20, 31, k - 20, (k - 20) * 155 / 100 + 2);
      PowMonotone(36, 31 + ((k - 20) * 155 / 100 + 2), k * 155 / 100 + 2);
    }
  }

  // ---- the conversion loops ----

  /** Multiply-and-add every digit of `s` after its leading zeros into a zeroed buffer of
      `size` digits, then drop the buffer's leading zeros.  `full` encoders walk the whole
      buffer for every digit; the others only the part already in use. */
  method ChangeBase(s: Bytes, from: nat, to: nat, size: nat, full: bool) returns (digits: Bytes)
    requires 2 <= from <= 256 && 2 <= to <= 256 && Below(s, from)
    requires Pow(from, |s| - LeadingZeros(s)) <= Pow(to, size)
    ensures digits == Convert(s, from, to)
  {
    hide Value, Pow, Digits;
    var zeros := 0;
    while zeros < |s| && s[zeros] == 0
      invariant zeros <= LeadingZeros(s)
    {
      zeros := zeros + 1;
    }
    assert zeros == LeadingZeros(s);
    var buffer := new Byte[size](_ => 0);
    var used := Accumulate(s[zeros..], from, to, buffer, if full then size else 0);
    SplitZeros(s, from);
    var begin := FirstNonzero(buffer, size - used);
    StripZeros(buffer[..], to);
    digits := Repeat<Byte>(0, zeros) + buffer[begin..];
  }

  method Accumulate(t: Bytes, from: nat, to: nat, buffer: array<Byte>, window: nat) returns (used: nat)
    requires 2 <= from <= 256 && 2 <= to <= 256 && Below(t, from)
    requires window <= buffer.Length && forall k :: 0 <= k < buffer.Length ==> buffer[k] == 0
    requires Pow(from, |t|) <= Pow(to, buffer.Length)
    modifies buffer
    ensures used <= buffer.Length && Below(buffer[..], to)
    ensures forall k :: 0 <= k < buffer.Length - used ==> buffer[k] == 0
    ensures Value(buffer[..], to) == Value(t, from)
  {
    hide Value, Pow, Digits;
    used := window;
    FreshBuffer(buffer[..], to);
    assert t[..0] == [];
    EmptyValue(from);
    for i := 0 to |t|
      invariant used <= buffer.Length && Below(buffer[..], to)
      invariant forall k :: 0 <= k < buffer.Length - used ==> buffer[k] == 0
      invariant Value(buffer[..], to) == Value(t[..i], from)
    {
      var reach, carry := MulAdd(buffer, to, from, t[i], used);
      NextDigit(t, i, from);
      NoCarry(t[..i + 1], |t|, from, to, buffer.Length, carry, Value(buffer[..], to));
      used := reach;
    }
    assert t[..|t|] == t;
  }

  method FirstNonzero(buffer: array<Byte>, start: nat) returns (begin: nat)
    requires start <= buffer.Length && forall k :: 0 <= k < start ==> buffer[k] == 0
    ensures begin == LeadingZeros(buffer[..])
  {
    begin := start;
    while begin < buffer.Length && buffer[begin] == 0
      invariant start <= begin <= buffer.Length
      invariant forall k :: 0 <= k < begin ==> buffer[k] == 0
    {
      begin := begin + 1;
    }
    ZerosCounted(buffer[..], begin);
  }

  lemma {:induction false} FreshBuffer(b: Bytes, base: nat)
    requires forall k :: 0 <= k < |b| ==> b[k] == 0
    ensures Value(b, base) == 0
  {
    assert b == Repeat<Byte>(0, |b|);
    ValueZeros(|b|, base);
  }

  lemma {:induction false} EmptyValue(base: nat)
    ensures Value([], base) == 0
  {
  }

  lemma {:induction false} NextDigit(t: Bytes, i: nat, base: nat)
    requires i < |t|
    ensures Value(t[..i + 1], base) == Value(t[..i], base) * base + t[i]
  {
    assert t[..i + 1][..i] == t[..i];
  }

  /** The estimate leaves no carry: the value so far fits the buffer. */
  lemma {:induction false} NoCarry(t: Bytes, n: nat, from: nat, to: nat, size: nat, carry: nat, low: nat)
    requires 1 <= from && 1 <= to && |t| <= n && Below(t, from) && Pow(from, n) <= Pow(to, size)
    requires low + carry * Pow(to, size) == Value(t, from)
    ensures carry == 0
  {
    hide Pow, Value;
    ValueBound(t, from);
    PowMonotone(from, |t|, n);
    if carry >= 1 {
      MulMonotone(Pow(to, size), 1, carry);
    }
  }

  lemma {:induction false} ZerosCounted(b: Bytes, begin: nat)
    requires begin <= |b| && (forall k :: 0 <= k < begin ==> b[k] == 0) && (begin < |b| ==> b[begin] != 0)
    ensures LeadingZeros(b) == begin
  {
  }

  // ---- alphabets ----

  /** BASE58_ALPHABET. */
  function Char58(d: Byte): Byte
    requires d < 58
  {
    if d < 9 then 0x31 + d          // 1-9
    else if d < 17 then 0x41 + d - 9   // A-H
    else if d < 22 then 0x4a + d - 17  // J-N
    else if d < 33 then 0x50 + d - 22  // P-Z
    else if d < 44 then 0x61 + d - 33  // a-k
    else 0x6d + d - 44                 // m-z
  }

  /** BASE58_MAP; -1 for a byte outside the alphabet. */
  function Digit58(c: Byte): (d: int)
    ensures -1 <= d < 58
  {
    var b: int := c;
    if 0x31 <= b <= 0x39 then b - 0x31
    else if 0x41 <= b <= 0x48 then b - 0x41 + 9
    else if 0x4a <= b <= 0x4e then b - 0x4a + 17
    else if 0x50 <= b <= 0x5a then b - 0x50 + 22
    else if 0x61 <= b <= 0x6b then b - 0x61 + 33
    else if 0x6d <= b <= 0x7a then b - 0x6d + 44
    else -1
  }

  function Char36(d: Byte): Byte
    requires d < 36
  {
    if d < 10 then 0x30 + d else 0x61 + d - 10
  }

  /** The alphabet is the letters and digits of ASCII in their order, without 0, I, O and l. */
  lemma {:induction false} Alphabet58(c: Byte, d: nat)
    ensures Digit58(c) >= 0 <==>
              ('0' as int <= c <= '9' as int || 'A' as int <= c <= 'Z' as int || 'a' as int <= c <= 'z' as int)
              && c != '0' as int && c != 'I' as int && c != 'O' as int && c != 'l' as int
    ensures d + 1 < 58 ==> Char58(d) < Char58(d + 1)
    ensures d < 58 ==> Digit58(Char58(d)) == d
  {
  }

  /** The 36 digits are those of ASCII and then its lower-case letters, in order. */
  lemma {:induction false} Alphabet36(d: nat)
    requires d < 36
    ensures Char36(d) == (if d < 10 then '0' as int + d else 'a' as int + (d - 10))
  {
  }

  function Chars58(digits: Bytes): (t: Bytes)
    requires Below(digits, 58)
    ensures |t| == |digits|
  {
    seq(|digits|, i requires 0 <= i < |digits| => Char58(digits[i]))
  }

  predicate Text58(t: Bytes) { forall i :: 0 <= i < |t| ==> Digit58(t[i]) >= 0 }

  function Digits58(t: Bytes): (digits: Bytes)
    requires Text58(t)
    ensures |digits| == |t| && Below(digits, 58)
  {
    seq(|t|, i requires 0 <= i < |t| => Digit58(t[i]))
  }

  lemma {:induction false} ConvertBelow(s: Bytes, from: nat, to: nat)
    requires 2 <= to <= 256
    ensures Below(Convert(s, from, to), to)
  {
  }

  /** The Base58 text of some bytes. */
  function Encode(data: Bytes): Bytes {
    ConvertBelow(data, 256, 58);
    Chars58(Convert(data, 256, 58))
  }

  /** The bytes of a Base58 text; a byte outside the alphabet gives nothing. */
  function Decode(text: Bytes): Bytes {
    if Text58(text) then Convert(Digits58(text), 58, 256) else []
  }

  lemma {:induction false} AlphabetInverse(digits: Bytes)
    requires Below(digits, 58)
    ensures Text58(Chars58(digits)) && Digits58(Chars58(digits)) == digits
  {
  }

  lemma {:induction false} MapInverse(t: Bytes)
    requires Text58(t)
    ensures Chars58(Digits58(t)) == t
  {
  }

  /** Decoding inverts encoding for every byte string. */
  lemma {:induction false} DecodeEncode(data: Bytes)
    ensures Text58(Encode(data)) && Decode(Encode(data)) == data
  {
    hide Convert;
    ConvertBelow(data, 256, 58);
    AlphabetInverse(Convert(data, 256, 58));
    ConvertBack(data, 256, 58);
  }

  /** Encoding inverts decoding exactly on strings over the alphabet. */
  lemma {:induction false} EncodeDecode(text: Bytes)
    ensures Encode(Decode(text)) == text <==> Text58(text)
  {
    hide Convert;
    DecodeEncode(Decode(text));
    if Text58(text) {
      ConvertBack(Digits58(text), 58, 256);
      MapInverse(text);
    }
  }

  // ---- the repository's encoders and decoders ----

  /** base58Encode and base58EncodeOptimized: the whole buffer is walked every time. */
  method EncodeFull(data: Bytes) returns (text: Bytes)
    ensures text == Encode(data)
  {
    var count := |data| - LeadingZeros(data);
    EncodeFits(count);
    var digits := ChangeBase(data, 256, 58, count * 138 / 100 + 1, true);
    ConvertBelow(data, 256, 58);
    text := Chars58(digits);
  }

  /** The identity module's base58: one digit more room, and only the used window is walked. */
  method EncodeWindow(data: Bytes) returns (text: Bytes)
    ensures text == Encode(data)
  {
    var count := |data| - LeadingZeros(data);
    EncodeFits(count);
    PowMonotone(58, count * 138 / 100 + 1, count * 138 / 100 + 2);
    var digits := ChangeBase(data, 256, 58, count * 138 / 100 + 2, false);
    ConvertBelow(data, 256, 58);
    text := Chars58(digits);
  }

  /** Both base58Decode functions; they differ in whether the whole buffer is walked. */
  method DecodeText(text: Bytes, full: bool) returns (data: Bytes)
    ensures data == Decode(text)
  {
    var digits: Bytes := [];
    for i := 0 to |text|
      invariant |digits| == i && Below(digits, 58)
      invariant forall k :: 0 <= k < i ==> Digit58(text[k]) >= 0 && digits[k] == Digit58(text[k])
    {
      var digit := Digit58(text[i]);
      if digit < 0 {
        return [];
      }
      digits := digits + [digit];
    }
    assert digits == Digits58(text);
    var count := |digits| - LeadingZeros(digits);
    DecodeFits(count);
    data := ChangeBase(digits, 58, 256, count * 733 / 1000 + 1, full);
  }

  /** base36LowerEncode: its buffer is sized from the whole input, leading zeros included. */
  method Encode36(data: Bytes) returns (text: Bytes)
    ensures |text| == |Convert(data, 256, 36)|
    ensures forall i :: 0 <= i < |text| ==>
              Convert(data, 256, 36)[i] < 36 && text[i] == Char36(Convert(data, 256, 36)[i])
  {
    var count := |data| - LeadingZeros(data);
    Fits36(count);
    PowMonotone(36, count * 155 / 100 + 2, |data| * 155 / 100 + 2);
    var digits := ChangeBase(data, 256, 36, |data| * 155 / 100 + 2, true);
    ConvertBelow(data, 256, 36);
    text := seq(|digits|, i requires 0 <= i < |digits| => Char36(digits[i]));
  }
}
