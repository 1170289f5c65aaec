/** 32-bit words and their big-endian bytes. */
module BigEndian {
  import opened Prelude

  type Word = x: int | 0 <= x < 0x1_0000_0000

  function Be32(n: Word): (r: Bytes)
    ensures |r| == 4
  {
    [n / 0x100_0000, n / 0x1_0000 % 256, n / 256 % 256, n % 256]
  }

  function FromBe32(s: Bytes): Word
    requires |s| >= 4
  {
    var a: int, b: int, c: int, d: int := s[0], s[1], s[2], s[3];
    a * 0x100_0000 + b * 0x1_0000 + c * 256 + d
  }

  lemma {:induction false} FromBe(n: Word)
    ensures FromBe32(Be32(n)) == n
  {
    var q := n / 256;
    var p := q / 256;
    assert n == q * 256 + n % 256 && q == p * 256 + q % 256 && p == p / 256 * 256 + p % 256;
    assert n / 0x1_0000 == p && n / 0x100_0000 == p / 256;
  }

  lemma {:induction false} ToBe(s: Bytes)
    requires |s| == 4
    ensures Be32(FromBe32(s)) == s
  {
    var a: int, b: int, c: int, d: int := s[0], s[1], s[2], s[3];
    assert FromBe32(s) / 256 == a * 0x1_0000 + b * 256 + c;
    assert FromBe32(s) / 0x1_0000 == a * 256 + b;
  }
}
