/** Types shared by every module: bytes, byte strings, and outcomes. */
module Prelude {

  type Byte = x: int | 0 <= x < 256

  type Bytes = seq<Byte>

  datatype Option<+T> = None | Some(value: T)

  /** A value, or the error the library reports or throws. */
  datatype Fallible<+T, +E> = Ok(value: T) | Fail(error: E)

  /** The bytes of a text of ASCII characters; any other character is a question mark. */
  function Ascii(text: string): (s: Bytes)
    ensures |s| == |text| && forall i :: 0 <= i < |s| && text[i] as int < 128 ==> s[i] == text[i] as int
  {
    seq(|text|, i requires 0 <= i < |text| => if text[i] as int < 128 then text[i] as int else 63)
  }

  /** ASCII capitals in lower case. */
  function Lower(c: Byte): Byte {
    if 65 <= c <= 90 then c + 32 else c
  }

  function Lowered(t: Bytes): (r: Bytes)
    ensures |r| == |t| && forall i :: 0 <= i < |r| ==> r[i] == Lower(t[i])
  {
    seq(|t|, i requires 0 <= i < |t| => Lower(t[i]))
  }

  /** `n` copies of `x`. */
  function Repeat<T>(x: T, n: nat): (r: seq<T>)
    ensures |r| == n
    ensures forall i :: 0 <= i < n ==> r[i] == x
  {
    seq(n, _ => x)
  }

  /** `t` occurs in `s` at position `p`. */
  predicate Occurs<T(==)>(s: seq<T>, p: nat, t: seq<T>) {
    p + |t| <= |s| && s[p..p + |t|] == t
  }

  lemma {:induction false} OccursAt<T>(s: seq<T>, p: nat, t: seq<T>, i: nat)
    requires Occurs(s, p, t) && i < |t|
    ensures p + i < |s| && s[p + i] == t[i]
  {
    assert s[p + i] == s[p..p + |t|][i];
  }

  lemma {:induction false} OccursSplit<T>(s: seq<T>, p: nat, a: seq<T>, b: seq<T>)
    ensures Occurs(s, p, a + b) <==> Occurs(s, p, a) && Occurs(s, p + |a|, b)
    ensures Occurs(s, p, a + b) ==> p + |a| + |b| <= |s|
  {
    if p + |a| + |b| <= |s| {
      var q, r := p + |a|, p + |a| + |b|;
      assert s[p..r] == s[p..q] + s[q..r];
      assert (a + b)[..|a|] == a && (a + b)[|a|..] == b;
      assert s[p..r][..|a|] == s[p..q] && s[p..r][|a|..] == s[q..r];
    }
  }

  lemma {:induction false} IndexOf<T>(s: seq<T>, x: T) returns (k: nat)
    requires x in s
    ensures k < |s| && s[k] == x
  {
    k :| 0 <= k < |s| && s[k] == x;
  }

  lemma {:induction false} StoreNext(was: Bytes, at: nat, s: Bytes, i: nat, now: Bytes)
    requires at + |s| <= |was| && i < |s| && now == was[..at] + s[..i] + was[at + i..]
    ensures |now| == |was| && now[at + i := s[i]] == was[..at] + s[..i + 1] + was[at + i + 1..]
  {
  }

  /** Copies `s` into the buffer. */
  method Store(bytes: array<Byte>, at: nat, s: Bytes)
    requires at + |s| <= bytes.Length
    modifies bytes
    ensures bytes[..] == old(bytes[..at]) + s + old(bytes[at + |s|..])
  {
    for i := 0 to |s|
      invariant bytes[..] == old(bytes[..])[..at] + s[..i] + old(bytes[..])[at + i..]
    {
      StoreNext(old(bytes[..]), at, s, i, bytes[..]);
      bytes[at + i] := s[i];
    }
  }
}
