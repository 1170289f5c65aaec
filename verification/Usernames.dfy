/** Canonical usernames: strict UTF-8 without controls, spaces trimmed, ASCII capitals folded. */
module Usernames {
  import opened Prelude
  import Utf8

  datatype UsernameError = InvalidUsername | InvalidUtf8

  type Canonical = Fallible<Bytes, UsernameError>

  const MAX_RAW := 256

  predicate IsControl(x: int) { x <= 0x1f || 0x7f <= x <= 0x9f }

  /** Without the spaces at its front. */
  function TrimFront(s: Bytes): (r: Bytes)
    ensures |r| <= |s| && r == s[|s| - |r|..] && (r != [] ==> r[0] != 0x20)
  {
    if s != [] && s[0] == 0x20 then TrimFront(s[1..]) else s
  }

  function TrimBack(s: Bytes): (r: Bytes)
    ensures r <= s && (r != [] ==> r[|r| - 1] != 0x20)
  {
    if s != [] && s[|s| - 1] == 0x20 then TrimBack(s[..|s| - 1]) else s
  }

  function Trimmed(s: Bytes): Bytes { TrimBack(TrimFront(s)) }

  predicate NoControls(xs: seq<Utf8.Scalar>) { forall i :: 0 <= i < |xs| ==> !IsControl(xs[i]) }

  /** `canonicalize_username`. */
  function Canonicalized(raw: Bytes): Canonical {
    if |raw| > MAX_RAW then Fail(InvalidUsername)
    else match Utf8.Scalars(raw)
      case None => Fail(InvalidUtf8)
      case Some(xs) =>
        if !NoControls(xs) then Fail(InvalidUsername)
        else
          var t := Trimmed(raw);
          if |t| < 3 || |t| > 64 then Fail(InvalidUsername) else Ok(Lowered(t))
  }

  method Trim(raw: Bytes) returns (begin: nat, end: nat)
    ensures begin <= end <= |raw| && Trimmed(raw) == raw[begin..end]
  {
    begin := SkipFront(raw);
    end := SkipBack(raw, begin);
  }

  method SkipFront(raw: Bytes) returns (begin: nat)
    ensures begin <= |raw| && TrimFront(raw) == raw[begin..]
  {
    begin := 0;
    assert raw[0..] == raw;
    while begin < |raw| && raw[begin] == 0x20
      invariant begin <= |raw| && TrimFront(raw) == TrimFront(raw[begin..])
    {
      assert raw[begin..][1..] == raw[begin + 1..];
      begin := begin + 1;
    }
  }

  method SkipBack(raw: Bytes, begin: nat) returns (end: nat)
    requires begin <= |raw|
    ensures begin <= end <= |raw| && TrimBack(raw[begin..]) == raw[begin..end]
  {
    end := |raw|;
    assert raw[begin..|raw|] == raw[begin..];
    while end > begin && raw[end - 1] == 0x20
      invariant begin <= end <= |raw| && TrimBack(raw[begin..]) == TrimBack(raw[begin..end])
    {
      assert raw[begin..end][..end - begin - 1] == raw[begin..end - 1];
      end := end - 1;
    }
  }

  method Canonicalize(raw: Bytes) returns (r: Canonical)
    ensures r == Canonicalized(raw)
  {
    hide Utf8.Scalars, Trimmed, Lower;
    if |raw| > MAX_RAW {
      return Fail(InvalidUsername);
    }
    var ok, scalars := Utf8.DecodeStrict(raw);
    if !ok {
      return Fail(InvalidUtf8);
    }
    for i := 0 to |scalars|
      invariant forall k :: 0 <= k < i ==> !IsControl(scalars[k])
    {
      if IsControl(scalars[i]) {
        return Fail(InvalidUsername);
      }
    }
    var begin, end := Trim(raw);
    if end - begin < 3 || end - begin > 64 {
      return Fail(InvalidUsername);
    }
    ghost var t := raw[begin..end];
    var canonical: Bytes := [];
    for i := begin to end
      invariant canonical == Lowered(t)[..i - begin]
    {
      assert t[i - begin] == raw[i];
      canonical := canonical + [Lower(raw[i])];
    }
    assert canonical == Lowered(t);
    r := Ok(canonical);
  }

  // ---- a canonical username is its own canonical form ----

  /** Bytes of a scalar beyond ASCII are all above ASCII. */
  lemma {:induction false} EncodedBytes(x: Utf8.Scalar)
    ensures x < 0x80 ==> Utf8.Encode(x) == [x]
    ensures x >= 0x80 ==> forall i :: 0 <= i < |Utf8.Encode(x)| ==> Utf8.Encode(x)[i] >= 0x80
  {
  }

  lemma {:induction false} TrimFrontScalars(xs: seq<Utf8.Scalar>) returns (ys: seq<Utf8.Scalar>)
    ensures TrimFront(Utf8.EncodeAll(xs)) == Utf8.EncodeAll(ys) && (NoControls(xs) ==> NoControls(ys))
  {
    hide Utf8.Encode, TrimFront, Utf8.EncodeAll, NoControls;
    ys := xs;
    var s := Utf8.EncodeAll(xs);
    TrimSteps(s);
    EncodedFront(xs);
    if xs != [] && xs[0] == 0x20 {
      ys := TrimFrontScalars(xs[1..]);
    }
  }

  lemma {:induction false} EncodedFront(xs: seq<Utf8.Scalar>)
    ensures var s := Utf8.EncodeAll(xs);
            && (s == [] <==> xs == [])
            && (xs != [] ==> (s[0] == 0x20 <==> xs[0] == 0x20) && (xs[0] == 0x20 ==> s[1..] == Utf8.EncodeAll(xs[1..])))
    ensures NoControls(xs) && xs != [] ==> NoControls(xs[1..])
  {
    hide Utf8.Encode;
    if xs != [] {
      EncodedBytes(xs[0]);
      assert Utf8.EncodeAll(xs)[0] == Utf8.Encode(xs[0])[0];
    }
  }

  lemma {:induction false} TrimBackScalars(xs: seq<Utf8.Scalar>) returns (ys: seq<Utf8.Scalar>)
    ensures TrimBack(Utf8.EncodeAll(xs)) == Utf8.EncodeAll(ys) && (NoControls(xs) ==> NoControls(ys))
  {
    hide Utf8.Encode;
    ys := xs;
    if xs != [] {
      var k := |xs| - 1;
      LastScalar(xs);
      EncodedBytes(xs[k]);
      var s, e := Utf8.EncodeAll(xs), Utf8.Encode(xs[k]);
      assert s[|s| - 1] == e[|e| - 1];
      if xs[k] == 0x20 {
        assert s[..|s| - 1] == Utf8.EncodeAll(xs[..k]);
        ys := TrimBackScalars(xs[..k]);
      }
    }
  }

  lemma {:induction false} LastScalar(xs: seq<Utf8.Scalar>)
    requires xs != []
    ensures Utf8.EncodeAll(xs) == Utf8.EncodeAll(xs[..|xs| - 1]) + Utf8.Encode(xs[|xs| - 1])
  {
    hide Utf8.Encode;
    var k := |xs| - 1;
    assert xs == xs[..k] + [xs[k]];
    Utf8.EncodeAllConcat(xs[..k], [xs[k]]);
    assert [xs[k]][1..] == [];
    assert Utf8.EncodeAll([xs[k]]) == Utf8.Encode(xs[k]) + [];
  }

  function FoldScalar(x: Utf8.Scalar): Utf8.Scalar {
    if 65 <= x <= 90 then x + 32 else x
  }

  function FoldScalars(xs: seq<Utf8.Scalar>): (ys: seq<Utf8.Scalar>)
    ensures |ys| == |xs| && forall i :: 0 <= i < |xs| ==> ys[i] == FoldScalar(xs[i])
  {
    seq(|xs|, i requires 0 <= i < |xs| => FoldScalar(xs[i]))
  }

  /** Folding byte by byte is folding scalar by scalar. */
  lemma {:induction false} FoldEncoded(xs: seq<Utf8.Scalar>)
    ensures Lowered(Utf8.EncodeAll(xs)) == Utf8.EncodeAll(FoldScalars(xs))
    ensures NoControls(xs) ==> NoControls(FoldScalars(xs))
  {
    hide Utf8.Encode;
    if xs != [] {
      FoldEncoded(xs[1..]);
      FoldOne(xs[0]);
      var e, rest := Utf8.Encode(xs[0]), Utf8.EncodeAll(xs[1..]);
      assert Lowered(e + rest) == Lowered(e) + Lowered(rest);
      assert FoldScalars(xs)[1..] == FoldScalars(xs[1..]);
    }
  }

  lemma {:induction false} FoldOne(x: Utf8.Scalar)
    ensures Lowered(Utf8.Encode(x)) == Utf8.Encode(FoldScalar(x))
  {
    EncodedBytes(x);
    EncodedBytes(FoldScalar(x));
    if x < 0x80 {
    } else {
      assert Lowered(Utf8.Encode(x)) == Utf8.Encode(x);
    }
  }

  lemma {:induction false} TrimmedStays(s: Bytes)
    requires s != [] && s[0] != 0x20 && s[|s| - 1] != 0x20
    ensures Trimmed(s) == s
  {
  }

  lemma {:induction false} TrimmedEnds(raw: Bytes)
    ensures var t := Trimmed(raw); t != [] ==> t[0] != 0x20 && t[|t| - 1] != 0x20
  {
    hide TrimFront, TrimBack;
    var t := Trimmed(raw);
    if t != [] {
      assert t[0] == TrimFront(raw)[0];
    }
  }

  lemma {:induction false} FoldTwice(t: Bytes)
    ensures Lowered(Lowered(t)) == Lowered(t)
  {
  }

  lemma {:induction false} FoldedEnds(raw: Bytes)
    ensures var t := Trimmed(raw); t != [] ==> Trimmed(Lowered(t)) == Lowered(t) && Lowered(Lowered(t)) == Lowered(t)
  {
    TrimmedEnds(raw);
    hide Trimmed, Lowered;
    var t := Trimmed(raw);
    if t != [] {
      FoldTwice(t);
      TrimmedStays(Lowered(t));
    }
  }

  lemma {:induction false} Idempotent(raw: Bytes)
    requires Canonicalized(raw).Ok?
    ensures Canonicalized(Canonicalized(raw).value) == Canonicalized(raw)
    ensures 3 <= |Canonicalized(raw).value| <= 64
  {
    hide Utf8.Scalars, Utf8.EncodeAll, Trimmed, Lower, TrimFront, TrimBack;
    var xs := Utf8.Scalars(raw).value;
    Utf8.ScalarsIff(raw, xs);
    var c := Canonicalized(raw).value;
    FoldedEnds(raw);
    var ys := TrimFrontScalars(xs);
    var zs := TrimBackScalars(ys);
    FoldEncoded(zs);
    TrimmedIs(raw);
    assert c == Utf8.EncodeAll(FoldScalars(zs));
    Utf8.ScalarsIff(c, FoldScalars(zs));
  }

  lemma {:induction false} TrimmedIs(raw: Bytes)
    ensures Trimmed(raw) == TrimBack(TrimFront(raw))
  {
  }

  lemma {:induction false} FoldedSpace(b: Byte)
    ensures Lower(b) == 0x20 <==> b == 0x20
  {
  }

  lemma {:induction false} TrimSteps(s: Bytes)
    ensures TrimFront(s) == if s != [] && s[0] == 0x20 then TrimFront(s[1..]) else s
    ensures TrimBack(s) == if s != [] && s[|s| - 1] == 0x20 then TrimBack(s[..|s| - 1]) else s
  {
  }

  lemma {:induction false} FoldEnds(s: Bytes)
    requires s != []
    ensures Lowered(s)[1..] == Lowered(s[1..]) && Lowered(s)[..|s| - 1] == Lowered(s[..|s| - 1])
  {
    hide Lower;
  }

  lemma {:induction false} TrimFrontFolded(s: Bytes)
    ensures TrimFront(Lowered(s)) == Lowered(TrimFront(s))
  {
    hide *;
    TrimSteps(s);
    TrimSteps(Lowered(s));
    if s != [] {
      FoldEnds(s);
      FoldedSpace(s[0]);
      TrimFrontFolded(s[1..]);
    }
  }

  lemma {:induction false} TrimBackFolded(s: Bytes)
    ensures TrimBack(Lowered(s)) == Lowered(TrimBack(s))
  {
    hide *;
    TrimSteps(s);
    TrimSteps(Lowered(s));
    if s != [] {
      FoldEnds(s);
      FoldedSpace(s[|s| - 1]);
      TrimBackFolded(s[..|s| - 1]);
    }
  }

  /** ASCII case does not matter: a well-formed name and its folded form have one canonical form. */
  lemma {:induction false} CaseDoesNotMatter(raw: Bytes)
    requires Utf8.Scalars(raw).Some?
    ensures Canonicalized(Lowered(raw)) == Canonicalized(raw)
  {
    hide Utf8.Scalars, Utf8.EncodeAll, Lower, TrimFront, TrimBack;
    var xs := Utf8.Scalars(raw).value;
    Utf8.ScalarsIff(raw, xs);
    FoldEncoded(xs);
    Utf8.ScalarsIff(Lowered(raw), FoldScalars(xs));
    ControlsFold(xs);
    TrimFrontFolded(raw);
    TrimBackFolded(TrimFront(raw));
    FoldTwice(Trimmed(raw));
  }

  lemma {:induction false} ControlsFold(xs: seq<Utf8.Scalar>)
    ensures NoControls(FoldScalars(xs)) <==> NoControls(xs)
  {
    if NoControls(FoldScalars(xs)) {
      forall i | 0 <= i < |xs| ensures !IsControl(xs[i]) {
        assert !IsControl(FoldScalars(xs)[i]);
      }
    }
  }

  // ---- which texts are accepted, and as what ----

  predicate Spaces(s: Bytes) { forall i :: 0 <= i < |s| ==> s[i] == 0x20 }

  /** `raw` is `core` with spaces around it, and `core` has none at its ends. */
  predicate Around(raw: Bytes, front: Bytes, core: Bytes, back: Bytes) {
    raw == front + core + back && Spaces(front) && Spaces(back) && (core != [] ==> core[0] != 0x20 && core[|core| - 1] != 0x20)
  }

  lemma {:induction false} FrontTrims(front: Bytes, rest: Bytes)
    requires Spaces(front) && (rest != [] ==> rest[0] != 0x20)
    ensures TrimFront(front + rest) == rest
  {
    if front == [] {
      assert front + rest == rest;
    } else {
      assert (front + rest)[1..] == front[1..] + rest;
      FrontTrims(front[1..], rest);
    }
  }

  lemma {:induction false} BackTrims(rest: Bytes, back: Bytes)
    requires Spaces(back) && (rest != [] ==> rest[|rest| - 1] != 0x20)
    ensures TrimBack(rest + back) == rest
  {
    if back == [] {
      assert rest + back == rest;
    } else {
      assert (rest + back)[..|rest + back| - 1] == rest + back[..|back| - 1];
      BackTrims(rest, back[..|back| - 1]);
    }
  }

  lemma {:induction false} FrontIsSpace(s: Bytes, i: nat)
    requires i < |s| - |TrimFront(s)|
    ensures s[i] == 0x20
  {
    if i > 0 {
      FrontIsSpace(s[1..], i - 1);
    }
  }

  lemma {:induction false} BackIsSpace(s: Bytes, i: nat)
    requires |TrimBack(s)| <= i < |s|
    ensures s[i] == 0x20
  {
    if i < |s| - 1 {
      BackIsSpace(s[..|s| - 1], i);
    }
  }

  lemma {:induction false} TrimmedAround(raw: Bytes) returns (front: Bytes, back: Bytes)
    ensures Around(raw, front, Trimmed(raw), back)
  {
    hide TrimBack, TrimFront;
    var t := TrimFront(raw);
    var core := TrimBack(t);
    front, back := raw[..|raw| - |t|], t[|core|..];
    forall i | 0 <= i < |front| ensures front[i] == 0x20 {
      FrontIsSpace(raw, i);
    }
    forall i | 0 <= i < |back| ensures back[i] == 0x20 {
      BackIsSpace(t, |core| + i);
    }
    assert t == core + back && raw == front + t;
    assert core != [] ==> core[0] == t[0];
    assert front + (core + back) == front + core + back;
  }

  lemma {:induction false} AroundTrimmed(raw: Bytes, front: Bytes, core: Bytes, back: Bytes)
    requires Around(raw, front, core, back) && core != []
    ensures Trimmed(raw) == core
  {
    hide TrimBack, TrimFront;
    assert raw == front + (core + back);
    FrontTrims(front, core + back);
    BackTrims(core, back);
  }

  /** The bytes of `core` with capitals in lower case. */
  predicate LowerOf(name: Bytes, core: Bytes) {
    |name| == |core| && forall i :: 0 <= i < |core| ==> name[i] == if 65 <= core[i] <= 90 then core[i] + 32 else core[i]
  }

  /** A username is accepted exactly when it has at most 256 bytes of well-formed UTF-8 without
      control characters, and 3 to 64 of them are left between the spaces around it; those, with
      capitals in lower case, are its canonical form. */
  lemma {:induction false} CanonicalIff(raw: Bytes, name: Bytes)
    ensures Canonicalized(raw) == Ok(name) <==>
              && |raw| <= 256
              && (exists xs :: raw == Utf8.EncodeAll(xs) && forall i :: 0 <= i < |xs| ==> !(xs[i] <= 0x1f || 0x7f <= xs[i] <= 0x9f))
              && exists front, core, back :: Around(raw, front, core, back) && 3 <= |core| <= 64 && LowerOf(name, core)
    ensures Canonicalized(raw) == Fail(InvalidUtf8) <==> |raw| <= 256 && !exists xs :: raw == Utf8.EncodeAll(xs)
  {
    hide Utf8.Scalars, Utf8.EncodeAll, Trimmed, Around;
    ScalarsKnown(raw);
    if Utf8.Scalars(raw).Some? {
      assert raw == Utf8.EncodeAll(Utf8.Scalars(raw).value);
    }
    if Canonicalized(raw) == Ok(name) {
      var front, back := TrimmedAround(raw);
      assert Around(raw, front, Trimmed(raw), back) && LowerOf(name, Trimmed(raw));
      var xs := Utf8.Scalars(raw).value;
      assert raw == Utf8.EncodeAll(xs);
    }
    forall front, core, back | Around(raw, front, core, back) && core != [] ensures Trimmed(raw) == core {
      AroundTrimmed(raw, front, core, back);
    }
    if exists front, core, back :: Around(raw, front, core, back) && 3 <= |core| <= 64 && LowerOf(name, core) {
      assert name == Lowered(Trimmed(raw));
    }
  }

  lemma {:induction false} ScalarsKnown(raw: Bytes)
    ensures forall xs :: raw == Utf8.EncodeAll(xs) <==> Utf8.Scalars(raw) == Some(xs)
  {
    hide Utf8.Scalars, Utf8.EncodeAll;
    forall xs ensures raw == Utf8.EncodeAll(xs) <==> Utf8.Scalars(raw) == Some(xs) {
      Utf8.ScalarsIff(raw, xs);
    }
  }

  lemma {:induction false} AsciiEncoded(name: Bytes)
    requires forall i :: 0 <= i < |name| ==> name[i] < 0x80
    ensures Utf8.EncodeAll(name) == name
  {
    if name != [] {
      AsciiEncoded(name[1..]);
      assert Utf8.Encode(name[0]) == [name[0]];
      assert name == [name[0]] + name[1..];
    }
  }

  /** A name of printable ASCII characters, none of them a space or a capital, is canonical. */
  lemma {:induction false} PlainName(name: Bytes)
    requires 3 <= |name| <= 64 && forall i :: 0 <= i < |name| ==> 0x21 <= name[i] <= 0x7e && !(65 <= name[i] <= 90)
    ensures Canonicalized(name) == Ok(name)
  {
    hide Canonicalized, Utf8.EncodeAll;
    AsciiEncoded(name);
    var xs: seq<Utf8.Scalar> := name;
    assert name == Utf8.EncodeAll(xs);
    assert [] + name + [] == name;
    assert Around(name, [], name, []) && LowerOf(name, name);
    CanonicalIff(name, name);
  }
}
