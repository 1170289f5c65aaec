/** Strict DER for ECDSA signatures (X.690, and BIP-66 for secp256k1). */
module Der {
  import opened Prelude
  import opened Radix

  datatype Signature = Signature(r: Bytes, s: Bytes)

  // ---- specification ----

  function Significant(v: Bytes): (r: Bytes)
    ensures |r| <= |v| && (r != [] ==> r[0] != 0)
  {
    v[LeadingZeros(v)..]
  }

  /** INTEGER: the significant bytes, a zero in front when the top bit is set. */
  function Content(v: Bytes): (r: Bytes)
    ensures 1 <= |r| <= |v| + 1
  {
    var m := Significant(v);
    if m == [] then [0] else if m[0] >= 0x80 then [0] + m else m
  }

  function Integer(v: Bytes): (r: Bytes)
    ensures 3 <= |r| <= |v| + 3
  {
    [0x02, |Content(v)| % 256] + Content(v)
  }

  function ToDer(sig: Signature): (d: Bytes)
    ensures |d| == 2 + |Integer(sig.r)| + |Integer(sig.s)|
  {
    var body := Integer(sig.r) + Integer(sig.s);
    [0x30, |body| % 256] + body
  }

  /** The value of an integer's content, if it is positive, minimal and not too large. */
  function ReadContent(content: Bytes, coord: nat): Option<Bytes>
    requires content != []
  {
    if content[0] >= 0x80 then None
    else if |content| > 1 && content[0] == 0 && content[1] < 0x80 then None
    else
      var out := if content[0] == 0 && |content| > 1 then content[1..] else content;
      if |out| > coord || LeadingZeros(out) == |out| then None else Some(out)
  }

  /** The integer at `pos`, and the position after it. */
  function ReadInteger(d: Bytes, pos: nat, coord: nat): (r: Option<(Bytes, nat)>)
    requires pos <= |d|
    ensures r.Some? ==> pos < r.value.1 <= |d|
  {
    if |d| - pos < 2 || d[pos] != 0x02 then None
    else
      var len: nat := d[pos + 1];
      var start := pos + 2;
      if len == 0 || len >= 0x80 || len > |d| - start then None
      else match ReadContent(d[start..start + len], coord)
        case None => None
        case Some(out) => Some((out, start + len))
  }

  function FromDer(d: Bytes, coord: nat): Option<Signature> {
    if |d| < 8 || d[0] != 0x30 || d[1] >= 0x80 || d[1] + 2 != |d| then None
    else match ReadInteger(d, 2, coord)
      case None => None
      case Some((r, next)) =>
        match ReadInteger(d, next, coord)
        case None => None
        case Some((s, end)) => if end != |d| then None else Some(Signature(r, s))
  }

  /** Right-aligned in `coord` bytes; only the last `coord` bytes of a longer value are kept. */
  function Aligned(v: Bytes, coord: nat): (r: Bytes)
    ensures |r| == coord
  {
    if |v| > coord then v[|v| - coord..] else Repeat<Byte>(0, coord - |v|) + v
  }

  function ToCompact(sig: Signature, coord: nat): (r: Bytes)
    ensures |r| == 2 * coord
  {
    Aligned(sig.r, coord) + Aligned(sig.s, coord)
  }

  function FromCompact(c: Bytes, coord: nat): Signature
    requires |c| == 2 * coord
  {
    Signature(c[..coord], c[coord..])
  }

  // ---- the encoders and the parser ----

  method EncodeInteger(v: Bytes) returns (encoded: Bytes)
    ensures encoded == Integer(v)
  {
    var start := 0;
    while start < |v| && v[start] == 0
      invariant start <= |v| && forall k :: 0 <= k < start ==> v[k] == 0
    {
      start := start + 1;
    }
    ZerosAre(v, start);
    assert Significant(v) == v[start..];
    hide Significant, LeadingZeros;
    encoded := [0x02];
    if start == |v| {
      encoded := encoded + [0x01];
      encoded := encoded + [0x00];
      return;
    }
    var pad := v[start] >= 0x80;
    var len := |v| - start + if pad then 1 else 0;
    assert len == |Content(v)|;
    encoded := encoded + [len % 256];
    assert encoded == [0x02, |Content(v)| % 256];
    hide Content;
    ContentIs(v);
    if pad {
      encoded := encoded + [0x00];
    }
    encoded := encoded + v[start..];
  }

  lemma {:induction false} ContentIs(v: Bytes)
    ensures var m := Significant(v);
            m != [] ==> Content(v) == if m[0] >= 0x80 then [0x00] + m else m
  {
  }

  lemma {:induction false} ZerosAre(v: Bytes, n: nat)
    requires n <= |v| && (forall k :: 0 <= k < n ==> v[k] == 0) && (n < |v| ==> v[n] != 0)
    ensures LeadingZeros(v) == n
  {
  }

  method WriteDer(sig: Signature) returns (der: Bytes)
    ensures der == ToDer(sig)
  {
    hide Integer;
    var r := EncodeInteger(sig.r);
    var s := EncodeInteger(sig.s);
    der := [0x30];
    der := der + [(|r| + |s|) % 256];
    der := der + r;
    der := der + s;
    assert der == [0x30, (|r| + |s|) % 256] + (r + s);
  }

  method ParseInteger(d: Bytes, start: nat, coord: nat) returns (r: Option<(Bytes, nat)>)
    requires start <= |d|
    ensures r == ReadInteger(d, start, coord)
  {
    if |d| - start < 2 || d[start] != 0x02 {
      return None;
    }
    var len: nat := d[start + 1];
    var pos := start + 2;
    if len == 0 || len >= 0x80 || len > |d| - pos || d[pos] >= 0x80 {
      return None;
    }
    ghost var content := d[pos..pos + len];
    assert content[0] == d[pos] && (len > 1 ==> content[1] == d[pos + 1] && content[1..] == d[pos + 1..pos + len]);
    if len > 1 && d[pos] == 0 && d[pos + 1] < 0x80 {
      return None;
    }
    var skip := if d[pos] == 0 && len > 1 then 1 else 0;
    if len - skip > coord {
      return None;
    }
    var out := d[pos + skip..pos + len];
    pos := pos + len;
    var nonZero := false;
    for i := 0 to |out|
      invariant nonZero <==> exists k :: 0 <= k < i && out[k] != 0
    {
      nonZero := nonZero || out[i] != 0;
    }
    if !nonZero {
      ZerosAre(out, |out|);
      return None;
    }
    r := Some((out, pos));
  }

  method ParseDer(d: Bytes, coord: nat) returns (r: Option<Signature>)
    ensures r == FromDer(d, coord)
  {
    if |d| < 8 || d[0] != 0x30 || d[1] >= 0x80 || d[1] + 2 != |d| {
      return None;
    }
    var first := ParseInteger(d, 2, coord);
    if first == None {
      return None;
    }
    var second := ParseInteger(d, first.value.1, coord);
    if second == None || second.value.1 != |d| {
      return None;
    }
    r := Some(Signature(first.value.0, second.value.0));
  }

  /** Copies into a zeroed buffer at an offset, as `toCompact` does for r and for s. */
  method WriteCompact(sig: Signature, coord: nat) returns (compact: Bytes)
    ensures compact == ToCompact(sig, coord)
  {
    hide Aligned;
    var buffer := new Byte[2 * coord](_ => 0);
    assert buffer[..] == [] + Repeat<Byte>(0, coord) + Repeat<Byte>(0, coord);
    CopyAligned(buffer, 0, sig.r, coord, [], Repeat(0, coord));
    assert buffer[..] == Aligned(sig.r, coord) + Repeat<Byte>(0, coord) + [];
    CopyAligned(buffer, coord, sig.s, coord, Aligned(sig.r, coord), []);
    compact := buffer[..];
    assert compact == Aligned(sig.r, coord) + Aligned(sig.s, coord) + [];
  }

  method CopyAligned(buffer: array<Byte>, base: nat, v: Bytes, coord: nat, ghost before: Bytes, ghost after: Bytes)
    requires buffer[..] == before + Repeat(0, coord) + after && |before| == base
    modifies buffer
    ensures buffer[..] == before + Aligned(v, coord) + after
  {
    hide Aligned;
    assert buffer.Length == |buffer[..]| == base + coord + |after|;
    var count := if |v| < coord then |v| else coord;
    var offset := coord - count;
    var from := if |v| > coord then |v| - coord else 0;
    Placed(before, after, v, coord, offset, from, count);
    Store(buffer, base + offset, v[from..from + count]);
  }

  lemma {:induction false} Placed(before: Bytes, after: Bytes, v: Bytes, coord: nat, offset: nat, from: nat, count: nat)
    requires count == (if |v| < coord then |v| else coord) && offset == coord - count && from == |v| - count
    ensures var was := before + Repeat(0, coord) + after;
            var at := |before| + offset;
            was[..at] + v[from..from + count] + was[at + count..] == before + Aligned(v, coord) + after
  {
    hide Aligned;
    ZerosCut(before, after, coord, offset);
    AlignedIs(v, coord, offset, from, count);
    assert |before| + offset + count == |before| + coord;
  }

  lemma {:induction false} ZerosCut(before: Bytes, after: Bytes, coord: nat, offset: nat)
    requires offset <= coord
    ensures var was := before + Repeat(0, coord) + after;
            was[..|before| + offset] == before + Repeat(0, offset) && was[|before| + coord..] == after
  {
    var zeros := Repeat<Byte>(0, coord);
    assert zeros[..offset] == Repeat<Byte>(0, offset);
    assert before + zeros + after == before + zeros[..offset] + (zeros[offset..] + after);
  }

  lemma {:induction false} AlignedIs(v: Bytes, coord: nat, offset: nat, from: nat, count: nat)
    requires count == (if |v| < coord then |v| else coord) && offset == coord - count && from == |v| - count
    ensures Aligned(v, coord) == Repeat(0, offset) + v[from..from + count]
  {
    assert v[from..from + count] == v[from..];
    assert |v| <= coord ==> v[0..] == v;
  }

  // ---- one encoding for every signature ----

  predicate Nonzero(v: Bytes) { LeadingZeros(v) < |v| }

  lemma {:induction false} SignificantNonzero(v: Bytes)
    requires Nonzero(v)
    ensures Significant(v) != [] && Significant(v)[0] != 0 && LeadingZeros(Significant(v)) == 0
  {
    ZerosAre(Significant(v), 0);
  }

  lemma {:induction false} ContentRead(v: Bytes, coord: nat)
    ensures ReadContent(Content(v), coord) == if Nonzero(v) && |Significant(v)| <= coord then Some(Significant(v)) else None
  {
    if Nonzero(v) {
      SignificantNonzero(v);
      hide Significant;
      var m := Significant(v);
      assert ([0] + m)[1..] == m;
    } else {
      assert Content(v) == [0];
      ZerosAre([0], 1);
    }
  }

  lemma {:induction false} ReadIsContent(content: Bytes, coord: nat)
    requires content != [] && ReadContent(content, coord).Some?
    ensures var out := ReadContent(content, coord).value;
            Content(out) == content && Significant(out) == out && 1 <= |out| <= coord
  {
    var out := ReadContent(content, coord).value;
    ZerosAre([0], 1);
    assert |content| == 1 && content[0] == 0 ==> content == [0];
    ZerosAre(out, 0);
    assert content == [content[0]] + content[1..];
  }

  /** An integer written inside a longer text is read back, unless it is zero or too large. */
  lemma {:induction false} ReadWritten(before: Bytes, v: Bytes, after: Bytes, coord: nat)
    requires |v| <= 60
    ensures var r := ReadInteger(before + Integer(v) + after, |before|, coord);
            if Nonzero(v) && |Significant(v)| <= coord then r == Some((Significant(v), |before| + |Integer(v)|)) else r == None
  {
    ContentRead(v, coord);
    hide Significant, Content, ReadContent, Nonzero;
    IntegerAt(before, v, after);
  }

  lemma {:induction false} IntegerAt(before: Bytes, v: Bytes, after: Bytes)
    requires |v| <= 60
    ensures var d := before + Integer(v) + after;
            var start := |before| + 2;
            |d| >= start + |Content(v)| && d[|before|] == 0x02 && d[|before| + 1] == |Content(v)|
            && d[start..start + |Content(v)|] == Content(v)
  {
    hide Content;
    var d := before + Integer(v) + after;
    var start := |before| + 2;
    assert d[|before|..start] == Integer(v)[..2];
    assert d[|before|] == Integer(v)[0] && d[|before| + 1] == Integer(v)[1];
    assert d[start..start + |Content(v)|] == Integer(v)[2..] == Content(v);
  }

  /** What is read at a position is there as it would be written. */
  lemma {:induction false} WrittenAsRead(d: Bytes, pos: nat, coord: nat)
    requires pos <= |d| && ReadInteger(d, pos, coord).Some?
    ensures var (out, next) := ReadInteger(d, pos, coord).value;
            d[pos..next] == Integer(out) && Significant(out) == out && 1 <= |out| <= coord
  {
    hide ReadContent, Content, Significant;
    var (out, next) := ReadInteger(d, pos, coord).value;
    ReadIsContent(d[pos + 2..next], coord);
    assert d[pos..next] == [d[pos], d[pos + 1]] + d[pos + 2..next];
  }

  /** Parsing inverts encoding exactly for nonzero integers that fit, the zeros in front gone;
      anything else that is encoded is refused. */
  lemma {:induction false} ParseWritten(sig: Signature, coord: nat)
    requires |sig.r| <= 60 && |sig.s| <= 60
    ensures FromDer(ToDer(sig), coord) ==
            if Nonzero(sig.r) && |Significant(sig.r)| <= coord && Nonzero(sig.s) && |Significant(sig.s)| <= coord
            then Some(Signature(Significant(sig.r), Significant(sig.s))) else None
  {
    hide ReadInteger, Significant, Integer, ToDer, Nonzero;
    var r, s := Integer(sig.r), Integer(sig.s);
    var d := ToDer(sig);
    DerParts(sig);
    ReadWritten(d[..2], sig.r, s, coord);
    ReadWritten(d[..2 + |r|], sig.s, [], coord);
  }

  lemma {:induction false} DerParts(sig: Signature)
    requires |sig.r| <= 60 && |sig.s| <= 60
    ensures ToDer(sig)[0] == 0x30 && ToDer(sig)[1] == |ToDer(sig)| - 2 < 0x80
    ensures ToDer(sig) == ToDer(sig)[..2] + Integer(sig.r) + Integer(sig.s)
    ensures ToDer(sig) == ToDer(sig)[..2 + |Integer(sig.r)|] + Integer(sig.s) + []
  {
    hide Integer;
    var d, r, s := ToDer(sig), Integer(sig.r), Integer(sig.s);
    assert d[2..] == r + s;
    assert d[..2 + |r|] == d[..2] + r;
  }

  lemma {:induction false} AlignedSignificant(v: Bytes, coord: nat)
    requires |v| == coord
    ensures Aligned(Significant(v), coord) == v
  {
    SplitZeros(v, 256);
  }

  lemma {:induction false} SignificantAligned(v: Bytes, coord: nat)
    requires |v| <= coord && Significant(v) == v
    ensures Significant(Aligned(v, coord)) == v && (v != [] ==> Nonzero(Aligned(v, coord)))
  {
    assert v != [] ==> v[0] != 0;
    LeadingZerosPadded(coord - |v|, v);
  }

  /** `compactToDer` and `derToCompact`. */
  function CompactToDer(c: Bytes, coord: nat): Bytes
    requires |c| == 2 * coord
  {
    ToDer(FromCompact(c, coord))
  }

  function DerToCompact(d: Bytes, coord: nat): Option<Bytes> {
    match FromDer(d, coord)
    case None => None
    case Some(sig) => Some(ToCompact(sig, coord))
  }

  lemma {:induction false} CompactReturns(c: Bytes, coord: nat)
    requires |c| == 2 * coord && coord <= 60 && Nonzero(c[..coord]) && Nonzero(c[coord..])
    ensures DerToCompact(CompactToDer(c, coord), coord) == Some(c)
  {
    hide ToDer, FromDer, Significant, Aligned, Nonzero;
    var sig := FromCompact(c, coord);
    ParseWritten(sig, coord);
    AlignedSignificant(sig.r, coord);
    AlignedSignificant(sig.s, coord);
    assert c == c[..coord] + c[coord..];
  }

  /** Every compact signature with both halves nonzero comes back from DER, and no other does. */
  lemma {:induction false} CompactRoundTrip(c: Bytes, coord: nat)
    requires |c| == 2 * coord && coord <= 60
    ensures DerToCompact(CompactToDer(c, coord), coord) == Some(c) <==> Nonzero(c[..coord]) && Nonzero(c[coord..])
    ensures DerToCompact(CompactToDer(c, coord), coord) == None <==> !(Nonzero(c[..coord]) && Nonzero(c[coord..]))
  {
    hide ToDer, FromDer, Nonzero, ToCompact;
    if Nonzero(c[..coord]) && Nonzero(c[coord..]) {
      CompactReturns(c, coord);
    } else {
      ParseWritten(FromCompact(c, coord), coord);
    }
  }

  /** Every accepted DER string is the encoding of the signature it gives: byte for byte, there
      is one accepted encoding of each signature. */
  lemma {:induction false} DerIsCanonical(d: Bytes, coord: nat)
    requires coord <= 60 && DerToCompact(d, coord).Some?
    ensures CompactToDer(DerToCompact(d, coord).value, coord) == d
    ensures Nonzero(DerToCompact(d, coord).value[..coord]) && Nonzero(DerToCompact(d, coord).value[coord..])
  {
    hide ReadInteger, Significant, Aligned, Integer;
    var sig := FromDer(d, coord).value;
    WrittenAsRead(d, 2, coord);
    var (r, next) := ReadInteger(d, 2, coord).value;
    WrittenAsRead(d, next, coord);
    var c := ToCompact(sig, coord);
    assert c[..coord] == Aligned(sig.r, coord) && c[coord..] == Aligned(sig.s, coord);
    SignificantAligned(sig.r, coord);
    SignificantAligned(sig.s, coord);
    SameInteger(c[..coord], sig.r);
    SameInteger(c[coord..], sig.s);
    assert d == [d[0], d[1]] + (d[2..next] + d[next..]);
    assert d[next..|d|] == d[next..];
  }

  lemma {:induction false} SameInteger(v: Bytes, w: Bytes)
    requires Significant(v) == Significant(w)
    ensures Integer(v) == Integer(w)
  {
  }

  // ---- the strict form itself ----

  /** The content of a positive INTEGER: no zero byte in front but the one that keeps it positive. */
  function Positive(v: Bytes): Bytes
    requires v != []
  {
    if v[0] >= 0x80 then [0x00] + v else v
  }

  /** SEQUENCE of two INTEGERs with one-byte lengths. */
  predicate IsStrict(d: Bytes, r: Bytes, s: Bytes)
    requires r != [] && s != []
  {
    var a, b := Positive(r), Positive(s);
    && |a| + |b| + 4 < 128
    && d == [0x30, |a| + |b| + 4] + ([0x02, |a|] + a) + ([0x02, |b|] + b)
  }

  lemma {:induction false} PositiveInteger(v: Bytes)
    requires v != [] && v[0] != 0 && |v| <= 60
    ensures Integer(v) == [0x02, |Positive(v)|] + Positive(v) && Significant(v) == v && Nonzero(v) && |Positive(v)| <= |v| + 1
  {
    ZerosAre(v, 0);
  }

  /** A string is accepted with r and s exactly when it is the strict form of those bytes, each
      without a zero in front and no longer than a coordinate. */
  lemma {:induction false} StrictIff(d: Bytes, coord: nat, r: Bytes, s: Bytes)
    requires coord <= 60
    ensures FromDer(d, coord) == Some(Signature(r, s)) <==>
              && r != [] && r[0] != 0 && |r| <= coord && s != [] && s[0] != 0 && |s| <= coord && IsStrict(d, r, s)
  {
    hide ReadInteger, Integer, Positive, Significant, Nonzero, FromDer;
    if FromDer(d, coord) == Some(Signature(r, s)) {
      AcceptedIsStrict(d, coord, r, s);
    }
    if r != [] && r[0] != 0 && |r| <= coord && s != [] && s[0] != 0 && |s| <= coord && IsStrict(d, r, s) {
      PositiveInteger(r);
      PositiveInteger(s);
      assert ToDer(Signature(r, s)) == d;
      hide ToDer, IsStrict;
      ParseWritten(Signature(r, s), coord);
    }
  }

  lemma {:induction false} AcceptedIsStrict(d: Bytes, coord: nat, r: Bytes, s: Bytes)
    requires coord <= 60 && FromDer(d, coord) == Some(Signature(r, s))
    ensures r != [] && r[0] != 0 && |r| <= coord && s != [] && s[0] != 0 && |s| <= coord && IsStrict(d, r, s)
  {
    hide ReadInteger, Integer, Positive, Significant;
    WrittenAsRead(d, 2, coord);
    var next := ReadInteger(d, 2, coord).value.1;
    WrittenAsRead(d, next, coord);
    SignificantFront(r);
    SignificantFront(s);
    PositiveInteger(r);
    PositiveInteger(s);
    assert d[next..|d|] == d[next..];
    assert d == [d[0], d[1]] + d[2..next] + d[next..];
  }

  lemma {:induction false} SignificantFront(v: Bytes)
    ensures Significant(v) == v && v != [] ==> v[0] != 0
  {
  }

  /** `c` is both numbers with as many zeros in front as fill a coordinate. */
  predicate IsCompact(c: Bytes, coord: nat, r: Bytes, s: Bytes) {
    |r| <= coord && |s| <= coord && c == Repeat<Byte>(0, coord - |r|) + r + (Repeat<Byte>(0, coord - |s|) + s)
  }

  /** The compact form of a strict string is r and s, each with zeros in front up to a coordinate. */
  lemma {:induction false} CompactIff(d: Bytes, coord: nat, c: Bytes)
    requires coord <= 60
    ensures DerToCompact(d, coord) == Some(c) <==>
              exists r, s :: r != [] && r[0] != 0 && s != [] && s[0] != 0 && IsStrict(d, r, s) && IsCompact(c, coord, r, s)
  {
    hide IsStrict, FromDer;
    if DerToCompact(d, coord) == Some(c) {
      var sig := FromDer(d, coord).value;
      StrictIff(d, coord, sig.r, sig.s);
      assert IsStrict(d, sig.r, sig.s) && IsCompact(c, coord, sig.r, sig.s);
    }
    if r, s :| r != [] && r[0] != 0 && s != [] && s[0] != 0 && IsStrict(d, r, s) && IsCompact(c, coord, r, s) {
      StrictIff(d, coord, r, s);
    }
  }
}
