/** Bit strings, most significant bit first, and numbers of a fixed width inside them. */
module Bits {
  import opened Radix
  import opened Regroup

  function Bit(b: bool): nat { if b then 1 else 0 }

  /** The number written by `b`. */
  function Number(b: seq<bool>): nat {
    if b == [] then 0 else Number(b[..|b| - 1]) * 2 + Bit(b[|b| - 1])
  }

  /** The low `count` bits of `n`. */
  function BitsOf(n: nat, count: nat): (b: seq<bool>)
    ensures |b| == count
    decreases count
  {
    if count == 0 then [] else BitsOf(n / 2, count - 1) + [n % 2 == 1]
  }

  lemma {:induction false} NumberAppend(b: seq<bool>, x: bool)
    ensures Number(b + [x]) == Number(b) * 2 + Bit(x)
  {
    assert (b + [x])[..|b|] == b;
  }

  lemma {:induction false} P2Next(n: nat)
    ensures P2(n + 1) == 2 * P2(n) && P2(0) == 1
  {
  }

  lemma {:induction false} NumberOfBits(n: nat, count: nat)
    requires n < P2(count)
    ensures Number(BitsOf(n, count)) == n
    decreases count
  {
    hide Number, P2;
    P2Next(0);
    if count > 0 {
      P2Next(count - 1);
      NumberOfBits(n / 2, count - 1);
      NumberAppend(BitsOf(n / 2, count - 1), n % 2 == 1);
    } else {
      NumberEmpty();
    }
  }

  lemma {:induction false} NumberEmpty()
    ensures Number([]) == 0
  {
  }

  lemma {:induction false} BitsOfNumber(b: seq<bool>)
    ensures BitsOf(Number(b), |b|) == b && Number(b) < P2(|b|)
  {
    hide P2;
    P2Next(0);
    if b != [] {
      var h, x := b[..|b| - 1], b[|b| - 1];
      BitsOfNumber(h);
      P2Next(|h|);
      assert Number(b) / 2 == Number(h) && Number(b) % 2 == Bit(x);
      assert b == h + [x];
    }
  }

  /** Bit `i` from the front is the bit of weight 2^(count - 1 - i). */
  lemma {:induction false} BitAt(n: nat, count: nat, i: nat)
    requires i < count
    ensures BitsOf(n, count)[i] <==> Above(n, count - 1 - i) % 2 == 1
    decreases count
  {
    hide P2, Above;
    if i == count - 1 {
      AboveNone(n);
    } else {
      BitAt(n / 2, count - 1, i);
      AboveHalf(n, count - 2 - i);
    }
  }

  lemma {:induction false} AboveNone(n: nat)
    ensures Above(n, 0) == n
  {
    P2Byte(0);
  }

  lemma {:induction false} AboveHalf(n: nat, k: nat)
    ensures Above(n / 2, k) == Above(n, k + 1)
  {
    hide P2;
    P2Next(k);
    DivDiv(n, 2, P2(k));
  }

  // ---- rows of numbers of one width ----

  /** The bits of the numbers, `w` for each. */
  function Row(xs: seq<nat>, w: nat): (b: seq<bool>)
    ensures |b| == |xs| * w
  {
    if xs == [] then []
    else
      assert (|xs| - 1) * w + w == |xs| * w;
      Row(xs[..|xs| - 1], w) + BitsOf(xs[|xs| - 1], w)
  }

  /** The numbers in a bit string; a short last one is filled up with zeros. */
  function Cut(b: seq<bool>, w: nat): seq<nat>
    requires w >= 1
  {
    if b == [] then []
    else if |b| <= w then [Number(b) * P2(w - |b|)]
    else [Number(b[..w])] + Cut(b[w..], w)
  }

  lemma {:induction false} RowAppend(xs: seq<nat>, x: nat, w: nat)
    ensures Row(xs + [x], w) == Row(xs, w) + BitsOf(x, w)
  {
    assert (xs + [x])[..|xs|] == xs;
  }

  lemma {:induction false} RowFront(x: nat, xs: seq<nat>, w: nat)
    ensures Row([x] + xs, w) == BitsOf(x, w) + Row(xs, w)
    decreases |xs|
  {
    if xs == [] {
      assert [x] + xs == [] + [x];
      RowAppend([], x, w);
    } else {
      var h, y := xs[..|xs| - 1], xs[|xs| - 1];
      RowFront(x, h, w);
      assert [x] + xs == ([x] + h) + [y] && xs == h + [y];
      RowAppend([x] + h, y, w);
      RowAppend(h, y, w);
    }
  }

  predicate Narrow(xs: seq<nat>, w: nat) { forall i :: 0 <= i < |xs| ==> xs[i] < P2(w) }

  lemma {:induction false} CutRow(xs: seq<nat>, w: nat)
    requires w >= 1 && Narrow(xs, w)
    ensures Cut(Row(xs, w), w) == xs
  {
    hide Number, BitsOf, Row, P2;
    if xs == [] {
      RowNone(w);
    } else {
      var rest := xs[1..];
      assert xs == [xs[0]] + rest;
      RowFront(xs[0], rest, w);
      NumberOfBits(xs[0], w);
      CutRow(rest, w);
      P2Next(0);
      var b := Row(xs, w);
      assert b[..w] == BitsOf(xs[0], w) && b[w..] == Row(rest, w);
      if rest == [] {
        RowNone(w);
        assert b == BitsOf(xs[0], w);
      } else {
        MulMonotone(w, 1, |rest|);
      }
    }
  }

  lemma {:induction false} RowNone(w: nat)
    ensures Row([], w) == []
  {
  }

  lemma {:induction false} RowCut(b: seq<bool>, w: nat)
    requires w >= 1 && |b| % w == 0
    ensures Row(Cut(b, w), w) == b && Narrow(Cut(b, w), w) && |Cut(b, w)| * w == |b|
    decreases |b|
  {
    hide Number, BitsOf, Row, P2;
    RowNone(w);
    P2Next(0);
    if b != [] {
      WholeNumber(|b|, w);
      var x := Number(b[..w]);
      BitsOfNumber(b[..w]);
      if |b| > w {
        RowCut(b[w..], w);
        RowFront(x, Cut(b[w..], w), w);
        assert b == b[..w] + b[w..];
      } else {
        assert b[..w] == b;
        RowFront(x, [], w);
        assert [x] + [] == [x];
        assert BitsOf(x, w) + [] == BitsOf(x, w);
      }
    }
  }

  lemma {:induction false} WholeNumber(n: nat, w: nat)
    requires w >= 1 && n > 0 && n % w == 0
    ensures n >= w && (n - w) % w == 0
  {
    if n < w {
      DivMod(0, w, n);
    }
    AddMultiple(n, w, -1);
  }

  lemma {:induction false} RowConcat(xs: seq<nat>, ys: seq<nat>, w: nat)
    ensures Row(xs + ys, w) == Row(xs, w) + Row(ys, w)
    decreases |ys|
  {
    hide BitsOf, Row;
    if ys == [] {
      RowNone(w);
      assert xs + ys == xs;
    } else {
      var h, y := ys[..|ys| - 1], ys[|ys| - 1];
      RowConcat(xs, h, w);
      assert xs + ys == xs + h + [y] && ys == h + [y];
      RowAppend(xs + h, y, w);
      RowAppend(h, y, w);
    }
  }

  /** Bit `k` of a row belongs to number `k / w`. */
  lemma {:induction false} RowAt(xs: seq<nat>, w: nat, i: nat, j: nat)
    requires i < |xs| && j < w
    ensures i * w + j < |xs| * w && Row(xs, w)[i * w + j] == BitsOf(xs[i], w)[j]
  {
    hide BitsOf, Row;
    assert xs == xs[..i] + ([xs[i]] + xs[i + 1..]);
    RowConcat(xs[..i], [xs[i]] + xs[i + 1..], w);
    RowFront(xs[i], xs[i + 1..], w);
    MulMonotone(w, i + 1, |xs|);
  }

  // ---- cutting a string that grows by one bit ----

  lemma {:induction false} CutSize(b: seq<bool>, w: nat)
    requires w >= 1
    ensures |Cut(b, w)| == (|b| + w - 1) / w
    decreases |b|
  {
    hide Number, P2;
    if b == [] {
      DivMod(0, w, w - 1);
    } else if |b| <= w {
      DivMod(1, w, |b| - 1);
    } else {
      CutSize(b[w..], w);
      AddMultiple(|b| - 1, w, 1);
      AddMultiple(|b| - w + w - 1, w, 1);
    }
  }

  lemma {:induction false} CutNarrow(b: seq<bool>, w: nat)
    requires w >= 1
    ensures Narrow(Cut(b, w), w)
    decreases |b|
  {
    hide Number, P2;
    if |b| > w {
      BitsOfNumber(b[..w]);
      CutNarrow(b[w..], w);
    } else if b != [] {
      BitsOfNumber(b);
      P2Add(|b|, w - |b|);
      MulMonotone(P2(w - |b|), Number(b) + 1, P2(|b|));
      assert P2(w - |b|) * (Number(b) + 1) == Number(b) * P2(w - |b|) + P2(w - |b|);
    }
  }

  /** One more bit adds its weight to the number at `|b| / w`, which is new when `w` divides. */
  lemma {:induction false} CutAppend(b: seq<bool>, x: bool, w: nat)
    requires w >= 1
    ensures var k, weight := |b| / w, Bit(x) * P2(w - 1 - |b| % w);
            if |b| % w == 0 then |Cut(b, w)| == k && Cut(b + [x], w) == Cut(b, w) + [weight]
            else |Cut(b, w)| == k + 1 && Cut(b + [x], w) == Cut(b, w)[..k] + [Cut(b, w)[k] + weight]
    decreases |b|
  {
    hide Number, P2;
    if |b| < w {
      DivMod(0, w, |b|);
      ShortAppend(b, x, w);
    } else {
      AddMultiple(|b| - w, w, 1);
      var c := b + [x];
      assert c[..w] == b[..w] && c[w..] == b[w..] + [x];
      CutAppend(b[w..], x, w);
      CutLong(b, w);
      CutLong(c, w);
    }
  }

  lemma {:induction false} ShortAppend(b: seq<bool>, x: bool, w: nat)
    requires |b| < w
    ensures Cut(b + [x], w) == if b == [] then [Bit(x) * P2(w - 1)] else [Cut(b, w)[0] + Bit(x) * P2(w - 1 - |b|)]
    ensures |Cut(b, w)| == if b == [] then 0 else 1
  {
    hide Number, P2;
    NumberAppend(b, x);
    NumberEmpty();
    P2Next(w - |b| - 1);
    Doubled(Number(b), Bit(x), P2(w - |b| - 1));
  }

  lemma {:induction false} Doubled(n: nat, x: nat, p: nat)
    ensures (n * 2 + x) * p == n * (2 * p) + x * p
  {
  }

  lemma {:induction false} CutLong(b: seq<bool>, w: nat)
    requires w >= 1 && |b| >= w
    ensures Cut(b, w) == [Number(b[..w])] + Cut(b[w..], w)
  {
    P2Next(0);
    if |b| == w {
      assert b[..w] == b;
    }
  }

  function PaddedTo(a: seq<nat>, size: nat): (r: seq<nat>)
    requires |a| <= size
    ensures |r| == size && forall i :: 0 <= i < size ==> r[i] == if i < |a| then a[i] else 0
  {
    a + seq(size - |a|, _ => 0)
  }

  /** The numbers in `b`, followed by zeros up to `size`. */
  function Filled(b: seq<bool>, w: nat, size: nat): (r: seq<nat>)
    requires w >= 1 && |b| <= size * w
    ensures |r| == size && forall i :: 0 <= i < size ==> r[i] < P2(w)
  {
    CutSize(b, w);
    CutNarrow(b, w);
    RoomFor(|b|, w, size);
    PowPositive(2, w);
    PaddedTo(Cut(b, w), size)
  }

  lemma {:induction false} RoomFor(n: nat, w: nat, size: nat)
    requires w >= 1 && n <= size * w
    ensures (n + w - 1) / w <= size
  {
    var q, r := (n + w - 1) / w, (n + w - 1) % w;
    assert n + w - 1 == w * q + r;
    if q > size {
      MulMonotone(w, size + 1, q);
    }
  }

  lemma {:induction false} FilledNext(b: seq<bool>, x: bool, w: nat, size: nat)
    requires w >= 1 && |b| < size * w && |b| / w < size
    ensures var k := |b| / w; var f := Filled(b, w, size);
            Filled(b + [x], w, size) == f[k := f[k] + Bit(x) * P2(w - 1 - |b| % w)]
  {
    hide Number, P2, Cut, Bit, PaddedTo;
    CutSize(b, w);
    CutSize(b + [x], w);
    CutAppend(b, x, w);
    assert |Cut(b, w)| == |b| / w ==> Filled(b, w, size)[|b| / w] == 0;
  }
}
