/** Object members sorted by the UTF-16 code units of their names. */
module KeyOrder {
  import opened Prelude
  import Utf8
  import Lexicographic

  datatype Member<T> = Member(key: Bytes, value: T)

  /** utf16Less. */
  predicate Before(a: Bytes, b: Bytes) {
    Lexicographic.Less(Utf8.Utf16(a), Utf8.Utf16(b))
  }

  /** On permitted names the comparison is a strict total order. */
  lemma {:induction false} BeforeIsTotal(a: Bytes, b: Bytes)
    requires Utf8.IJson(a) && Utf8.IJson(b)
    ensures a == b || Before(a, b) || Before(b, a)
    ensures !(Before(a, b) && Before(b, a)) && (a == b ==> !Before(a, b))
  {
    var x, y := Utf8.Utf16(a), Utf8.Utf16(b);
    Lexicographic.Trichotomy(x, y);
    if x == y {
      Utf8.Utf16Injective(a, b);
    }
    Lexicographic.Irreflexive(x);
    if Lexicographic.Less(x, y) && Lexicographic.Less(y, x) {
      Lexicographic.Transitive(x, y, x);
    }
  }

  /** One name comes before another exactly when its UTF-16 code units are a proper prefix of the
      other's, or the smaller ones at the first difference. */
  lemma {:induction false} BeforeIff(a: Bytes, b: Bytes)
    ensures var x, y := Utf8.Utf16(a), Utf8.Utf16(b);
            Before(a, b) <==> exists k: nat :: k <= |x| && k < |y| && x[..k] == y[..k] && (k == |x| || x[k] < y[k])
  {
    hide Utf8.Utf16;
    Lexicographic.LessIff(Utf8.Utf16(a), Utf8.Utf16(b));
  }

  lemma {:induction false} BeforeTransitive(a: Bytes, b: Bytes, c: Bytes)
    requires Before(a, b) && Before(b, c)
    ensures Before(a, c)
  {
    Lexicographic.Transitive(Utf8.Utf16(a), Utf8.Utf16(b), Utf8.Utf16(c));
  }

  lemma {:induction false} BeforeIrreflexive(a: Bytes)
    ensures !Before(a, a)
  {
    Lexicographic.Irreflexive(Utf8.Utf16(a));
  }

  predicate ValidKeys<T>(ms: seq<Member<T>>) {
    forall i :: 0 <= i < |ms| ==> Utf8.IJson(ms[i].key)
  }

  predicate DistinctKeys<T>(ms: seq<Member<T>>) {
    forall i, j :: 0 <= i < j < |ms| ==> ms[i].key != ms[j].key
  }

  predicate Sorted<T>(ms: seq<Member<T>>) {
    forall i, j :: 0 <= i < j < |ms| ==> Before(ms[i].key, ms[j].key)
  }

  /** `m` placed before the first member it precedes. */
  function Insert<T>(m: Member<T>, ms: seq<Member<T>>): (r: seq<Member<T>>)
    ensures |r| == |ms| + 1
  {
    if ms == [] || Before(m.key, ms[0].key) then [m] + ms
    else [ms[0]] + Insert(m, ms[1..])
  }

  /** The members in key order. */
  function Sort<T>(ms: seq<Member<T>>): (r: seq<Member<T>>)
    ensures |r| == |ms|
  {
    if ms == [] then [] else Insert(ms[0], Sort(ms[1..]))
  }

  lemma {:induction false} InsertMember<T>(m: Member<T>, ms: seq<Member<T>>, x: Member<T>)
    ensures x in Insert(m, ms) <==> x == m || x in ms
  {
    hide Before;
    if Insert(m, ms) != [m] + ms {
      InsertMember(m, ms[1..], x);
      assert ms == [ms[0]] + ms[1..];
    }
  }

  lemma {:induction false} SortMember<T>(ms: seq<Member<T>>, x: Member<T>)
    ensures x in Sort(ms) <==> x in ms
  {
    hide Before;
    if ms != [] {
      SortMember(ms[1..], x);
      InsertMember(ms[0], Sort(ms[1..]), x);
      assert ms == [ms[0]] + ms[1..];
    }
  }

  lemma {:induction false} InsertSorts<T>(m: Member<T>, ms: seq<Member<T>>)
    requires Sorted(ms) && ValidKeys(ms) && Utf8.IJson(m.key)
    requires forall x :: x in ms ==> x.key != m.key
    ensures Sorted(Insert(m, ms))
  {
    hide Before, Utf8.IJson;
    if ms == [] {
    } else if Before(m.key, ms[0].key) {
      forall j | 0 <= j < |ms| ensures Before(m.key, ms[j].key) {
        if j > 0 {
          BeforeTransitive(m.key, ms[0].key, ms[j].key);
        }
      }
    } else {
      InsertSorts(m, ms[1..]);
      assert ms[0] in ms;
      BeforeIsTotal(m.key, ms[0].key);
      var r := Insert(m, ms[1..]);
      forall j | 0 <= j < |r| ensures Before(ms[0].key, r[j].key) {
        InsertMember(m, ms[1..], r[j]);
        if r[j] != m {
          var k := IndexOf(ms[1..], r[j]);
          assert ms[k + 1] == r[j];
        }
      }
    }
  }

  lemma {:induction false} SortSorts<T>(ms: seq<Member<T>>)
    requires ValidKeys(ms) && DistinctKeys(ms)
    ensures Sorted(Sort(ms)) && ValidKeys(Sort(ms)) && DistinctKeys(Sort(ms))
  {
    hide Before, Utf8.IJson;
    if ms != [] {
      var tail := ms[1..];
      SortSorts(tail);
      forall x | x in Sort(tail) ensures x.key != ms[0].key {
        SortMember(tail, x);
        var k := IndexOf(tail, x);
        assert ms[k + 1] == x;
      }
      InsertSorts(ms[0], Sort(tail));
      forall i | 0 <= i < |Sort(ms)| ensures Utf8.IJson(Sort(ms)[i].key) {
        SortMember(ms, Sort(ms)[i]);
        var k := IndexOf(ms, Sort(ms)[i]);
      }
      SortedDistinct(Sort(ms));
    }
  }

  lemma {:induction false} SortedDistinct<T>(ms: seq<Member<T>>)
    requires Sorted(ms)
    ensures DistinctKeys(ms)
  {
    forall i, j | 0 <= i < j < |ms| ensures ms[i].key != ms[j].key {
      BeforeIrreflexive(ms[i].key);
    }
  }

  /** There is one sorted arrangement: whatever algorithm sorts, it finds this one. */
  lemma {:induction false} SortedUnique<T>(a: seq<Member<T>>, b: seq<Member<T>>)
    requires Sorted(a) && Sorted(b)
    requires forall x :: x in a <==> x in b
    ensures a == b
  {
    hide Before, Utf8.IJson;
    if a != [] { assert a[0] in a; }
    if b != [] { assert b[0] in b; }
    if a != [] && b != [] {
      assert a[0] in b && b[0] in a;
      BeforeIrreflexive(a[0].key);
      if a[0] != b[0] {
        BeforeTransitive(a[0].key, b[0].key, a[0].key);
      }
      SortedDistinct(a);
      SortedDistinct(b);
      forall x ensures x in a[1..] <==> x in b[1..] {
        TailMembers(a, x);
        TailMembers(b, x);
      }
      SortedUnique(a[1..], b[1..]);
    }
  }

  lemma {:induction false} TailMembers<T>(a: seq<Member<T>>, x: Member<T>)
    requires a != [] && DistinctKeys(a)
    ensures x in a[1..] <==> x in a && x != a[0]
  {
    if x in a && x != a[0] {
      var i :| 0 <= i < |a| && a[i] == x;
      assert a[1..][i - 1] == x;
    }
  }

  /** An already sorted object is left alone. */
  lemma {:induction false} SortIdempotent<T>(ms: seq<Member<T>>)
    requires ValidKeys(ms) && Sorted(ms)
    ensures Sort(ms) == ms
  {
    SortedDistinct(ms);
    SortSorts(ms);
    forall x ensures x in Sort(ms) <==> x in ms { SortMember(ms, x); }
    SortedUnique(Sort(ms), ms);
  }
}
