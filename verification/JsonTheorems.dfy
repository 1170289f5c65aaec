/** What the canonical form promises: it round-trips, it is unique, and it forgets member order. */
module JsonTheorems {
  import opened Prelude
  import opened KeyOrder
  import Utf8
  import opened Decimals
  import opened Json
  import opened JsonWriter
  import opened JsonReader
  import opened JsonGrammar
  import opened JsonLanguage
  import opened JsonRoundTrip

  // ---- round trip ----

  /** Whatever serializes under some limits parses back under the same limits, to the same
      value with its members in order, spending the same number of values and bytes. */
  lemma {:induction false} RoundTrip(lib: FloatLibrary, limits: Limits, v: Value)
    requires Lawful(lib) && Serialize(lib, limits, v).Wrote?
    ensures Serialize(lib, limits, v) == Wrote(Text(lib, v), Tokens(v))
    ensures Parse(lib, limits, Text(lib, v)) == Done(Canon(v), |Text(lib, v)|, Tokens(v))
  {
    hide Lawful, Text, Clean, Tokens, Depth, Canon, TreeText, TreeValue, ValidTree, Write, Parse;
    WriteIff(lib, limits, v, 1, [], 0);
    var s := Text(lib, v);
    assert [] + s == s && [] + (s + []) == s;
    CanonKeeps(lib, limits, v);
    var t := CanonicalTree(lib, limits, v);
    SpellsParses(lib, limits, s, [], t, []);
  }

  /** Whatever the parser accepts, from any text, is a value the serializer writes under the same
      limits, unless its canonical text is too long: the depth, the values and the strings counted
      on the two sides are the same. */
  lemma {:induction false} ParsedSerializes(lib: FloatLibrary, limits: Limits, s: Bytes)
    requires Parse(lib, limits, s).Done?
    ensures var r := Parse(lib, limits, s);
            && Clean(limits, r.value) && r.tokens == Tokens(r.value) <= limits.maxTokens && Depth(r.value) <= limits.maxDepth
            && |s| <= limits.maxBytes
            && (Serialize(lib, limits, r.value).Wrote? <==> |Text(lib, r.value)| <= limits.maxBytes)
  {
    hide Text, Clean, Tokens, Depth, TreeText, TreeValue, ValidTree, Write, Parse;
    var before, t, after := ParsesSpells(lib, limits, s);
    WriteIff(lib, limits, TreeValue(lib, t), 1, [], 0);
  }

  /** The two sides enforce the same limits: under any limits, the parser admits a canonical text
      exactly when the serializer writes it. */
  lemma {:induction false} LimitsAgree(lib: FloatLibrary, wide: Limits, limits: Limits, v: Value)
    requires Lawful(lib) && Serialize(lib, wide, v).Wrote?
    ensures Parse(lib, limits, Text(lib, v)).Done? <==> Serialize(lib, limits, Canon(v)).Wrote?
    ensures Parse(lib, limits, Text(lib, v)).Done? ==> Parse(lib, limits, Text(lib, v)).value == Canon(v)
    ensures Serialize(lib, limits, Canon(v)).Wrote? ==> Serialize(lib, limits, Canon(v)).output == Text(lib, v)
  {
    hide Lawful, Text, Clean, Tokens, Depth, Canon, Write, Parse;
    RoundTrip(lib, wide, v);
    WriteIff(lib, wide, v, 1, [], 0);
    CanonKeeps(lib, wide, v);
    LimitsIff(lib, wide, limits, Text(lib, v));
    WriteIff(lib, limits, Canon(v), 1, [], 0);
    assert [] + Text(lib, v) == Text(lib, v);
  }

  /** Every serializer output is accepted as canonical, and denotes the canonical value. */
  lemma {:induction false} ExactAccepts(lib: FloatLibrary, limits: Limits, v: Value)
    requires Lawful(lib) && Serialize(lib, limits, v).Wrote?
    ensures ParseExact(lib, limits, Text(lib, v)) == Done(Canon(v), |Text(lib, v)|, Tokens(v))
  {
    hide Lawful, Text, Clean, Tokens, Depth, Canon, Parse, Write;
    RoundTrip(lib, limits, v);
    WriteIff(lib, limits, v, 1, [], 0);
    CanonKeeps(lib, limits, v);
    WriteIff(lib, limits, Canon(v), 1, [], 0);
    assert [] + Text(lib, v) == Text(lib, v);
  }

  /** parse_exact_jcs accepts exactly the serializer's outputs. */
  lemma {:induction false} ExactIff(lib: FloatLibrary, limits: Limits, s: Bytes)
    requires Lawful(lib)
    ensures ParseExact(lib, limits, s).Done? <==>
              exists v :: Serialize(lib, limits, v).Wrote? && Serialize(lib, limits, v).output == s
  {
    hide Lawful, Text, Write, Canon, Parse;
    if ParseExact(lib, limits, s).Done? {
      var v := Parse(lib, limits, s).value;
      assert Serialize(lib, limits, v).Wrote? && Serialize(lib, limits, v).output == s;
    }
    if v :| Serialize(lib, limits, v).Wrote? && Serialize(lib, limits, v).output == s {
      ExactAccepts(lib, limits, v);
      RoundTrip(lib, limits, v);
    }
  }

  // ---- member order ----

  /** `p` and `q` are inverse permutations of the first `n` indices. */
  predicate Inverse(p: seq<nat>, q: seq<nat>, n: nat) {
    && |p| == |q| == n
    && (forall i :: 0 <= i < n ==> p[i] < n && q[p[i]] == i)
    && (forall j :: 0 <= j < n ==> q[j] < n && p[q[j]] == j)
  }

  /** Two values differ at most in the order of members, at any depth. */
  ghost predicate SameButOrder(v: Value, w: Value)
    decreases v
  {
    match v
    case Array(items) => w.Array? && SameItems(items, w.items)
    case Object(ms) =>
      && w.Object? && |w.members| == |ms|
      && exists p, q :: Inverse(p, q, |ms|) && Paired(ms, w.members, p)
    case _ => v == w
  }

  ghost predicate SameItems(vs: seq<Value>, ws: seq<Value>)
    decreases vs
  {
    |ws| == |vs| && forall i :: 0 <= i < |vs| ==> SameButOrder(vs[i], ws[i])
  }

  /** Member `i` of `ms` corresponds to member `p[i]` of `ns`. */
  ghost predicate Paired(ms: seq<Member<Value>>, ns: seq<Member<Value>>, p: seq<nat>)
    decreases ms
  {
    && |p| == |ms|
    && forall i :: 0 <= i < |ms| ==>
         p[i] < |ns| && ms[i].key == ns[p[i]].key && SameButOrder(ms[i].value, ns[p[i]].value)
  }

  lemma {:induction false} SameSymmetric(v: Value, w: Value)
    requires SameButOrder(v, w)
    ensures SameButOrder(w, v)
    decreases v
  {
    match v {
      case Array(items) =>
        forall i | 0 <= i < |items| ensures SameButOrder(w.items[i], items[i]) {
          SameSymmetric(items[i], w.items[i]);
        }
      case Object(ms) =>
        var p, q :| Inverse(p, q, |ms|) && Paired(ms, w.members, p);
        PairedSymmetric(ms, w.members, p, q);
        assert Inverse(q, p, |ms|);
      case _ =>
    }
  }

  lemma {:induction false} PairedSymmetric(ms: seq<Member<Value>>, ns: seq<Member<Value>>, p: seq<nat>, q: seq<nat>)
    requires |ms| == |ns| && Inverse(p, q, |ms|) && Paired(ms, ns, p)
    ensures Paired(ns, ms, q)
    decreases ms
  {
    forall j | 0 <= j < |ns|
      ensures q[j] < |ms| && ns[j].key == ms[q[j]].key && SameButOrder(ns[j].value, ms[q[j]].value)
    {
      SameSymmetric(ms[q[j]].value, ns[p[q[j]]].value);
    }
  }

  // Reordering keeps a value serializable.

  lemma {:induction false} SameClean(limits: Limits, v: Value, w: Value)
    requires SameButOrder(v, w) && Clean(limits, v)
    ensures Clean(limits, w)
    decreases v
  {
    match v {
      case Array(items) =>
        hide CleanAll;
        CleanAllIff(limits, items);
        CleanAllIff(limits, w.items);
        forall i | 0 <= i < |items| ensures Clean(limits, w.items[i]) {
          SameClean(limits, items[i], w.items[i]);
        }
      case Object(ms) =>
        hide CleanMembers;
        var p, q :| Inverse(p, q, |ms|) && Paired(ms, w.members, p);
        PairedClean(limits, ms, w.members, p, q);
      case _ =>
    }
  }

  lemma {:induction false} PairedClean(limits: Limits, ms: seq<Member<Value>>, ns: seq<Member<Value>>, p: seq<nat>, q: seq<nat>)
    requires |ms| == |ns| && Inverse(p, q, |ms|) && Paired(ms, ns, p)
    requires DistinctKeys(ms) && CleanMembers(limits, ms)
    ensures DistinctKeys(ns) && CleanMembers(limits, ns)
    decreases ms
  {
    hide CleanMembers, CleanString;
    CleanMembersIff(limits, ms);
    CleanMembersIff(limits, ns);
    forall j | 0 <= j < |ns| ensures CleanString(limits, ns[j].key) && Clean(limits, ns[j].value) {
      assert p[q[j]] == j;
      SameClean(limits, ms[q[j]].value, ns[j].value);
    }
    forall i, j | 0 <= i < j < |ns| ensures ns[i].key != ns[j].key {
      assert p[q[i]] == i && p[q[j]] == j;
      assert ms[q[i]].key != ms[q[j]].key;
    }
  }

  lemma {:induction false} CleanAllIff(limits: Limits, vs: seq<Value>)
    ensures CleanAll(limits, vs) <==> forall i :: 0 <= i < |vs| ==> Clean(limits, vs[i])
  {
    hide Clean;
    if vs != [] {
      CleanAllIff(limits, vs[1..]);
      assert forall i :: 1 <= i < |vs| ==> vs[i] == vs[1..][i - 1];
    }
  }

  lemma {:induction false} CleanMembersIff(limits: Limits, ms: seq<Member<Value>>)
    ensures CleanMembers(limits, ms) <==>
              forall i :: 0 <= i < |ms| ==> CleanString(limits, ms[i].key) && Clean(limits, ms[i].value)
  {
    hide Clean, CleanString;
    if ms != [] {
      CleanMembersIff(limits, ms[1..]);
      assert forall i :: 1 <= i < |ms| ==> ms[i] == ms[1..][i - 1];
    }
  }

  /** Values that differ only in member order have one canonical value. */
  lemma {:induction false} SameCanon(limits: Limits, v: Value, w: Value)
    requires SameButOrder(v, w) && Clean(limits, v) && Clean(limits, w)
    ensures Canon(v) == Canon(w)
    decreases v
  {
    match v {
      case Array(items) =>
        hide CleanAll;
        CleanAllIff(limits, items);
        CleanAllIff(limits, w.items);
        CanonAllAt(items);
        CanonAllAt(w.items);
        forall i | 0 <= i < |items| ensures Canon(items[i]) == Canon(w.items[i]) {
          SameCanon(limits, items[i], w.items[i]);
        }
        assert CanonAll(items) == CanonAll(w.items);
      case Object(ms) =>
        hide CleanMembers;
        var p, q :| Inverse(p, q, |ms|) && Paired(ms, w.members, p);
        PairedCanon(limits, ms, w.members, p, q);
      case _ =>
    }
  }

  lemma {:induction false} CanonAllAt(vs: seq<Value>)
    ensures forall i :: 0 <= i < |vs| ==> CanonAll(vs)[i] == Canon(vs[i])
  {
    hide Canon;
    if vs != [] {
      CanonAllAt(vs[1..]);
    }
  }

  lemma {:induction false} CanonMemberAt(ms: seq<Member<Value>>, i: nat)
    requires i < |ms|
    ensures CanonMembers(ms)[i] == Member(ms[i].key, Canon(ms[i].value))
  {
    hide Canon;
    if i > 0 {
      CanonMemberAt(ms[1..], i - 1);
    }
  }

  lemma {:induction false} PairedCanon(limits: Limits, ms: seq<Member<Value>>, ns: seq<Member<Value>>, p: seq<nat>, q: seq<nat>)
    requires |ms| == |ns| && Inverse(p, q, |ms|) && Paired(ms, ns, p)
    requires DistinctKeys(ms) && CleanMembers(limits, ms) && DistinctKeys(ns) && CleanMembers(limits, ns)
    ensures Sort(CanonMembers(ms)) == Sort(CanonMembers(ns))
    decreases ms
  {
    hide CleanMembers, CleanString, Sort, CanonMembers, Sorted;
    var a, b := CanonMembers(ms), CanonMembers(ns);
    CleanMembersIff(limits, ms);
    CleanMembersIff(limits, ns);
    CanonValid(limits, ms);
    CanonValid(limits, ns);
    SortSorts(a);
    SortSorts(b);
    forall i | 0 <= i < |ms| ensures a[i] == b[p[i]] {
      SameCanon(limits, ms[i].value, ns[p[i]].value);
      CanonMemberAt(ms, i);
      CanonMemberAt(ns, p[i]);
    }
    forall x ensures x in Sort(a) <==> x in Sort(b) {
      SortMember(a, x);
      SortMember(b, x);
      SameElements(a, b, p, q, x);
    }
    SortedUnique(Sort(a), Sort(b));
  }

  lemma {:induction false} CanonValid(limits: Limits, ms: seq<Member<Value>>)
    requires DistinctKeys(ms) && CleanMembers(limits, ms)
    ensures DistinctKeys(CanonMembers(ms)) && ValidKeys(CanonMembers(ms))
  {
    hide CanonMembers;
    CleanMembersKeys(limits, ms);
  }

  lemma {:induction false} SameElements<T>(a: seq<Member<T>>, b: seq<Member<T>>, p: seq<nat>, q: seq<nat>, x: Member<T>)
    requires |a| == |b| && Inverse(p, q, |a|) && forall i :: 0 <= i < |a| ==> a[i] == b[p[i]]
    ensures x in a <==> x in b
  {
    if x in a {
      var i := IndexOf(a, x);
      assert b[p[i]] == x;
    }
    if x in b {
      var j := IndexOf(b, x);
      assert a[q[j]] == b[p[q[j]]] == x;
    }
  }

  /** Permuting members, at any depth, changes neither whether a value serializes nor the text. */
  lemma {:induction false} OrderDoesNotMatter(lib: FloatLibrary, limits: Limits, v: Value, w: Value)
    requires SameButOrder(v, w)
    ensures Serialize(lib, limits, v).Wrote? <==> Serialize(lib, limits, w).Wrote?
    ensures Serialize(lib, limits, v).Wrote? ==> Serialize(lib, limits, v) == Serialize(lib, limits, w)
  {
    hide SameButOrder, Write, Canon, Clean, Text, Tokens, Depth;
    WriteIff(lib, limits, v, 1, [], 0);
    WriteIff(lib, limits, w, 1, [], 0);
    if Clean(limits, v) {
      SameClean(limits, v, w);
    }
    if Clean(limits, w) {
      SameSymmetric(v, w);
      SameClean(limits, w, v);
      SameCanon(limits, v, w);
      CanonKeeps(lib, limits, v);
      CanonKeeps(lib, limits, w);
    }
  }

  /** Two accepted byte strings whose values differ only in member order are the same string. */
  lemma {:induction false} CanonicalIsUnique(lib: FloatLibrary, limits: Limits, a: Bytes, b: Bytes)
    requires Lawful(lib)
    requires ParseExact(lib, limits, a).Done? && ParseExact(lib, limits, b).Done?
    requires SameButOrder(ParseExact(lib, limits, a).value, ParseExact(lib, limits, b).value)
    ensures a == b
  {
    hide Lawful, SameButOrder, Write, Parse;
    OrderDoesNotMatter(lib, limits, ParseExact(lib, limits, a).value, ParseExact(lib, limits, b).value);
  }

  // ---- what is written ----

  /** The value with every -0 read as 0. */
  function PlainZeroes(v: Value): Value
    decreases v
  {
    match v
    case Number(n) => Number(if n == Finite(true, 0) then Finite(false, 0) else n)
    case Array(items) => Array(seq(|items|, i requires 0 <= i < |items| => PlainZeroes(items[i])))
    case Object(ms) => Object(seq(|ms|, i requires 0 <= i < |ms| => Member(ms[i].key, PlainZeroes(ms[i].value))))
    case _ => v
  }

  /** Where in `ms` a member is. */
  ghost function Place<T>(ms: seq<Member<T>>, x: Member<T>): (i: nat)
    requires x in ms
    ensures i < |ms| && ms[i] == x
  {
    var i :| 0 <= i < |ms| && ms[i] == x;
    i
  }

  lemma {:induction false} SortPermutes<T>(ms: seq<Member<T>>) returns (p: seq<nat>, q: seq<nat>)
    requires ValidKeys(ms) && DistinctKeys(ms)
    ensures Inverse(p, q, |ms|) && |Sort(ms)| == |ms| && forall i :: 0 <= i < |ms| ==> ms[i] == Sort(ms)[p[i]]
  {
    hide Sort, ValidKeys;
    var sorted := Sort(ms);
    SortSorts(ms);
    forall i | 0 <= i < |ms| ensures ms[i] in sorted { SortMember(ms, ms[i]); }
    p := seq(|ms|, i requires 0 <= i < |ms| => Place(sorted, ms[i]));
    forall j | 0 <= j < |ms| ensures sorted[j] in ms { SortMember(ms, sorted[j]); }
    q := seq(|ms|, j requires 0 <= j < |ms| => Place(ms, sorted[j]));
  }

  /** The canonical value is the value with -0 read as 0, up to the order of members. */
  lemma {:induction false} CanonSame(limits: Limits, v: Value)
    requires Clean(limits, v)
    ensures SameButOrder(PlainZeroes(v), Canon(v))
    decreases v
  {
    match v {
      case Array(items) =>
        hide CleanAll;
        CleanAllIff(limits, items);
        CanonAllAt(items);
        forall i | 0 <= i < |items| ensures SameButOrder(PlainZeroes(items[i]), CanonAll(items)[i]) {
          CanonSame(limits, items[i]);
        }
      case Object(ms) => CanonObjectSame(limits, ms);
      case _ =>
    }
  }

  lemma {:induction false} CanonObjectSame(limits: Limits, ms: seq<Member<Value>>)
    requires DistinctKeys(ms) && CleanMembers(limits, ms)
    ensures SameButOrder(PlainZeroes(Object(ms)), Canon(Object(ms)))
    decreases ms
  {
    hide CleanMembers, CleanString, Sort, CanonMembers;
    CleanMembersIff(limits, ms);
    CanonValid(limits, ms);
    var p, q := SortPermutes(CanonMembers(ms));
    var plain := PlainZeroes(Object(ms)).members;
    forall i | 0 <= i < |ms| ensures SameButOrder(plain[i].value, CanonMembers(ms)[i].value) {
      CanonSame(limits, ms[i].value);
      CanonMemberAt(ms, i);
    }
    assert Paired(plain, Sort(CanonMembers(ms)), p);
  }

  /** What is written is the text of a syntax tree that stands for the value, -0 read as 0 and members
      reordered, has no white space, and names the members of every object strictly in order. */
  lemma {:induction false} WrittenMeans(lib: FloatLibrary, limits: Limits, v: Value) returns (t: Tree)
    requires Lawful(lib) && Serialize(lib, limits, v).Wrote?
    ensures ValidTree(t) && Minimal(t) && TreeText(t) == Serialize(lib, limits, v).output
    ensures SameButOrder(PlainZeroes(v), TreeValue(lib, t))
  {
    hide Lawful, Text, Clean, Tokens, Depth, Canon, Write, TreeText, TreeValue, ValidTree, Minimal, SameButOrder, PlainZeroes;
    WriteIff(lib, limits, v, 1, [], 0);
    assert [] + Text(lib, v) == Text(lib, v);
    t := CanonicalTree(lib, limits, v);
    CanonSame(limits, v);
  }
}
