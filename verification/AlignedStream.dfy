/** Deriving a range of children in one batch, and in pieces through a stream. */
module AlignedStream {
  import opened BigEndian
  import opened ExtendedKeys
  import opened Prelude
  import opened Regroup

  const END := 0x1_0000_0000

  datatype Entry = Entry(index: Word, error: Option<Error>, publicKey: Bytes33, privateKey: Bytes32)

  const NO_PUBLIC: Bytes33 := Repeat(0, 33)

  function WithHardened(index: Word, hardened: bool): Word {
    if hardened && index < HARDENED then index + HARDENED else index
  }

  function EntryOf(index: Word, child: Result<Key>): Entry {
    match child
    case Ok(k) => Entry(index, None, k.publicKey, if k.hasPrivate then k.privateKey else NO_KEY)
    case Fail(e) => Entry(index, Some(e), NO_PUBLIC, NO_KEY)
  }

  /** The entry of one index of the range. */
  function Derived(c: Crypto, base: Key, hardened: bool, index: Word): Entry {
    EntryOf(index, DeriveChild(c, base, WithHardened(index, hardened)))
  }

  /** The entries of `n` consecutive indices, wrapping around as 32-bit numbers do. */
  function Range(c: Crypto, base: Key, hardened: bool, start: nat, n: nat): (r: seq<Entry>)
    ensures |r| == n
  {
    seq(n, i => Derived(c, base, hardened, (start + i) % END))
  }

  datatype Reply = InvalidArgument | Count(code: int)

  function Least(a: nat, b: nat): nat { if a < b then a else b }

  // ---- one batch ----

  /** `hd_aligned_derive_batch`; without a private key a hardened batch derives nothing. */
  method DeriveBatch(c: Crypto, base: Key, start: Word, count: Word, hardened: bool, results: array<Entry>) returns (r: Reply)
    requires results.Length < END
    modifies results
    ensures count == 0 ==> r == Count(0) && results[..] == old(results[..])
    ensures count > 0 && results.Length == 0 ==> r == InvalidArgument
    ensures count > 0 && results.Length > 0 ==>
              var n := Least(count, results.Length);
              r == Count(Signed32(n)) && results[..] == Range(c, base, hardened, start, n) + old(results[n..])
  {
    hide DeriveChild, Derived, Range;
    RangeNone(c, base, hardened, start);
    if count == 0 {
      return Count(0);
    }
    if results.Length == 0 {
      return InvalidArgument;
    }
    var n := Least(count, results.Length);
    var derive := !(hardened && !base.hasPrivate);
    ghost var old' := results[..];
    for i := 0 to n
      invariant results[..] == Range(c, base, hardened, start, i) + old'[i..]
    {
      var index: Word := (start + i) % END;
      Filling(c, base, hardened, start, i, results[..], old');
      DerivedIs(c, base, hardened, index);
      if derive {
        results[i] := EntryOf(index, DeriveChild(c, base, WithHardened(index, hardened)));
      } else {
        NoPrivate(c, base, index);
        results[i] := Entry(index, Some(HardenedFromPublic), NO_PUBLIC, NO_KEY);
      }
    }
    r := Count(Signed32(n));
  }

  lemma {:induction false} RangeNone(c: Crypto, base: Key, hardened: bool, start: nat)
    ensures Range(c, base, hardened, start, 0) == []
  {
  }

  lemma {:induction false} RangeAppend(c: Crypto, base: Key, hardened: bool, start: nat, i: nat)
    ensures Range(c, base, hardened, start, i + 1) == Range(c, base, hardened, start, i) + [Derived(c, base, hardened, (start + i) % END)]
  {
    hide Derived;
  }

  /** Writing the next entry extends the range in the results. */
  lemma {:induction false} Filling(c: Crypto, base: Key, hardened: bool, start: nat, i: nat, now: seq<Entry>, before: seq<Entry>)
    requires i < |before| && now == Range(c, base, hardened, start, i) + before[i..]
    ensures |now| == |before|
    ensures now[i := Derived(c, base, hardened, (start + i) % END)] == Range(c, base, hardened, start, i + 1) + before[i + 1..]
  {
    hide Derived, Range;
    RangeAppend(c, base, hardened, start, i);
    assert before[i..] == [before[i]] + before[i + 1..];
  }

  lemma {:induction false} DerivedIs(c: Crypto, base: Key, hardened: bool, index: Word)
    ensures Derived(c, base, hardened, index) == EntryOf(index, DeriveChild(c, base, WithHardened(index, hardened)))
  {
  }

  lemma {:induction false} NoPrivate(c: Crypto, base: Key, index: Word)
    requires !base.hasPrivate
    ensures Derived(c, base, true, index) == Entry(index, Some(HardenedFromPublic), NO_PUBLIC, NO_KEY)
  {
  }

  // ---- a stream ----

  /** A stream at `position`; past the last index there is nothing more. */
  datatype Stream = Stream(base: Key, position: nat, batch: nat, hardened: bool, lastError: Option<Error>)

  /** How many entries the next call writes. */
  function Taken(s: Stream, capacity: nat): nat
    requires s.position <= END
  {
    Least(Least(s.batch, capacity), END - s.position)
  }

  function LastError(before: Option<Error>, entries: seq<Entry>): Option<Error> {
    if entries == [] then before
    else if entries[|entries| - 1].error.Some? then entries[|entries| - 1].error
    else LastError(before, entries[..|entries| - 1])
  }

  function Advanced(c: Crypto, s: Stream, capacity: nat): (Stream, seq<Entry>)
    requires s.position <= END
  {
    var n := Taken(s, capacity);
    var entries := Range(c, s.base, s.hardened, s.position, n);
    (s.(position := s.position + n, lastError := LastError(s.lastError, entries)), entries)
  }

  class StreamContext {
    const base: Key
    const batchSize: nat
    const hardened: bool
    var currentIndex: Word
    var complete: bool
    var lastError: Option<Error>

    ghost predicate Valid()
      reads this
    {
      0 < batchSize < END && (complete ==> currentIndex == 0)
    }

    /** The index itself, or the end once it has wrapped around. */
    ghost function Contents(): (s: Stream)
      requires Valid()
      reads this
      ensures s.position <= END
    {
      Stream(base, if complete then END else currentIndex, batchSize, hardened, lastError)
    }

    constructor (base: Key, start: Word, batch: Word, hardened: bool)
      ensures Valid() && Contents() == Stream(base, start, if batch > 0 then batch else 100, hardened, None)
    {
      this.base := base;
      this.batchSize := if batch > 0 then batch else 100;
      this.hardened := hardened;
      currentIndex := start;
      complete := false;
      lastError := None;
    }

    /** `hd_aligned_stream_next`. */
    method Next(c: Crypto, results: array<Entry>) returns (r: Reply)
      requires Valid() && results.Length < END
      modifies this, results
      ensures Valid()
      ensures results.Length == 0 ==> r == InvalidArgument && Contents() == old(Contents())
      ensures results.Length > 0 ==>
                var (s, entries) := Advanced(c, old(Contents()), results.Length);
                && Contents() == s && r == Count(Signed32(|entries|))
                && results[..] == entries + old(results[|entries|..])
    {
      hide DeriveChild, Derived, LastError, Range, EntryOf, Signed32;
      if results.Length == 0 {
        return InvalidArgument;
      }
      if complete {
        LastNone(lastError);
        RangeNone(c, base, hardened, END);
        SignedZero();
        return Count(0);
      }
      var n := Fill(c, results, Least(batchSize, results.Length));
      r := Count(Signed32(n));
    }

    /** Writes up to `count` entries, and stops where the index wraps around. */
    method Fill(c: Crypto, results: array<Entry>, count: nat) returns (n: nat)
      requires Valid() && !complete && count <= results.Length
      modifies this, results
      ensures Valid() && n == Least(count, END - old(currentIndex))
      ensures results[..] == Range(c, base, hardened, old(currentIndex), n) + old(results[n..])
      ensures lastError == LastError(old(lastError), Range(c, base, hardened, old(currentIndex), n))
      ensures (if complete then END else currentIndex) == old(currentIndex) + n
    {
      hide DeriveChild, Derived, LastError, Range, EntryOf, Filled;
      ghost var start, e, was := currentIndex, lastError, results[..];
      FilledNone(c, base, hardened, start, e, was);
      for i := 0 to count
        invariant Valid() && !complete && currentIndex == start + i
        invariant Filled(c, base, hardened, start, i, e, was, results[..], lastError)
      {
        FilledNext(c, base, hardened, start, i, e, was, results[..], lastError);
        Emit(c, results, i);
        if currentIndex == 0 {
          complete := true;
          FilledIs(c, base, hardened, start, i + 1, e, was, results[..], lastError);
          return i + 1;
        }
      }
      n := count;
      FilledIs(c, base, hardened, start, n, e, was, results[..], lastError);
    }

    /** One turn of the loop. */
    method Emit(c: Crypto, results: array<Entry>, i: nat)
      requires Valid() && i < results.Length
      modifies this`currentIndex, this`lastError, results
      ensures var entry := Derived(c, base, hardened, old(currentIndex));
              && results[..] == old(results[..])[i := entry]
              && lastError == (if entry.error.Some? then entry.error else old(lastError))
              && currentIndex == (old(currentIndex) + 1) % END
    {
      hide DeriveChild;
      var entry := EntryOf(currentIndex, DeriveChild(c, base, WithHardened(currentIndex, hardened)));
      results[i] := entry;
      if entry.error.Some? {
        lastError := entry.error;
      }
      currentIndex := (currentIndex + 1) % END;
    }
  }

  lemma {:induction false} SignedZero()
    ensures Signed32(0) == 0
  {
  }

  lemma {:induction false} LastNone(e: Option<Error>)
    ensures LastError(e, []) == e
  {
  }

  /** One more entry of a range, and the error it leaves. */
  lemma {:induction false} RangeNext(c: Crypto, base: Key, hardened: bool, start: nat, i: nat, e: Option<Error>)
    requires start + i < END
    ensures var entry := Derived(c, base, hardened, start + i);
            && Range(c, base, hardened, start, i + 1) == Range(c, base, hardened, start, i) + [entry]
            && LastError(e, Range(c, base, hardened, start, i + 1))
               == if entry.error.Some? then entry.error else LastError(e, Range(c, base, hardened, start, i))
  {
    hide Derived, Range;
    RangeAppend(c, base, hardened, start, i);
    var r := Range(c, base, hardened, start, i + 1);
    assert r[..i] == Range(c, base, hardened, start, i);
  }

  /** The results and the error after `i` entries. */
  predicate Filled(c: Crypto, base: Key, hardened: bool, start: nat, i: nat, e: Option<Error>, was: seq<Entry>, now: seq<Entry>, last: Option<Error>) {
    i <= |was| && now == Range(c, base, hardened, start, i) + was[i..] && last == LastError(e, Range(c, base, hardened, start, i))
  }

  lemma {:induction false} FilledNone(c: Crypto, base: Key, hardened: bool, start: nat, e: Option<Error>, was: seq<Entry>)
    ensures Filled(c, base, hardened, start, 0, e, was, was, e)
  {
    hide Range, LastError;
    RangeNone(c, base, hardened, start);
    LastNone(e);
    assert [] + was[0..] == was;
  }

  lemma {:induction false} FilledNext(c: Crypto, base: Key, hardened: bool, start: nat, i: nat, e: Option<Error>, was: seq<Entry>, now: seq<Entry>, last: Option<Error>)
    requires Filled(c, base, hardened, start, i, e, was, now, last) && i < |was| && start + i < END
    ensures |now| == |was|
    ensures var entry := Derived(c, base, hardened, start + i);
            Filled(c, base, hardened, start, i + 1, e, was, now[i := entry], if entry.error.Some? then entry.error else last)
  {
    hide Derived, Range, LastError;
    RangeNext(c, base, hardened, start, i, e);
    Filling(c, base, hardened, start, i, now, was);
  }

  lemma {:induction false} FilledIs(c: Crypto, base: Key, hardened: bool, start: nat, i: nat, e: Option<Error>, was: seq<Entry>, now: seq<Entry>, last: Option<Error>)
    requires Filled(c, base, hardened, start, i, e, was, now, last)
    ensures i <= |was| && now == Range(c, base, hardened, start, i) + was[i..] && last == LastError(e, Range(c, base, hardened, start, i))
  {
  }

  // ---- streaming equals batch ----

  /** The entries of successive calls, each with its own capacity. */
  function Emitted(c: Crypto, s: Stream, capacities: seq<nat>): seq<Entry>
    requires s.position <= END
    decreases |capacities|
  {
    if capacities == [] then []
    else
      var (next, entries) := Advanced(c, s, capacities[0]);
      entries + Emitted(c, next, capacities[1..])
  }

  function Total(batch: nat, capacities: seq<nat>): nat
    decreases |capacities|
  {
    if capacities == [] then 0 else Least(batch, capacities[0]) + Total(batch, capacities[1..])
  }

  lemma {:induction false} RangeSplit(c: Crypto, base: Key, hardened: bool, start: nat, m: nat, n: nat)
    requires start + m + n <= END
    ensures Range(c, base, hardened, start, m + n) == Range(c, base, hardened, start, m) + Range(c, base, hardened, start + m, n)
  {
    hide Derived;
  }

  /** Whatever the capacities, the concatenated entries are those of one batch over the same
      range: no index is skipped or repeated, and none follows 2^32 - 1. */
  lemma {:induction false} StreamIsBatch(c: Crypto, s: Stream, capacities: seq<nat>)
    requires s.position <= END
    ensures Emitted(c, s, capacities) == Range(c, s.base, s.hardened, s.position, Least(Total(s.batch, capacities), END - s.position))
    decreases |capacities|
  {
    hide Range, LastError;
    if capacities == [] {
      RangeNone(c, s.base, s.hardened, s.position);
    } else {
      var (next, entries) := Advanced(c, s, capacities[0]);
      StreamIsBatch(c, next, capacities[1..]);
      var rest := Least(Total(s.batch, capacities[1..]), END - next.position);
      RangeSplit(c, s.base, s.hardened, s.position, |entries|, rest);
    }
  }

  /** A stream gives what one batch of as many entries gives exactly as long as the range ends by
      index 2^32 - 1: past it the batch goes on at index 0, and the stream has ended. */
  lemma {:induction false} StreamMeetsBatch(c: Crypto, s: Stream, capacities: seq<nat>)
    requires s.position <= END
    ensures Emitted(c, s, capacities) == Range(c, s.base, s.hardened, s.position, Total(s.batch, capacities))
            <==> s.position + Total(s.batch, capacities) <= END
  {
    hide Emitted, Range, Total;
    StreamIsBatch(c, s, capacities);
  }

  /** The indices of a stream are consecutive from its start. */
  lemma {:induction false} StreamIndices(c: Crypto, s: Stream, capacities: seq<nat>, k: nat)
    requires s.position <= END && k < |Emitted(c, s, capacities)|
    ensures s.position + k < END && Emitted(c, s, capacities)[k].index == s.position + k
  {
    hide Emitted, Range;
    StreamIsBatch(c, s, capacities);
    RangeIndex(c, s.base, s.hardened, s.position, |Emitted(c, s, capacities)|, k);
  }

  lemma {:induction false} RangeIndex(c: Crypto, base: Key, hardened: bool, start: nat, n: nat, k: nat)
    requires k < n && start + k < END
    ensures Range(c, base, hardened, start, n)[k].index == start + k
  {
    hide DeriveChild, Derived;
    assert Range(c, base, hardened, start, n)[k] == Derived(c, base, hardened, (start + k) % END);
    DerivedIs(c, base, hardened, start + k);
  }

  // ---- what an entry holds ----

  /** The entry reports the derivation of its index, with the hardened bit when the range is
      hardened: the keys of the child, or its error and zeros. */
  predicate Reports(c: Crypto, base: Key, hardened: bool, e: Entry) {
    match Walk(c, base, [Component(e.index, hardened)])
    case Ok(k) => e.error == None && e.publicKey == k.publicKey && e.privateKey == (if k.hasPrivate then k.privateKey else Repeat(0, 32))
    case Fail(error) => e.error == Some(error) && e.publicKey == Repeat(0, 33) && e.privateKey == Repeat(0, 32)
  }

  lemma {:induction false} DerivedReports(c: Crypto, base: Key, hardened: bool, index: Word)
    ensures Derived(c, base, hardened, index).index == index && Reports(c, base, hardened, Derived(c, base, hardened, index))
  {
    hide DeriveChild, Walk;
    OneStep(c, base, Component(index, hardened));
    assert WithHardened(index, hardened) == FullIndex(Component(index, hardened));
  }

  /** Entry `k` of a batch is that of the index `k` after the first, as 32-bit numbers count. */
  lemma {:induction false} BatchEntries(c: Crypto, base: Key, hardened: bool, start: nat, n: nat, k: nat)
    requires k < n
    ensures |Range(c, base, hardened, start, n)| == n
    ensures var e := Range(c, base, hardened, start, n)[k];
            e.index == (start + k) % 0x1_0000_0000 && Reports(c, base, hardened, e)
  {
    hide Derived, Reports;
    DerivedReports(c, base, hardened, (start + k) % END);
  }

  /** Entry `k` of a stream is that of the index `k` after the first; and the stream gives one entry
      for each that is asked for, up to the last index. */
  lemma {:induction false} StreamEntries(c: Crypto, s: Stream, capacities: seq<nat>, k: nat)
    requires s.position <= END
    ensures |Emitted(c, s, capacities)| == Least(Total(s.batch, capacities), 0x1_0000_0000 - s.position)
    ensures k < |Emitted(c, s, capacities)| ==>
              var e := Emitted(c, s, capacities)[k];
              e.index == s.position + k && Reports(c, s.base, s.hardened, e)
  {
    hide Emitted, Range, Reports, Total;
    StreamIsBatch(c, s, capacities);
    if k < |Emitted(c, s, capacities)| {
      BatchEntries(c, s.base, s.hardened, s.position, |Emitted(c, s, capacities)|, k);
    }
  }

  /** The error a stream remembers is that of the last entry that had one, or the one before. */
  lemma {:induction false} LastErrorIs(before: Option<Error>, entries: seq<Entry>, k: nat)
    requires k <= |entries| && (k > 0 ==> entries[k - 1].error.Some?)
    requires forall i :: k <= i < |entries| ==> entries[i].error == None
    ensures LastError(before, entries) == if k == 0 then before else entries[k - 1].error
    decreases |entries|
  {
    if k < |entries| {
      LastErrorIs(before, entries[..|entries| - 1], k);
    }
  }
}
