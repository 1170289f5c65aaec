/**
 The identity handle table: sixteen slots, each with a generation that is part of the
 handle.  Destroying a record raises the generation of its slot, and a slot at the last
 generation is retired instead.
 */
module HandleTable {
  import opened Prelude

  const SLOTS := 16
  const LAST_GENERATION := 0xFFFF_FFFF

  type Handle = x: int | 0 <= x < 0x1_0000_0000_0000_0000

  datatype Slot<+R> = Slot(generation: nat, retired: bool, record: Option<R>)

  function HandleOf(generation: nat, i: nat): Handle
    requires 1 <= generation <= LAST_GENERATION && i < SLOTS
  {
    generation * 0x1_0000_0000 + (i + 1)
  }

  function SlotNumber(h: Handle): nat { h % 0x1_0000_0000 }

  function Generation(h: Handle): nat { h / 0x1_0000_0000 }

  lemma {:induction false} HandleParts(generation: nat, i: nat)
    requires 1 <= generation <= LAST_GENERATION && i < SLOTS
    ensures SlotNumber(HandleOf(generation, i)) == i + 1 && Generation(HandleOf(generation, i)) == generation
  {
  }

  // ---- specification, on the contents of the slots ----

  predicate Wellformed<R>(s: seq<Slot<R>>) {
    && |s| == SLOTS
    && forall i :: 0 <= i < SLOTS ==> 1 <= s[i].generation <= LAST_GENERATION && (s[i].retired ==> s[i].record == None && s[i].generation == LAST_GENERATION)
  }

  predicate Free<R>(slot: Slot<R>) { !slot.retired && slot.record == None }

  /** The first free slot, or the number of slots. */
  function FirstFree<R>(s: seq<Slot<R>>): (i: nat)
    ensures i <= |s| && (forall k :: 0 <= k < i ==> !Free(s[k])) && (i < |s| ==> Free(s[i]))
  {
    if s == [] || Free(s[0]) then 0 else 1 + FirstFree(s[1..])
  }

  function Inserted<R>(s: seq<Slot<R>>, record: R): (r: (seq<Slot<R>>, Option<Handle>))
    requires Wellformed(s)
    ensures Wellformed(r.0)
  {
    var i := FirstFree(s);
    if i == SLOTS then (s, None)
    else (s[i := s[i].(record := Some(record))], Some(HandleOf(s[i].generation, i)))
  }

  /** The slot a handle names, if the handle is current and the slot holds a record. */
  function Resolve<R>(s: seq<Slot<R>>, h: Handle): (i: Option<nat>)
    requires Wellformed(s)
    ensures i.Some? ==> i.value < SLOTS && s[i.value].record.Some?
  {
    var number := SlotNumber(h);
    if Generation(h) == 0 || number == 0 || number > SLOTS then None
    else
      var slot := s[number - 1];
      if slot.retired || slot.generation != Generation(h) || slot.record == None then None else Some(number - 1)
  }

  function Lookup<R>(s: seq<Slot<R>>, h: Handle): Option<R>
    requires Wellformed(s)
  {
    match Resolve(s, h)
    case None => None
    case Some(i) => s[i].record
  }

  function Emptied<R>(slot: Slot<R>): Slot<R> {
    if slot.generation == LAST_GENERATION then Slot(slot.generation, true, None)
    else Slot(slot.generation + 1, slot.retired, None)
  }

  function Destroyed<R>(s: seq<Slot<R>>, h: Handle): (r: seq<Slot<R>>)
    requires Wellformed(s)
    ensures Wellformed(r)
  {
    match Resolve(s, h)
    case None => s
    case Some(i) => s[i := Emptied(s[i])]
  }

  // ---- the table ----

  class Table<R> {
    const slots: array<Slot<R>>

    ghost predicate Valid()
      reads this, slots
    {
      Wellformed(slots[..])
    }

    constructor ()
      ensures Valid() && fresh(slots)
      ensures forall i :: 0 <= i < SLOTS ==> slots[..][i] == Slot(1, false, None)
    {
      slots := new Slot<R>[SLOTS](_ => Slot(1, false, None));
    }

    method Insert(record: R) returns (r: Option<Handle>)
      requires Valid()
      modifies slots
      ensures Valid()
      ensures (slots[..], r) == Inserted(old(slots[..]), record)
    {
      for i := 0 to SLOTS
        invariant slots[..] == old(slots[..])
        invariant forall k :: 0 <= k < i ==> !Free(slots[k])
      {
        if !slots[i].retired && slots[i].record.None? {
          FirstFreeIs(slots[..], i);
          slots[i] := slots[i].(record := Some(record));
          return Some(HandleOf(slots[i].generation, i));
        }
      }
      FirstFreeIs(slots[..], SLOTS);
      r := None;
    }

    method Find(h: Handle) returns (r: Option<R>)
      requires Valid()
      ensures r == Lookup(slots[..], h)
    {
      var number, generation := SlotNumber(h), Generation(h);
      if generation == 0 || number == 0 || number > SLOTS {
        return None;
      }
      var slot := slots[number - 1];
      if slot.retired || slot.generation != generation || slot.record.None? {
        return None;
      }
      r := slot.record;
    }

    method Destroy(h: Handle)
      requires Valid()
      modifies slots
      ensures Valid()
      ensures slots[..] == Destroyed(old(slots[..]), h)
    {
      var number, generation := SlotNumber(h), Generation(h);
      if generation == 0 || number == 0 || number > SLOTS {
        return;
      }
      var slot := slots[number - 1];
      if slot.retired || slot.generation != generation || slot.record.None? {
        return;
      }
      slot := slot.(record := None);
      if slot.generation == LAST_GENERATION {
        slot := slot.(retired := true);
      } else {
        slot := slot.(generation := slot.generation + 1);
      }
      slots[number - 1] := slot;
    }
  }

  lemma {:induction false} FirstFreeIs<R>(s: seq<Slot<R>>, i: nat)
    requires i <= |s| && (forall k :: 0 <= k < i ==> !Free(s[k])) && (i < |s| ==> Free(s[i]))
    ensures FirstFree(s) == i
  {
  }

  // ---- whole runs ----

  datatype Operation<R> = Insert(record: R) | Destroy(handle: Handle)

  /** The slots after a run, with every handle issued in it and the records still held:
      those inserted and not destroyed since. */
  datatype Run<R> = Run(slots: seq<Slot<R>>, issued: seq<Handle>, live: map<Handle, R>)

  function Start<R>(): Run<R> {
    Run(seq(SLOTS, _ => Slot(1, false, None)), [], map[])
  }

  function Next<R>(run: Run<R>, op: Operation<R>): (r: Run<R>)
    requires Wellformed(run.slots)
    ensures Wellformed(r.slots)
  {
    match op
    case Insert(record) =>
      (match Inserted(run.slots, record)
       case (slots, None) => run.(slots := slots)
       case (slots, Some(h)) => Run(slots, run.issued + [h], run.live[h := record]))
    case Destroy(h) => Run(Destroyed(run.slots, h), run.issued, run.live - {h})
  }

  function After<R>(ops: seq<Operation<R>>): (r: Run<R>)
    ensures Wellformed(r.slots)
  {
    if ops == [] then Start() else Next(After(ops[..|ops| - 1]), ops[|ops| - 1])
  }

  /** A handle issued before: its slot is at its generation and occupied, or past it. */
  predicate Issued<R>(s: seq<Slot<R>>, h: Handle)
    requires Wellformed(s)
  {
    && 1 <= SlotNumber(h) <= SLOTS && 1 <= Generation(h)
    && (Generation(h) < s[SlotNumber(h) - 1].generation
        || (Generation(h) == s[SlotNumber(h) - 1].generation && !Free(s[SlotNumber(h) - 1])))
  }

  ghost predicate Consistent<R>(run: Run<R>) {
    && Wellformed(run.slots)
    && (forall k :: 0 <= k < |run.issued| ==> Issued(run.slots, run.issued[k]))
    && (forall h: Handle :: Issued(run.slots, h) ==> h in run.issued)
    && (forall j, k :: 0 <= j < k < |run.issued| ==> run.issued[j] != run.issued[k])
    && (forall h: Handle :: Lookup(run.slots, h) == if h in run.live then Some(run.live[h]) else None)
  }

  lemma {:induction false} SameHandle(g: Handle, h: Handle)
    requires SlotNumber(g) == SlotNumber(h) && Generation(g) == Generation(h)
    ensures g == h
  {
  }

  lemma {:induction false} InsertKeeps<R>(run: Run<R>, record: R)
    requires Consistent(run)
    ensures Consistent(Next(run, Insert(record)))
    ensures Inserted(run.slots, record).1.Some? ==> Inserted(run.slots, record).1.value !in run.issued
  {
    hide SlotNumber, Generation, HandleOf;
    var s := run.slots;
    var i := FirstFree(s);
    if i < SLOTS {
      var h := HandleOf(s[i].generation, i);
      var next := Next(run, Insert(record));
      HandleParts(s[i].generation, i);
      forall k | 0 <= k < |run.issued| ensures Issued(next.slots, run.issued[k]) && run.issued[k] != h {
        assert Issued(s, run.issued[k]);
      }
      forall g: Handle | Issued(next.slots, g) ensures g in next.issued {
        if SlotNumber(g) == i + 1 && Generation(g) == s[i].generation {
          SameHandle(g, h);
        } else {
          assert Issued(s, g);
        }
      }
      forall g: Handle ensures Lookup(next.slots, g) == if g in next.live then Some(next.live[g]) else None {
        if SlotNumber(g) == i + 1 && Generation(g) == s[i].generation {
          SameHandle(g, h);
        } else {
          assert g != h;
          assert Lookup(next.slots, g) == Lookup(s, g);
        }
      }
    }
  }

  lemma {:induction false} DestroyKeeps<R>(run: Run<R>, h: Handle)
    requires Consistent(run)
    ensures Consistent(Next(run, Destroy(h)))
  {
    hide SlotNumber, Generation;
    var s := run.slots;
    var next := Next(run, Destroy(h));
    assert Lookup(s, h) == if h in run.live then Some(run.live[h]) else None;
    if Resolve(s, h).Some? {
      var i := Resolve(s, h).value;
      forall k | 0 <= k < |run.issued| ensures Issued(next.slots, run.issued[k]) {
        assert Issued(s, run.issued[k]);
      }
      forall g: Handle | Issued(next.slots, g) ensures g in next.issued {
        assert Issued(s, g);
      }
      forall g: Handle ensures Lookup(next.slots, g) == if g in next.live then Some(next.live[g]) else None {
        assert Lookup(s, g) == if g in run.live then Some(run.live[g]) else None;
        if SlotNumber(g) == SlotNumber(h) && Generation(g) == Generation(h) {
          SameHandle(g, h);
        }
      }
    } else {
      assert run.live - {h} == run.live;
    }
  }

  lemma {:induction false} RunsAreConsistent<R>(ops: seq<Operation<R>>)
    ensures Consistent(After(ops))
  {
    hide Consistent, Next;
    if ops == [] {
      StartConsistent<R>();
    } else {
      RunsAreConsistent(ops[..|ops| - 1]);
      match ops[|ops| - 1]
      case Insert(record) => InsertKeeps(After(ops[..|ops| - 1]), record);
      case Destroy(h) => DestroyKeeps(After(ops[..|ops| - 1]), h);
    }
  }

  lemma {:induction false} StartConsistent<R>()
    ensures Consistent(Start<R>())
  {
  }

  /** In any run no handle value is issued twice. */
  lemma {:induction false} NeverReissued<R>(ops: seq<Operation<R>>, j: nat, k: nat)
    requires j < k < |After(ops).issued|
    ensures After(ops).issued[j] != After(ops).issued[k]
  {
    RunsAreConsistent(ops);
  }

  /** In any run a handle resolves to the record inserted under it while that is live, and
      every other 64-bit number resolves to nothing. */
  lemma {:induction false} ResolvesExactlyLive<R>(ops: seq<Operation<R>>, h: Handle)
    ensures var run := After(ops);
            Lookup(run.slots, h) == if h in run.live then Some(run.live[h]) else None
  {
    RunsAreConsistent(ops);
  }

  /** A handle that was issued and is no longer live never resolves again, whatever follows:
      its slot has moved on, or is retired at the last generation. */
  lemma {:induction false} DestroyedForever<R>(ops: seq<Operation<R>>, more: seq<Operation<R>>, h: Handle)
    requires h in After(ops).issued && h !in After(ops).live
    ensures h in After(ops + more).issued && Lookup(After(ops + more).slots, h) == None
    decreases |more|
  {
    hide Next, Lookup, Consistent;
    if more == [] {
      assert ops + more == ops;
    } else {
      var before := ops + more[..|more| - 1];
      var op := more[|more| - 1];
      assert (ops + more)[..|ops + more| - 1] == before;
      DestroyedForever(ops, more[..|more| - 1], h);
      ResolvesExactlyLive(before, h);
      RunsAreConsistent(before);
      StaysDead(After(before), op, h);
    }
    ResolvesExactlyLive(ops + more, h);
  }

  lemma {:induction false} StaysDead<R>(run: Run<R>, op: Operation<R>, h: Handle)
    requires Consistent(run) && h in run.issued && h !in run.live
    ensures h in Next(run, op).issued && h !in Next(run, op).live
  {
    hide Consistent;
    if op.Insert? {
      InsertKeeps(run, op.record);
    }
  }

  /** Insertion is refused exactly when every slot is live or retired; every live slot then
      holds a record some handle still resolves to. */
  lemma {:induction false} RefusedWhenFull<R>(ops: seq<Operation<R>>, record: R)
    ensures |After(ops).slots| == 16
    ensures var s := After(ops).slots;
            Inserted(s, record).1 == None <==> forall i :: 0 <= i < 16 ==> s[i].retired || s[i].record.Some?
    ensures var s := After(ops).slots;
            forall i :: 0 <= i < 16 && s[i].record.Some? ==>
              HandleOf(s[i].generation, i) in After(ops).live && s[i].record == Some(After(ops).live[HandleOf(s[i].generation, i)])
    ensures var s := After(ops).slots;
            forall i :: 0 <= i < 16 && s[i].retired ==> s[i].generation == 0xFFFF_FFFF
  {
    hide Lookup;
    var s := After(ops).slots;
    assert Inserted(s, record).1 == None <==> FirstFree(s) == SLOTS;
    forall i | 0 <= i < SLOTS && s[i].record.Some?
      ensures HandleOf(s[i].generation, i) in After(ops).live && s[i].record == Some(After(ops).live[HandleOf(s[i].generation, i)])
    {
      ResolvesExactlyLive(ops, HandleOf(s[i].generation, i));
      Resolves(s, i);
    }
  }

  /** A slot is retired only when all of its 2^32 - 1 handles have been issued, and the last of
      them is no longer live. */
  lemma {:induction false} RetiredIsExhausted<R>(ops: seq<Operation<R>>, i: nat, generation: nat)
    requires i < 16 && After(ops).slots[i].retired && 1 <= generation <= 0xFFFF_FFFF
    ensures HandleOf(generation, i) in After(ops).issued && HandleOf(generation, i) !in After(ops).live
  {
    RunsAreConsistent(ops);
    HandleParts(generation, i);
    var h := HandleOf(generation, i);
    assert Issued(After(ops).slots, h);
    assert Lookup(After(ops).slots, h) == None;
  }

  /** The handle of a new record: in the first slot that is neither live nor retired, at the first
      generation of that slot not issued before. */
  lemma {:induction false} NextHandle<R>(ops: seq<Operation<R>>, record: R)
    requires Inserted(After(ops).slots, record).1.Some?
    ensures var run, h := After(ops), Inserted(After(ops).slots, record).1.value;
            var i, g := SlotNumber(h) - 1, Generation(h);
            && 0 <= i < 16 && 1 <= g <= 0xFFFF_FFFF && h == g * 0x1_0000_0000 + (i + 1)
            && (forall j :: 0 <= j < i ==> run.slots[j].retired || run.slots[j].record.Some?)
            && !run.slots[i].retired && run.slots[i].record == None
            && h !in run.issued && (forall older :: 1 <= older < g ==> HandleOf(older, i) in run.issued)
            && After(ops + [Insert(record)]).live == run.live[h := record]
  {
    hide Lookup;
    var run := After(ops);
    RunsAreConsistent(ops);
    InsertKeeps(run, record);
    var i := FirstFree(run.slots);
    var h := HandleOf(run.slots[i].generation, i);
    HandleParts(run.slots[i].generation, i);
    forall older | 1 <= older < run.slots[i].generation ensures HandleOf(older, i) in run.issued {
      HandleParts(older, i);
      assert Issued(run.slots, HandleOf(older, i));
    }
    assert (ops + [Insert(record)])[..|ops|] == ops;
  }

  lemma {:induction false} Resolves<R>(s: seq<Slot<R>>, i: nat)
    requires Wellformed(s) && i < SLOTS && s[i].record.Some?
    ensures Lookup(s, HandleOf(s[i].generation, i)) == s[i].record
  {
    HandleParts(s[i].generation, i);
  }

  /** Inserting changes nothing about the other handles. */
  lemma {:induction false} OthersKept<R>(s: seq<Slot<R>>, record: R, g: Handle)
    requires Wellformed(s) && Inserted(s, record).1 != Some(g)
    ensures Lookup(Inserted(s, record).0, g) == Lookup(s, g)
  {
    hide HandleOf, Generation, SlotNumber;
    var i := FirstFree(s);
    if i < SLOTS {
      HandleParts(s[i].generation, i);
      if SlotNumber(g) == i + 1 && Generation(g) == s[i].generation {
        SameHandle(g, HandleOf(s[i].generation, i));
      }
    }
  }
}
