/**
 Moving an identity to another device: the receiver begins with a fresh X25519 key, the
 sender seals a live identity to its public half, and the receiver opens the box once.

 X25519 is a commuting key agreement, AES-GCM a sealed box that opens under the same key
 and associated data, HKDF a function.
 */
module IdentityTransfer {
  import opened BigEndian
  import opened HandleTable
  import opened Prelude
  import Usernames

  datatype Kind = PasswordV2 | LegacyPassword | LegacyMnemonic

  datatype Record = Record(username: Bytes, kind: Kind, account: Word, seed: Bytes)

  datatype Error = InvalidAccountIndex | InvalidUsername | KdfFailure | StaleHandle | OperationNotAllowed
                 | CryptoFailure | InvalidRequest | AuthenticationFailed | CapacityExceeded

  type Outcome<+T> = Fallible<T, Error>

  type Key = s: Bytes | |s| == 32 witness Repeat(0, 32)

  datatype Primitives = Primitives(
    publicKey: Key -> Key,
    agree: (Key, Key) -> Option<Key>,
    hkdf: (Key, Bytes, Bytes) -> Key,
    seal: (Key, Bytes, Bytes) -> Bytes,
    open: (Key, Bytes, Bytes) -> Option<Bytes>,
    /** Whether the key hierarchy of a seed exists; derivation throws otherwise. */
    derives: (Kind, Bytes, nat) -> bool)

  /** Agreement commutes, and a box of a message no longer than the largest record opens under
      the key and associated data it was sealed with. */
  ghost predicate Lawful(p: Primitives) {
    && (forall a: Key, b: Key :: p.agree(a, p.publicKey(b)) == p.agree(b, p.publicKey(a)))
    && (forall k: Key, m: Bytes, aad: Bytes :: |m| <= HEADER + MAX_USERNAME + SEED ==>
          |p.seal(k, m, aad)| == |m| + 16 && p.open(k, p.seal(k, m, aad), aad) == Some(m))
  }

  lemma {:induction false} LawfulExists() returns (p: Primitives)
    ensures Lawful(p) && (forall a: Key, b: Key :: p.agree(a, b).Some?)
    ensures forall kind: Kind, seed: Bytes, account: nat :: p.derives(kind, seed, account)
  {
    p := Primitives(a => a, (a, b) => Some(Repeat(0, 32)), (k, s, i) => k, (k, m, aad) => m + Repeat<Byte>(0, 16),
                    (k, c, aad) => if |c| < 16 then None else Some(c[..|c| - 16]), (k, s, n) => true);
    forall m: Bytes ensures (m + Repeat<Byte>(0, 16))[..|m|] == m {
    }
  }

  /** Whether the material of a record can be derived. */
  predicate Derivable(p: Primitives, record: Record) {
    |record.seed| == 64 && record.account <= 1 && p.derives(record.kind, record.seed, record.account)
  }

  // ---- keys and the box ----

  const PROFILE: Bytes := Ascii("hd-wallet/sdn-identity-transfer-v1")
  const HEADER := 8
  const SEED := 64
  const MAX_USERNAME := 256

  /** A multiple of 8 between 2^254 and 2^255, as X25519 wants its scalars. */
  function Clamped(k: Key): (r: Key)
    ensures r[0] % 8 == 0 && 64 <= r[31] < 128 && r[1..31] == k[1..31]
    ensures r[0] / 8 == k[0] / 8 && r[31] % 64 == k[31] % 64
  {
    k[0 := LowCleared(k[0])][31 := HighSet(k[31])]
  }

  function LowCleared(b: Byte): (r: Byte)
    ensures r % 8 == 0 && r / 8 == b / 8
  {
    b / 8 * 8
  }

  function HighSet(b: Byte): (r: Byte)
    ensures 64 <= r < 128 && r % 64 == b % 64
  {
    b % 64 + 64
  }

  function Salt(sender: Key, recipient: Key): Bytes { sender + recipient }

  function TransferKey(p: Primitives, shared: Key, sender: Key, recipient: Key): Key {
    p.hkdf(shared, Salt(sender, recipient), PROFILE)
  }

  function Plaintext(record: Record): Bytes
    requires |record.username| <= MAX_USERNAME
  {
    [1, 0] + Be32(record.account) + [|record.username| / 256, |record.username| % 256] + record.username + record.seed
  }

  /** The record in an opened box: every length is checked, and the username must be canonical. */
  function Parsed(m: Bytes): Option<Record> {
    if |m| < HEADER || m[0] != 1 || m[1] != 0 then None
    else
      var account := FromBe32(m[2..6]);
      var size: nat := m[6] as int * 256 + m[7] as int;
      if account >= 0x8000_0000 || size == 0 || size > MAX_USERNAME || |m| != HEADER + size + SEED then None
      else
        var username := m[HEADER..HEADER + size];
        if Usernames.Canonicalized(username) != Ok(username) then None
        else Some(Record(username, PasswordV2, account, m[HEADER + size..]))
  }

  lemma {:induction false} ParsedPlaintext(record: Record)
    requires record.kind == PasswordV2 && |record.seed| == SEED && record.account < 0x8000_0000
    requires 0 < |record.username| <= MAX_USERNAME
    requires Usernames.Canonicalized(record.username) == Ok(record.username)
    ensures Parsed(Plaintext(record)) == Some(record) && |Plaintext(record)| == HEADER + |record.username| + SEED
  {
    hide Be32, FromBe32, Usernames.Canonicalized;
    var m := Plaintext(record);
    var size := |record.username|;
    FromBe(record.account);
    assert m[2..6] == Be32(record.account);
    assert m[6] == size / 256 && m[7] == size % 256;
    assert m[HEADER..HEADER + size] == record.username && m[HEADER + size..] == record.seed;
  }

  function Sealed(p: Primitives, record: Record, to: Key, ephemeral: Key): Outcome<Bytes>
    requires |record.username| <= MAX_USERNAME
  {
    var sender := p.publicKey(ephemeral);
    match p.agree(ephemeral, to)
    case None => Fail(InvalidRequest)
    case Some(shared) =>
      Ok(sender + p.seal(TransferKey(p, shared, sender, to), Plaintext(record), PROFILE + Salt(sender, to)))
  }

  /** What the receiver's key makes of a box. */
  function Unsealed(p: Primitives, recipient: Key, box: Bytes): Outcome<Record> {
    if |box| < 32 + HEADER + 1 + SEED + 16 || |box| > 32 + HEADER + MAX_USERNAME + SEED + 16 then Fail(InvalidRequest)
    else
      var sender: Key := box[..32];
      var to := p.publicKey(recipient);
      match p.agree(recipient, sender)
      case None => Fail(AuthenticationFailed)
      case Some(shared) =>
        match p.open(TransferKey(p, shared, sender, to), box[32..], PROFILE + Salt(sender, to))
        case None => Fail(AuthenticationFailed)
        case Some(m) =>
          match Parsed(m)
          case None => Fail(InvalidRequest)
          case Some(record) => if Derivable(p, record) then Ok(record) else Fail(CryptoFailure)
  }

  // ---- the state and its operations ----

  datatype State = State(slots: seq<Slot<Record>>, recipient: Option<Key>)

  function Stored(st: State, record: Record): (r: (State, Outcome<Handle>))
    requires Wellformed(st.slots)
    ensures Wellformed(r.0.slots)
  {
    match Inserted(st.slots, record)
    case (slots, None) => (st, Fail(CapacityExceeded))
    case (slots, Some(h)) => (st.(slots := slots), Ok(h))
  }

  /** A begin replaces any key left unopened; `random` is None when the generator fails. */
  function Begun(p: Primitives, st: State, random: Option<Key>): (State, Outcome<Key>) {
    match random
    case None => (st, Fail(CryptoFailure))
    case Some(r) => (st.(recipient := Some(Clamped(r))), Ok(p.publicKey(Clamped(r))))
  }

  function SealedHandle(p: Primitives, st: State, h: Handle, to: Key, random: Option<Key>): Outcome<Bytes>
    requires Wellformed(st.slots)
  {
    match Lookup(st.slots, h)
    case None => Fail(StaleHandle)
    case Some(record) =>
      if record.kind != PasswordV2 then Fail(OperationNotAllowed)
      else if |record.username| == 0 || |record.username| > MAX_USERNAME || |record.seed| != SEED then Fail(CryptoFailure)
      else match random
        case None => Fail(CryptoFailure)
        case Some(r) => Sealed(p, record, to, Clamped(r))
  }

  /** The key is consumed before anything is looked at. */
  function Opened(p: Primitives, st: State, box: Bytes): (r: (State, Outcome<Handle>))
    requires Wellformed(st.slots)
    ensures Wellformed(r.0.slots)
  {
    var consumed := st.(recipient := None);
    match st.recipient
    case None => (consumed, Fail(OperationNotAllowed))
    case Some(k) =>
      match Unsealed(p, k, box)
      case Fail(e) => (consumed, Fail(e))
      case Ok(record) => Stored(consumed, record)
  }

  /** `derive_password_identity`; the password hash is a parameter. */
  function PasswordDerived(p: Primitives, st: State, raw: Bytes, kdf: Outcome<Bytes>, account: Word): (r: (State, Outcome<Handle>))
    requires Wellformed(st.slots)
    ensures Wellformed(r.0.slots)
  {
    if account > 1 then (st, Fail(InvalidAccountIndex))
    else match Usernames.Canonicalized(raw)
      case Fail(_) => (st, Fail(InvalidUsername))
      case Ok(name) =>
        match kdf
        case Fail(e) => (st, Fail(e))
        case Ok(seed) => Imported(p, st, Record(name, PasswordV2, account, seed))
  }

  function Imported(p: Primitives, st: State, record: Record): (r: (State, Outcome<Handle>))
    requires Wellformed(st.slots)
    ensures Wellformed(r.0.slots)
  {
    if Derivable(p, record) then Stored(st, record) else (st, Fail(CryptoFailure))
  }

  /** `derive_legacy_password_identity` and `import_legacy_mnemonic_identity`. */
  function LegacyDerived(p: Primitives, st: State, kind: Kind, username: Bytes, kdf: Outcome<Bytes>, account: Word): (r: (State, Outcome<Handle>))
    requires Wellformed(st.slots) && kind != PasswordV2
    ensures Wellformed(r.0.slots)
  {
    if account > 1 then (st, Fail(InvalidAccountIndex))
    else match kdf
      case Fail(e) => (st, Fail(e))
      case Ok(seed) => Imported(p, st, Record(username, kind, account, seed))
  }

  // ---- the store ----

  class Store {
    const table: Table<Record>
    var recipient: Option<Key>

    ghost predicate Valid()
      reads this, table, table.slots
    {
      table.Valid()
    }

    ghost function Contents(): State
      reads this, table, table.slots
    {
      State(table.slots[..], recipient)
    }

    constructor ()
      ensures Valid() && fresh(table) && fresh(table.slots) && recipient == None
      ensures forall i :: 0 <= i < SLOTS ==> table.slots[..][i] == Slot(1, false, None)
    {
      table := new Table<Record>();
      recipient := None;
    }

    method Begin(p: Primitives, random: Option<Key>) returns (r: Outcome<Key>)
      requires Valid()
      modifies this
      ensures Valid() && (Contents(), r) == Begun(p, old(Contents()), random)
    {
      if random.None? {
        return Fail(CryptoFailure);
      }
      var key := Clamped(random.value);
      recipient := Some(key);
      r := Ok(p.publicKey(key));
    }

    method Seal(p: Primitives, h: Handle, to: Key, random: Option<Key>) returns (r: Outcome<Bytes>)
      requires Valid()
      ensures r == SealedHandle(p, Contents(), h, to, random)
    {
      hide Be32;
      var found := table.Find(h);
      if found.None? {
        return Fail(StaleHandle);
      }
      var record := found.value;
      if record.kind != PasswordV2 {
        return Fail(OperationNotAllowed);
      }
      if |record.username| == 0 || |record.username| > MAX_USERNAME || |record.seed| != SEED {
        return Fail(CryptoFailure);
      }
      var plaintext: Bytes := [1];
      plaintext := plaintext + [0];
      plaintext := plaintext + Be32(record.account);
      plaintext := plaintext + [|record.username| / 256];
      plaintext := plaintext + [|record.username| % 256];
      plaintext := plaintext + record.username;
      plaintext := plaintext + record.seed;
      assert plaintext == Plaintext(record);
      if random.None? {
        return Fail(CryptoFailure);
      }
      var ephemeral := Clamped(random.value);
      var sender := p.publicKey(ephemeral);
      var shared := p.agree(ephemeral, to);
      if shared.None? {
        return Fail(InvalidRequest);
      }
      var key := TransferKey(p, shared.value, sender, to);
      r := Ok(sender + p.seal(key, plaintext, PROFILE + Salt(sender, to)));
    }

    method Open(p: Primitives, box: Bytes) returns (r: Outcome<Handle>)
      requires Valid()
      modifies this, table.slots
      ensures Valid() && (Contents(), r) == Opened(p, old(Contents()), box)
    {
      hide Unsealed, Inserted;
      var pending := recipient;
      recipient := None;
      if pending.None? {
        return Fail(OperationNotAllowed);
      }
      var record := Unseal(p, pending.value, box);
      if record.Fail? {
        return Fail(record.error);
      }
      r := Insert(record.value);
    }

    method Insert(record: Record) returns (r: Outcome<Handle>)
      requires Valid()
      modifies table.slots
      ensures Valid() && recipient == old(recipient) && (Contents(), r) == Stored(old(Contents()), record)
    {
      var h := table.Insert(record);
      r := if h.None? then Fail(CapacityExceeded) else Ok(h.value);
    }

    method DerivePassword(p: Primitives, raw: Bytes, kdf: Outcome<Bytes>, account: Word) returns (r: Outcome<Handle>)
      requires Valid()
      modifies table.slots
      ensures Valid() && (Contents(), r) == PasswordDerived(p, old(Contents()), raw, kdf, account)
    {
      hide Inserted, Usernames.Canonicalized;
      if account > 1 {
        return Fail(InvalidAccountIndex);
      }
      var name := Usernames.Canonicalize(raw);
      if name.Fail? {
        return Fail(InvalidUsername);
      }
      if kdf.Fail? {
        return Fail(kdf.error);
      }
      var record := Record(name.value, PasswordV2, account, kdf.value);
      if !Derivable(p, record) {
        return Fail(CryptoFailure);
      }
      r := Insert(record);
    }

    method Destroy(h: Handle)
      requires Valid()
      modifies table.slots
      ensures Valid() && Contents() == old(Contents()).(slots := Destroyed(old(table.slots[..]), h))
    {
      table.Destroy(h);
    }
  }

  method Unseal(p: Primitives, recipient: Key, box: Bytes) returns (r: Outcome<Record>)
    ensures r == Unsealed(p, recipient, box)
  {
    if |box| < 32 + HEADER + 1 + SEED + 16 || |box| > 32 + HEADER + MAX_USERNAME + SEED + 16 {
      return Fail(InvalidRequest);
    }
    var sender: Key := box[..32];
    var to := p.publicKey(recipient);
    var shared := p.agree(recipient, sender);
    if shared.None? {
      return Fail(AuthenticationFailed);
    }
    var plaintext := p.open(TransferKey(p, shared.value, sender, to), box[32..], PROFILE + Salt(sender, to));
    if plaintext.None? {
      return Fail(AuthenticationFailed);
    }
    var record := Parse(plaintext.value);
    if record.None? {
      return Fail(InvalidRequest);
    }
    r := if Derivable(p, record.value) then Ok(record.value) else Fail(CryptoFailure);
  }

  method Parse(m: Bytes) returns (r: Option<Record>)
    ensures r == Parsed(m)
  {
    hide FromBe32, Usernames.Canonicalized;
    if |m| < HEADER || m[0] != 1 || m[1] != 0 {
      return None;
    }
    var account := FromBe32(m[2..6]);
    var size: nat := m[6] as int * 256 + m[7] as int;
    if account >= 0x8000_0000 || size == 0 || size > MAX_USERNAME || |m| != HEADER + size + SEED {
      return None;
    }
    var username := m[HEADER..HEADER + size];
    var canonical := Usernames.Canonicalize(username);
    if canonical.Fail? || canonical.value != username {
      return None;
    }
    r := Some(Record(username, PasswordV2, account, m[HEADER + size..]));
  }

  // ---- what every operation keeps ----

  /** A record that was stored by one of the operations. */
  predicate Sound(p: Primitives, record: Record) {
    && Derivable(p, record)
    && (record.kind == PasswordV2 ==> Usernames.Canonicalized(record.username) == Ok(record.username))
  }

  predicate Kept(p: Primitives, slots: seq<Slot<Record>>) {
    Wellformed(slots) && forall i :: 0 <= i < SLOTS && slots[i].record.Some? ==> Sound(p, slots[i].record.value)
  }

  datatype Operation =
    | Begin(random: Option<Key>)
    | Seal(handle: Handle, to: Key, random: Option<Key>)
    | Open(box: Bytes)
    | DerivePassword(raw: Bytes, kdf: Outcome<Bytes>, account: Word)
    | DeriveLegacy(kind: Kind, username: Bytes, kdf: Outcome<Bytes>, account: Word)
    | Destroy(handle: Handle)

  function Next(p: Primitives, st: State, op: Operation): (r: State)
    requires Wellformed(st.slots)
    ensures Wellformed(r.slots)
  {
    match op
    case Begin(random) => Begun(p, st, random).0
    case Seal(_, _, _) => st
    case Open(box) => Opened(p, st, box).0
    case DerivePassword(raw, kdf, account) => PasswordDerived(p, st, raw, kdf, account).0
    case DeriveLegacy(kind, username, kdf, account) =>
      if kind == PasswordV2 then st else LegacyDerived(p, st, kind, username, kdf, account).0
    case Destroy(h) => st.(slots := Destroyed(st.slots, h))
  }

  function After(p: Primitives, ops: seq<Operation>): (r: State)
    ensures Wellformed(r.slots)
  {
    if ops == [] then State(seq(SLOTS, _ => Slot(1, false, None)), None)
    else Next(p, After(p, ops[..|ops| - 1]), ops[|ops| - 1])
  }

  lemma {:induction false} StoredKeeps(p: Primitives, st: State, record: Record)
    requires Kept(p, st.slots) && Sound(p, record)
    ensures Kept(p, Stored(st, record).0.slots) && Stored(st, record).0.recipient == st.recipient
    ensures Stored(st, record).1.Ok? ==> Lookup(Stored(st, record).0.slots, Stored(st, record).1.value) == Some(record)
    ensures Stored(st, record).1 == Fail(CapacityExceeded) <==> forall i :: 0 <= i < SLOTS ==> !Free(st.slots[i])
    ensures Stored(st, record).1.Fail? ==> Stored(st, record).1.error == CapacityExceeded
  {
    hide Sound, HandleOf;
    var i := FirstFree(st.slots);
    if i < SLOTS {
      Resolves(Inserted(st.slots, record).0, i);
    }
  }

  lemma {:induction false} OpenedKeeps(p: Primitives, st: State, box: Bytes)
    requires Kept(p, st.slots)
    ensures Kept(p, Opened(p, st, box).0.slots) && Opened(p, st, box).0.recipient == None
  {
    hide Unsealed, Kept, Stored;
    if st.recipient.Some? && Unsealed(p, st.recipient.value, box).Ok? {
      UnsealedSound(p, st.recipient.value, box);
      var consumed := st.(recipient := None);
      assert Kept(p, consumed.slots);
      StoredKeeps(p, consumed, Unsealed(p, st.recipient.value, box).value);
    }
  }

  lemma {:induction false} UnsealedSound(p: Primitives, k: Key, box: Bytes)
    requires Unsealed(p, k, box).Ok?
    ensures Sound(p, Unsealed(p, k, box).value) && Unsealed(p, k, box).value.kind == PasswordV2
  {
    hide FromBe32, Usernames.Canonicalized;
  }

  lemma {:induction false} DestroyedKeeps(p: Primitives, slots: seq<Slot<Record>>, h: Handle)
    requires Kept(p, slots)
    ensures Kept(p, Destroyed(slots, h))
  {
    hide Sound;
  }

  lemma {:induction false} PasswordKeeps(p: Primitives, st: State, raw: Bytes, kdf: Outcome<Bytes>, account: Word)
    requires Kept(p, st.slots)
    ensures Kept(p, PasswordDerived(p, st, raw, kdf, account).0.slots)
  {
    hide Kept, Stored, Usernames.Canonicalized;
    var name := Usernames.Canonicalized(raw);
    if account <= 1 && name.Ok? && kdf.Ok? && Derivable(p, Record(name.value, PasswordV2, account, kdf.value)) {
      Usernames.Idempotent(raw);
      StoredKeeps(p, st, Record(name.value, PasswordV2, account, kdf.value));
    }
  }

  lemma {:induction false} LegacyKeeps(p: Primitives, st: State, kind: Kind, username: Bytes, kdf: Outcome<Bytes>, account: Word)
    requires Kept(p, st.slots) && kind != PasswordV2
    ensures Kept(p, LegacyDerived(p, st, kind, username, kdf, account).0.slots)
  {
    hide Kept, Stored, Usernames.Canonicalized;
    if account <= 1 && kdf.Ok? && Derivable(p, Record(username, kind, account, kdf.value)) {
      StoredKeeps(p, st, Record(username, kind, account, kdf.value));
    }
  }

  lemma {:induction false} NextKeeps(p: Primitives, st: State, op: Operation)
    requires Kept(p, st.slots)
    ensures Kept(p, Next(p, st, op).slots)
  {
    hide Kept, Stored, Opened, Destroyed, PasswordDerived, LegacyDerived, Sound, Derivable;
    match op
    case Begin(_) =>
    case Seal(_, _, _) =>
    case Open(box) => OpenedKeeps(p, st, box);
    case DerivePassword(raw, kdf, account) => PasswordKeeps(p, st, raw, kdf, account);
    case DeriveLegacy(kind, username, kdf, account) =>
      if kind != PasswordV2 {
        LegacyKeeps(p, st, kind, username, kdf, account);
      }
    case Destroy(h) => DestroyedKeeps(p, st.slots, h);
  }

  /** In any run every live record can be derived, and a password identity has a canonical username. */
  lemma {:induction false} RunsKeep(p: Primitives, ops: seq<Operation>)
    ensures Kept(p, After(p, ops).slots)
  {
    hide Next;
    if ops != [] {
      hide Kept;
      RunsKeep(p, ops[..|ops| - 1]);
      NextKeeps(p, After(p, ops[..|ops| - 1]), ops[|ops| - 1]);
    }
  }

  // ---- the round trip ----

  /** The receiver's key turns a box sealed to it back into the sender's record. */
  lemma {:induction false} UnsealsSealed(p: Primitives, record: Record, k: Key, ephemeral: Key)
    requires Lawful(p) && Sound(p, record) && record.kind == PasswordV2
    requires |record.username| <= MAX_USERNAME && Sealed(p, record, p.publicKey(k), ephemeral).Ok?
    ensures Unsealed(p, k, Sealed(p, record, p.publicKey(k), ephemeral).value) == Ok(record)
  {
    hide Parsed, Plaintext, Usernames.Canonicalized, TransferKey, Salt;
    var box := Sealed(p, record, p.publicKey(k), ephemeral).value;
    var sender := p.publicKey(ephemeral);
    NameSize(record.username);
    ParsedPlaintext(record);
    assert box[..32] == sender;
    assert p.agree(ephemeral, p.publicKey(k)) == p.agree(k, sender);
    var shared := p.agree(k, sender).value;
    var key, aad := TransferKey(p, shared, sender, p.publicKey(k)), PROFILE + Salt(sender, p.publicKey(k));
    assert box[32..] == p.seal(key, Plaintext(record), aad);
  }

  lemma {:induction false} NameSize(name: Bytes)
    requires Usernames.Canonicalized(name) == Ok(name)
    ensures 3 <= |name| <= 64
  {
    hide Usernames.Canonicalized;
    Usernames.Idempotent(name);
  }

  /** Opening the box stores the sender's record, username, account and seed, under a live
      handle; the one failure left is a full table. */
  predicate Delivered(p: Primitives, sender: State, h: Handle, receiver: State, box: Bytes)
    requires Wellformed(sender.slots) && Wellformed(receiver.slots)
  {
    var (next, outcome) := Opened(p, receiver, box);
    && Lookup(sender.slots, h).Some?
    && (if forall i :: 0 <= i < SLOTS ==> !Free(receiver.slots[i]) then outcome == Fail(CapacityExceeded)
        else outcome.Ok? && Lookup(next.slots, outcome.value) == Lookup(sender.slots, h))
  }

  /** What a seal needs: a live password identity, randomness, and a recipient key the agreement
      takes. */
  predicate CanSeal(p: Primitives, st: State, h: Handle, to: Key, random: Option<Key>)
    requires Wellformed(st.slots)
  {
    && Lookup(st.slots, h).Some? && Lookup(st.slots, h).value.kind == PasswordV2
    && random.Some? && p.agree(Clamped(random.value), to).Some?
  }

  /** The error of a seal that cannot succeed. */
  function SealError(st: State, h: Handle, random: Option<Key>): Error
    requires Wellformed(st.slots)
  {
    if Lookup(st.slots, h) == None then StaleHandle
    else if Lookup(st.slots, h).value.kind != PasswordV2 then OperationNotAllowed
    else if random == None then CryptoFailure
    else InvalidRequest
  }

  /** After any run sealing succeeds exactly then; and otherwise fails for the first thing missing. */
  lemma {:induction false} SealIff(p: Primitives, ops: seq<Operation>, h: Handle, to: Key, random: Option<Key>)
    ensures var st := After(p, ops);
            var r := SealedHandle(p, st, h, to, random);
            && (r.Ok? <==> CanSeal(p, st, h, to, random))
            && (r.Fail? ==> r.error == SealError(st, h, random))
  {
    hide Kept, Clamped, Plaintext, TransferKey, Salt;
    RunsKeep(p, ops);
    SoundSeals(p, After(p, ops), h, to, random);
  }

  lemma {:induction false} SoundSeals(p: Primitives, st: State, h: Handle, to: Key, random: Option<Key>)
    requires Kept(p, st.slots)
    ensures var r := SealedHandle(p, st, h, to, random);
            && (r.Ok? <==> CanSeal(p, st, h, to, random))
            && (r.Fail? ==> r.error == SealError(st, h, random))
  {
    hide Sound, Clamped, Plaintext, TransferKey, Salt, Lookup, Usernames.Canonicalized;
    if Lookup(st.slots, h).Some? {
      FoundSound(p, st.slots, h);
      if Lookup(st.slots, h).value.kind == PasswordV2 {
        SoundSizes(p, Lookup(st.slots, h).value);
      }
    }
  }

  lemma {:induction false} SoundSizes(p: Primitives, record: Record)
    requires Sound(p, record) && record.kind == PasswordV2
    ensures 3 <= |record.username| <= 64 && |record.seed| == 64
  {
    hide Usernames.Canonicalized;
    NameSize(record.username);
  }

  lemma {:induction false} SealedIsDelivered(p: Primitives, sender: State, h: Handle, receiver: State, k: Key, random: Option<Key>)
    requires Lawful(p) && Kept(p, sender.slots) && Kept(p, receiver.slots) && receiver.recipient == Some(k)
    requires CanSeal(p, sender, h, p.publicKey(k), random)
    ensures SealedHandle(p, sender, h, p.publicKey(k), random).Ok?
    ensures Delivered(p, sender, h, receiver, SealedHandle(p, sender, h, p.publicKey(k), random).value)
  {
    hide Sealed, Unsealed, Stored, Clamped, Lookup, Sound, Lawful, Kept;
    SameKept(p, sender);
    SoundSeals(p, sender, h, p.publicKey(k), random);
    var record := Lookup(sender.slots, h).value;
    FoundSound(p, sender.slots, h);
    UnsealsSealed(p, record, k, Clamped(random.value));
    SameKept(p, receiver);
    StoredKeeps(p, receiver.(recipient := None), record);
  }

  lemma {:induction false} SameKept(p: Primitives, st: State)
    requires Kept(p, st.slots)
    ensures Wellformed(st.slots) && Kept(p, st.(recipient := None).slots)
  {
  }

  /** Begin, seal and open, with any operations in between that neither open nor begin again: a
      live password identity, randomness and agreeing keys are all it takes. */
  lemma {:induction false} TransferCompletes(p: Primitives, senderOps: seq<Operation>, h: Handle, random: Key,
                                             before: seq<Operation>, r: Key, between: seq<Operation>)
    requires Lawful(p) && Quiet(between)
    requires Lookup(After(p, senderOps).slots, h).Some? && Lookup(After(p, senderOps).slots, h).value.kind == PasswordV2
    requires p.agree(Clamped(random), p.publicKey(Clamped(r))).Some?
    ensures Begun(p, After(p, before), Some(r)).1 == Ok(p.publicKey(Clamped(r)))
    ensures SealedHandle(p, After(p, senderOps), h, p.publicKey(Clamped(r)), Some(random)).Ok?
    ensures Delivered(p, After(p, senderOps), h, After(p, before + [Begin(Some(r))] + between),
                      SealedHandle(p, After(p, senderOps), h, p.publicKey(Clamped(r)), Some(random)).value)
  {
    hide SealedHandle, Delivered, Clamped, Next, Kept, Lawful, Lookup;
    var ops := before + [Begin(Some(r))] + between;
    RunsKeep(p, senderOps);
    RunsKeep(p, ops);
    QuietKeeps(p, before + [Begin(Some(r))], between);
    BeginPends(p, before, r);
    SealedIsDelivered(p, After(p, senderOps), h, After(p, ops), Clamped(r), Some(random));
  }

  lemma {:induction false} FoundSound(p: Primitives, slots: seq<Slot<Record>>, h: Handle)
    requires Kept(p, slots) && Lookup(slots, h).Some?
    ensures Sound(p, Lookup(slots, h).value)
  {
    hide Sound;
  }

  // ---- one open for each begin ----

  predicate Quiet(ops: seq<Operation>) {
    forall i :: 0 <= i < |ops| ==> !ops[i].Open? && !(ops[i].Begin? && ops[i].random.Some?)
  }

  lemma {:induction false} BeginPends(p: Primitives, before: seq<Operation>, r: Key)
    ensures After(p, before + [Begin(Some(r))]).recipient == Some(Clamped(r))
  {
    var ops := before + [Begin(Some(r))];
    assert ops[..|ops| - 1] == before;
  }

  lemma {:induction false} QuietStep(p: Primitives, st: State, op: Operation)
    requires Wellformed(st.slots) && Quiet([op])
    ensures Next(p, st, op).recipient == st.recipient
  {
    hide Inserted, Destroyed, Derivable, Usernames.Canonicalized;
    assert op == [op][0];
  }

  lemma {:induction false} QuietKeeps(p: Primitives, ops: seq<Operation>, quiet: seq<Operation>)
    requires Quiet(quiet)
    ensures After(p, ops + quiet).recipient == After(p, ops).recipient
    decreases |quiet|
  {
    hide Next;
    if quiet == [] {
      assert ops + quiet == ops;
    } else {
      var k := |quiet| - 1;
      assert (ops + quiet)[..|ops + quiet| - 1] == ops + quiet[..k];
      QuietKeeps(p, ops, quiet[..k]);
      QuietStep(p, After(p, ops + quiet[..k]), quiet[k]);
    }
  }

  /** Begin `b` of the run is the one that an operation after `n` steps finds pending. */
  predicate Serves(ops: seq<Operation>, n: nat, b: nat)
    requires n <= |ops|
  {
    b < n && ops[b].Begin? && ops[b].random.Some? && Quiet(ops[b + 1..n])
  }

  /** An open gets past the missing-key refusal exactly when some begin serves it, and works
      with the key of that begin. */
  lemma {:induction false} OpenServed(p: Primitives, ops: seq<Operation>, box: Bytes)
    ensures Opened(p, After(p, ops), box).1 != Fail(OperationNotAllowed) <==> exists b: nat :: Serves(ops, |ops|, b)
    ensures forall b: nat :: Serves(ops, |ops|, b) ==> After(p, ops).recipient == Some(Clamped(ops[b].random.value))
  {
    hide Unsealed, Clamped;
    PendingServed(p, ops);
    NeverDisallowed(p, After(p, ops), box);
    forall b: nat | Serves(ops, |ops|, b) ensures After(p, ops).recipient == Some(Clamped(ops[b].random.value)) {
      ServedPending(p, ops, b);
    }
  }

  lemma {:induction false} NeverDisallowed(p: Primitives, st: State, box: Bytes)
    requires Wellformed(st.slots)
    ensures Opened(p, st, box).1 == Fail(OperationNotAllowed) <==> st.recipient == None
  {
    hide Parsed, Inserted, TransferKey, Salt;
  }

  lemma {:induction false} ServedPending(p: Primitives, ops: seq<Operation>, b: nat)
    requires Serves(ops, |ops|, b)
    ensures After(p, ops).recipient == Some(Clamped(ops[b].random.value))
  {
    hide Clamped, After, Next, Quiet, Kept, Lawful, Derivable;
    assert ops == ops[..b] + [ops[b]] + ops[b + 1..] && ops[b + 1..|ops|] == ops[b + 1..];
    assert ops[b] == Begin(Some(ops[b].random.value));
    BeginPends(p, ops[..b], ops[b].random.value);
    QuietKeeps(p, ops[..b] + [ops[b]], ops[b + 1..]);
  }

  lemma {:induction false} PendingServed(p: Primitives, ops: seq<Operation>)
    ensures After(p, ops).recipient.Some? ==> exists b: nat :: Serves(ops, |ops|, b)
  {
    hide Next;
    if ops != [] && After(p, ops).recipient.Some? {
      var k := |ops| - 1;
      var op := ops[k];
      if op.Begin? && op.random.Some? {
        assert ops[k + 1..|ops|] == [];
        assert Serves(ops, |ops|, k);
      } else if op.Open? {
        OpenConsumes(p, After(p, ops[..k]), op.box);
        assert false;
      } else {
        assert [op][0] == op;
        QuietStep(p, After(p, ops[..k]), op);
        PendingServed(p, ops[..k]);
        var b: nat :| Serves(ops[..k], k, b);
        assert ops[b + 1..|ops|] == ops[..k][b + 1..k] + [op];
        assert Serves(ops, |ops|, b);
      }
    }
  }

  lemma {:induction false} OpenConsumes(p: Primitives, st: State, box: Bytes)
    requires Wellformed(st.slots)
    ensures Next(p, st, Open(box)).recipient == None
  {
    hide Unsealed, Inserted;
  }

  /** No begin serves two opens, whether or not the first one succeeded. */
  lemma {:induction false} OneOpenEach(p: Primitives, ops: seq<Operation>, i: nat, j: nat, b: nat)
    requires i < j < |ops| && ops[i].Open? && ops[j].Open? && Serves(ops, i, b)
    ensures !Serves(ops, j, b)
  {
    assert ops[b + 1..j][i - b - 1] == ops[i];
  }

  // ---- what is stored, and when ----

  predicate Full(st: State)
    requires Wellformed(st.slots)
  {
    forall i :: 0 <= i < 16 ==> !Free(st.slots[i])
  }

  /** `record` is stored under the handle returned, and no other handle changes. */
  ghost predicate Stores(st: State, next: State, r: Outcome<Handle>, record: Record)
    requires Wellformed(st.slots) && Wellformed(next.slots)
  {
    && r.Ok? && Lookup(next.slots, r.value) == Some(record) && next.recipient == st.recipient
    && (forall g: Handle :: g != r.value ==> Lookup(next.slots, g) == Lookup(st.slots, g))
  }

  /** Deriving a password identity succeeds exactly for an account of 0 or 1, a username with a
      canonical form, a hash of 64 bytes whose keys exist, and a table that is not full; and
      stores them.  Otherwise the first of these that is missing gives the error. */
  lemma {:induction false} DeriveIff(p: Primitives, ops: seq<Operation>, raw: Bytes, kdf: Outcome<Bytes>, account: Word)
    ensures var st := After(p, ops);
            var (next, r) := PasswordDerived(p, st, raw, kdf, account);
            var name := Usernames.Canonicalized(raw);
            if account != 0 && account != 1 then r == Fail(InvalidAccountIndex) && next == st
            else if name.Fail? then r == Fail(InvalidUsername) && next == st
            else if kdf.Fail? then r == Fail(kdf.error) && next == st
            else if |kdf.value| != 64 || !p.derives(PasswordV2, kdf.value, account) then r == Fail(CryptoFailure) && next == st
            else if Full(st) then r == Fail(CapacityExceeded) && next == st
            else Stores(st, next, r, Record(name.value, PasswordV2, account, kdf.value))
  {
    hide Kept, Stored, Sound, Usernames.Canonicalized, Lookup;
    var st := After(p, ops);
    var name := Usernames.Canonicalized(raw);
    if account <= 1 && name.Ok? && kdf.Ok? && Derivable(p, Record(name.value, PasswordV2, account, kdf.value)) {
      StoresRecord(st, Record(name.value, PasswordV2, account, kdf.value));
    }
  }

  lemma {:induction false} StoresRecord(st: State, record: Record)
    requires Wellformed(st.slots)
    ensures var (next, r) := Stored(st, record);
            if Full(st) then r == Fail(CapacityExceeded) && next == st else Stores(st, next, r, record)
  {
    hide HandleOf;
    var i := FirstFree(st.slots);
    if i < SLOTS {
      Resolves(Inserted(st.slots, record).0, i);
      forall g: Handle | Inserted(st.slots, record).1 != Some(g) ensures Lookup(Inserted(st.slots, record).0, g) == Lookup(st.slots, g) {
        OthersKept(st.slots, record, g);
      }
    }
  }

  /** The same for the two legacy kinds, whose usernames are kept as given. */
  lemma {:induction false} LegacyIff(p: Primitives, ops: seq<Operation>, kind: Kind, username: Bytes, kdf: Outcome<Bytes>, account: Word)
    requires kind != PasswordV2
    ensures var st := After(p, ops);
            var (next, r) := LegacyDerived(p, st, kind, username, kdf, account);
            if account != 0 && account != 1 then r == Fail(InvalidAccountIndex) && next == st
            else if kdf.Fail? then r == Fail(kdf.error) && next == st
            else if |kdf.value| != 64 || !p.derives(kind, kdf.value, account) then r == Fail(CryptoFailure) && next == st
            else if Full(st) then r == Fail(CapacityExceeded) && next == st
            else Stores(st, next, r, Record(username, kind, account, kdf.value))
  {
    hide Stored, Lookup;
    var st := After(p, ops);
    if account <= 1 && kdf.Ok? && Derivable(p, Record(username, kind, account, kdf.value)) {
      StoresRecord(st, Record(username, kind, account, kdf.value));
    }
  }

  /** The box of a seal: the public half of a fresh key, and the plaintext of the record under a key
      drawn from the agreement, bound to both public keys in that order and to the profile. */
  lemma {:induction false} BoxIs(p: Primitives, st: State, h: Handle, to: Key, random: Key)
    requires Wellformed(st.slots) && SealedHandle(p, st, h, to, Some(random)).Ok?
    ensures Lookup(st.slots, h).Some? && |Lookup(st.slots, h).value.username| <= 256
    ensures var box := SealedHandle(p, st, h, to, Some(random)).value;
            var profile, sender := Ascii("hd-wallet/sdn-identity-transfer-v1"), p.publicKey(Clamped(random));
            p.agree(Clamped(random), to).Some? && |box| >= 32 && box[..32] == sender
            && box[32..] == p.seal(p.hkdf(p.agree(Clamped(random), to).value, sender + to, profile), Plaintext(Lookup(st.slots, h).value), profile + sender + to)
  {
    hide Lookup, Clamped, Plaintext, Ascii;
    var sender := p.publicKey(Clamped(random));
    assert PROFILE + (sender + to) == PROFILE + sender + to;
  }

  /** What the box of a pending key holds, if it opens under what the other side sealed it with. */
  function Inside(p: Primitives, k: Key, box: Bytes): Option<Bytes>
    requires |box| >= 32
  {
    var profile, sender := Ascii("hd-wallet/sdn-identity-transfer-v1"), box[..32];
    match p.agree(k, sender)
    case None => None
    case Some(shared) => p.open(p.hkdf(shared, sender + p.publicKey(k), profile), box[32..], profile + sender + p.publicKey(k))
  }

  /** Opening succeeds exactly with a key pending, for a box of 121 to 376 bytes that holds the
      plaintext of a password identity whose keys exist, and a table that is not full; and stores
      that identity.  Otherwise the first of these that is missing gives the error. */
  lemma {:induction false} OpenIff(p: Primitives, ops: seq<Operation>, box: Bytes)
    ensures var st := After(p, ops);
            var (next, r) := Opened(p, st, box);
            var used := st.(recipient := None);
            if st.recipient == None then r == Fail(OperationNotAllowed) && next == st
            else if |box| < 121 || |box| > 376 then r == Fail(InvalidRequest) && next == used
            else
              match Inside(p, st.recipient.value, box)
              case None => r == Fail(AuthenticationFailed) && next == used
              case Some(m) =>
                if Parsed(m) == None then r == Fail(InvalidRequest) && next == used
                else
                  var record := Parsed(m).value;
                  if !(record.account <= 1 && p.derives(PasswordV2, record.seed, record.account)) then r == Fail(CryptoFailure) && next == used
                  else if Full(st) then r == Fail(CapacityExceeded) && next == used
                  else Stores(used, next, r, record)
  {
    hide Parsed, Stored, Stores, Ascii;
    var st := After(p, ops);
    if st.recipient.Some? && 121 <= |box| <= 376 {
      var to := p.publicKey(st.recipient.value);
      assert PROFILE + (box[..32] + to) == PROFILE + box[..32] + to;
      var m := Inside(p, st.recipient.value, box);
      if m.Some? && Parsed(m.value).Some? {
        ParsedIff(m.value, Parsed(m.value).value);
        StoresRecord(st.(recipient := None), Parsed(m.value).value);
      }
    }
  }

  // ---- the plaintext ----

  /** A plaintext parses exactly when it is that of a password identity with a canonical username,
      a 31-bit account and 64 bytes of seed; and as that identity. */
  lemma {:induction false} ParsedIff(m: Bytes, record: Record)
    ensures Parsed(m) == Some(record) <==>
              && record.kind == PasswordV2 && |record.seed| == 64 && record.account < 0x8000_0000
              && Usernames.Canonicalized(record.username) == Ok(record.username)
              && |record.username| <= 256 && m == Plaintext(record)
  {
    hide Be32, FromBe32, Usernames.Canonicalized;
    if Parsed(m) == Some(record) {
      ToBe(m[2..6]);
      var size: nat := m[6] as int * 256 + m[7] as int;
      assert size / 256 == m[6] && size % 256 == m[7];
      assert m == [m[0], m[1]] + m[2..6] + [m[6], m[7]] + m[8..8 + size] + m[8 + size..];
    } else if record.kind == PasswordV2 && |record.seed| == 64 && record.account < 0x8000_0000
           && Usernames.Canonicalized(record.username) == Ok(record.username) && |record.username| <= 256 && m == Plaintext(record) {
      NameSize(record.username);
      ParsedPlaintext(record);
    }
  }

  /** Where the fields of a plaintext are. */
  lemma {:induction false} PlaintextFields(record: Record)
    requires |record.username| <= 256
    ensures var m := Plaintext(record);
            && |m| == 8 + |record.username| + |record.seed| && m[0] == 1 && m[1] == 0
            && ((m[2] as int * 256 + m[3]) * 256 + m[4]) * 256 + m[5] == record.account
            && m[6] as int * 256 + m[7] == |record.username|
            && m[8..8 + |record.username|] == record.username && m[8 + |record.username|..] == record.seed
  {
    FromBe(record.account);
    hide Be32;
    var m := Plaintext(record);
    assert m[2..6] == Be32(record.account);
    assert m[2] == Be32(record.account)[0] && m[3] == Be32(record.account)[1] && m[4] == Be32(record.account)[2] && m[5] == Be32(record.account)[3];
  }

  // ---- all of it happens ----

  lemma {:induction false} SomeName()
    ensures Usernames.Canonicalized(Ascii("abc")) == Ok(Ascii("abc"))
  {
    assert Ascii("abc") == [97, 98, 99];
    Usernames.PlainName([97, 98, 99]);
  }

  /** There are lawful primitives, a run that leaves a live password identity, and keys with which
      it is transferred to an empty store. */
  lemma {:induction false} TransferHappens() returns (p: Primitives, ops: seq<Operation>, h: Handle, random: Key, r: Key)
    ensures Lawful(p) && Lookup(After(p, ops).slots, h) == Some(Record(Ascii("abc"), PasswordV2, 0, Repeat(0, 64)))
    ensures SealedHandle(p, After(p, ops), h, p.publicKey(Clamped(r)), Some(random)).Ok?
    ensures var box := SealedHandle(p, After(p, ops), h, p.publicKey(Clamped(r)), Some(random)).value;
            var (next, outcome) := Opened(p, After(p, [Begin(Some(r))]), box);
            outcome.Ok? && Lookup(next.slots, outcome.value) == Lookup(After(p, ops).slots, h)
  {
    hide Lawful, Usernames.Canonicalized, SealedHandle, Clamped, Lookup, PasswordDerived, Opened, Ascii;
    p := LawfulExists();
    random, r := Repeat(0, 32), Repeat(0, 32);
    var seed := Repeat<Byte>(0, 64);
    ops := [DerivePassword(Ascii("abc"), Ok(seed), 0)];
    SomeName();
    DeriveIff(p, [], Ascii("abc"), Ok(seed), 0);
    StartFree(p);
    var made := PasswordDerived(p, After(p, []), Ascii("abc"), Ok(seed), 0);
    h := made.1.value;
    assert ops[..0] == [] && After(p, ops) == made.0;
    TransferCompletes(p, ops, h, random, [], r, []);
    var begin := [Begin(Some(r))];
    assert [] + begin + [] == begin && begin[..0] == [];
    assert After(p, begin).slots == After(p, []).slots;
  }

  lemma {:induction false} StartFree(p: Primitives)
    ensures !Full(After(p, []))
  {
    assert Free(After(p, []).slots[0]);
  }
}
