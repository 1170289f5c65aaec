/** The caches of derived keys: by count in the key manager, by age in the keyring. */
module KeyCaches {
  import opened BigEndian
  import opened ExtendedKeys
  import opened Prelude
  import DerivationPaths

  /** A plain derivation from the master key, by path string. */
  function Fresh(c: Crypto, master: Key, path: Bytes): Result<Key> {
    match DerivationPaths.Parsed(path)
    case Fail(e) => Fail(e)
    case Ok(components) => Walk(c, master, components)
  }

  method DeriveFresh(c: Crypto, master: Key, path: Bytes) returns (r: Result<Key>)
    ensures r == Fresh(c, master, path)
  {
    hide Walk, DerivationPaths.Parsed;
    var components := DerivationPaths.Parse(path);
    if components.Fail? {
      return Fail(components.error);
    }
    r := DerivePath(c, master, components.value);
  }

  // ---- the key manager ----

  datatype Material = Material(privateKey: Bytes32, publicKey: Bytes33, chainCode: Bytes32, fingerprint: Word, path: Bytes)

  /** Purpose, coin, account and index as given by the caller that derived the key first. */
  datatype Metadata = Metadata(purpose: nat, coin: nat, account: Word, index: Word)

  datatype DerivedKey = DerivedKey(material: Material, metadata: Metadata)

  function FreshMaterial(c: Crypto, master: Key, path: Bytes): Result<Material> {
    match Fresh(c, master, path)
    case Fail(e) => Fail(e)
    case Ok(k) =>
      if !k.hasPrivate then Fail(KeyDerivationFailed)
      else Ok(Material(k.privateKey, k.publicKey, k.chainCode, Fingerprint(c, k), path))
  }

  function MaterialOf(r: Result<DerivedKey>): Result<Material> {
    match r
    case Fail(e) => Fail(e)
    case Ok(k) => Ok(k.material)
  }

  type Cache = map<Bytes, DerivedKey>

  datatype Manager = Manager(cache: Cache, max: nat, wiped: bool)

  datatype Operation = Derive(path: Bytes, metadata: Metadata, useCache: bool) | Resize(max: nat) | Clear | Wipe

  /** `cache` with entries thrown out, whichever they are, until `n` are left. */
  predicate Evicted(before: Cache, after: Cache, n: nat) {
    Part(before, after) && |after| == if |before| <= n then |before| else n
  }

  predicate Part(before: Cache, after: Cache) {
    forall p :: p in after ==> p in before && after[p] == before[p]
  }

  /** What one operation may do; only the choice of the evicted entries is left open. */
  predicate Steps(c: Crypto, master: Key, s: Manager, op: Operation, t: Manager, r: Result<DerivedKey>) {
    match op
    case Derive(path, metadata, useCache) =>
      && t.max == s.max && t.wiped == s.wiped
      && if s.wiped then r == Fail(Internal) && t == s
         else if useCache && path in s.cache then r == Ok(s.cache[path]) && t == s
         else
           var derived := FreshMaterial(c, master, path);
           && r == (match derived case Fail(e) => Fail(e) case Ok(m) => Ok(DerivedKey(m, metadata)))
           && if derived.Fail? || !useCache || s.max == 0 then t == s
              else path in t.cache && t.cache[path] == r.value && Evicted(s.cache, t.cache - {path}, s.max - 1)
    case Resize(max) => t.max == max && t.wiped == s.wiped && Evicted(s.cache, t.cache, max)
    case Clear => t == s.(cache := map[])
    case Wipe => t == Manager(map[], s.max, true)
  }

  /** Every cached key is what a fresh derivation of its path gives, and there are never too many. */
  predicate Sound(c: Crypto, master: Key, s: Manager) {
    && |s.cache| <= s.max
    && forall p :: p in s.cache ==> FreshMaterial(c, master, p) == Ok(s.cache[p].material)
  }

  lemma {:induction false} MaterialIs(c: Crypto, master: Key, path: Bytes)
    ensures FreshMaterial(c, master, path) ==
              match Fresh(c, master, path)
              case Fail(e) => Fail(e)
              case Ok(k) =>
                if !k.hasPrivate then Fail(KeyDerivationFailed)
                else Ok(Material(k.privateKey, k.publicKey, k.chainCode, Fingerprint(c, k), path))
  {
    hide Fresh, Fingerprint;
  }

  /** Storing a fresh key and throwing others out keeps the cache sound. */
  lemma {:induction false} PutKeeps(c: Crypto, master: Key, s: Manager, t: Manager, path: Bytes, derived: DerivedKey)
    requires Sound(c, master, s) && |t.cache| <= t.max && Part(s.cache, t.cache - {path})
    requires path in t.cache && t.cache[path] == derived && FreshMaterial(c, master, path) == Ok(derived.material)
    ensures Sound(c, master, t)
  {
    hide FreshMaterial;
    forall p | p in t.cache ensures FreshMaterial(c, master, p) == Ok(t.cache[p].material) {
      if p != path {
        assert p in t.cache - {path};
      }
    }
  }

  class KeyManager {
    const c: Crypto
    const original: Key
    var master: Key
    var cache: Cache
    var max: nat
    var wiped: bool

    ghost predicate Valid()
      reads this
    {
      (!wiped ==> master == original) && Sound(c, original, Contents())
    }

    ghost function Contents(): Manager
      reads this
    {
      Manager(cache, max, wiped)
    }

    /** A seed without a master key leaves a manager that is already wiped. */
    constructor (c: Crypto, seed: Bytes)
      ensures Valid() && Contents() == Manager(map[], 100, FromSeed(c, seed, Secp256k1).Fail? || |seed| != 64) && this.c == c
      ensures !wiped ==> FromSeed(c, seed, Secp256k1) == Ok(original)
    {
      hide FromSeed;
      var result := FromSeed(c, seed, Secp256k1);
      var key := if |seed| == 64 && result.Ok? then result.value
                 else Key(Secp256k1, 0, 0, 0, NO_KEY, Repeat(0, 33), NO_KEY, false);
      this.c := c;
      original := key;
      master := key;
      cache := map[];
      max := 100;
      wiped := |seed| != 64 || result.Fail?;
    }

    method DeriveKeyAtPath(path: Bytes, metadata: Metadata, useCache: bool) returns (r: Result<DerivedKey>)
      requires Valid()
      modifies this`cache
      ensures Valid() && Steps(c, original, old(Contents()), Derive(path, metadata, useCache), Contents(), r)
    {
      hide Fresh, FreshMaterial, Fingerprint;
      if wiped {
        return Fail(Internal);
      }
      if useCache && path in cache {
        return Ok(cache[path]);
      }
      var key := DeriveFresh(c, master, path);
      MaterialIs(c, master, path);
      if key.Fail? {
        return Fail(key.error);
      }
      if !key.value.hasPrivate {
        return Fail(KeyDerivationFailed);
      }
      var k := key.value;
      var derived := DerivedKey(Material(k.privateKey, k.publicKey, k.chainCode, Fingerprint(c, k), path), metadata);
      r := Ok(derived);
      if useCache && max > 0 {
        ghost var before := Contents();
        Put(path, derived);
        PutKeeps(c, original, before, Contents(), path, derived);
      }
    }

    method Put(path: Bytes, derived: DerivedKey)
      requires max > 0 && |cache| <= max && path !in cache
      modifies this`cache
      ensures |cache| <= max
      ensures path in cache && cache[path] == derived && Evicted(old(cache), cache - {path}, max - 1)
    {
      if |cache| >= max {
        EvictOne();
      }
      ghost var kept := cache;
      Grows(cache, path, derived);
      cache := cache[path := derived];
      assert cache - {path} == kept;
    }

    method EvictOne()
      requires cache != map[]
      modifies this`cache
      ensures Evicted(old(cache), cache, |old(cache)| - 1)
    {
      NonemptyKeys(cache);
      var victim :| victim in cache;
      Shrinks(cache, victim);
      cache := cache - {victim};
    }

    method SetCacheSize(n: nat)
      requires Valid()
      modifies this`cache, this`max
      ensures Valid() && Steps(c, original, old(Contents()), Resize(n), Contents(), Fail(Internal))
    {
      hide FreshMaterial;
      max := n;
      ghost var before := cache;
      if n == 0 {
        ClearEntries();
      } else {
        while |cache| > n
          invariant max == n
          invariant Part(before, cache) && (if |before| <= n then |cache| == |before| else |cache| >= n)
          decreases |cache|
        {
          EvictOne();
        }
      }
      EvictedSound(c, original, old(Contents()), Contents());
    }

    method ClearEntries()
      modifies this`cache
      ensures cache == map[]
    {
      cache := map[];
    }

    method ClearCache()
      requires Valid()
      modifies this`cache
      ensures Valid() && Steps(c, original, old(Contents()), Clear, Contents(), Fail(Internal))
    {
      ClearEntries();
    }

    method WipeAll()
      requires Valid()
      modifies this
      ensures Valid() && Steps(c, original, old(Contents()), Wipe, Contents(), Fail(Internal))
    {
      master := Neutered(master);
      ClearEntries();
      wiped := true;
    }
  }

  lemma {:induction false} NonemptyKeys(cache: Cache)
    requires cache != map[]
    ensures exists p :: p in cache
  {
  }

  lemma {:induction false} Shrinks(cache: Cache, p: Bytes)
    requires p in cache
    ensures |cache - {p}| == |cache| - 1
  {
    assert (cache - {p}).Keys == cache.Keys - {p};
  }

  lemma {:induction false} Grows(cache: Cache, p: Bytes, k: DerivedKey)
    requires p !in cache
    ensures |cache[p := k]| == |cache| + 1
  {
    assert cache[p := k].Keys == cache.Keys + {p};
  }

  lemma {:induction false} EvictedSound(c: Crypto, master: Key, s: Manager, t: Manager)
    requires Sound(c, master, s) && Evicted(s.cache, t.cache, t.max)
    ensures Sound(c, master, t)
  {
    hide FreshMaterial;
  }

  // ---- transparency over whole runs ----

  /** A run of the manager: the states it passes through and what each operation returned. */
  ghost predicate IsRun(c: Crypto, master: Key, states: seq<Manager>, ops: seq<Operation>, results: seq<Result<DerivedKey>>) {
    && |states| == |ops| + 1 && |results| == |ops|
    && forall i :: 0 <= i < |ops| ==> Steps(c, master, states[i], ops[i], states[i + 1], results[i])
  }

  lemma {:induction false} StepKeepsSound(c: Crypto, master: Key, s: Manager, op: Operation, t: Manager, r: Result<DerivedKey>)
    requires Sound(c, master, s) && Steps(c, master, s, op, t, r)
    ensures Sound(c, master, t)
    ensures op.Derive? ==> MaterialOf(r) == if s.wiped then Fail(Internal) else FreshMaterial(c, master, op.path)
  {
    hide FreshMaterial;
    if op.Derive? && t != s {
      forall p | p in t.cache ensures FreshMaterial(c, master, p) == Ok(t.cache[p].material) {
        if p != op.path {
          assert p in t.cache - {op.path};
        }
      }
      assert t.cache == (t.cache - {op.path})[op.path := t.cache[op.path]];
      Grows(t.cache - {op.path}, op.path, t.cache[op.path]);
    }
  }

  /** Whatever was cached, evicted, resized or cleared before, every key returned has the private
      key, public key, chain code, fingerprint and path of a fresh derivation; after a wipe
      every derivation fails; and the cache never holds more than its current maximum. */
  lemma {:induction false} RunsAreTransparent(c: Crypto, master: Key, states: seq<Manager>, ops: seq<Operation>,
                                              results: seq<Result<DerivedKey>>, i: nat)
    requires IsRun(c, master, states, ops, results) && Sound(c, master, states[0]) && i < |ops|
    ensures |states[i].cache| <= states[i].max && |states[i + 1].cache| <= states[i + 1].max
    ensures ops[i].Derive? ==> MaterialOf(results[i]) == if states[i].wiped then Fail(Internal) else FreshMaterial(c, master, ops[i].path)
    ensures Sound(c, master, states[i + 1])
  {
    hide FreshMaterial, Steps;
    if i > 0 {
      RunsAreTransparent(c, master, states, ops, results, i - 1);
    }
    StepKeepsSound(c, master, states[i], ops[i], states[i + 1], results[i]);
    hide MaterialOf;
  }

  /** A derivation that succeeded with the cache in use is repeated from it: the same key, metadata
      of the first one included, and no change. */
  lemma {:induction false} RepeatedDerivation(c: Crypto, master: Key, s: Manager, t: Manager, u: Manager, path: Bytes, first: Metadata, second: Metadata,
                                              r: Result<DerivedKey>, again: Result<DerivedKey>)
    requires s.max > 0 && Steps(c, master, s, Derive(path, first, true), t, r) && r.Ok?
    requires Steps(c, master, t, Derive(path, second, true), u, again)
    ensures again == r && u == t && (path !in s.cache ==> r.value.metadata == first)
  {
    hide FreshMaterial;
  }

  /** Storing a key throws nothing out below the maximum, and one other entry at it. */
  lemma {:induction false} EvictsOnlyWhenFull(c: Crypto, master: Key, s: Manager, t: Manager, path: Bytes, m: Metadata, r: Result<DerivedKey>)
    requires Sound(c, master, s) && s.max > 0 && path !in s.cache && Steps(c, master, s, Derive(path, m, true), t, r) && r.Ok?
    ensures path in t.cache && (forall p :: p in t.cache && p != path ==> p in s.cache && t.cache[p] == s.cache[p])
    ensures |s.cache| < s.max ==> forall p :: p in s.cache ==> p in t.cache
    ensures |t.cache| == if |s.cache| < s.max then |s.cache| + 1 else s.max
  {
    hide FreshMaterial;
    var kept := t.cache - {path};
    assert t.cache == kept[path := t.cache[path]];
    Grows(kept, path, t.cache[path]);
    forall p | p in t.cache && p != path ensures p in s.cache && t.cache[p] == s.cache[p] {
      assert p in kept;
    }
    if |s.cache| < s.max {
      SubsetAll(s.cache, kept);
    }
  }

  lemma {:induction false} SubsetAll(whole: Cache, part: Cache)
    requires Part(whole, part) && |part| == |whole|
    ensures forall p :: p in whole ==> p in part
  {
    assert part.Keys <= whole.Keys;
    if part.Keys != whole.Keys {
      SmallerSet(part.Keys, whole.Keys);
    }
  }

  lemma {:induction false} SmallerSet(a: set<Bytes>, b: set<Bytes>)
    requires a < b
    ensures |a| < |b|
  {
    assert b == a + (b - a);
    assert |b| == |a| + |b - a|;
  }

  /** After a wipe every derivation fails. */
  lemma {:induction false} WipedForever(c: Crypto, master: Key, states: seq<Manager>, ops: seq<Operation>, results: seq<Result<DerivedKey>>, i: nat, j: nat)
    requires IsRun(c, master, states, ops, results) && i < j < |ops| && ops[i].Wipe?
    ensures states[j].wiped && (ops[j].Derive? ==> results[j] == Fail(Internal))
    decreases j
  {
    hide FreshMaterial, Evicted;
    assert Steps(c, master, states[j - 1], ops[j - 1], states[j], results[j - 1]);
    if i < j - 1 {
      WipedForever(c, master, states, ops, results, i, j - 1);
    }
    assert Steps(c, master, states[j], ops[j], states[j + 1], results[j]);
  }

  // ---- the keyring ----

  const TTL := 300

  datatype Cached = Cached(key: Key, cachedAt: int)

  /** Without a clock on either side nothing expires. */
  predicate IsExpired(entry: Cached, now: int) {
    now > 0 && entry.cachedAt > 0 && now - entry.cachedAt > TTL
  }

  type Wallet = map<Bytes, Cached>

  /** The entry a derivation at `now` is answered from. */
  function Served(w: Wallet, path: Bytes, now: int): Option<Cached> {
    if path in w && !IsExpired(w[path], now) then Some(w[path]) else None
  }

  /** `deriveKeyInternal`: an expired entry is erased first, and comes back only if the derivation succeeds. */
  function KeyringDerived(c: Crypto, master: Key, w: Wallet, path: Bytes, now: int): (Wallet, Result<Key>) {
    match Served(w, path, now)
    case Some(entry) => (w, Ok(entry.key))
    case None =>
      match Fresh(c, master, path)
      case Fail(e) => (w - {path}, Fail(e))
      case Ok(k) => (w[path := Cached(k, now)], Ok(k))
  }

  function Unexpired(w: Wallet, now: int): Wallet {
    if now <= 0 then w else map p | p in w && !IsExpired(w[p], now) :: w[p]
  }

  class WalletEntry {
    const c: Crypto
    const master: Key
    var keyCache: Wallet

    constructor (c: Crypto, master: Key)
      ensures keyCache == map[] && this.c == c && this.master == master
    {
      this.c := c;
      this.master := master;
      keyCache := map[];
    }

    method DeriveKey(path: Bytes, now: int) returns (r: Result<Key>)
      modifies this`keyCache
      ensures (keyCache, r) == KeyringDerived(c, master, old(keyCache), path, now)
    {
      hide Fresh;
      if path in keyCache {
        if IsExpired(keyCache[path], now) {
          keyCache := keyCache - {path};
        } else {
          return Ok(keyCache[path].key);
        }
      }
      ghost var w := keyCache;
      r := DeriveFresh(c, master, path);
      if r.Fail? {
        assert old(keyCache) - {path} == w;
        return;
      }
      keyCache := keyCache[path := Cached(r.value, now)];
      assert old(keyCache)[path := Cached(r.value, now)] == keyCache;
    }

    /** Erases expired entries one after another. */
    method ClearExpired(now: int)
      modifies this`keyCache
      ensures keyCache == Unexpired(old(keyCache), now)
    {
      if now <= 0 {
        return;
      }
      var left := keyCache.Keys;
      ghost var before := keyCache;
      while left != {}
        invariant left <= before.Keys
        invariant forall p :: p in keyCache <==> p in before && (p in left || !IsExpired(before[p], now))
        invariant forall p :: p in keyCache ==> keyCache[p] == before[p]
        decreases left
      {
        var p :| p in left;
        if IsExpired(keyCache[p], now) {
          keyCache := keyCache - {p};
        }
        left := left - {p};
      }
    }

    method Clear()
      modifies this`keyCache
      ensures keyCache == map[]
    {
      keyCache := map[];
    }
  }

  datatype KeyringOp = KeyringDerive(path: Bytes, now: int) | ClearExpired(now: int) | ClearAll

  function KeyringNext(c: Crypto, master: Key, w: Wallet, op: KeyringOp): Wallet {
    match op
    case KeyringDerive(path, now) => KeyringDerived(c, master, w, path, now).0
    case ClearExpired(now) => Unexpired(w, now)
    case ClearAll => map[]
  }

  function KeyringAfter(c: Crypto, master: Key, ops: seq<KeyringOp>): Wallet {
    if ops == [] then map[] else KeyringNext(c, master, KeyringAfter(c, master, ops[..|ops| - 1]), ops[|ops| - 1])
  }

  /** Operation `j` derived `path` afresh. */
  predicate DerivedAt(c: Crypto, master: Key, ops: seq<KeyringOp>, path: Bytes, j: nat) {
    && j < |ops| && ops[j].KeyringDerive? && ops[j].path == path
    && Served(KeyringAfter(c, master, ops[..j]), path, ops[j].now) == None
  }

  /** An entry present after a run holds a fresh derivation, made by an earlier operation at the
      time the entry carries. */
  lemma {:induction false} EntriesAreDerived(c: Crypto, master: Key, ops: seq<KeyringOp>, path: Bytes) returns (j: nat)
    requires path in KeyringAfter(c, master, ops)
    ensures DerivedAt(c, master, ops, path, j) && KeyringAfter(c, master, ops)[path].cachedAt == ops[j].now
    ensures Fresh(c, master, path) == Ok(KeyringAfter(c, master, ops)[path].key)
  {
    hide Fresh;
    var k := |ops| - 1;
    var before := ops[..k];
    var op := ops[k];
    if op.KeyringDerive? && op.path == path && Served(KeyringAfter(c, master, before), path, op.now) == None {
      j := k;
    } else {
      j := EntriesAreDerived(c, master, before, path);
      assert before[..j] == ops[..j];
    }
  }

  /** In any run the keyring returns what a fresh derivation returns, and when it answers from
      its cache the key was derived by an earlier operation, at most 300 seconds before if both
      clocks worked. */
  lemma {:induction false} KeyringIsTransparent(c: Crypto, master: Key, ops: seq<KeyringOp>, path: Bytes, now: int)
    ensures KeyringDerived(c, master, KeyringAfter(c, master, ops), path, now).1 == Fresh(c, master, path)
    ensures Served(KeyringAfter(c, master, ops), path, now).Some? ==>
              exists j: nat :: DerivedAt(c, master, ops, path, j) && (now > 0 && ops[j].now > 0 ==> now - ops[j].now <= TTL)
  {
    hide Fresh;
    if Served(KeyringAfter(c, master, ops), path, now).Some? {
      var j := EntriesAreDerived(c, master, ops, path);
      assert DerivedAt(c, master, ops, path, j);
    }
  }

  /** More than 300 seconds lie between, by two clocks that work. */
  predicate TooOld(since: int, now: int) { since > 0 && now > 0 && now - since > 300 }

  /** Operation `j` derived `path` with success, and nothing since has cleared the entry. */
  predicate Lasts(c: Crypto, master: Key, ops: seq<KeyringOp>, path: Bytes, j: nat) {
    && DerivedAt(c, master, ops, path, j) && Fresh(c, master, path).Ok?
    && forall i :: j < i < |ops| ==>
         match ops[i]
         case ClearAll => false
         case ClearExpired(now) => !TooOld(ops[j].now, now)
         case KeyringDerive(other, now) => other == path ==> !TooOld(ops[j].now, now)
  }

  lemma {:induction false} PresentLasts(c: Crypto, master: Key, ops: seq<KeyringOp>, path: Bytes) returns (j: nat)
    requires path in KeyringAfter(c, master, ops)
    ensures Lasts(c, master, ops, path, j) && KeyringAfter(c, master, ops)[path].cachedAt == ops[j].now
  {
    hide Fresh;
    var k := |ops| - 1;
    var before := ops[..k];
    var op := ops[k];
    if op.KeyringDerive? && op.path == path && Served(KeyringAfter(c, master, before), path, op.now) == None {
      j := k;
    } else {
      j := PresentLasts(c, master, before, path);
      assert before[..j] == ops[..j];
      assert forall i :: j < i < k ==> ops[i] == before[i];
    }
  }

  lemma {:induction false} LastsPresent(c: Crypto, master: Key, ops: seq<KeyringOp>, path: Bytes, j: nat)
    requires Lasts(c, master, ops, path, j)
    ensures path in KeyringAfter(c, master, ops) && KeyringAfter(c, master, ops)[path].cachedAt == ops[j].now
  {
    hide Fresh;
    var k := |ops| - 1;
    var before := ops[..k];
    if j < k {
      assert before[..j] == ops[..j];
      assert forall i :: j < i < k ==> ops[i] == before[i];
      LastsPresent(c, master, before, path, j);
      assert ops[k] == ops[k];
    }
  }

  /** The keyring answers from its cache exactly when an earlier operation derived the path, nothing
      has cleared the entry since, and it is not more than 300 seconds old by clocks that work. */
  lemma {:induction false} ServedIff(c: Crypto, master: Key, ops: seq<KeyringOp>, path: Bytes, now: int)
    ensures Served(KeyringAfter(c, master, ops), path, now).Some? <==>
              exists j: nat :: j < |ops| && ops[j].KeyringDerive? && Lasts(c, master, ops, path, j) && !TooOld(ops[j].now, now)
  {
    hide Lasts, KeyringAfter;
    var w := KeyringAfter(c, master, ops);
    if path in w {
      var j := PresentLasts(c, master, ops, path);
      LastsIn(c, master, ops, path, j);
    }
    forall j: nat | Lasts(c, master, ops, path, j) ensures j < |ops| && ops[j].KeyringDerive? && path in w && w[path].cachedAt == ops[j].now {
      LastsIn(c, master, ops, path, j);
      LastsPresent(c, master, ops, path, j);
    }
  }

  lemma {:induction false} LastsIn(c: Crypto, master: Key, ops: seq<KeyringOp>, path: Bytes, j: nat)
    requires Lasts(c, master, ops, path, j)
    ensures j < |ops| && ops[j].KeyringDerive?
  {
  }
}
