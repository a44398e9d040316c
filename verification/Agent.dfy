/** The keys loaded into the SSH agent and the databases they come from
    (internal/sshagent/manager.go, server.go).

    SHA-256 is injective here. Iterating a Go map is nondeterministic choice.
    Unlock and lock events are those the daemon delivers. */
module Agent {
  import opened Text
  import opened Wrappers
  import opened Wire

  datatype Key = Key(blob: Bytes, comment: Bytes, entryUUID: string)

  datatype Fingerprint = Empty | Sha256(blob: Bytes)

  function FingerprintOf(blob: Bytes): Fingerprint {
    if blob == [] then Empty else Sha256(blob)
  }

  datatype LoadedKey = LoadedKey(key: Key, lifetime: nat, confirm: bool, autoRemove: bool,
                                 dbUUID: string, entryUUID: string)

  type Keys = map<Fingerprint, LoadedKey>

  datatype Config = Config(enabled: bool, lifetime: int, confirmOnUse: bool, removeOnLock: bool)

  predicate WellKeyed(m: Keys) {
    forall fp | fp in m :: fp == FingerprintOf(m[fp].key.blob)
  }

  predicate FiledIn(lk: LoadedKey, m: Keys) {
    FingerprintOf(lk.key.blob) in m && m[FingerprintOf(lk.key.blob)] == lk
  }

  // Every loaded key once, and nothing else.
  predicate ListsAll(lks: seq<LoadedKey>, m: Keys) {
    && (forall i :: 0 <= i < |lks| ==> FiledIn(lks[i], m))
    && (forall i, j :: 0 <= i < j < |lks| ==> lks[i] != lks[j])
    && (forall fp | fp in m :: m[fp] in lks)
  }

  function Blobs(lks: seq<LoadedKey>): seq<Bytes> {
    seq(|lks|, i requires 0 <= i < |lks| => lks[i].key.blob)
  }

  function Comments(lks: seq<LoadedKey>): seq<Bytes> {
    seq(|lks|, i requires 0 <= i < |lks| => lks[i].key.comment)
  }

  function Shown(lks: seq<LoadedKey>): seq<(Bytes, Bytes)> {
    seq(|lks|, i requires 0 <= i < |lks| => (lks[i].key.blob, lks[i].key.comment))
  }

  function WithoutDatabase(m: Keys, db: string): Keys {
    map fp | fp in m && !(m[fp].dbUUID == db && m[fp].autoRemove) :: m[fp]
  }

  // ---- The identity manager ----------------------------------------------------

  class IdentityManager {
    var keys: Keys

    ghost predicate Valid()
      reads this
    {
      WellKeyed(keys)
    }

    constructor ()
      ensures Valid() && keys == map[]
    {
      keys := map[];
    }

    method AddIdentity(key: Key, lifetime: nat, confirm: bool, autoRemove: bool, dbUUID: string, entryUUID: string)
      requires Valid()
      modifies this
      ensures Valid()
      ensures keys == old(keys)[FingerprintOf(key.blob) :=
                                LoadedKey(key, lifetime, confirm, autoRemove, dbUUID, entryUUID)]
    {
      var fp := FingerprintOf(key.blob);
      keys := keys[fp := LoadedKey(key, lifetime, confirm, autoRemove, dbUUID, entryUUID)];
    }

    method RemoveIdentity(fp: Fingerprint) returns (ok: bool)
      requires Valid()
      modifies this
      ensures Valid() && ok == (fp in old(keys)) && keys == old(keys) - {fp}
    {
      if fp !in keys {
        return false;
      }
      keys := keys - {fp};
      return true;
    }

    method RemoveAllIdentities()
      modifies this
      ensures Valid() && keys == map[]
    {
      keys := map[];
    }

    // The order of the result is the order the map is iterated in.
    method ListIdentities() returns (lks: seq<LoadedKey>)
      requires Valid()
      ensures ListsAll(lks, keys)
    {
      lks := [];
      var left := keys.Keys;
      while left != {}
        invariant left <= keys.Keys
        invariant forall i :: 0 <= i < |lks| ==> FiledIn(lks[i], keys) && FingerprintOf(lks[i].key.blob) !in left
        invariant forall i, j :: 0 <= i < j < |lks| ==> lks[i] != lks[j]
        invariant forall fp | fp in keys :: fp in left || keys[fp] in lks
        decreases left
      {
        var fp :| fp in left;
        lks := lks + [keys[fp]];
        left := left - {fp};
      }
    }

    // The one loaded key whose blob has this fingerprint, if there is one.
    method FindIdentityByFingerprint(fp: Fingerprint) returns (lk: Option<LoadedKey>)
      requires Valid()
      ensures forall l :: lk == Some(l) <==> l in keys.Values && FingerprintOf(l.key.blob) == fp
    {
      lk := if fp in keys then Some(keys[fp]) else None;
    }

    /** Comparing the blobs of all loaded keys finds the key filed under the
        fingerprint of the blob, and only that one. */
    method FindIdentityByBlob(blob: Bytes) returns (lk: Option<LoadedKey>)
      requires Valid()
      ensures lk == if FingerprintOf(blob) in keys then Some(keys[FingerprintOf(blob)]) else None
    {
      var left := keys.Keys;
      while left != {}
        invariant left <= keys.Keys
        invariant forall fp | fp in keys && fp !in left :: keys[fp].key.blob != blob
        decreases left
      {
        var fp :| fp in left;
        if keys[fp].key.blob == blob {
          return Some(keys[fp]);
        }
        left := left - {fp};
      }
      return None;
    }

    method RemoveIdentitiesForDatabase(dbUUID: string)
      requires Valid()
      modifies this
      ensures Valid() && keys == WithoutDatabase(old(keys), dbUUID)
    {
      var left := keys.Keys;
      while left != {}
        invariant left <= keys.Keys && keys.Keys <= old(keys).Keys
        invariant forall fp | fp in keys :: keys[fp] == old(keys)[fp]
        invariant forall fp | fp in old(keys) && fp !in left ::
                    fp in keys <==> fp in WithoutDatabase(old(keys), dbUUID)
        decreases left
      {
        var fp :| fp in left;
        if keys[fp].dbUUID == dbUUID && keys[fp].autoRemove {
          keys := keys - {fp};
        }
        left := left - {fp};
      }
    }
  }

  // ---- Events and their effect on the map -------------------------------------------

  datatype Event = Unlock(db: string, keys: seq<Key>) | Lock(db: string) | Remove(blob: Bytes) | RemoveAll

  function Load(cfg: Config, db: string, key: Key): LoadedKey {
    LoadedKey(key, cfg.lifetime % WORD, cfg.confirmOnUse, cfg.removeOnLock, db, key.entryUUID)
  }

  function AddedAll(cfg: Config, m: Keys, db: string, keys: seq<Key>): Keys {
    if keys == [] then m
    else
      var last := keys[|keys| - 1];
      AddedAll(cfg, m, db, keys[..|keys| - 1])[FingerprintOf(last.blob) := Load(cfg, db, last)]
  }

  function Step(cfg: Config, m: Keys, e: Event): Keys {
    match e
    case Unlock(db, keys) => if cfg.enabled then AddedAll(cfg, m, db, keys) else m
    case Lock(db) => if cfg.enabled then WithoutDatabase(m, db) else m
    case Remove(blob) => m - {FingerprintOf(blob)}
    case RemoveAll => map[]
  }

  function Run(cfg: Config, events: seq<Event>): Keys {
    if events == [] then map[] else Step(cfg, Run(cfg, events[..|events| - 1]), events[|events| - 1])
  }

  // ---- The agent ----------------------------------------------------------------------

  const FAILURE: Byte := 5
  const SUCCESS: Byte := 6
  const SIGN_RESPONSE: Byte := 14

  class AgentServer {
    const config: Config
    const manager: IdentityManager

    constructor (config: Config)
      ensures this.config == config && fresh(manager) && manager.Valid() && manager.keys == map[]
    {
      this.config := config;
      manager := new IdentityManager();
    }

    method OnDatabaseUnlocked(db: string, keys: seq<Key>)
      requires manager.Valid()
      modifies manager
      ensures manager.Valid() && manager.keys == Step(config, old(manager.keys), Unlock(db, keys))
    {
      if !config.enabled {
        return;
      }
      for i := 0 to |keys|
        invariant manager.Valid() && manager.keys == AddedAll(config, old(manager.keys), db, keys[..i])
      {
        manager.AddIdentity(keys[i], config.lifetime % WORD, config.confirmOnUse, config.removeOnLock, db, keys[i].entryUUID);
        assert keys[..i + 1][..i] == keys[..i];
      }
      assert keys[..|keys|] == keys;
    }

    method OnDatabaseLocked(db: string)
      requires manager.Valid()
      modifies manager
      ensures manager.Valid() && manager.keys == Step(config, old(manager.keys), Lock(db))
    {
      if !config.enabled {
        return;
      }
      manager.RemoveIdentitiesForDatabase(db);
    }

    /** The payload names a key by its blob and holds nothing else; that key, and
        no other, is removed. */
    method HandleRemoveIdentity(payload: Bytes) returns (resp: Bytes)
      requires manager.Valid() && |payload| < WORD
      modifies manager
      ensures manager.Valid()
      ensures forall blob | payload == Prefixed(blob) ::
                && manager.keys == Step(config, old(manager.keys), Remove(blob))
                && resp == [if FingerprintOf(blob) in old(manager.keys) then 6 else 5]
      ensures (forall blob :: payload != Prefixed(blob)) ==> manager.keys == old(manager.keys) && resp == [5]
    {
      forall blob ensures DecodeString(payload) == Some((blob, [])) <==> payload == Prefixed(blob) {
        DecodeStringIff(payload, blob, []);
        assert Prefixed(blob) + [] == Prefixed(blob);
      }
      var read := DecodeString(payload);
      if read.None? || read.value.1 != [] {
        return [FAILURE];
      }
      var lk := manager.FindIdentityByBlob(read.value.0);
      if lk.None? {
        return [FAILURE];
      }
      var _ := manager.RemoveIdentity(FingerprintOf(lk.value.key.blob));
      return [SUCCESS];
    }

    method HandleRemoveAllIdentities() returns (resp: Bytes)
      modifies manager
      ensures manager.Valid() && manager.keys == Step(config, old(manager.keys), RemoveAll) && resp == [6]
    {
      manager.RemoveAllIdentities();
      return [SUCCESS];
    }

    /** The answer is that for every loaded key once, and a client decodes from it
        the blob and comment of every loaded key once. */
    method HandleListIdentities() returns (resp: Bytes)
      requires manager.Valid()
      ensures exists lks :: ListsAll(lks, manager.keys) && resp == Answer(Blobs(lks), Comments(lks))
                            && (|resp| < WORD ==> DecodeIdentitiesAnswer(resp) == Some(Shown(lks)))
    {
      var lks := manager.ListIdentities();
      resp := EncodeIdentitiesAnswer(Blobs(lks), Comments(lks));
      assert Listed(Blobs(lks), Comments(lks)) == Shown(lks);
      if |resp| < WORD {
        AnswerRoundTrip(Blobs(lks), Comments(lks));
      }
    }

    /** A request is answered with a signature iff it has the format of a sign
        request, its key is loaded, its flags are 0, 2 or 4, and the signer signs. */
    method HandleSignRequest(payload: Bytes, sign: (Key, Bytes, Algorithm) -> Option<Bytes>) returns (resp: Option<Bytes>)
      requires manager.Valid() && |payload| < WORD
      ensures forall req | IsSignRequest(payload, req) && FingerprintOf(req.blob) in manager.keys && req.flags in {0, 2, 4} ::
                var key := manager.keys[FingerprintOf(req.blob)].key;
                var signature := sign(key, req.data, SignatureAlgorithm(req.flags).value);
                key.blob == req.blob
                && resp == if signature.None? then None else Some([14] + Prefixed(signature.value))
      ensures resp.Some? ==> exists req :: IsSignRequest(payload, req) && FingerprintOf(req.blob) in manager.keys
                                           && req.flags in {0, 2, 4}
    {
      forall req ensures ParseSignRequest(payload) == Some(req) <==> IsSignRequest(payload, req) {
        ParseSignRequestIff(payload, req);
      }
      var parsed := ParseSignRequest(payload);
      if parsed.None? {
        return None;
      }
      var req := parsed.value;
      var lk := manager.FindIdentityByBlob(req.blob);
      if lk.None? {
        return None;
      }
      var algorithm := SignatureAlgorithm(req.flags);
      if algorithm.None? {
        return None;
      }
      var signature := sign(lk.value.key, req.data, algorithm.value);
      if signature.None? {
        return None;
      }
      resp := Some([SIGN_RESPONSE] + Prefixed(signature.value));
    }
  }

  // ---- Whole runs ----------------------------------------------------------------------

  // The last of these keys with this fingerprint.
  function LastWith(keys: seq<Key>, fp: Fingerprint): Option<Key> {
    if keys == [] then None
    else if FingerprintOf(keys[|keys| - 1].blob) == fp then Some(keys[|keys| - 1])
    else LastWith(keys[..|keys| - 1], fp)
  }

  predicate Names(e: Event, fp: Fingerprint) {
    e.Unlock? && LastWith(e.keys, fp).Some?
  }

  lemma {:induction false} AddedAllLookup(cfg: Config, m: Keys, db: string, keys: seq<Key>, fp: Fingerprint)
    ensures var m' := AddedAll(cfg, m, db, keys);
            match LastWith(keys, fp)
            case Some(key) => fp in m' && m'[fp] == Load(cfg, db, key)
            case None => (fp in m' <==> fp in m) && (fp in m ==> m'[fp] == m[fp])
  {
    if keys != [] {
      AddedAllLookup(cfg, m, db, keys[..|keys| - 1], fp);
    }
  }

  // This event takes the key out, or gives it to another database.
  predicate Ends(cfg: Config, e: Event, fp: Fingerprint, db: string) {
    match e
    case Unlock(_, _) => Names(e, fp)
    case Lock(d) => cfg.removeOnLock && d == db
    case Remove(blob) => FingerprintOf(blob) == fp
    case RemoveAll => true
  }

  // Event i loaded this key, and nothing after it took it out.
  ghost predicate LoadedBy(cfg: Config, events: seq<Event>, i: nat, fp: Fingerprint, lk: LoadedKey) {
    && i < |events| && Names(events[i], fp)
    && lk == Load(cfg, events[i].db, LastWith(events[i].keys, fp).value)
    && forall j | i < j < |events| :: !Ends(cfg, events[j], fp, events[i].db)
  }

  lemma LoadedByStep(cfg: Config, events: seq<Event>, i: nat, fp: Fingerprint, lk: LoadedKey)
    requires i < |events| - 1
    ensures LoadedBy(cfg, events, i, fp, lk) <==>
              && LoadedBy(cfg, events[..|events| - 1], i, fp, lk)
              && !Ends(cfg, events[|events| - 1], fp, events[i].db)
  {
  }

  /** A key is loaded after a run, with these constraints and this owner, iff some
      unlock of its owner loaded it and no later event ended it. */
  lemma {:induction false} LoadedIff(cfg: Config, events: seq<Event>, fp: Fingerprint, lk: LoadedKey)
    requires cfg.enabled
    ensures (fp in Run(cfg, events) && Run(cfg, events)[fp] == lk) <==> exists i: nat :: LoadedBy(cfg, events, i, fp, lk)
  {
    if events != [] {
      var n := |events| - 1;
      var init, e := events[..n], events[n];
      LoadedIff(cfg, init, fp, lk);
      if e.Unlock? {
        AddedAllLookup(cfg, Run(cfg, init), e.db, e.keys, fp);
      }
      if fp in Run(cfg, events) && Run(cfg, events)[fp] == lk {
        if Names(e, fp) {
          assert LoadedBy(cfg, events, n, fp, lk);
        } else {
          var i: nat :| LoadedBy(cfg, init, i, fp, lk);
          LoadedByStep(cfg, events, i, fp, lk);
        }
      }
      if i: nat :| LoadedBy(cfg, events, i, fp, lk) {
        if i < n {
          LoadedByStep(cfg, events, i, fp, lk);
        }
      }
    }
  }

  /** A loaded key is filed under the fingerprint of its blob, removable iff keys are
      removed on lock, and carries the configured confirmation and the lifetime as a
      32-bit number. */
  lemma LoadedKeysCarry(cfg: Config, events: seq<Event>, fp: Fingerprint)
    requires cfg.enabled && fp in Run(cfg, events)
    ensures var lk := Run(cfg, events)[fp];
            && FingerprintOf(lk.key.blob) == fp && lk.entryUUID == lk.key.entryUUID
            && lk.autoRemove == cfg.removeOnLock && lk.confirm == cfg.confirmOnUse
            && lk.lifetime < WORD && (0 <= cfg.lifetime < WORD ==> lk.lifetime == cfg.lifetime)
            && exists i :: 0 <= i < |events| && events[i].Unlock? && events[i].db == lk.dbUUID && lk.key in events[i].keys
  {
    var lk := Run(cfg, events)[fp];
    LoadedIff(cfg, events, fp, lk);
    var i: nat :| LoadedBy(cfg, events, i, fp, lk);
    LastWithIsThere(events[i].keys, fp);
  }

  lemma {:induction false} LastWithIsThere(keys: seq<Key>, fp: Fingerprint)
    requires LastWith(keys, fp).Some?
    ensures LastWith(keys, fp).value in keys && FingerprintOf(LastWith(keys, fp).value.blob) == fp
  {
    if FingerprintOf(keys[|keys| - 1].blob) != fp {
      LastWithIsThere(keys[..|keys| - 1], fp);
    }
  }

  /** A disabled agent never holds a key. */
  lemma {:induction false} DisabledHoldsNothing(cfg: Config, events: seq<Event>)
    requires !cfg.enabled
    ensures Run(cfg, events) == map[]
  {
    if events != [] {
      DisabledHoldsNothing(cfg, events[..|events| - 1]);
    }
  }

  function Fingerprints(keys: seq<Key>): set<Fingerprint> {
    set k | k in keys :: FingerprintOf(k.blob)
  }

  // For each unlocked database, the fingerprints its unlocks named since it was
  // last locked.
  function OpenKeys(events: seq<Event>): map<string, set<Fingerprint>> {
    if events == [] then map[]
    else
      var open := OpenKeys(events[..|events| - 1]);
      match events[|events| - 1]
      case Unlock(db, keys) => open[db := (if db in open then open[db] else {}) + Fingerprints(keys)]
      case Lock(db) => open - {db}
      case _ => open
  }

  predicate InOpen(events: seq<Event>, db: string, fp: Fingerprint) {
    db in OpenKeys(events) && fp in OpenKeys(events)[db]
  }

  // The database of the last unlock that named this key.
  function LastUnlocker(events: seq<Event>, fp: Fingerprint): Option<string> {
    if events == [] then None
    else if Names(events[|events| - 1], fp) then Some(events[|events| - 1].db)
    else LastUnlocker(events[..|events| - 1], fp)
  }

  lemma {:induction false} NamesIff(keys: seq<Key>, fp: Fingerprint)
    ensures LastWith(keys, fp).Some? <==> fp in Fingerprints(keys)
  {
    if keys != [] {
      NamesIff(keys[..|keys| - 1], fp);
      assert keys == keys[..|keys| - 1] + [keys[|keys| - 1]];
    }
  }

  predicate NoRemovals(events: seq<Event>) {
    forall e | e in events :: e.Unlock? || e.Lock?
  }

  /** No loaded key belongs to a locked database, even when databases share keys
      and clients remove some: its owner is unlocked and named it. */
  lemma {:induction false} OwnerIsUnlocked(cfg: Config, events: seq<Event>, fp: Fingerprint)
    requires cfg.enabled && cfg.removeOnLock && fp in Run(cfg, events)
    ensures Run(cfg, events)[fp].autoRemove && LastUnlocker(events, fp) == Some(Run(cfg, events)[fp].dbUUID)
    ensures InOpen(events, Run(cfg, events)[fp].dbUUID, fp)
  {
    var init, e := events[..|events| - 1], events[|events| - 1];
    if e.Unlock? {
      AddedAllLookup(cfg, Run(cfg, init), e.db, e.keys, fp);
      NamesIff(e.keys, fp);
    }
    if !Names(e, fp) {
      OwnerIsUnlocked(cfg, init, fp);
    }
  }

  /** Without explicit removals a key is loaded iff the database that named it last
      still has it open. */
  lemma {:induction false} LoadedIffLastUnlockerOpen(cfg: Config, events: seq<Event>, fp: Fingerprint)
    requires cfg.enabled && cfg.removeOnLock && NoRemovals(events)
    ensures fp in Run(cfg, events) <==>
              LastUnlocker(events, fp).Some? && InOpen(events, LastUnlocker(events, fp).value, fp)
  {
    if events != [] {
      var init, e := events[..|events| - 1], events[|events| - 1];
      LoadedIffLastUnlockerOpen(cfg, init, fp);
      if fp in Run(cfg, init) {
        OwnerIsUnlocked(cfg, init, fp);
      }
      if e.Unlock? {
        AddedAllLookup(cfg, Run(cfg, init), e.db, e.keys, fp);
        NamesIff(e.keys, fp);
      }
    }
  }

  // No two databases ever hold the same key.
  predicate Disjoint(events: seq<Event>) {
    forall e, f | e in events && f in events && e.Unlock? && f.Unlock? && e.db != f.db ::
      Fingerprints(e.keys) !! Fingerprints(f.keys)
  }

  lemma {:induction false} OpenWasNamed(events: seq<Event>, db: string, fp: Fingerprint) returns (e: Event, last: Event)
    requires InOpen(events, db, fp)
    ensures e in events && Names(e, fp) && e.db == db
    ensures last in events && Names(last, fp) && LastUnlocker(events, fp) == Some(last.db)
    decreases events
  {
    var init, x := events[..|events| - 1], events[|events| - 1];
    if Names(x, fp) {
      last := x;
      if x.db == db {
        e := x;
      } else {
        var earlier: Event;
        e, earlier := OpenWasNamed(init, db, fp);
      }
    } else {
      if x.Unlock? {
        NamesIff(x.keys, fp);
      }
      e, last := OpenWasNamed(init, db, fp);
    }
  }

  /** With disjoint keys and no explicit removals the loaded keys are exactly the
      union of the keys of the unlocked databases, each owned by its database. */
  lemma ExactlyTheOpenKeys(cfg: Config, events: seq<Event>, fp: Fingerprint)
    requires cfg.enabled && cfg.removeOnLock && NoRemovals(events) && Disjoint(events)
    ensures fp in Run(cfg, events) <==> exists db :: InOpen(events, db, fp)
    ensures forall db | InOpen(events, db, fp) :: Run(cfg, events)[fp].dbUUID == db
  {
    LoadedIffLastUnlockerOpen(cfg, events, fp);
    forall db | InOpen(events, db, fp)
      ensures fp in Run(cfg, events) && Run(cfg, events)[fp].dbUUID == db
    {
      var e, last := OpenWasNamed(events, db, fp);
      NamesIff(e.keys, fp);
      NamesIff(last.keys, fp);
      OwnerIsUnlocked(cfg, events, fp);
    }
  }

  /** Disjointness is needed: of two databases sharing a key, locking the one
      unlocked last drops the key although the other is still unlocked. */
  lemma SharedKeyDropped(cfg: Config, a: string, b: string, key: Key)
    requires cfg.enabled && cfg.removeOnLock && a != b
    ensures var events := [Unlock(a, [key]), Unlock(b, [key]), Lock(b)];
            InOpen(events, a, FingerprintOf(key.blob)) && FingerprintOf(key.blob) !in Run(cfg, events)
  {
    var fp := FingerprintOf(key.blob);
    var ab: seq<Event> := [Unlock(a, [key]), Unlock(b, [key])];
    var events := ab + [Lock(b)];
    assert events == [Unlock(a, [key]), Unlock(b, [key]), Lock(b)];
    assert events[..2] == ab && ab[..1] == [Unlock(a, [key])];
    NamesIff([key], fp);
    assert InOpen(ab[..1], a, fp) by {
      assert ab[..1][..0] == [] && OpenKeys([]) == map[];
    }
    assert InOpen(ab, a, fp) && Names(ab[1], fp);
    LoadedIffLastUnlockerOpen(cfg, events, fp);
    assert LastUnlocker(events, fp) == LastUnlocker(ab, fp) == Some(b);
  }
}
