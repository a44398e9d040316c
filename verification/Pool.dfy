/** The pool of open databases: opening, locking and closing them, and the
    in-place form of the optimistic save (internal/dbpool/pool.go, save.go). */
module Pool {
  import opened Entries
  import opened Wrappers
  import opened Groups
  import opened Saving
  import opened Wiping

  // gokeepasslib.Database.
  class Database {
    var hasCredentials: bool
    var content: Option<Content>

    constructor (content: Option<Content>)
      ensures this.content == content && hasCredentials
    {
      this.content, hasCredentials := content, true;
    }

    method Wipe()
      modifies this
      ensures Wiped(this, old(content))
    {
      hasCredentials := false;
      if content.Some? {
        var c := WipeContent(content.value);
        content := Some(c);
      }
    }
  }

  // The database holds neither credentials nor any text of what it held before.
  ghost predicate Wiped(db: Database, before: Option<Content>)
    reads db
  {
    && !db.hasCredentials
    && if before.None? then db.content.None?
       else db.content.Some? && BlankContent(db.content.value) && SameShapeContent(before.value, db.content.value)
  }

  class File {
    var disk: Disk

    constructor (disk: Disk)
      ensures this.disk == disk
    {
      this.disk := disk;
    }
  }

  class OpenDatabase {
    const uuid: string
    var locked: bool
    var db: Database?
    var fingerprint: FileFingerprint
    var watched: bool
    ghost var base: nat

    constructor (uuid: string, db: Database, fingerprint: FileFingerprint, ghost base: nat)
      ensures this.uuid == uuid && !locked && watched && this.db == db
      ensures this.fingerprint == fingerprint && this.base == base
    {
      this.uuid, locked, watched, this.db := uuid, false, true, db;
      this.fingerprint, this.base := fingerprint, base;
    }

    // Locked iff the decrypted database is gone; only then is the watcher stopped.
    ghost predicate Valid()
      reads this
    {
      (locked <==> db == null) && (watched <==> !locked)
    }

    ghost function View(): Handle
      reads this, db
    {
      Handle(locked, if db == null then None else db.content, fingerprint, base)
    }

    method SaveLocked(file: File, env: Env) returns (outcome: Outcome, ghost replaced: Option<nat>)
      requires db != null && db.content.Some?
      modifies this`fingerprint, this`base, db`content, file
      ensures db.content.Some?
      ensures Result(View(), file.disk, outcome, replaced) == Saving.SaveLocked(old(View()), old(file.disk), env)
    {
      replaced := None;
      file.disk := AllWritten(file.disk, env.between);
      if env.stat2Fails || file.disk.file.None? {
        return Err(Stat), None;
      }
      if !fingerprint.Equal(file.disk.stat(file.disk.file.value.number)) {
        return Err(ChangedOnDisk), None;
      }
      var root := db.content.value.root;
      if env.lockLeaves.Some? {
        db.content := Some(db.content.value.(root := env.lockLeaves.value));
        return Err(LockEntries), None;
      }
      db.content := Some(db.content.value.(root := InForm(root, Locked)));
      file.disk := AllWritten(file.disk, env.encoding);
      var encoded := AtomicEncode(file, Encoded(root), env);
      db.content := Some(db.content.value.(root := AfterUnlock(db.content.value.root, env)));
      if encoded.Err? {
        return encoded, None;
      }
      replaced := Some(AllWritten(AllWritten(old(file.disk), env.between), env.encoding).file.value.number);
      if env.unlockLeaves.Some? {
        return Err(UnlockEntries), replaced;
      }
      if env.stat4Fails {
        return Err(StatAfter), replaced;
      }
      fingerprint := file.disk.stat(file.disk.file.value.number);
      base := file.disk.file.value.number;
      return Ok, replaced;
    }

    // Write a temporary file, compare once more, rename.
    method AtomicEncode(file: File, content: FileContent, env: Env) returns (outcome: Outcome)
      modifies file
      ensures outcome == if env.encodeFails then Err(Encode)
                         else if env.stat3Fails || old(file.disk).file.None? then Err(Stat)
                         else if old(file.disk).stat(old(file.disk).file.value.number) != fingerprint then Err(ChangedOnDisk)
                         else if env.renameFails then Err(Rename)
                         else Ok
      ensures file.disk == if outcome.Ok? then Overwritten(old(file.disk), content) else old(file.disk)
    {
      if env.encodeFails {
        return Err(Encode);
      }
      if env.stat3Fails || file.disk.file.None? {
        return Err(Stat);
      }
      if !fingerprint.Equal(file.disk.stat(file.disk.file.value.number)) {
        return Err(ChangedOnDisk);
      }
      if env.renameFails {
        return Err(Rename);
      }
      file.disk := Overwritten(file.disk, content);
      return Ok;
    }

    method UpdateAndSave(file: File, mutate: Option<Root> -> Mutated, env: Env)
      returns (outcome: Outcome, ghost replaced: Option<nat>)
      requires Valid()
      modifies this`fingerprint, this`base, db, file
      ensures Valid() && locked == old(locked) && db == old(db)
      ensures Result(View(), file.disk, outcome, replaced)
              == Saving.UpdateAndSave(old(View()), old(file.disk), mutate, env)
    {
      file.disk := AllWritten(file.disk, env.before);
      if locked || db == null || db.content.None? {
        return Err(NotOpen), None;
      }
      if env.statFails || file.disk.file.None? {
        return Err(Stat), None;
      }
      if !fingerprint.Equal(file.disk.stat(file.disk.file.value.number)) {
        return Err(ChangedOnDisk), None;
      }
      var originalRoot := ClonedRoot(db.content.value.root, env.draw);
      var m := mutate(db.content.value.root);
      db.content := Some(db.content.value.(root := m.root));
      if !m.ok {
        return Err(Mutation), None;
      }
      outcome, replaced := SaveLocked(file, env);
      if outcome.Err? && originalRoot.Some? {
        db.content := Some(db.content.value.(root := originalRoot));
      }
    }
  }

  // What opening a file yields when its decoder and its fingerprint succeed.
  datatype Loaded = Loaded(uuid: string, content: Content, fingerprint: FileFingerprint, version: nat)

  // The handle is locked, and the database it held before, if any, is wiped.
  ghost predicate LockedAway(odb: OpenDatabase, was: Database?, content: Option<Content>)
    reads odb, was
  {
    odb.locked && odb.db == null && (was != null ==> Wiped(was, content))
  }

  class DatabasePool {
    var dbs: map<string, OpenDatabase>

    // Every handle is valid, filed under its own UUID, and shares its database
    // with no other.
    ghost predicate Valid()
      reads this, dbs.Values
    {
      && (forall u | u in dbs :: dbs[u].uuid == u && dbs[u].Valid())
      && (forall u, v | u in dbs && v in dbs && u != v :: dbs[u].db == null || dbs[u].db != dbs[v].db)
    }

    ghost function Databases(): set<object>
      reads this, dbs.Values
    {
      set u | u in dbs && dbs[u].db != null :: dbs[u].db
    }

    constructor ()
      ensures Valid() && dbs == map[]
    {
      dbs := map[];
    }

    // A database already open under this UUID is dropped from the pool as it is.
    method Open(loaded: Option<Loaded>) returns (uuid: Option<string>)
      requires Valid()
      modifies this
      ensures Valid() && (uuid.Some? <==> loaded.Some?)
      ensures loaded.None? ==> dbs == old(dbs)
      ensures loaded.Some? ==>
                var l := loaded.value;
                && uuid == Some(l.uuid) && l.uuid in dbs && dbs == old(dbs)[l.uuid := dbs[l.uuid]]
                && fresh(dbs[l.uuid]) && fresh(dbs[l.uuid].db)
                && dbs[l.uuid].View() == Handle(false, Some(l.content), l.fingerprint, l.version)
    {
      if loaded.None? {
        return None;
      }
      var l := loaded.value;
      var db := new Database(Some(l.content));
      var odb := new OpenDatabase(l.uuid, db, l.fingerprint, l.version);
      dbs := dbs[l.uuid := odb];
      uuid := Some(l.uuid);
    }

    method Lock(uuid: string) returns (ok: bool)
      requires Valid()
      modifies if uuid in dbs then {dbs[uuid]} else {}
      modifies if uuid in dbs && dbs[uuid].db != null then {dbs[uuid].db} else {}
      ensures Valid() && dbs == old(dbs) && ok == (uuid in dbs)
      ensures ok ==> LockedAway(dbs[uuid], old(dbs[uuid].db), old(dbs[uuid].View().content))
    {
      if uuid !in dbs {
        return false;
      }
      var odb := dbs[uuid];
      if odb.db != null {
        odb.db.Wipe();
        odb.db := null;
      }
      odb.locked := true;
      odb.watched := false;
      return true;
    }

    predicate NoneShared(held: map<string, Database?>) {
      forall u, v | u in held && v in held && u != v :: held[u] == null || held[u] != held[v]
    }

    // LockAll has these databases still to lock; `was` and `contents` are what the
    // handles held when it began.
    ghost predicate Locking(todo: set<string>, was: map<string, Database?>, contents: map<string, Option<Content>>)
      reads this, dbs.Values, was.Values
    {
      && Valid() && todo <= dbs.Keys && was.Keys == dbs.Keys && contents.Keys == dbs.Keys
      && NoneShared(was)
      && (forall u | u in todo :: dbs[u].db == was[u] && was[u] != null && was[u].content == contents[u])
      && (forall u | u in dbs && u !in todo :: LockedAway(dbs[u], was[u], contents[u]))
    }

    method LockNext(uuid: string, ghost todo: set<string>, ghost was: map<string, Database?>,
                    ghost contents: map<string, Option<Content>>)
      requires Locking(todo, was, contents) && uuid in todo
      modifies dbs[uuid], dbs[uuid].db
      ensures dbs == old(dbs) && Locking(todo - {uuid}, was, contents)
    {
      assert forall u | u in dbs && u != uuid :: dbs[u] != dbs[uuid];
      assert forall u | u in was && u != uuid :: was[u] != was[uuid];
      hide LockedAway, Valid, NoneShared;
      var _ := Lock(uuid);
      forall u | u in dbs && u != uuid && u !in todo
        ensures LockedAway(dbs[u], was[u], contents[u])
      {
        assert old(LockedAway(dbs[u], was[u], contents[u]));
      }
      forall u | u in todo && u != uuid
        ensures dbs[u].db == was[u] && was[u] != null && was[u].content == contents[u]
      {
        assert unchanged(dbs[u]) && unchanged(was[u]);
      }
    }

    /** Every database of the pool is locked afterwards, and the content each one
        held is blank and of the same shape, wherever it is still referenced. */
    method LockAll()
      requires Valid()
      modifies dbs.Values, Databases()
      ensures Valid() && dbs == old(dbs)
      ensures forall u | u in dbs :: LockedAway(dbs[u], old(dbs[u].db), old(dbs[u].View().content))
    {
      ghost var was := map u | u in dbs :: dbs[u].db;
      ghost var contents := map u | u in dbs :: dbs[u].View().content;
      var uuids := set u | u in dbs && !dbs[u].locked;
      while uuids != {}
        invariant dbs == old(dbs) && Locking(uuids, was, contents)
        decreases uuids
      {
        var uuid :| uuid in uuids;
        LockNext(uuid, uuids, was, contents);
        uuids := uuids - {uuid};
      }
    }

    method Close()
      requires Valid()
      modifies this, dbs.Values, Databases()
      ensures Valid() && dbs == map[]
      ensures forall u | u in old(dbs) :: LockedAway(old(dbs[u]), old(dbs[u].db), old(dbs[u].View().content))
    {
      LockAll();
      dbs := map[];
    }
  }
}
