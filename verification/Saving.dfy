/** The optimistic save of an open database: fingerprint, mutate, encode to a
    temporary file, compare again, rename (internal/dbpool/save.go).

    Another process may write the file at any moment; a version of the file is a
    number that is never used twice. Comparing and renaming are one step here,
    and so are renaming and taking the new fingerprint. */
module Saving {
  import opened Text
  import opened Wrappers
  import opened Entries
  import opened Groups
  import opened Items

  // ---- The file on disk -----------------------------------------------------

  datatype FileFingerprint = FileFingerprint(dev: nat, ino: nat, size: int, mtime: int, ctime: int, sha256: string)
  {
    predicate Equal(other: FileFingerprint)
      ensures Equal(other) <==> this == other
    {
      && dev == other.dev && ino == other.ino && size == other.size
      && mtime == other.mtime && ctime == other.ctime && sha256 == other.sha256
    }
  }

  datatype FileContent = Kdbx(groups: Forest) | Foreign
  datatype Version = Version(number: nat, content: FileContent)

  // `stat` is the fingerprint each version has; `next` the first unused number.
  datatype Disk = Disk(stat: nat -> FileFingerprint, file: Option<Version>, next: nat)

  datatype ExternalWrite = Put(content: FileContent) | Delete

  ghost predicate ValidDisk(d: Disk) {
    && (forall a, b :: d.stat(a) == d.stat(b) ==> a == b)
    && (d.file.Some? ==> d.file.value.number < d.next)
  }

  function Overwritten(d: Disk, c: FileContent): Disk {
    d.(file := Some(Version(d.next, c)), next := d.next + 1)
  }

  function Written(d: Disk, w: ExternalWrite): Disk {
    match w
    case Put(c) => Overwritten(d, c)
    case Delete => d.(file := None)
  }

  function AllWritten(d: Disk, ws: seq<ExternalWrite>): Disk {
    if ws == [] then d else Written(AllWritten(d, ws[..|ws| - 1]), ws[|ws| - 1])
  }

  lemma {:induction false} WritesMakeNewVersions(d: Disk, ws: seq<ExternalWrite>)
    requires ValidDisk(d)
    ensures var d' := AllWritten(d, ws);
            && ValidDisk(d') && d'.stat == d.stat && d'.next >= d.next
            && (ws != [] && d'.file.Some? ==> d'.file.value.number >= d.next)
            && (ws == [] ==> d' == d)
  {
    if ws != [] {
      WritesMakeNewVersions(d, ws[..|ws| - 1]);
    }
  }

  // ---- The open database ------------------------------------------------------

  // The form of the protected values in memory: plain, ready for the encoder, or
  // (after a library call that failed part way) some of each.
  datatype Form = Unlocked | Locked | Mixed

  datatype Root = Root(groups: Forest, form: Form)
  datatype Content = Content(root: Option<Root>, binaries: seq<string>, customData: seq<CustomData>, defaultUserName: string)

  // `content` is None when Db or Db.Content is nil, `root` when Content.Root is.
  // `base` is the version last loaded or saved here.
  datatype Handle = Handle(locked: bool, content: Option<Content>, fingerprint: FileFingerprint, base: nat)

  function WithRootOf(h: Handle, root: Option<Root>): Handle
    requires h.content.Some?
  {
    h.(content := Some(h.content.value.(root := root)))
  }

  // What a mutation leaves in memory, whether or not it reports an error.
  datatype Mutated = Mutated(root: Option<Root>, ok: bool)

  datatype Stage = NotOpen | Stat | ChangedOnDisk | Mutation | LockEntries | Encode | Rename | UnlockEntries | StatAfter
  datatype Outcome = Ok | Err(stage: Stage)

  // What the surroundings do to one call: external writes in its three windows,
  // calls that fail, the root a failing library call leaves behind, and the UUIDs
  // that cloning the root draws.
  datatype Env = Env(before: seq<ExternalWrite>, between: seq<ExternalWrite>, encoding: seq<ExternalWrite>,
                     statFails: bool, stat2Fails: bool, lockLeaves: Option<Option<Root>>, encodeFails: bool,
                     stat3Fails: bool, renameFails: bool, unlockLeaves: Option<Option<Root>>, stat4Fails: bool, draw: Draw)

  predicate NoFaults(env: Env) {
    && !env.statFails && !env.stat2Fails && env.lockLeaves.None? && !env.encodeFails
    && !env.stat3Fails && !env.renameFails && env.unlockLeaves.None? && !env.stat4Fails
  }

  predicate Quiet(env: Env) {
    env.before == [] && env.between == [] && env.encoding == []
  }

  predicate StillBase(h: Handle, d: Disk) {
    d.file.Some? && h.fingerprint.Equal(d.stat(d.file.value.number))
  }

  // Handle, disk and outcome after a call, and the version a rename replaced.
  datatype Result = Result(h: Handle, d: Disk, outcome: Outcome, replaced: Option<nat>)

  function Refuse(h: Handle, d: Disk, stage: Stage): Result {
    Result(h, d, Err(stage), None)
  }

  function InForm(root: Option<Root>, form: Form): Option<Root> {
    match root
    case None => None
    case Some(r) => Some(r.(form := form))
  }

  // The root after UnlockProtectedEntries, which may itself fail part way.
  function AfterUnlock(root: Option<Root>, env: Env): Option<Root> {
    if env.unlockLeaves.Some? then env.unlockLeaves.value else InForm(root, Unlocked)
  }

  // cloneRootData, through the library's Clone.
  function ClonedRoot(root: Option<Root>, draw: Draw): Option<Root> {
    match root
    case None => None
    case Some(r) => Some(r.(groups := Cloned(r.groups, draw, [])))
  }

  function Encoded(root: Option<Root>): FileContent {
    match root
    case None => Kdbx(Nil)
    case Some(r) => Kdbx(r.groups)
  }

  // saveLocked and atomicEncode.
  function SaveLocked(h: Handle, d: Disk, env: Env): Result
    requires h.content.Some?
  {
    var d2 := AllWritten(d, env.between);
    if env.stat2Fails || d2.file.None? then Refuse(h, d2, Stat)
    else if !StillBase(h, d2) then Refuse(h, d2, ChangedOnDisk)
    else if env.lockLeaves.Some? then Refuse(WithRootOf(h, env.lockLeaves.value), d2, LockEntries)
    else
      var root := h.content.value.root;
      var unlocked := WithRootOf(h, AfterUnlock(InForm(root, Locked), env));
      var d3 := AllWritten(d2, env.encoding);
      if env.encodeFails then Refuse(unlocked, d3, Encode)
      else if env.stat3Fails || d3.file.None? then Refuse(unlocked, d3, Stat)
      else if !StillBase(h, d3) then Refuse(unlocked, d3, ChangedOnDisk)
      else if env.renameFails then Refuse(unlocked, d3, Rename)
      else
        var d4, replaced := Overwritten(d3, Encoded(root)), Some(d3.file.value.number);
        if env.unlockLeaves.Some? then Result(unlocked, d4, Err(UnlockEntries), replaced)
        else if env.stat4Fails then Result(unlocked, d4, Err(StatAfter), replaced)
        else Result(unlocked.(fingerprint := d4.stat(d3.next), base := d3.next), d4, Ok, replaced)
  }

  function UpdateAndSave(h: Handle, d: Disk, mutate: Option<Root> -> Mutated, env: Env): Result {
    var d1 := AllWritten(d, env.before);
    if h.locked || h.content.None? then Refuse(h, d1, NotOpen)
    else if env.statFails || d1.file.None? then Refuse(h, d1, Stat)
    else if !StillBase(h, d1) then Refuse(h, d1, ChangedOnDisk)
    else
      var original := h.content.value.root;
      var m := mutate(original);
      var h1 := WithRootOf(h, m.root);
      if !m.ok then Refuse(h1, d1, Mutation)
      else
        var r := SaveLocked(h1, d1, env);
        if r.outcome.Err? && original.Some? then r.(h := WithRootOf(r.h, ClonedRoot(original, env.draw))) else r
  }

  // ---- One call -----------------------------------------------------------------

  // The handle's fingerprint is that of the version it last loaded or saved.
  ghost predicate Consistent(h: Handle, d: Disk) {
    ValidDisk(d) && h.fingerprint == d.stat(h.base) && h.base < d.next
  }

  lemma SaveReplacesBase(h: Handle, d: Disk, env: Env)
    requires Consistent(h, d) && h.content.Some?
    ensures var r := SaveLocked(h, d, env);
            && Consistent(r.h, r.d)
            && (r.replaced.Some? ==> r.replaced.value == h.base && env.between == [] && env.encoding == []
                                     && d.file.Some? && d.file.value.number == h.base)
            && (r.replaced.None? ==> r.outcome.Err? && r.h.base == h.base)
            && (r.outcome.Ok? ==> r.d.file == Some(Version(r.h.base, Encoded(h.content.value.root))))
  {
    WritesMakeNewVersions(d, env.between);
    var d2 := AllWritten(d, env.between);
    WritesMakeNewVersions(d2, env.encoding);
    assert StillBase(h, d2) ==> d2.stat(d2.file.value.number) == d2.stat(h.base);
    var d3 := AllWritten(d2, env.encoding);
    assert StillBase(h, d3) ==> d3.stat(d3.file.value.number) == d3.stat(h.base);
  }

  /** A rename replaces exactly the version last loaded or saved here, and an
      external write in any window of the call, even while the temporary file is
      encoded, makes it refuse. */
  lemma RenameReplacesBase(h: Handle, d: Disk, mutate: Option<Root> -> Mutated, env: Env)
    requires Consistent(h, d)
    ensures var r := UpdateAndSave(h, d, mutate, env);
            && Consistent(r.h, r.d)
            && (r.replaced.Some? ==> r.replaced.value == h.base && Quiet(env)
                                     && d.file.Some? && d.file.value.number == h.base)
            && (r.replaced.None? ==> r.outcome.Err?)
            && (!Quiet(env) ==> r.outcome.Err? && r.replaced.None?)
  {
    WritesMakeNewVersions(d, env.before);
    var d1 := AllWritten(d, env.before);
    assert StillBase(h, d1) ==> d1.stat(d1.file.value.number) == d1.stat(h.base);
    if !h.locked && h.content.Some? && StillBase(h, d1) {
      SaveReplacesBase(WithRootOf(h, mutate(h.content.value.root).root), d1, env);
    }
  }

  /** With no failing call the update succeeds iff the database is open, the file
      is still the version last seen, nobody writes meanwhile, and the mutation
      succeeds; then the file and the memory both hold the mutated root. */
  lemma SucceedsIff(h: Handle, d: Disk, mutate: Option<Root> -> Mutated, env: Env)
    requires Consistent(h, d) && NoFaults(env)
    ensures var r := UpdateAndSave(h, d, mutate, env);
            && (r.outcome.Ok? <==>
                  && !h.locked && h.content.Some? && mutate(h.content.value.root).ok
                  && Quiet(env) && d.file.Some? && d.file.value.number == h.base)
            && (r.outcome.Ok? ==>
                  var root := mutate(h.content.value.root).root;
                  && r.h.content == Some(h.content.value.(root := InForm(root, Unlocked)))
                  && r.d.file == Some(Version(r.h.base, Encoded(root))))
  {
    RenameReplacesBase(h, d, mutate, env);
  }

  // The call is refused at its first check of the handle or the file, or the
  // mutation fails: nothing has been saved, and nothing is rolled back.
  predicate StopsEarly(h: Handle, d: Disk, mutate: Option<Root> -> Mutated, env: Env) {
    || h.locked || h.content.None? || env.statFails || !StillBase(h, AllWritten(d, env.before))
    || !mutate(h.content.value.root).ok
  }

  // The handle with the clone of its root installed.
  function RolledBack(h: Handle, env: Env): Handle
    requires h.content.Some?
  {
    WithRootOf(h, ClonedRoot(h.content.value.root, env.draw))
  }

  // Equal handles, but for the UUIDs of groups, entries and archived versions.
  predicate SameHandleButKeys(h: Handle, h': Handle) {
    ClonedHandle(h) == ClonedHandle(h')
  }

  function ClonedHandle(h: Handle): Handle {
    if h.content.None? then h else WithRootOf(h, ClonedRoot(h.content.value.root, NoKey))
  }

  lemma RolledBackIsSameButKeys(h: Handle, env: Env)
    requires h.content.Some?
    ensures SameHandleButKeys(RolledBack(h, env), h)
  {
    if h.content.value.root.Some? {
      CloneForestTwice(h.content.value.root.value.groups, env.draw, NoKey, [], []);
    }
  }

  // A root to go back to, and a mutation that leaves it alone when it fails.
  predicate Restorable(h: Handle, mutate: Option<Root> -> Mutated) {
    && h.content.Some? && h.content.value.root.Some?
    && (!mutate(h.content.value.root).ok ==> mutate(h.content.value.root).root == h.content.value.root)
  }

  lemma ErrorLeaves(h: Handle, d: Disk, mutate: Option<Root> -> Mutated, env: Env)
    requires Restorable(h, mutate) && UpdateAndSave(h, d, mutate, env).outcome.Err?
    ensures UpdateAndSave(h, d, mutate, env).h == if StopsEarly(h, d, mutate, env) then h else RolledBack(h, env)
  {
  }

  /** When an update reports an error the handle is the one from before the call,
      up to the UUIDs of its groups, entries and versions; a successful one leaves
      the mutated root. Protected values stay in unlocked form either way. */
  lemma AllOrNothing(h: Handle, d: Disk, mutate: Option<Root> -> Mutated, env: Env)
    requires Restorable(h, mutate)
    ensures var r := UpdateAndSave(h, d, mutate, env);
            && r.h.content.Some?
            && (r.outcome.Err? ==> SameHandleButKeys(r.h, h))
            && (r.outcome.Ok? ==> r.h.content.value.root == InForm(mutate(h.content.value.root).root, Unlocked))
            && (h.content.value.root.value.form.Unlocked? && r.h.content.value.root.Some? ==>
                  r.h.content.value.root.value.form.Unlocked?)
  {
    if UpdateAndSave(h, d, mutate, env).outcome.Err? {
      ErrorLeaves(h, d, mutate, env);
      RolledBackIsSameButKeys(h, env);
    }
  }

  /** The handle is exactly as it was before a failed update iff the call stopped
      at its first checks or in the mutation, or there is no group to re-key: what
      is rolled back is a clone, and its UUIDs are new. */
  lemma UnchangedIff(h: Handle, d: Disk, mutate: Option<Root> -> Mutated, env: Env)
    requires Restorable(h, mutate) && UpdateAndSave(h, d, mutate, env).outcome.Err?
    requires Fresh(env.draw, h.content.value.root.value.groups)
    ensures UpdateAndSave(h, d, mutate, env).h == h <==>
              StopsEarly(h, d, mutate, env) || h.content.value.root.value.groups.Nil?
  {
    ErrorLeaves(h, d, mutate, env);
    var f := h.content.value.root.value.groups;
    if f.Node? {
      assert f.group.uuid in Keys(f) && Cloned(f, env.draw, []).group.uuid == env.draw([]);
    }
  }

  /** After a save that failed and was rolled back, no entry is found under the UUID
      it had before, and so under the object path of its item. */
  lemma RollbackLosesItems(h: Handle, d: Disk, mutate: Option<Root> -> Mutated, env: Env, e: Entry)
    requires Restorable(h, mutate) && UpdateAndSave(h, d, mutate, env).outcome.Err? && !StopsEarly(h, d, mutate, env)
    requires Fresh(env.draw, h.content.value.root.value.groups) && e in Flat(h.content.value.root.value.groups)
    ensures var root := UpdateAndSave(h, d, mutate, env).h.content.value.root;
            root.Some? && FindByUUID(root.value.groups, Hex(e.uuid)).None?
  {
    ErrorLeaves(h, d, mutate, env);
    CloneFindsNothing(h.content.value.root.value.groups, env.draw, e);
  }

  /** After a failed update the same entries are visible, up to UUIDs, if no group is
      recycled or exposed by its UUID alone. */
  lemma RollbackShowsTheSame(h: Handle, d: Disk, mutate: Option<Root> -> Mutated, env: Env, bin: UUID, expose: string)
    requires Restorable(h, mutate) && UpdateAndSave(h, d, mutate, env).outcome.Err?
    requires NamesDecide(h.content.value.root.value.groups, bin, TrimSpace(expose))
    requires Unremarkable(env.draw, bin, TrimSpace(expose))
    ensures var root := UpdateAndSave(h, d, mutate, env).h.content.value.root;
            && root.Some?
            && SameButKeys(VisibleEntries(root.value.groups, bin, expose),
                           VisibleEntries(h.content.value.root.value.groups, bin, expose))
  {
    ErrorLeaves(h, d, mutate, env);
    CloneShowsTheSame(h.content.value.root.value.groups, env.draw, bin, expose);
  }

  /** The plainest failing input: one group with one entry, and a disk that is full
      when the temporary file is encoded. The file still has the entry under its
      UUID, memory has it under another one. If the group is the recycle bin under
      a name of its own, its entry is hidden before and visible afterwards. */
  lemma FullDiskRekeys(d: Disk, g: Group, e: Entry, h: Handle, mutate: Option<Root> -> Mutated, env: Env)
    requires g.entries == [e] && h == Handle(false, Some(Content(Some(Root(Node(g, Nil, Nil), Unlocked)), [], [], "")), d.stat(0), 0)
    requires d.file == Some(Version(0, Kdbx(Node(g, Nil, Nil)))) && mutate(h.content.value.root).ok
    requires Quiet(env) && !env.statFails && !env.stat2Fails && env.lockLeaves.None? && env.encodeFails
    requires Fresh(env.draw, Node(g, Nil, Nil))
    ensures var r := UpdateAndSave(h, d, mutate, env);
            && r.outcome == Err(Encode) && r.d == d && r.h.content.Some? && r.h.content.value.root.Some?
            && var memory := r.h.content.value.root.value.groups;
               && FindByUUID(Node(g, Nil, Nil), Hex(e.uuid)).Some?
               && FindByUUID(memory, Hex(e.uuid)).None?
               && (g.uuid != ZERO && g.name != "Recycle Bin" ==>
                     && VisibleEntries(Node(g, Nil, Nil), g.uuid, "") == []
                     && |VisibleEntries(memory, g.uuid, "")| == 1)
  {
    var f := Node(g, Nil, Nil);
    assert AllWritten(d, []) == d;
    assert UpdateAndSave(h, d, mutate, env) == Result(RolledBack(h, env), d, Err(Encode), None);
    assert Flat(f) == [e] + Flat(Nil) + Flat(Nil);
    CloneFindsNothing(f, env.draw, e);
    FindByUUIDFindsFirst(f, Hex(e.uuid));
    assert HasUUID(Hex(e.uuid))(Flat(f)[0]);
    assert g.uuid in Keys(f);
    if g.uuid != ZERO && g.name != "Recycle Bin" {
      RenamedBinReappears(g, env.draw, g.uuid, "");
    }
  }

  /** Without a root there is nothing to go back to. When the mutation creates
      one, an update that reports an error leaves the root missing, as it was, iff
      it stopped at its first check of the file. */
  lemma NilRootRestoredIff(h: Handle, d: Disk, mutate: Option<Root> -> Mutated, env: Env)
    requires !h.locked && h.content.Some? && h.content.value.root.None?
    requires mutate(None).ok && mutate(None).root.Some? && UpdateAndSave(h, d, mutate, env).outcome.Err?
    requires env.lockLeaves != Some(None) && env.unlockLeaves != Some(None)
    ensures UpdateAndSave(h, d, mutate, env).h.content.value.root.None? <==>
              env.statFails || !StillBase(h, AllWritten(d, env.before))
  {
  }

  // ---- The Secret Service mutations --------------------------------------------

  datatype Request =
    | Create(attrs: Attributes, expose: string, replace: bool, call: Call)
    | DeleteItem(hex: string)
    | SetItemSecret(hex: string, secret: NewSecret)

  ghost predicate Possible(req: Request) {
    req.Create? ==> IsOrder(req.call.order, req.attrs)
  }

  // The closures of CreateItem, Delete and SetSecret. Where Content.Root is nil
  // and the closure dereferences it, Go panics before touching it.
  ghost function Mutate(req: Request, db: Db, root: Option<Root>): Mutated
    requires Possible(req)
  {
    var groups, form := if root.Some? then root.value.groups else Nil, if root.Some? then root.value.form else Unlocked;
    match req
    case Create(attrs, expose, replace, call) =>
      if root.None? && (expose != "" || (replace && attrs != map[])) then Mutated(root, false)
      else (match CreateItem(groups, db, attrs, expose, replace, call)
            case Created(groups', _, _) => Mutated(Some(Root(groups', form)), true)
            case NoExposedGroup => Mutated(root, false))
    case DeleteItem(hex) =>
      if FindByUUID(groups, hex).None? then Mutated(root, false)
      else Mutated(Some(Root(Removed(groups, hex), form)), true)
    case SetItemSecret(hex, secret) =>
      if FindByUUID(groups, hex).None? then Mutated(root, false)
      else Mutated(Some(Root(WithSecret(groups, db, hex, secret), form)), true)
  }

  // A mutation that changes nothing when it fails and keeps plain values plain.
  ghost predicate Clean(m: Mutated, root: Option<Root>) {
    if !m.ok then m.root == root else m.root.Some? && m.root.value.form.Unlocked?
  }

  lemma MutateIsClean(req: Request, db: Db, root: Option<Root>)
    requires Possible(req) && (root.Some? ==> root.value.form.Unlocked?)
    ensures Clean(Mutate(req, db, root), root)
  {
  }

  lemma CleanUpdate(h: Handle, d: Disk, mutate: Option<Root> -> Mutated, env: Env)
    requires Consistent(h, d) && Quiet(env)
    requires h.content.Some? && h.content.value.root.Some? && Clean(mutate(h.content.value.root), h.content.value.root)
    ensures var r := UpdateAndSave(h, d, mutate, env);
            if r.outcome.Err? then
              && r.h == (if StopsEarly(h, d, mutate, env) then h else RolledBack(h, env))
              && if r.outcome.stage in {UnlockEntries, StatAfter}
                 then r.d == Overwritten(d, Encoded(mutate(h.content.value.root).root)) else r.d == d
            else
              && mutate(h.content.value.root).ok
              && r.h.content == Some(h.content.value.(root := mutate(h.content.value.root).root))
              && r.d.file == Some(Version(r.h.base, Encoded(mutate(h.content.value.root).root)))
  {
  }

  /** A failed create, delete or set-secret leaves memory as it was, or as a clone of
      what it was if saving had begun, and the file as it was, unless the failure
      came after the rename: then the file already holds the new groups. A
      successful one puts the same groups in both. */
  lemma ItemUpdateIsAllOrNothing(h: Handle, d: Disk, req: Request, db: Db, env: Env, mutate: Option<Root> -> Mutated)
    requires Possible(req) && Consistent(h, d) && Quiet(env) && (forall root :: mutate(root) == Mutate(req, db, root))
    requires h.content.Some? && h.content.value.root.Some? && h.content.value.root.value.form.Unlocked?
    ensures var r := UpdateAndSave(h, d, mutate, env);
            var m := Mutate(req, db, h.content.value.root);
            if r.outcome.Err? then
              && r.h == (if StopsEarly(h, d, mutate, env) then h else RolledBack(h, env))
              && if r.outcome.stage in {UnlockEntries, StatAfter}
                 then r.d == Overwritten(d, Encoded(m.root)) else r.d == d
            else
              && m.ok && m.root.Some?
              && r.h.content == Some(h.content.value.(root := m.root))
              && r.d.file == Some(Version(r.h.base, Kdbx(m.root.value.groups)))
  {
    MutateIsClean(req, db, h.content.value.root);
    CleanUpdate(h, d, mutate, env);
  }

  // ---- What a request does to memory and file ------------------------------------

  // The first entry with this UUID, in the order of the tree.
  ghost predicate FirstWith(es: seq<Entry>, hex: string, i: nat) {
    i < |es| && Hex(es[i].uuid) == hex && forall j :: 0 <= j < i ==> Hex(es[j].uuid) != hex
  }

  lemma FirstWithIff(es: seq<Entry>, hex: string, i: nat)
    ensures FirstWith(es, hex, i) <==> i < |es| && i == IndexWhere(es, HasUUID(hex))
  {
    assert forall e :: HasUUID(hex)(e) <==> Hex(e.uuid) == hex;
  }

  // Whether the item is there; for a new one, whether there is an entry to replace
  // or a group to put it in.
  ghost predicate Serviceable(f: Forest, db: Db, req: Request) {
    match req
    case Create(attrs, expose, replace, call) =>
      || (replace && attrs != map[] && exists e :: e in VisibleEntries(f, db.bin, expose) && AllAsked(e, db, attrs))
      || expose == "" || (!Blank(expose) && SomeGroupShown(f, db.bin, TrimSpace(expose)))
    case DeleteItem(hex) => exists e :: e in Flat(f) && Hex(e.uuid) == hex
    case SetItemSecret(hex, _) => exists e :: e in Flat(f) && Hex(e.uuid) == hex
  }

  lemma MutateOkIff(req: Request, db: Db, root: Root)
    requires Possible(req)
    ensures Mutate(req, db, Some(root)).ok <==> Serviceable(root.groups, db, req)
  {
    match req
    case Create(attrs, expose, replace, call) => CreateOutcomeIff(root.groups, db, attrs, expose, replace, call);
    case DeleteItem(hex) => FoundIff(root.groups, hex);
    case SetItemSecret(hex, _) => FoundIff(root.groups, hex);
  }

  lemma FoundIff(f: Forest, hex: string)
    ensures FindByUUID(f, hex).Some? <==> exists e :: e in Flat(f) && Hex(e.uuid) == hex
  {
    FindByUUIDFindsFirst(f, hex);
    if e :| e in Flat(f) && Hex(e.uuid) == hex {
      assert HasUUID(hex)(e);
    }
  }

  // The setting of the lemmas below: one of the three requests, on an open database.
  ghost predicate Serving(h: Handle, d: Disk, req: Request, db: Db, mutate: Option<Root> -> Mutated) {
    && Possible(req) && Consistent(h, d) && (forall root :: mutate(root) == Mutate(req, db, root))
    && h.content.Some? && h.content.value.root.Some? && h.content.value.root.value.form.Unlocked?
  }

  /** With no failing call a request succeeds iff the database is not locked, the file
      is still the version last seen, nobody writes meanwhile, and it is serviceable. */
  lemma RequestSucceedsIff(h: Handle, d: Disk, req: Request, db: Db, env: Env, mutate: Option<Root> -> Mutated)
    requires Serving(h, d, req, db, mutate) && NoFaults(env)
    ensures UpdateAndSave(h, d, mutate, env).outcome.Ok? <==>
              && !h.locked && Quiet(env) && d.file.Some? && d.file.value.number == h.base
              && Serviceable(h.content.value.root.value.groups, db, req)
  {
    SucceedsIff(h, d, mutate, env);
    MutateOkIff(req, db, h.content.value.root.value);
  }

  // Memory and file both hold these groups, the file as the version gone by from now on.
  predicate BothHold(r: Result, f: Forest) {
    && r.h.content.Some? && r.h.content.value.root == Some(Root(f, Unlocked))
    && r.d.file == Some(Version(r.h.base, Kdbx(f)))
  }

  lemma SuccessHolds(h: Handle, d: Disk, req: Request, db: Db, env: Env, mutate: Option<Root> -> Mutated) returns (f': Forest)
    requires Serving(h, d, req, db, mutate) && UpdateAndSave(h, d, mutate, env).outcome.Ok?
    ensures Mutate(req, db, h.content.value.root) == Mutated(Some(Root(f', Unlocked)), true)
    ensures BothHold(UpdateAndSave(h, d, mutate, env), f')
  {
    RenameReplacesBase(h, d, mutate, env);
    ItemUpdateIsAllOrNothing(h, d, req, db, env, mutate);
    MutateIsClean(req, db, h.content.value.root);
    f' := Mutate(req, db, h.content.value.root).root.value.groups;
  }

  /** A delete that succeeds has taken the first entry with this UUID, and nothing else,
      out of memory and file. */
  lemma DeleteIsSaved(h: Handle, d: Disk, hex: string, db: Db, env: Env, mutate: Option<Root> -> Mutated)
    requires Serving(h, d, DeleteItem(hex), db, mutate) && UpdateAndSave(h, d, mutate, env).outcome.Ok?
    ensures var f := h.content.value.root.value.groups;
            exists f', i: nat :: BothHold(UpdateAndSave(h, d, mutate, env), f') && FirstWith(Flat(f), hex, i)
                                 && Flat(f') == Flat(f)[..i] + Flat(f)[i + 1..] && Skeleton(f') == Skeleton(f)
  {
    var f := h.content.value.root.value.groups;
    var f' := SuccessHolds(h, d, DeleteItem(hex), db, env, mutate);
    FindByUUIDFindsFirst(f, hex);
    DeleteRemovesWhatFindFinds(f, hex);
    FirstWithIff(Flat(f), hex, IndexWhere(Flat(f), HasUUID(hex)));
  }

  // e' is e with this secret, and e archived.
  ghost predicate Resecreted(e: Entry, e': Entry, u: NewSecret, l: Limits) {
    && e'.(values := e.values, histories := e.histories) == e
    && KeepsVersion(FirstHistory(e), e, u.drawn, FirstHistory(e'), MaxItems(l), MaxSize(l))
    && forall key :: Lookup(e'.values, key) ==
         if key == "Password" then Some(Value("Password", u.secret, true)) else Lookup(e.values, key)
  }

  /** A set-secret that succeeds has given the first entry with this UUID the new
      secret, and archived its old version, in memory and file; all else is as before. */
  lemma SecretIsSaved(h: Handle, d: Disk, hex: string, u: NewSecret, db: Db, env: Env, mutate: Option<Root> -> Mutated)
    requires Serving(h, d, SetItemSecret(hex, u), db, mutate) && UpdateAndSave(h, d, mutate, env).outcome.Ok?
    ensures var f := h.content.value.root.value.groups;
            exists f', i: nat :: BothHold(UpdateAndSave(h, d, mutate, env), f') && FirstWith(Flat(f), hex, i)
                                 && |Flat(f')| == |Flat(f)| && Resecreted(Flat(f)[i], Flat(f')[i], u, db.limits)
                                 && (forall j :: 0 <= j < |Flat(f)| && j != i ==> Flat(f')[j] == Flat(f)[j])
                                 && Skeleton(f') == Skeleton(f)
  {
    var f := h.content.value.root.value.groups;
    var f' := SuccessHolds(h, d, SetItemSecret(hex, u), db, env, mutate);
    var i := IndexWhere(Flat(f), HasUUID(hex));
    SecretStored(f, db, hex, u);
    FirstWithIff(Flat(f), hex, i);
    SecretKeepsVersion(Flat(f)[i], u, db.limits);
    assert Resecreted(Flat(f)[i], Flat(f')[i], u, db.limits);
  }

  /** A create that succeeds where there is an entry to replace has rewritten the first
      such entry of the visible list, in memory and file, and added none. */
  lemma ReplaceIsSaved(h: Handle, d: Disk, attrs: Attributes, expose: string, call: Call, db: Db, env: Env,
                       mutate: Option<Root> -> Mutated)
    requires Serving(h, d, Create(attrs, expose, true, call), db, mutate) && UpdateAndSave(h, d, mutate, env).outcome.Ok?
    requires attrs != map[]
             && exists e :: e in VisibleEntries(h.content.value.root.value.groups, db.bin, expose) && AllAsked(e, db, attrs)
    ensures var f := h.content.value.root.value.groups;
            exists f', i: nat :: BothHold(UpdateAndSave(h, d, mutate, env), f') && |Flat(f')| == |Flat(f)|
                                 && FirstRewritten(VisibleEntries(f, db.bin, expose), VisibleEntries(f', db.bin, expose),
                                                   i, db, attrs, call)
  {
    hide UpdateAndSave, AllAsked, MatchForWrite, VisibleEntries, FirstRewritten, CreateItem;
    var f := h.content.value.root.value.groups;
    var f' := SuccessHolds(h, d, Create(attrs, expose, true, call), db, env, mutate);
    var e :| e in VisibleEntries(f, db.bin, expose) && AllAsked(e, db, attrs);
    MatchForWriteIff(e, db, attrs);
    assert Matched(f, db, attrs, expose);
    var i := ReplaceRewrites(f, db, attrs, expose, call);
    assert CreateItem(f, db, attrs, expose, true, call).groups == f';
  }

  /** A create that succeeds otherwise has put one new entry, with its attributes and its
      secret, at the end of a group where it belongs, in memory and file. If its
      attributes are storable and the group is visible, it is the first entry a
      later replacing call with them would pick, and reads back this secret. */
  lemma CreateIsSaved(h: Handle, d: Disk, attrs: Attributes, expose: string, replace: bool, call: Call, db: Db, env: Env,
                      mutate: Option<Root> -> Mutated)
    requires Serving(h, d, Create(attrs, expose, replace, call), db, mutate) && UpdateAndSave(h, d, mutate, env).outcome.Ok?
    requires replace && attrs != map[] ==>
               !exists e :: e in VisibleEntries(h.content.value.root.value.groups, db.bin, expose) && AllAsked(e, db, attrs)
    ensures exists f', e: Entry :: BothHold(UpdateAndSave(h, d, mutate, env), f') && NewIn(h.content.value.root.value.groups, f', e, attrs, expose, call)
                            && (replace && Lasting(h.content.value.root.value.groups, db, attrs, expose, call) && attrs != map[] ==>
                                  Picks(f', db, attrs, expose, e)
                                  && GetContent(e.values, "Password") == SecretRead(attrs, call.secret))
  {
    var f := h.content.value.root.value.groups;
    var f' := SuccessHolds(h, d, Create(attrs, expose, replace, call), db, env, mutate);
    CreateOutcomeIff(f, db, attrs, expose, replace, call);
    CreatePlaces(f, db, attrs, expose, replace, call);
    var r := CreateItem(f, db, attrs, expose, replace, call);
    assert r.groups == f' && NewIn(f, f', r.entry, attrs, expose, call);
    if replace && Lasting(f, db, attrs, expose, call) && attrs != map[] {
      UpsertStep(f, db, attrs, expose, call);
    }
  }

  // One entry more in f' than in f: e, new, written, and at the end of its group.
  ghost predicate NewIn(f: Forest, f': Forest, e: Entry, attrs: Attributes, expose: string, call: Call) {
    && OneMore(Flat(f), Flat(f'), e)
    && e.(values := []) == Entry(call.entryUUID, [], "", "", "", "", [], [], [])
    && FieldsHold([], e.values, attrs, call.secret)
    && exists p :: Belongs(f', p, expose) && GroupAt(f', p).entries != []
                   && GroupAt(f', p).entries[|GroupAt(f', p).entries| - 1] == e
  }

  // The closures as they run on the tree in place are the mutation above.
  method ServeRequest(vault: Vault, req: Request) returns (ok: bool, ghost served: Request)
    modifies vault`groups
    ensures Possible(served) && served.Create? == req.Create?
    ensures served == if req.Create? then req.(call := req.call.(order := served.call.order)) else req
    ensures Mutate(served, vault.db, Some(Root(old(vault.groups), Unlocked)))
            == Mutated(Some(Root(vault.groups, Unlocked)), ok)
  {
    served := req;
    match req
    case Create(attrs, expose, replace, call) =>
      var replaced;
      ghost var order;
      ok, replaced, order := vault.UpsertItem(attrs, expose, replace, call);
      served := Create(attrs, expose, replace, call.(order := order));
    case DeleteItem(hex) =>
      RemovedIsLocal(vault.groups, hex);
      ok := vault.DeleteItem(hex);
    case SetItemSecret(hex, u) =>
      ok := vault.SetItemSecret(hex, u);
  }

  // ---- Whole runs -------------------------------------------------------------------

  datatype Op =
    | Open
    | Lock
    | External(write: ExternalWrite)
    | Update(mutate: Option<Root> -> Mutated, env: Env)

  datatype Event = Loaded(version: nat) | Renamed(over: nat, to: nat) | Saved(version: nat)

  datatype World = World(h: Handle, d: Disk, events: seq<Event>)

  function Apply(w: World, op: Op): World {
    match op
    case Open =>
      if w.d.file.Some? && w.d.file.value.content.Kdbx? then
        var v := w.d.file.value;
        w.(h := Handle(false, Some(Content(Some(Root(v.content.groups, Unlocked)), [], [], "")),
                       w.d.stat(v.number), v.number),
           events := w.events + [Loaded(v.number)])
      else w
    case Lock => w.(h := w.h.(locked := true, content := None))
    case External(write) => w.(d := Written(w.d, write))
    case Update(mutate, env) =>
      var r := UpdateAndSave(w.h, w.d, mutate, env);
      World(r.h, r.d,
            if r.replaced.None? then w.events
            else if r.outcome.Ok? then w.events + [Renamed(r.replaced.value, r.h.base), Saved(r.h.base)]
            else w.events + [Renamed(r.replaced.value, r.d.next - 1)])
  }

  function Run(w: World, ops: seq<Op>): World {
    if ops == [] then w else Apply(Run(w, ops[..|ops| - 1]), ops[|ops| - 1])
  }

  // The version last loaded, or saved to the end, in this history.
  function LastSeen(events: seq<Event>): Option<nat> {
    if events == [] then None
    else
      match events[|events| - 1]
      case Loaded(n) => Some(n)
      case Saved(n) => Some(n)
      case Renamed(_, _) => LastSeen(events[..|events| - 1])
  }

  // Every rename replaced exactly the version last seen before it.
  predicate NoLostWrites(events: seq<Event>) {
    forall i :: 0 <= i < |events| && events[i].Renamed? ==> LastSeen(events[..i]) == Some(events[i].over)
  }

  ghost predicate Safe(w: World) {
    && ValidDisk(w.d) && NoLostWrites(w.events)
    && (w.h.content.Some? ==> Consistent(w.h, w.d) && LastSeen(w.events) == Some(w.h.base))
  }

  lemma Append(events: seq<Event>, e: Event)
    requires NoLostWrites(events) && (e.Renamed? ==> LastSeen(events) == Some(e.over))
    ensures NoLostWrites(events + [e])
    ensures LastSeen(events + [e]) == if e.Renamed? then LastSeen(events) else Some(e.version)
  {
    assert (events + [e])[..|events|] == events;
    forall i | 0 <= i < |events + [e]| && (events + [e])[i].Renamed?
      ensures LastSeen((events + [e])[..i]) == Some((events + [e])[i].over)
    {
      assert (events + [e])[..i] == events[..i];
      assert events[..|events|] == events;
    }
  }

  lemma ApplyKeepsSafe(w: World, op: Op)
    requires Safe(w)
    ensures Safe(Apply(w, op))
  {
    match op
    case Open =>
      if w.d.file.Some? {
        Append(w.events, Loaded(w.d.file.value.number));
      }
    case Lock =>
    case External(write) =>
    case Update(mutate, env) =>
      if w.h.content.Some? {
        UpdateKeepsSafe(w, mutate, env);
      } else {
        WritesMakeNewVersions(w.d, env.before);
      }
  }

  lemma UpdateKeepsSafe(w: World, mutate: Option<Root> -> Mutated, env: Env)
    requires Safe(w) && w.h.content.Some?
    ensures Safe(Apply(w, Update(mutate, env)))
  {
    hide UpdateAndSave;
    RenameReplacesBase(w.h, w.d, mutate, env);
    BaseOnlyMovesOnSuccess(w.h, w.d, mutate, env);
    var r := UpdateAndSave(w.h, w.d, mutate, env);
    if r.replaced.Some? {
      var e := Renamed(r.replaced.value, if r.outcome.Ok? then r.h.base else r.d.next - 1);
      Append(w.events, e);
      Append(w.events + [e], Saved(r.h.base));
      assert w.events + [e] + [Saved(r.h.base)] == w.events + [e, Saved(r.h.base)];
    }
  }

  lemma BaseOnlyMovesOnSuccess(h: Handle, d: Disk, mutate: Option<Root> -> Mutated, env: Env)
    ensures UpdateAndSave(h, d, mutate, env).outcome.Err? ==> UpdateAndSave(h, d, mutate, env).h.base == h.base
  {
  }

  /** No lost external write: over every run of opens, locks, updates and external
      writes, each rename replaces exactly the version last loaded or saved here. */
  lemma {:induction false} NoLostExternalWrite(w: World, ops: seq<Op>)
    requires ValidDisk(w.d) && w.h.content.None? && w.events == []
    ensures Safe(Run(w, ops)) && NoLostWrites(Run(w, ops).events)
  {
    if ops != [] {
      NoLostExternalWrite(w, ops[..|ops| - 1]);
      ApplyKeepsSafe(Run(w, ops[..|ops| - 1]), ops[|ops| - 1]);
    }
  }

  ghost predicate CleanMutation(mutate: Option<Root> -> Mutated) {
    forall root: Option<Root> | root.Some? && root.value.form.Unlocked? :: Clean(mutate(root), root)
  }

  // An open database is held in unlocked form, and as long as the file is the
  // version it goes by, both hold the same groups up to UUIDs.
  predicate Mirrors(h: Handle, d: Disk) {
    h.content.Some? ==>
      && h.content.value.root.Some? && h.content.value.root.value.form.Unlocked?
      && (d.file.Some? && d.file.value.number == h.base ==>
            && d.file.value.content.Kdbx?
            && SameForestButKeys(d.file.value.content.groups, h.content.value.root.value.groups))
  }

  // ... and with the same UUIDs.
  predicate MirrorsExactly(h: Handle, d: Disk) {
    && Mirrors(h, d)
    && (h.content.Some? && d.file.Some? && d.file.value.number == h.base ==>
          d.file.value.content == Kdbx(h.content.value.root.value.groups))
  }

  // A call leaves either the file it found or a version that is new.
  lemma OldOrNewFile(h: Handle, d: Disk, mutate: Option<Root> -> Mutated, env: Env)
    requires Consistent(h, d)
    ensures var r := UpdateAndSave(h, d, mutate, env);
            r.d.file.Some? && r.d.file.value.number < d.next ==> r.d.file == d.file
  {
    WritesMakeNewVersions(d, env.before);
    var d1 := AllWritten(d, env.before);
    WritesMakeNewVersions(d1, env.between);
    WritesMakeNewVersions(AllWritten(d1, env.between), env.encoding);
  }

  lemma UpdateKeepsMirror(h: Handle, d: Disk, mutate: Option<Root> -> Mutated, env: Env)
    requires Consistent(h, d) && Mirrors(h, d) && h.content.Some? && CleanMutation(mutate)
    ensures var r := UpdateAndSave(h, d, mutate, env);
            && Mirrors(r.h, r.d)
            && (r.outcome.Ok? || (StopsEarly(h, d, mutate, env) && MirrorsExactly(h, d)) ==> MirrorsExactly(r.h, r.d))
  {
    hide UpdateAndSave, StopsEarly;
    RenameReplacesBase(h, d, mutate, env);
    OldOrNewFile(h, d, mutate, env);
    var r := UpdateAndSave(h, d, mutate, env);
    assert Clean(mutate(h.content.value.root), h.content.value.root);
    if r.outcome.Ok? {
      CleanUpdate(h, d, mutate, env);
    } else {
      ErrorLeaves(h, d, mutate, env);
      CloneIsSameButKeys(h.content.value.root.value.groups, env.draw);
    }
  }

  // Whether a save failed and was rolled back since the last opening, lock or
  // successful save of this run.
  predicate Rekeyed(w: World, ops: seq<Op>) {
    if ops == [] then false
    else
      var init, before := ops[..|ops| - 1], Run(w, ops[..|ops| - 1]);
      match ops[|ops| - 1]
      case Open => Rekeyed(w, init) && !(before.d.file.Some? && before.d.file.value.content.Kdbx?)
      case Lock => false
      case External(_) => Rekeyed(w, init)
      case Update(mutate, env) =>
        !UpdateAndSave(before.h, before.d, mutate, env).outcome.Ok?
        && (Rekeyed(w, init) || !StopsEarly(before.h, before.d, mutate, env))
  }

  /** Over every run whose updates are item mutations, with any failures, memory
      mirrors the file: as long as the file is the version last loaded or saved
      here both hold the same groups up to UUIDs, and with the same UUIDs unless a
      save was rolled back since. Protected values are in unlocked form. */
  lemma {:induction false} MemoryMirrorsFile(w: World, ops: seq<Op>)
    requires ValidDisk(w.d) && w.h.content.None? && w.events == []
    requires forall op | op in ops && op.Update? :: CleanMutation(op.mutate)
    ensures Mirrors(Run(w, ops).h, Run(w, ops).d)
    ensures !Rekeyed(w, ops) ==> MirrorsExactly(Run(w, ops).h, Run(w, ops).d)
  {
    if ops != [] {
      var init, op := ops[..|ops| - 1], ops[|ops| - 1];
      assert op in ops && forall o | o in init :: o in ops;
      MemoryMirrorsFile(w, init);
      NoLostExternalWrite(w, init);
      var w' := Run(w, init);
      if op.Update? && w'.h.content.Some? {
        UpdateKeepsMirror(w'.h, w'.d, op.mutate, op.env);
      }
    }
  }

  // Create, delete and set-secret are such mutations.
  lemma ItemMutationsAreClean(req: Request, db: Db, mutate: Option<Root> -> Mutated)
    requires Possible(req) && forall root :: mutate(root) == Mutate(req, db, root)
    ensures CleanMutation(mutate)
  {
    forall root: Option<Root> | root.Some? && root.value.form.Unlocked?
      ensures Clean(mutate(root), root)
    {
      MutateIsClean(req, db, root);
    }
  }

  // The database is locked, or the file is not the version this handle goes by.
  predicate Stale(h: Handle, d: Disk) {
    h.content.None? || d.file.None? || d.file.value.number != h.base
  }

  /** Once the file has moved on, by an external write or by a save that failed
      after its rename, every later update refuses until the database is opened
      again, and the file sees external writes only. */
  lemma {:induction false} StaleUntilReopened(w: World, ops: seq<Op>)
    requires Safe(w) && Stale(w.h, w.d) && forall op | op in ops :: !op.Open?
    ensures var w' := Run(w, ops);
            Safe(w') && Stale(w'.h, w'.d) && w'.events == w.events
  {
    if ops != [] {
      var init, op := ops[..|ops| - 1], ops[|ops| - 1];
      assert op in ops && forall o | o in init :: o in ops;
      StaleUntilReopened(w, init);
      StaleStep(Run(w, init), op);
    }
  }

  lemma StaleStep(w: World, op: Op)
    requires Safe(w) && Stale(w.h, w.d) && !op.Open?
    ensures var w' := Apply(w, op);
            Safe(w') && Stale(w'.h, w'.d) && w'.events == w.events
    ensures op.Update? ==> UpdateAndSave(w.h, w.d, op.mutate, op.env).outcome.Err?
  {
    ApplyKeepsSafe(w, op);
    if op.Update? {
      WritesMakeNewVersions(w.d, op.env.before);
      if w.h.content.Some? {
        RenameReplacesBase(w.h, w.d, op.mutate, op.env);
        StaleDisk(w.h, w.d, op.mutate, op.env);
      }
    }
  }

  lemma StaleDisk(h: Handle, d: Disk, mutate: Option<Root> -> Mutated, env: Env)
    requires Consistent(h, d) && Stale(h, d) && h.content.Some?
    ensures var r := UpdateAndSave(h, d, mutate, env);
            r.d == AllWritten(d, env.before) && r.h.base == h.base && Stale(r.h, r.d)
  {
    WritesMakeNewVersions(d, env.before);
    WritesKeepStale(h, d, env.before);
    StaleIsNotBase(h, AllWritten(d, env.before));
  }

  lemma StaleIsNotBase(h: Handle, d: Disk)
    requires Consistent(h, d) && Stale(h, d) && h.content.Some?
    ensures !StillBase(h, d)
  {
  }

  lemma {:induction false} WritesKeepStale(h: Handle, d: Disk, ws: seq<ExternalWrite>)
    requires ValidDisk(d) && h.base < d.next && Stale(h, d)
    ensures Stale(h, AllWritten(d, ws))
  {
    WritesMakeNewVersions(d, ws);
  }
}
