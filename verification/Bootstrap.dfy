/** First login and every later one: the PAM socket handlers that unlock the
    default database, or create it together with its sealed identity and sealed
    credential (internal/daemon/pam.go, internal/daemon/pamsocket.go,
    internal/dbpool/create.go).

    Every connection runs in its own goroutine without a lock. A handler is a
    program counter with the values it has read, and `Advance` performs its next
    single file operation; handlers interleave at that grain, and one that is
    never scheduled again has crashed. Sealing is ideal: a sealed file opens only
    with the key it was sealed to, and a truncated file never opens. */
module Bootstrap {

  type Token = nat
  type Identity = nat
  type Password = nat

  // Partial: the file exists but does not open (truncated, half written, foreign).
  datatype File<T> = Absent | Partial | Full(content: T)

  datatype SealedIdentity = SealedIdentity(identity: Identity, token: Token)
  datatype SealedCredential = SealedCredential(password: Password, recipient: Identity)

  // A fully written database opens with exactly the password it was created
  // with. `open`: the daemon holds it unlocked in its pool.
  datatype Files = Files(db: File<Password>, identity: File<SealedIdentity>,
                         credential: File<SealedCredential>, open: bool)

  datatype Outcome = Unlocked | Skipped | Failed

  // The next file operation of a handler, with the values it has read so far.
  // `first`: this is a first login, not the re-creation of a deleted database.
  datatype PC =
    | CheckOpen
    | StatIdentity
    | StatCredential(identityThere: bool)
    | StatDb(identityThere: bool, credentialThere: bool)
    | ReadIdentity(dbThere: bool)
    | ReadCredential(dbThere: bool, unsealed: Identity)
    | Draw
    | CreateDb(secret: Password, first: bool)
    | EncodeDb(secret: Password, first: bool)
    | RemoveDb
    | SyncDb(secret: Password, first: bool)
    | TruncateIdentity | WriteIdentity
    | TruncateCredential | WriteCredential
    | OpenDb(secret: Password)
    | Done(outcome: Outcome)

  // How one call ends: it works, it fails without effect, or (for a file write)
  // its effect is complete but an error is still reported.
  datatype Luck = Good | Bad | Late

  // The luck of every call one handler may make; it makes each at most once.
  datatype Lucks = Lucks(statIdentity: Luck, statCredential: Luck, statDb: Luck,
                         readIdentity: Luck, readCredential: Luck, draw: Luck,
                         createDb: Luck, encodeDb: Luck, removeDb: Luck, syncDb: Luck,
                         truncateIdentity: Luck, writeIdentity: Luck,
                         truncateCredential: Luck, writeCredential: Luck, openDb: Luck)
  {
    function At(pc: PC): Luck {
      match pc
      case CheckOpen => Good
      case StatIdentity => statIdentity
      case StatCredential(_) => statCredential
      case StatDb(_, _) => statDb
      case ReadIdentity(_) => readIdentity
      case ReadCredential(_, _) => readCredential
      case Draw => draw
      case CreateDb(_, _) => createDb
      case EncodeDb(_, _) => encodeDb
      case RemoveDb => removeDb
      case SyncDb(_, _) => syncDb
      case TruncateIdentity => truncateIdentity
      case WriteIdentity => writeIdentity
      case TruncateCredential => truncateCredential
      case WriteCredential => writeCredential
      case OpenDb(_) => openDb
      case Done(_) => Good
    }
  }

  const AllGood: Lucks :=
    Lucks(Good, Good, Good, Good, Good, Good, Good, Good, Good, Good, Good, Good, Good, Good, Good)

  // `identity` and `password` are what this handler would draw at random;
  // `created`: it has written a complete database file.
  datatype Handler = Handler(token: Token, identity: Identity, password: Password, pc: PC, created: bool)

  function Begin(token: Token, identity: Identity, password: Password): Handler {
    Handler(token, identity, password, CheckOpen, false)
  }

  // fileExists takes every stat error for a missing file.
  predicate Exists<T(!new)>(f: File<T>, luck: Luck) {
    luck.Good? && !f.Absent?
  }

  // Where the three checks lead.
  function Choose(identityThere: bool, credentialThere: bool, dbThere: bool): PC {
    if identityThere && credentialThere then ReadIdentity(dbThere)
    else if dbThere || identityThere != credentialThere then Done(Failed)
    else Draw
  }

  // The operation at h.pc: the files after it, and where the handler goes.
  function Advance(f: Files, h: Handler, luck: Luck): (Files, PC) {
    match h.pc
    case CheckOpen => (f, if f.open then Done(Skipped) else StatIdentity)
    case StatIdentity => (f, StatCredential(Exists(f.identity, luck)))
    case StatCredential(i) => (f, StatDb(i, Exists(f.credential, luck)))
    case StatDb(i, c) => (f, Choose(i, c, Exists(f.db, luck)))
    case ReadIdentity(dbThere) =>
      (f, if luck.Good? && f.identity.Full? && f.identity.content.token == h.token
          then ReadCredential(dbThere, f.identity.content.identity) else Done(Failed))
    case ReadCredential(dbThere, unsealed) =>
      (f, if luck.Good? && f.credential.Full? && f.credential.content.recipient == unsealed
          then var secret := f.credential.content.password;
               if dbThere then OpenDb(secret) else CreateDb(secret, false)
          else Done(Failed))
    case Draw => (f, if luck.Good? then CreateDb(h.password, true) else Done(Failed))
    case CreateDb(secret, first) =>
      if luck.Good? && f.db.Absent? then (f.(db := Partial), EncodeDb(secret, first)) else (f, Done(Failed))
    case EncodeDb(secret, first) =>
      if luck.Good? then (f.(db := Full(secret)), SyncDb(secret, first)) else (f, RemoveDb)
    case RemoveDb => (if luck.Good? then f.(db := Absent) else f, Done(Failed))
    case SyncDb(secret, first) =>
      (f, if !luck.Good? then Done(Failed) else if first then TruncateIdentity else OpenDb(secret))
    case TruncateIdentity =>
      if luck.Good? then (f.(identity := Partial), WriteIdentity) else (f, Done(Failed))
    case WriteIdentity =>
      (if luck.Bad? then f else f.(identity := Full(SealedIdentity(h.identity, h.token))),
       if luck.Good? then TruncateCredential else Done(Failed))
    case TruncateCredential =>
      if luck.Good? then (f.(credential := Partial), WriteCredential) else (f, Done(Failed))
    case WriteCredential =>
      (if luck.Bad? then f else f.(credential := Full(SealedCredential(h.password, h.identity))),
       if luck.Good? then OpenDb(h.password) else Done(Failed))
    case OpenDb(secret) =>
      if luck.Good? && f.db == Full(secret) then (f.(open := true), Done(Unlocked)) else (f, Done(Failed))
    case Done(_) => (f, h.pc)
  }

  function Moved(h: Handler, pc: PC): Handler {
    h.(pc := pc, created := h.created || (h.pc.EncodeDb? && pc.SyncDb?))
  }

  function Rank(pc: PC): nat {
    match pc
    case CheckOpen => 16
    case StatIdentity => 15
    case StatCredential(_) => 14
    case StatDb(_, _) => 13
    case ReadIdentity(_) => 12
    case ReadCredential(_, _) => 11
    case Draw => 10
    case CreateDb(_, _) => 9
    case EncodeDb(_, _) => 8
    case RemoveDb => 7
    case SyncDb(_, _) => 6
    case TruncateIdentity => 5
    case WriteIdentity => 4
    case TruncateCredential => 3
    case WriteCredential => 2
    case OpenDb(_) => 1
    case Done(_) => 0
  }

  // ---- One handler by itself -----------------------------------------

  function RunAlone(f: Files, h: Handler, lucks: Lucks): (Files, Handler)
    decreases Rank(h.pc)
  {
    if h.pc.Done? then (f, h)
    else
      var (f', pc') := Advance(f, h, lucks.At(h.pc));
      RunAlone(f', Moved(h, pc'), lucks)
  }

  // The first n operations only: a crash after that many.
  function RunFor(f: Files, h: Handler, lucks: Lucks, n: nat): (Files, Handler) {
    if n == 0 then (f, h)
    else
      var (f', h') := RunFor(f, h, lucks, n - 1);
      var (f'', pc'') := Advance(f', h', lucks.At(h'.pc));
      (f'', Moved(h', pc''))
  }

  class Disk {
    var files: Files

    // O_EXCL creation, encoding, and removal when encoding fails.
    method CreateDatabase(password: Password, lucks: Lucks) returns (ok: bool)
      modifies this
      ensures files == old(files).(db := files.db)
      ensures files.db == DbAfterCreate(old(files).db, password, lucks)
      ensures ok <==> old(files).db.Absent? && lucks.createDb.Good? && lucks.encodeDb.Good? && lucks.syncDb.Good?
    {
      if !lucks.createDb.Good? || !files.db.Absent? {
        return false;
      }
      files := files.(db := Partial);
      if !lucks.encodeDb.Good? {
        if lucks.removeDb.Good? {
          files := files.(db := Absent);
        }
        return false;
      }
      files := files.(db := Full(password));
      return lucks.syncDb.Good?;
    }

    method OpenWithPassword(password: Password, lucks: Lucks) returns (outcome: Outcome)
      modifies this
      ensures outcome == if lucks.openDb.Good? && old(files).db == Full(password) then Unlocked else Failed
      ensures files == if outcome.Unlocked? then old(files).(open := true) else old(files)
    {
      if !lucks.openDb.Good? || files.db != Full(password) {
        return Failed;
      }
      files := files.(open := true);
      return Unlocked;
    }

    // WriteSealedIdentity and WriteSealedCredential: truncate, then write.
    method WriteSealed(token: Token, identity: Identity, password: Password, lucks: Lucks) returns (ok: bool)
      modifies this
      ensures (files, if ok then OpenDb(password) else Done(Failed))
              == SealedBy(old(files), token, identity, password, lucks)
    {
      if !lucks.truncateIdentity.Good? {
        return false;
      }
      files := files.(identity := Partial);
      if !lucks.writeIdentity.Bad? {
        files := files.(identity := Full(SealedIdentity(identity, token)));
      }
      if !lucks.writeIdentity.Good? || !lucks.truncateCredential.Good? {
        return false;
      }
      files := files.(credential := Partial);
      if !lucks.writeCredential.Bad? {
        files := files.(credential := Full(SealedCredential(password, identity)));
      }
      return lucks.writeCredential.Good?;
    }

    // handleConn from the open check on, then unlockOrBootstrapWithPAM.
    method UnlockOrBootstrap(token: Token, identity: Identity, password: Password, lucks: Lucks)
      returns (outcome: Outcome)
      modifies this
      ensures files == RunAlone(old(files), Begin(token, identity, password), lucks).0
      ensures Done(outcome) == RunAlone(old(files), Begin(token, identity, password), lucks).1.pc
    {
      hide Advance;
      ghost var f, h := files, Begin(token, identity, password);
      ChecksRun(f, h, lucks);
      if files.open {
        return Skipped;
      }
      var identityThere := Exists(files.identity, lucks.statIdentity);
      var credentialThere := Exists(files.credential, lucks.statCredential);
      var dbThere := Exists(files.db, lucks.statDb);
      if identityThere && credentialThere {
        ReadsRun(f, h, lucks, dbThere);
        if !lucks.readIdentity.Good? || !files.identity.Full? || files.identity.content.token != token {
          return Failed;
        }
        var unsealed := files.identity.content.identity;
        if !lucks.readCredential.Good? || !files.credential.Full? || files.credential.content.recipient != unsealed {
          return Failed;
        }
        var secret := files.credential.content.password;
        if !dbThere {
          CreateRuns(f, h.(pc := CreateDb(secret, false)), lucks);
          var ok := CreateDatabase(secret, lucks);
          if !ok {
            return Failed;
          }
        }
        OpenRuns(files, h.(pc := OpenDb(secret), created := !dbThere), lucks);
        outcome := OpenWithPassword(secret, lucks);
        return;
      }
      if dbThere || identityThere != credentialThere {
        return Failed;
      }
      DrawRuns(f, h, lucks);
      if !lucks.draw.Good? {
        return Failed;
      }
      CreateRuns(f, h.(pc := CreateDb(password, true)), lucks);
      var ok := CreateDatabase(password, lucks);
      if !ok {
        return Failed;
      }
      SealRuns(files, h.(pc := TruncateIdentity, created := true), lucks);
      ok := WriteSealed(token, identity, password, lucks);
      if !ok {
        return Failed;
      }
      OpenRuns(files, h.(pc := OpenDb(password), created := true), lucks);
      outcome := OpenWithPassword(password, lucks);
    }
  }

  function DbAfterCreate(db: File<Password>, password: Password, lucks: Lucks): File<Password> {
    if !db.Absent? || !lucks.createDb.Good? then db
    else if lucks.encodeDb.Good? then Full(password)
    else if lucks.removeDb.Good? then Absent
    else Partial
  }

  // What writing the two sealed files leaves, and where the handler goes.
  function SealedBy(f: Files, token: Token, identity: Identity, password: Password, lucks: Lucks): (Files, PC) {
    var f1 := if lucks.truncateIdentity.Good? then f.(identity := Partial) else f;
    var f2 := if lucks.writeIdentity.Bad? then f1 else f1.(identity := Full(SealedIdentity(identity, token)));
    var f3 := if lucks.truncateCredential.Good? then f2.(credential := Partial) else f2;
    var f4 := if lucks.writeCredential.Bad? then f3 else f3.(credential := Full(SealedCredential(password, identity)));
    if !lucks.truncateIdentity.Good? then (f1, Done(Failed))
    else if !lucks.writeIdentity.Good? then (f2, Done(Failed))
    else if !lucks.truncateCredential.Good? then (f3, Done(Failed))
    else (f4, if lucks.writeCredential.Good? then OpenDb(password) else Done(Failed))
  }

  // One operation of a handler that runs alone.
  lemma Unfold(f: Files, h: Handler, lucks: Lucks)
    requires !h.pc.Done?
    ensures var (f', pc') := Advance(f, h, lucks.At(h.pc));
            RunAlone(f, h, lucks) == RunAlone(f', Moved(h, pc'), lucks)
  {
  }

  lemma ChecksRun(f: Files, h: Handler, lucks: Lucks)
    requires h.pc == CheckOpen
    ensures RunAlone(f, h, lucks) ==
            if f.open then (f, h.(pc := Done(Skipped)))
            else RunAlone(f, h.(pc := Choose(Exists(f.identity, lucks.statIdentity),
                                             Exists(f.credential, lucks.statCredential),
                                             Exists(f.db, lucks.statDb))), lucks)
  {
    var i, c := Exists(f.identity, lucks.statIdentity), Exists(f.credential, lucks.statCredential);
    Unfold(f, h, lucks);
    Unfold(f, h.(pc := StatIdentity), lucks);
    Unfold(f, h.(pc := StatCredential(i)), lucks);
    Unfold(f, h.(pc := StatDb(i, c)), lucks);
  }

  // Both sealed files open, the identity with the handler's token.
  predicate Opens(f: Files, token: Token, lucks: Lucks) {
    && lucks.readIdentity.Good? && f.identity.Full? && f.identity.content.token == token
    && lucks.readCredential.Good? && f.credential.Full?
    && f.credential.content.recipient == f.identity.content.identity
  }

  lemma ReadsRun(f: Files, h: Handler, lucks: Lucks, dbThere: bool)
    ensures var r := RunAlone(f, h.(pc := ReadIdentity(dbThere)), lucks);
            if Opens(f, h.token, lucks) then
              var secret := f.credential.content.password;
              r == RunAlone(f, h.(pc := if dbThere then OpenDb(secret) else CreateDb(secret, false)), lucks)
            else r == (f, h.(pc := Done(Failed)))
  {
    Unfold(f, h.(pc := ReadIdentity(dbThere)), lucks);
    if f.identity.Full? {
      Unfold(f, h.(pc := ReadCredential(dbThere, f.identity.content.identity)), lucks);
    }
  }

  lemma DrawRuns(f: Files, h: Handler, lucks: Lucks)
    ensures RunAlone(f, h.(pc := Draw), lucks)
            == if lucks.draw.Good? then RunAlone(f, h.(pc := CreateDb(h.password, true)), lucks)
               else (f, h.(pc := Done(Failed)))
  {
    Unfold(f, h.(pc := Draw), lucks);
  }

  lemma EncodeRuns(f: Files, h: Handler, lucks: Lucks)
    requires h.pc.EncodeDb? && f.db.Partial?
    ensures var r := RunAlone(f, h, lucks);
            if !lucks.encodeDb.Good? then
              r == (if lucks.removeDb.Good? then f.(db := Absent) else f, h.(pc := Done(Failed)))
            else
              var f', h' := f.(db := Full(h.pc.secret)), h.(created := true);
              if !lucks.syncDb.Good? then r == (f', h'.(pc := Done(Failed)))
              else r == RunAlone(f', h'.(pc := if h.pc.first then TruncateIdentity else OpenDb(h.pc.secret)), lucks)
  {
    Unfold(f, h, lucks);
    if lucks.encodeDb.Good? {
      Unfold(f.(db := Full(h.pc.secret)), h.(created := true, pc := SyncDb(h.pc.secret, h.pc.first)), lucks);
    } else {
      Unfold(f, h.(pc := RemoveDb), lucks);
    }
  }

  lemma CreateRuns(f: Files, h: Handler, lucks: Lucks)
    requires h.pc.CreateDb?
    ensures var f' := f.(db := DbAfterCreate(f.db, h.pc.secret, lucks));
            if f.db.Absent? && lucks.createDb.Good? && lucks.encodeDb.Good? && lucks.syncDb.Good?
            then RunAlone(f, h, lucks) ==
                 RunAlone(f', h.(created := true, pc := if h.pc.first then TruncateIdentity else OpenDb(h.pc.secret)), lucks)
            else RunAlone(f, h, lucks).0 == f' && RunAlone(f, h, lucks).1.pc == Done(Failed)
  {
    Unfold(f, h, lucks);
    if f.db.Absent? && lucks.createDb.Good? {
      EncodeRuns(f.(db := Partial), h.(pc := EncodeDb(h.pc.secret, h.pc.first)), lucks);
    }
  }

  lemma SealRuns(f: Files, h: Handler, lucks: Lucks)
    requires h.pc.TruncateIdentity?
    ensures var (f', pc') := SealedBy(f, h.token, h.identity, h.password, lucks);
            RunAlone(f, h, lucks) == RunAlone(f', h.(pc := pc'), lucks)
  {
    Unfold(f, h, lucks);
    if lucks.truncateIdentity.Good? {
      var f1 := f.(identity := Partial);
      Unfold(f1, h.(pc := WriteIdentity), lucks);
      if lucks.writeIdentity.Good? {
        var f2 := f1.(identity := Full(SealedIdentity(h.identity, h.token)));
        Unfold(f2, h.(pc := TruncateCredential), lucks);
        if lucks.truncateCredential.Good? {
          Unfold(f2.(credential := Partial), h.(pc := WriteCredential), lucks);
        }
      }
    }
  }

  lemma OpenRuns(f: Files, h: Handler, lucks: Lucks)
    requires h.pc.OpenDb?
    ensures RunAlone(f, h, lucks)
            == if lucks.openDb.Good? && f.db == Full(h.pc.secret) then (f.(open := true), h.(pc := Done(Unlocked)))
               else (f, h.(pc := Done(Failed)))
  {
    Unfold(f, h, lucks);
  }

  // ---- Later logins --------------------------------------------------

  // The two sealed files belong together: identity i under token t, holding p.
  predicate Sealed(f: Files, i: Identity, t: Token, p: Password) {
    f.identity == Full(SealedIdentity(i, t)) && f.credential == Full(SealedCredential(p, i))
  }

  /** After a completed bootstrap a login whose calls all work unlocks iff it
      brings the same token and the database is either deleted, and then comes
      back with the same password, or fully written with it. A database whose
      re-creation was cut short by a crash never unlocks again. */
  lemma LaterLogin(f: Files, i: Identity, t: Token, p: Password, h: Handler)
    requires Sealed(f, i, t, p) && !f.open && h.pc == CheckOpen
    ensures var (f', h') := RunAlone(f, h, AllGood);
            if h.token == t && (f.db.Absent? || f.db == Full(p))
            then h'.pc == Done(Unlocked) && f' == f.(db := Full(p), open := true)
            else h'.pc == Done(Failed) && f' == f
  {
    hide Advance, RunAlone;
    ChecksRun(f, h, AllGood);
    ReadsRun(f, h, AllGood, !f.db.Absent?);
    if h.token == t {
      if f.db.Absent? {
        CreateRuns(f, h.(pc := CreateDb(p, false)), AllGood);
        OpenRuns(f.(db := Full(p)), h.(pc := OpenDb(p), created := true), AllGood);
      } else {
        OpenRuns(f, h.(pc := OpenDb(p)), AllGood);
      }
    }
  }

  /** A first login whose calls all work leaves a database with a password of its own,
      an identity sealed to the token, and the password sealed to the identity, and
      has the database open. */
  lemma FirstLoginCompletes(h: Handler)
    requires h.pc == CheckOpen
    ensures var (f, h') := RunAlone(NoFiles, h, AllGood);
            && h'.pc == Done(Unlocked)
            && f == Files(Full(h.password), Full(SealedIdentity(h.identity, h.token)),
                          Full(SealedCredential(h.password, h.identity)), true)
  {
    ChecksRun(NoFiles, h, AllGood);
    DrawRuns(NoFiles, h, AllGood);
    CreateRuns(NoFiles, h.(pc := CreateDb(h.password, true)), AllGood);
    var f1, h1 := NoFiles.(db := Full(h.password)), h.(created := true, pc := TruncateIdentity);
    SealRuns(f1, h1, AllGood);
    var (f2, pc) := SealedBy(f1, h.token, h.identity, h.password, AllGood);
    OpenRuns(f2, h1.(pc := pc), AllGood);
  }

  /** A handler that sees one sealed file without the other, or a database without both,
      fails and changes nothing. */
  lemma IncompleteRefuses(f: Files, lucks: Lucks, h: Handler)
    requires h.pc == CheckOpen && !f.open
    requires var i, c := Exists(f.identity, lucks.statIdentity), Exists(f.credential, lucks.statCredential);
             i != c || (!i && !c && Exists(f.db, lucks.statDb))
    ensures RunAlone(f, h, lucks).0 == f && RunAlone(f, h, lucks).1.pc == Done(Failed)
  {
    ChecksRun(f, h, lucks);
    DoneRuns(f, h.(pc := Done(Failed)), lucks);
  }

  /** A crash while a deleted database is created again leaves it truncated beside
      sealed files that open, and then no login unlocks any more. */
  lemma CrashWhileRecreating(f: Files, i: Identity, t: Token, p: Password, h: Handler, later: Handler)
    requires Sealed(f, i, t, p) && !f.open && f.db.Absent? && h.pc == CheckOpen && h.token == t && later.pc == CheckOpen
    ensures var f' := RunFor(f, h, AllGood, 7).0;
            f' == f.(db := Partial) && RunAlone(f', later, AllGood).0 == f' && RunAlone(f', later, AllGood).1.pc == Done(Failed)
  {
    assert RunFor(f, h, AllGood, 0) == (f, h);
    assert RunFor(f, h, AllGood, 2) == (f, h.(pc := StatCredential(true)));
    assert RunFor(f, h, AllGood, 4) == (f, h.(pc := ReadIdentity(false)));
    assert RunFor(f, h, AllGood, 6) == (f, h.(pc := CreateDb(p, false)));
    LaterLogin(f.(db := Partial), i, t, p, later);
  }

  // The database is missing, and neither check sees the sealed file that is there.
  predicate Overlooked(f: Files, lucks: Lucks) {
    !f.open && f.db.Absent? && !Exists(f.identity, lucks.statIdentity) && !Exists(f.credential, lucks.statCredential)
  }

  /** A wrong token changes a file iff the database is missing, both checks of the
      sealed files fail, and creating a database leaves something behind: then the
      handler bootstraps anew. It unlocks iff that whole bootstrap works. */
  lemma WrongTokenIff(f: Files, lucks: Lucks, h: Handler)
    requires f.identity.Full? && f.identity.content.token != h.token && h.pc == CheckOpen
    ensures var (f', h') := RunAlone(f, h, lucks);
            var creates := Overlooked(f, lucks) && lucks.draw.Good? && lucks.createDb.Good?;
            && (f' != f <==> creates && (lucks.encodeDb.Good? || !lucks.removeDb.Good?))
            && (h'.pc == Done(Unlocked) <==>
                  && creates && lucks.encodeDb.Good? && lucks.syncDb.Good?
                  && lucks.truncateIdentity.Good? && lucks.writeIdentity.Good?
                  && lucks.truncateCredential.Good? && lucks.writeCredential.Good? && lucks.openDb.Good?)
  {
    hide Advance, RunAlone;
    ChecksRun(f, h, lucks);
    ReadsRun(f, h, lucks, Exists(f.db, lucks.statDb));
    DrawRuns(f, h, lucks);
    var h1 := h.(pc := CreateDb(h.password, true));
    CreateRuns(f, h1, lucks);
    DoneRuns(f, h.(pc := Done(Failed)), lucks);
    if Overlooked(f, lucks) && lucks.createDb.Good? && lucks.encodeDb.Good? && lucks.syncDb.Good? {
      var f2, h2 := f.(db := Full(h.password)), h1.(created := true, pc := TruncateIdentity);
      SealRuns(f2, h2, lucks);
      var (f3, pc) := SealedBy(f2, h.token, h.identity, h.password, lucks);
      if pc.OpenDb? {
        OpenRuns(f3, h2.(pc := pc), lucks);
      } else {
        DoneRuns(f3, h2.(pc := pc), lucks);
      }
    }
  }

  lemma DoneRuns(f: Files, h: Handler, lucks: Lucks)
    requires h.pc.Done?
    ensures RunAlone(f, h, lucks) == (f, h)
  {
  }

  // ---- Crashes -------------------------------------------------------

  const NoFiles: Files := Files(Absent, Absent, Absent, false)

  predicate None(f: Files) {
    f.db.Absent? && f.identity.Absent? && f.credential.Absent?
  }

  // A database exists but no credential opens: nothing can be unlocked.
  predicate Stuck(f: Files) {
    !f.db.Absent? && !f.credential.Full?
  }

  predicate Complete(f: Files, i: Identity, t: Token, p: Password) {
    Sealed(f, i, t, p) && f.db == Full(p)
  }

  // How far a first login has got, and what the three files then hold.
  predicate FirstLogin(f: Files, h: Handler) {
    match h.pc
    case EncodeDb(p, first) =>
      f.db.Partial? && f.identity.Absent? && f.credential.Absent? && first && p == h.password
    case RemoveDb => f.db.Partial? && f.identity.Absent? && f.credential.Absent?
    case SyncDb(p, first) =>
      f.db == Full(h.password) && f.identity.Absent? && f.credential.Absent? && first && p == h.password
    case TruncateIdentity => f.db == Full(h.password) && f.identity.Absent? && f.credential.Absent?
    case WriteIdentity => f.db == Full(h.password) && f.identity.Partial? && f.credential.Absent?
    case TruncateCredential =>
      f.db == Full(h.password) && f.identity == Full(SealedIdentity(h.identity, h.token)) && f.credential.Absent?
    case WriteCredential =>
      f.db == Full(h.password) && f.identity == Full(SealedIdentity(h.identity, h.token)) && f.credential.Partial?
    case OpenDb(_) => Complete(f, h.identity, h.token, h.password)
    case Done(_) =>
      || None(f) || Complete(f, h.identity, h.token, h.password)
      || (f.db.Partial? && f.identity.Absent? && f.credential.Absent?)
      || (f.db == Full(h.password) && f.credential.Absent?
          && (f.identity.Full? ==> f.identity.content == SealedIdentity(h.identity, h.token)))
      || (f.db == Full(h.password) && f.credential.Partial?
          && f.identity == Full(SealedIdentity(h.identity, h.token)))
    case CreateDb(p, first) => None(f) && first && p == h.password
    case StatCredential(i) => None(f) && !i
    case StatDb(i, c) => None(f) && !i && !c
    case ReadIdentity(_) => false
    case ReadCredential(_, _) => false
    case CheckOpen => None(f)
    case StatIdentity => None(f)
    case Draw => None(f)
  }

  lemma FirstLoginAdvances(f: Files, h: Handler, luck: Luck)
    requires FirstLogin(f, h)
    ensures var (f', pc') := Advance(f, h, luck); FirstLogin(f', Moved(h, pc'))
  {
  }

  /** A crash of the first login after any number of file operations, with any
      failures before it, leaves no file at all, a stuck state, or a complete
      bootstrap. */
  lemma {:induction false} CrashLeaves(lucks: Lucks, h: Handler, n: nat)
    requires h.pc == CheckOpen
    ensures var (f, h') := RunFor(NoFiles, h, lucks, n);
            && (None(f) || Stuck(f) || Complete(f, h.identity, h.token, h.password))
            && FirstLogin(f, h') && (h'.token, h'.identity, h'.password) == (h.token, h.identity, h.password)
  {
    if n > 0 {
      CrashLeaves(lucks, h, n - 1);
      var (f, h') := RunFor(NoFiles, h, lucks, n - 1);
      FirstLoginAdvances(f, h', lucks.At(h'.pc));
    }
  }

  // ---- Any number of handlers ----------------------------------------

  datatype Creator = Nobody | Somebody(who: nat)

  // `creator`: the handler that made the database file now on disk, if one did.
  datatype State = State(files: Files, handlers: seq<Handler>, creator: Creator)

  ghost predicate Spawn(s: State, s': State, token: Token, identity: Identity, password: Password) {
    s' == s.(handlers := s.handlers + [Begin(token, identity, password)])
  }

  ghost predicate Act(s: State, s': State, i: nat, luck: Luck) {
    && i < |s.handlers|
    && var (f, pc) := Advance(s.files, s.handlers[i], luck);
       s' == State(f, s.handlers[i := Moved(s.handlers[i], pc)],
                   if f.db.Absent? then Nobody else if s.files.db.Absent? then Somebody(i) else s.creator)
  }

  // The daemon locks the database or restarts.
  ghost predicate LeavePool(s: State, s': State) {
    s' == s.(files := s.files.(open := false))
  }

  ghost predicate Next(s: State, s': State) {
    || (exists token: Token, identity: Identity, password: Password :: Spawn(s, s', token, identity, password))
    || (exists i: nat, luck: Luck :: Act(s, s', i, luck))
    || LeavePool(s, s')
  }

  ghost predicate IsRun(run: seq<State>) {
    && |run| > 0
    && run[0].handlers == [] && run[0].creator == Nobody
    && forall k :: 0 <= k < |run| - 1 ==> Next(run[k], run[k + 1])
  }

  // ---- Existing databases are left alone -----------------------------

  // Whoever encodes or removes a database file created it, and it is unfinished.
  ghost predicate OwnersOwn(s: State) {
    forall i :: 0 <= i < |s.handlers| && (s.handlers[i].pc.EncodeDb? || s.handlers[i].pc.RemoveDb?) ==>
      s.creator == Somebody(i) && s.files.db.Partial?
  }

  lemma ActKeepsDb(s: State, s': State, i: nat, luck: Luck)
    requires OwnersOwn(s) && Act(s, s', i, luck)
    ensures OwnersOwn(s')
    ensures s.files.db.Full? ==> s'.files.db == s.files.db
    ensures s.creator.Nobody? && !s.files.db.Absent? ==> s'.creator.Nobody? && s'.files.db == s.files.db
  {
    assert s.handlers[i].pc.EncodeDb? || s.handlers[i].pc.RemoveDb? ==> s.creator == Somebody(i);
  }

  lemma {:induction false} RunOwners(run: seq<State>, j: nat)
    requires IsRun(run) && j < |run|
    ensures OwnersOwn(run[j])
    ensures j > 0 && run[j - 1].files.db.Full? ==> run[j].files.db == run[j - 1].files.db
    ensures j > 0 && run[j - 1].creator.Nobody? && !run[j - 1].files.db.Absent? ==>
              run[j].creator.Nobody? && run[j].files.db == run[j - 1].files.db
  {
    if j > 0 {
      RunOwners(run, j - 1);
      var s, s' := run[j - 1], run[j];
      assert Next(s, s');
      if exists i: nat, luck: Luck :: Act(s, s', i, luck) {
        var i: nat, luck: Luck :| Act(s, s', i, luck);
        ActKeepsDb(s, s', i, luck);
      }
    }
  }

  /** From any files whatever, a completed database file is never changed or
      removed again, however many handlers run. */
  lemma {:induction false} CompletedDatabaseUntouched(run: seq<State>, j: nat, k: nat)
    requires IsRun(run) && j <= k < |run| && run[j].files.db.Full?
    ensures run[k].files.db == run[j].files.db
  {
    if j < k {
      CompletedDatabaseUntouched(run, j, k - 1);
      RunOwners(run, k);
    }
  }

  /** ... and neither is any database file that is there at the start, whatever
      it holds. */
  lemma {:induction false} ExistingDatabaseUntouched(run: seq<State>, k: nat)
    requires IsRun(run) && k < |run| && !run[0].files.db.Absent?
    ensures run[k].files.db == run[0].files.db && run[k].creator.Nobody?
  {
    if k > 0 {
      ExistingDatabaseUntouched(run, k - 1);
      RunOwners(run, k);
    }
  }

  // ---- Starting from nothing -----------------------------------------

  predicate Creating(pc: PC) {
    || pc.EncodeDb? || pc.RemoveDb? || pc.SyncDb?
    || pc.TruncateIdentity? || pc.WriteIdentity? || pc.TruncateCredential? || pc.WriteCredential?
  }

  // Handlers that have seen a sealed file before reaching this point.
  predicate SawSealed(pc: PC) {
    match pc
    case StatCredential(i) => i
    case StatDb(i, c) => i || c
    case ReadIdentity(_) => true
    case ReadCredential(_, _) => true
    case CreateDb(_, first) => !first
    case _ => false
  }

  predicate HandlerOk(s: State, i: nat)
    requires i < |s.handlers|
  {
    var h := s.handlers[i];
    && (Creating(h.pc) || h.created ==> s.creator == Somebody(i))
    && (h.created || SawSealed(h.pc) ==> s.files.db.Full?)
    && (h.pc.CreateDb? && h.pc.first ==> h.pc.secret == h.password)
  }

  // The creator's own view of the files, once it has stopped or while it goes on.
  predicate CreatorOk(f: Files, h: Handler) {
    !f.db.Absent? && FirstLogin(f, if Creating(h.pc) then h else h.(pc := Done(Failed)))
  }

  ghost predicate Consistent(s: State) {
    && (s.creator.Nobody? ==> None(s.files))
    && (s.creator.Somebody? ==> s.creator.who < |s.handlers| && CreatorOk(s.files, s.handlers[s.creator.who]))
    && forall i :: 0 <= i < |s.handlers| ==> HandlerOk(s, i)
  }

  lemma CreatorAdvances(f: Files, h: Handler, luck: Luck)
    requires CreatorOk(f, h) && Creating(h.pc)
    ensures var (f', pc') := Advance(f, h, luck);
            if f'.db.Absent? then None(f') else CreatorOk(f', Moved(h, pc'))
  {
    FirstLoginAdvances(f, h, luck);
  }

  lemma OthersLeaveFiles(f: Files, h: Handler, luck: Luck)
    requires !Creating(h.pc) && !f.db.Absent?
    ensures var f' := Advance(f, h, luck).0; f' == f.(open := f'.open)
    ensures !Creating(Advance(f, h, luck).1)
  {
  }

  lemma ActKeepsCreatorOk(s: State, s': State, i: nat, luck: Luck)
    requires Consistent(s) && Act(s, s', i, luck)
    ensures s'.creator.Nobody? ==> None(s'.files)
    ensures s'.creator.Somebody? ==>
              s'.creator.who < |s'.handlers| && CreatorOk(s'.files, s'.handlers[s'.creator.who])
  {
    assert HandlerOk(s, i);
    var h := s.handlers[i];
    if Creating(h.pc) {
      CreatorAdvances(s.files, h, luck);
    } else if !s.files.db.Absent? {
      OthersLeaveFiles(s.files, h, luck);
    }
  }

  lemma ActKeepsHandlersOk(s: State, s': State, i: nat, luck: Luck, j: nat)
    requires Consistent(s) && Act(s, s', i, luck) && j < |s'.handlers|
    ensures HandlerOk(s', j)
  {
    assert HandlerOk(s, i) && HandlerOk(s, j);
  }

  lemma ActKeepsConsistent(s: State, s': State, i: nat, luck: Luck)
    requires Consistent(s) && Act(s, s', i, luck)
    ensures Consistent(s')
  {
    ActKeepsCreatorOk(s, s', i, luck);
    forall j | 0 <= j < |s'.handlers|
      ensures HandlerOk(s', j)
    {
      ActKeepsHandlersOk(s, s', i, luck, j);
    }
  }

  lemma {:induction false} RunStaysConsistent(run: seq<State>, k: nat)
    requires IsRun(run) && k < |run| && None(run[0].files)
    ensures Consistent(run[k])
  {
    if k > 0 {
      RunStaysConsistent(run, k - 1);
      var s, s' := run[k - 1], run[k];
      assert Next(s, s');
      if exists i: nat, luck: Luck :: Act(s, s', i, luck) {
        var i: nat, luck: Luck :| Act(s, s', i, luck);
        ActKeepsConsistent(s, s', i, luck);
      } else {
        forall j | 0 <= j < |s'.handlers|
          ensures HandlerOk(s', j)
        {
          assert j < |s.handlers| ==> HandlerOk(s, j);
        }
      }
    }
  }

  /** Starting without any of the three files, whatever handlers with whatever
      tokens interleave and crash: at most one ever completes the database, and
      once the credential is fully written so is the database, the credential
      holds its password, and it is sealed to the identity on disk. */
  lemma ConcurrentBootstrap(run: seq<State>, k: nat)
    requires IsRun(run) && k < |run| && None(run[0].files)
    ensures forall a, b | 0 <= a < |run[k].handlers| && 0 <= b < |run[k].handlers| ::
              run[k].handlers[a].created && run[k].handlers[b].created ==> a == b
    ensures var f := run[k].files;
            f.credential.Full? ==>
              && f.db == Full(f.credential.content.password)
              && f.identity.Full? && f.identity.content.identity == f.credential.content.recipient
  {
    RunStaysConsistent(run, k);
    forall a | 0 <= a < |run[k].handlers|
      ensures run[k].handlers[a].created ==> run[k].creator == Somebody(a)
    {
      assert HandlerOk(run[k], a);
    }
  }

  /** ... and at every moment the files are absent, stuck, or a complete bootstrap by
      the one handler that created the database. */
  lemma ConcurrentCrashLeaves(run: seq<State>, k: nat)
    requires IsRun(run) && k < |run| && None(run[0].files)
    ensures var s := run[k];
            || None(s.files) || Stuck(s.files)
            || (&& s.creator.Somebody? && s.creator.who < |s.handlers|
                && var h := s.handlers[s.creator.who]; Complete(s.files, h.identity, h.token, h.password))
  {
    RunStaysConsistent(run, k);
  }

  /** A daemon that starts again where such a run was cut short with the database
      there and no credential unlocks nothing and changes nothing, however many
      logins follow. */
  lemma CutShortIsForever(run: seq<State>, k: nat, later: seq<State>, j: nat)
    requires IsRun(run) && k < |run| && None(run[0].files) && !run[k].files.db.Absent? && !run[k].files.credential.Full?
    requires IsRun(later) && j < |later| && later[0].files == run[k].files.(open := false)
    ensures StuckWith(later[j], later[0].files)
  {
    StuckForever(later, j);
  }

  // ---- After a crash, and after success ------------------------------

  // No program counter from which a file is written or the pool entered.
  predicate Harmless(pc: PC) {
    !Creating(pc) && !pc.OpenDb? && pc != Done(Unlocked)
  }

  ghost predicate StuckWith(s: State, f: Files) {
    && s.files == f.(open := s.files.open)
    && forall i :: 0 <= i < |s.handlers| ==> Harmless(s.handlers[i].pc)
  }

  /** In a stuck state every later login, any number of them at once with any
      tokens, refuses and changes no file. */
  lemma {:induction false} StuckForever(run: seq<State>, k: nat)
    requires IsRun(run) && k < |run| && Stuck(run[0].files)
    ensures StuckWith(run[k], run[0].files)
  {
    if k > 0 {
      StuckForever(run, k - 1);
      var s, s' := run[k - 1], run[k];
      assert Next(s, s');
      if exists i: nat, luck: Luck :: Act(s, s', i, luck) {
        var i: nat, luck: Luck :| Act(s, s', i, luck);
        assert Harmless(s.handlers[i].pc);
      }
    }
  }

  // Only the right token gets past the sealed identity.
  predicate Authorized(h: Handler, i: Identity, t: Token, p: Password) {
    match h.pc
    case ReadCredential(_, unsealed) => h.token == t && unsealed == i
    case OpenDb(secret) => h.token == t && secret == p
    case Done(Unlocked) => h.token == t
    case _ => !Creating(h.pc)
  }

  ghost predicate CompleteWith(s: State, f: Files, i: Identity, t: Token, p: Password) {
    && s.files == f.(open := s.files.open)
    && forall k :: 0 <= k < |s.handlers| ==> Authorized(s.handlers[k], i, t, p)
  }

  lemma ActKeepsComplete(s: State, s': State, j: nat, luck: Luck, f: Files, i: Identity, t: Token, p: Password)
    requires CompleteWith(s, f, i, t, p) && Complete(f, i, t, p) && Act(s, s', j, luck)
    ensures CompleteWith(s', f, i, t, p)
  {
    assert Authorized(s.handlers[j], i, t, p);
  }

  /** Once the bootstrap is complete no run of any handlers changes the three
      files again, and only handlers with the sealing token unlock. */
  lemma {:induction false} CompleteStaysComplete(run: seq<State>, k: nat, i: Identity, t: Token, p: Password)
    requires IsRun(run) && k < |run| && Complete(run[0].files, i, t, p)
    ensures CompleteWith(run[k], run[0].files, i, t, p)
  {
    if k > 0 {
      CompleteStaysComplete(run, k - 1, i, t, p);
      var s, s' := run[k - 1], run[k];
      assert Next(s, s');
      if exists j: nat, luck: Luck :: Act(s, s', j, luck) {
        var j: nat, luck: Luck :| Act(s, s', j, luck);
        ActKeepsComplete(s, s', j, luck, run[0].files, i, t, p);
      }
    }
  }
}
