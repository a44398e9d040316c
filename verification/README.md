# Verified model of kpxcd

kpxcd keeps KeePass databases open and serves them to Secret Service and SSH
clients. This project models the state, loops and protocols underneath its D-Bus
and file-format plumbing and proves what they promise. `dafny verify
dfyconfig.toml` checks everything.

| file | what it models |
|---|---|
| `Saving.dfy`, `Pool.dfy`, `Wiping.dfy` | the optimistic save protocol against an external writer, the pool of open databases, blanking on lock |
| `Entries.dfy`, `Groups.dfy`, `Items.dfy` | Secret Service items: fields and history of an entry, the group tree with recycle bin and exposed group, the two matchers, create-or-replace, delete, set secret |
| `NotifyCache.dfy` | the cache that limits notifications |
| `Bootstrap.dfy` | the first login and every later one, as concurrent handlers over three files |
| `Wire.dfy`, `Agent.dfy` | the SSH agent's byte formats and its map of loaded keys |
| `Session.dfy` | padding and encryption of secrets in transit |
| `Text.dfy`, `Wrappers.dfy` | strings, bytes and options |

Code that changes things in place is a class whose methods are proved against a
specification function; the theorems are about that function and about runs of
it.

## What is assumed

- `Entry.Clone` and `Group.Clone` copy deeply and draw a new UUID for every group,
  entry and archived version (gokeepasslib, `group.go:56-68` and `entry.go:56-72` under
  `vendor/`). The drawn UUIDs are parameters; equality up to UUIDs is equality once
  every UUID is set to zero.
- A fingerprint belongs to one version of a file, and SHA-256 is injective on key
  blobs.
- Sealing is ideal: a sealed file opens only with the key it was sealed to, and a
  truncated one never opens. A database file opens with exactly the password it was
  created with.
- The block cipher is any permutation of the 16-byte blocks for each key of 16, 24
  or 32 bytes.
- Case folding and trimming are ASCII.
- Iterating a Go map is nondeterministic choice.
- Comparing and renaming, renaming and taking the new fingerprint, and decoding and
  taking the fingerprint are each one step. The code cannot close these windows.
- Where a mutation dereferences a nil root, Go panics before it changes anything;
  the model reports an error instead. Blanking a content without a root does nothing
  here.
- The outcome of every failing call, random bytes, new UUIDs, the clock and the
  range order of a map are parameters.

## Where the code does not do what one might expect

Each of these is a theorem with its exact condition.

- `Saving.UnchangedIff`, `Saving.RollbackLosesItems`, `Saving.FullDiskRekeys`: what is
  rolled back after a failed save is a clone, so every UUID is new: items are not
  found under their object paths any more, and a group recycled or exposed by its
  UUID alone (`Groups.CloneShowsByName`) loses that status.
- `Entries.HistoryKeepsLastVersions`: archived versions do not carry the UUID of
  their entry.
- `Items.IdempotentIff`: replacing the same attributes again can add a second entry,
  when "title" does not match the stored title, when `kpxcd:dbname` or
  `kpxcd:dbuuid` names another database, or when the target group is recycled.
- `Items.NewItemIsFoundIff`: a "custom:k" attribute is written under its full name and
  searched for under k, so an item with one is found only if it repeats what k holds.
- `Entries.AppliedLookups`, `Entries.OrderIrrelevantIff`: an attribute called
  "Password" overwrites the secret; "title" together with another "Title" makes the
  stored title depend on map order.
- `Groups.DeletedIsGoneIff`: deletion also walks recycled and unexposed groups, and
  removes only the first of several entries with one UUID.
- `Saving.NilRootRestoredIff`: a root that was missing is not made missing again.
- `Saving.ItemUpdateIsAllOrNothing`, `Saving.StaleUntilReopened`: an error after the
  rename leaves the new content in the file, the old one in memory, and a handle
  that refuses every update until it is reopened.
- `Pool.DatabasePool.Open`: opening a second file with the same UUID drops the first
  handle from the pool without blanking it.
- `Bootstrap.LaterLogin`, `Bootstrap.CrashWhileRecreating`: a crash while a deleted
  database is being created again leaves a file that never unlocks and is never
  repaired.
- `Bootstrap.WrongTokenIff`: when the database is missing and both sealed files cannot
  be examined, a login with any token bootstraps over them.
- `Agent.SharedKeyDropped`: of two databases sharing a key, locking one can take the
  key away from the other.
- `Session.ClosedAndPanics`: a plain session ignores that it is closed, and an IV of
  the wrong length makes decryption panic.

## Model

| member | source | states |
|---|---|---|
| `Saving.NoLostExternalWrite` | internal/dbpool/save.go:76-150 | over every run of opens, locks, updates and external writes, each rename replaces exactly the version of the file last loaded or saved here |
| `Saving.RenameReplacesBase` | internal/dbpool/save.go:117-214 | one update: a rename replaces exactly the version last seen, and an external write in any window, even while the temporary file is encoded, makes the update refuse |
| `Saving.SucceedsIff` | internal/dbpool/save.go:76-150 | with no failing call an update succeeds iff the database is open, the file is still the version last seen, nobody writes meanwhile and the mutation succeeds; then file and memory hold the mutated groups |
| `Saving.AllOrNothing` | internal/dbpool/save.go:90-105 | an update that reports an error leaves the handle as it was up to the UUIDs of groups, entries and archived versions, for any mutation that changes nothing when it fails; protected values stay in unlocked form on every path |
| `Saving.UnchangedIff` | internal/dbpool/save.go:90-105 | after an error the handle is exactly as it was iff the call stopped at its first checks or in the mutation, or there is no group to re-key |
| `Saving.ErrorLeaves` | internal/dbpool/save.go:90-105 | what an error leaves: the handle itself if the call stopped early, and otherwise the clone taken before the mutation |
| `Saving.RollbackLosesItems` | internal/dbpool/save.go:94-101 | after a rollback no entry is found under the UUID it had before |
| `Saving.RollbackShowsTheSame` | internal/dbpool/save.go:94-101 | after an error the same entries are visible, up to UUIDs, if no group is recycled or exposed by its UUID alone |
| `Saving.FullDiskRekeys` | internal/dbpool/save.go:152-162 | the plainest failing input: one entry and a full disk; the file keeps its UUID and memory holds another, and a recycle bin under another name becomes visible |
| `Saving.NilRootRestoredIff` | internal/dbpool/save.go:90-105 | without a root there is nothing to restore: the root a mutation created survives an error iff the call got past its first check of the file |
| `Saving.ItemUpdateIsAllOrNothing` | internal/secretservice/collection.go:148-177 | create, delete and set-secret through the save protocol: an error leaves memory as it was, or as the clone of what it was once saving had begun, and the file as it was, except that an error after the rename leaves the new groups in the file; success puts the same groups in both |
| `Saving.RequestSucceedsIff` | internal/dbpool/save.go:76-150 | with no failing call a create, delete or set-secret succeeds iff the database is not locked, the file is the version last seen, nobody writes meanwhile, and the item is there, or for a create there is an entry to replace or a group to put a new one in |
| `Saving.MutateOkIff` | internal/secretservice/collection.go:148-177 | when each closure reports success, told from the tree |
| `Saving.DeleteIsSaved` | internal/secretservice/item.go:128-133 | a delete that succeeds has taken the first entry with the UUID, and nothing else, out of memory and file |
| `Saving.SecretIsSaved` | internal/secretservice/item.go:158-167 | a set-secret that succeeds has given the first entry with the UUID the new secret and archived its old version, in memory and file; everything else is as before |
| `Saving.ReplaceIsSaved` | internal/secretservice/collection.go:148-160 | a create that finds an entry to replace has rewritten the first such entry of the visible list, archived its old version, and added none, in memory and file |
| `Saving.CreateIsSaved` | internal/secretservice/collection.go:161-177 | any other create that succeeds has put exactly one new entry, with its attributes and its secret, where it belongs, in memory and file; if storable it is what a later replacing call picks, and reads back this secret |
| `Saving.ServeRequest` | internal/secretservice/collection.go:148-177 | the closures run in place on the tree are the mutation these results are about |
| `Saving.MutateIsClean` | internal/secretservice/item.go:122-168 | the three item mutations change nothing when they report an error and never lock protected values |
| `Saving.CleanUpdate` | internal/dbpool/save.go:76-150 | any mutation of that kind, undisturbed by other writers: exactly what each outcome leaves in memory and in the file |
| `Saving.ApplyKeepsSafe` | internal/dbpool/save.go:76-150 | every operation keeps the invariant: valid disk, no lost write so far, and the handle based on the version last seen |
| `Saving.MemoryMirrorsFile` | internal/dbpool/save.go:76-150 | over every run whose updates are item mutations, with any failures: as long as the file is the version last loaded or saved here, memory and file hold the same groups up to UUIDs, and with the same UUIDs unless a save was rolled back since; protected values are in unlocked form |
| `Saving.UpdateKeepsMirror` | internal/dbpool/save.go:90-105 | one update keeps that; a successful one makes it exact, and one that stops early keeps it exact |
| `Saving.OldOrNewFile` | internal/dbpool/save.go:164-214 | a call leaves the file it found or a version that is new |
| `Saving.ItemMutationsAreClean` | internal/secretservice/collection.go:148-177 | create, delete and set-secret are mutations of that kind |
| `Saving.StaleUntilReopened` | internal/dbpool/save.go:95-105 | once the file has moved on, by an external write or by a save that failed after its rename, every later update refuses until the database is opened again |
| `Saving.StaleStep` | internal/dbpool/save.go:117-124 | one step of a stale handle: refused, no rename, still stale |
| `Saving.FileFingerprint.Equal` | internal/dbpool/save.go:62-71 | two fingerprints are equal iff all their fields are |
| `Pool.OpenDatabase.UpdateAndSave` | internal/dbpool/save.go:76-106 | the in-place update ends in exactly the state and outcome of the step function the theorems are about, and keeps locked iff Db is nil |
| `Pool.OpenDatabase.SaveLocked` | internal/dbpool/save.go:117-150 | re-check, lock entries, encode and rename, unlock entries, take the new fingerprint: exactly the step function, with every early return |
| `Pool.OpenDatabase.AtomicEncode` | internal/dbpool/save.go:164-214 | the file is replaced iff encoding works, the file still has the expected fingerprint, and the rename works; otherwise it is untouched, and the error says which check failed |
| `Pool.DatabasePool.Open` | internal/dbpool/pool.go:194-271 | a failed open leaves the pool alone; a successful one files a fresh, unlocked, watched handle under its UUID and touches no other database object |
| `Pool.DatabasePool.Lock` | internal/dbpool/pool.go:274-307 | fails iff the UUID is unknown; otherwise the handle is locked, its database captured before is blank and without credentials, and no other handle changes |
| `Pool.DatabasePool.LockAll` | internal/dbpool/pool.go:310-330 | leaves nothing unlocked, and every database that was open is blank with its shape kept |
| `Pool.DatabasePool.LockNext` | internal/dbpool/pool.go:322-328 | one round of its loop: the next database is locked and blank, the earlier ones stay so, and the others are not touched |
| `Pool.DatabasePool.Close` | internal/dbpool/pool.go:357-363 | the same, and the pool is empty afterwards |
| `Pool.Database.Wipe` | internal/dbpool/wipe.go:14-41 | credentials gone; the binaries, custom data values and default user name of Meta empty; name, notes and last visible entry of every group, and colours, tags, override URL, values, binary names and custom data values of every entry and archived version empty; shape unchanged |
| `Wiping.WipeContent` | internal/dbpool/wipe.go:28-41 | blanks binaries, custom data, default user and all groups, keeping the shape |
| `Wiping.WipeGroups` | internal/dbpool/wipe.go:43-55 | blanks every group at any depth, keeping the shape |
| `Wiping.WipeEntry` | internal/dbpool/wipe.go:57-76 | blanks values, custom data, binaries and, recursively, every version in every history |
| `Wiping.WipeEntries` | internal/dbpool/wipe.go:48-50 | the same for a list of entries, position by position |
| `Wiping.WipeCustomData` | internal/dbpool/wipe.go:78-82 | all values empty, all keys kept |
| `Wiping.WipeValues` | internal/dbpool/wipe.go:58-60 | all contents empty; keys and protection kept |
| `Wiping.BlankReadsEmpty` | internal/dbpool/wipe.go:43-76 | in a blank tree every entry at any depth, and every version reached through nested histories, reads back empty for every key |
| `Wiping.ShapeKeepsEntries` | internal/dbpool/wipe.go:43-55 | the flattened list of entries keeps its length and UUIDs, entry by entry |
| `Entries.AppliedLookups` | internal/secretservice/write.go:310-366 | what every field reads back after the fields of an item are written, for any range order of the attribute map; an attribute called "Password" overwrites the secret |
| `Entries.TitleOfWritten` | internal/secretservice/write.go:310-319 | where the title of an item comes from: the label, then "title", then "application", then a fixed text, each if not empty |
| `Entries.OrderIrrelevantIff` | internal/secretservice/write.go:347-366 | all range orders give the same lookups iff the attributes do not contain both "title" and a "Title" that differs from the resolved label |
| `Entries.SetThenLookup` | internal/secretservice/write.go:368-382 | after a value is set it reads back, and every other key reads as before |
| `Entries.LiveEntry.SetEntryValue` | internal/secretservice/write.go:368-382 | the in-place loop equals first-match update, or append if the key is missing |
| `Entries.LiveEntry.ApplyEntryFields` | internal/secretservice/write.go:310-345 | the in-place write equals the specification for some range order |
| `Entries.TrimmedIsLongestFit` | internal/secretservice/write.go:141-169 | trimming returns a suffix that fits the limits, and no longer suffix does |
| `Entries.SizesAddUp` | internal/secretservice/write.go:171-180 | the size of a history counts the characters of all keys, contents, tags and override URLs |
| `Entries.ArchivingKeepsVersion` | internal/secretservice/write.go:127-169 | archiving puts the entry as it stands, under the drawn UUID, behind as many of the latest versions as the limits allow, and changes nothing else |
| `Entries.SecretKeepsVersion` | internal/secretservice/item.go:158-167 | a new secret does that, sets the password and touches no other field; without limits in the database 10 versions and 6 MiB are kept |
| `Entries.LiveEntry.TrimHistory` | internal/secretservice/write.go:141-169 | the two trimming loops compute that suffix and touch only the first history |
| `Entries.LiveEntry.AppendHistory` | internal/secretservice/write.go:127-139 | archives a clone of the entry, under the UUID it drew and without the history, at the end of the first history, then trims |
| `Entries.MeasureHistory` | internal/secretservice/write.go:171-180 | the nested loops add up the sizes of keys, contents, tags and override URLs |
| `Entries.HistoryKeepsLastVersions` | internal/secretservice/write.go:127-169 | after n secret updates from an empty history, while the size limit is not reached, the history is the last min(n, maxItems) replaced versions, oldest first, each under the UUID its clone drew; if no clone drew the entry's own, no archived version carries it |
| `Entries.HistoryIsKeyedVersions` | internal/secretservice/write.go:127-169 | the same as one equation |
| `Entries.CloneTwice` | vendor/github.com/tobischo/gokeepasslib/v3/entry.go:56-72 | a clone copies everything but the UUIDs of the entry and of every archived version at any depth |
| `Entries.LiveEntry.SetSecretValue` | internal/secretservice/item.go:158-167 | archive, then overwrite the password |
| `Groups.CollectEntriesVisibleInto` | internal/secretservice/attributes.go:160-172 | the recursive appending loop yields the visible list: outside recycled groups, in or below an exposed one |
| `Groups.ShownIff` | internal/secretservice/attributes.go:153-172 | an entry is visible iff neither its group nor one around it is the recycle bin, by name or UUID, and one of them is exposed, by name or hexadecimal UUID up to case; a blank name exposes all |
| `Groups.VisibleAtIff` | internal/secretservice/attributes.go:160-172 | the same for one group |
| `Groups.TraversalsAgree` | internal/dbpool/pool.go:138-148 | with nothing exposed in particular, the Secret Service and the pool list the same entries in the same order |
| `Groups.FindsFirstVisibleMatch` | internal/secretservice/write.go:186-207 | the separately written search picks the first match of the flattened visible list, and nothing iff nothing visible matches |
| `Groups.StoreAtFirstVisible` | internal/secretservice/write.go:186-207 | storing through the pointer it returns changes exactly that place of the visible list |
| `Groups.ExposedGroupIsVisible` | internal/secretservice/write.go:209-227 | the group chosen for a new item is visible, and none is chosen iff no group is visible |
| `Groups.FoundIsFirstVisible` | internal/secretservice/write.go:209-227 | it is the first visible group, a group before its subgroups and these before the groups that follow |
| `Groups.FindByUUIDFindsFirst` | internal/secretservice/write.go:86-98 | lookup by UUID returns the first entry of the flattened list with it, and nothing iff there is none |
| `Groups.RemoveEntryByUUID` | internal/secretservice/write.go:102-115 | the recursive removal returns true iff lookup would find an entry, and what it leaves is the specified tree |
| `Groups.DeleteRemovesWhatFindFinds` | internal/secretservice/write.go:86-115 | the flattened list loses exactly the position lookup finds; group structure and all other entries stay where they are |
| `Groups.DeletedIsGoneIff` | internal/secretservice/write.go:102-115 | after a delete the UUID is gone iff no later entry carries it too |
| `Groups.DeletedIsGone` | internal/secretservice/write.go:102-115 | with unique UUIDs no later lookup finds a deleted entry |
| `Groups.OthersAreStillFound` | internal/secretservice/write.go:86-115 | with unique UUIDs every other entry is still found after a delete, unchanged |
| `Groups.SetEntriesIsLocal` | internal/secretservice/write.go:209-227 | writing the entries of one group changes no other group |
| `Groups.FindsItself` | internal/secretservice/item.go:235-237 | with unique UUIDs the hexadecimal form of an entry's UUID leads back to that entry |
| `Groups.CloneForestTwice` | vendor/github.com/tobischo/gokeepasslib/v3/group.go:56-68 | a clone copies everything but the UUIDs of groups, entries and archived versions |
| `Groups.CloneFindsNothing` | vendor/github.com/tobischo/gokeepasslib/v3/group.go:56-68 | in a clone with fresh UUIDs no entry of the original is found by its UUID |
| `Groups.CloneShowsByName` | internal/dbpool/pool.go:118-136 | a clone shows, up to UUIDs, exactly what group names alone show |
| `Groups.CloneShowsTheSame` | internal/dbpool/pool.go:118-136 | a clone shows the same entries, up to UUIDs, if no group is recycled or exposed by its UUID alone |
| `Groups.CloneTreatedAlikeIff` | internal/dbpool/pool.go:118-136 | one group is recycled and exposed as its clone is iff neither happens by its UUID alone |
| `Groups.RenamedBinReappears` | internal/dbpool/pool.go:118-136 | the entries of a recycle bin under another name are hidden in the original and shown in its clone |
| `Text.HexInjective` | internal/secretservice/item.go:235-237 | different UUIDs have different hexadecimal forms |
| `Text.HexReadsBack` | internal/secretservice/item.go:235-237 | two hexadecimal digits for each byte, the high one first |
| `Text.TrimsExactlySpaces` | internal/secretservice/attributes.go:153-158 | trimming an exposed name takes off exactly the spaces around it |
| `Text.EqualFoldIff` | internal/secretservice/attributes.go:55-98 | equality up to case is equality letter by letter, up to case |
| `Text.ContainsFoldIff` | internal/secretservice/attributes.go:55-70 | a search text is contained iff it stands somewhere, letter by letter, up to case |
| `Items.WriteMatchImpliesReadMatch` | internal/secretservice/write.go:235-278 | for attributes without a "custom:" key the write matcher implies the read matcher |
| `Items.NewItemIsFoundIff` | internal/secretservice/attributes.go:84-97 | a new item with storable attributes is found by searching for them iff every "custom:k" among them repeats, up to case, what is stored under k: another attribute, the title or the secret |
| `Items.CreatedIsFoundIff` | internal/secretservice/collection.go:100-119 | the same for an item just created, in the visible list of its collection |
| `Items.CustomPinIsNotFound` | internal/secretservice/attributes.go:84-97 | an item stored with the one attribute "custom:pin" is matched for replacing and never found by searching |
| `Items.SearchResultIff` | internal/secretservice/collection.go:100-119 | a search returns an entry iff it is there and its fields are what every attribute asks for, spelled out for each kind of attribute |
| `Items.ReadMatchesIff` | internal/secretservice/attributes.go:55-113 | the read matcher for one attribute, in terms of the fields |
| `Items.WriteMatchesIff` | internal/secretservice/write.go:235-278 | the write matcher for one attribute, in terms of the fields |
| `Items.PickedIff` | internal/secretservice/write.go:186-207 | replace picks the first visible entry whose fields are what every attribute asks for, and none iff there is none |
| `Items.SearchReturnsExactlyTheMatches` | internal/secretservice/collection.go:100-119 | search results are exactly the matching entries |
| `Items.PickedEntryIsFound` | internal/secretservice/collection.go:148-160 | the entry a replacing create picks is also among the search results |
| `Items.StorableMatches` | internal/secretservice/write.go:310-345 | an entry written with storable attributes matches them, whatever it held before and in whatever order they were written |
| `Items.TitleAttributeMatches` | internal/secretservice/write.go:310-345 | without a label, a "title" that is not empty becomes the title, and the stored entry is what its own attributes ask for |
| `Items.NotStorableMisses` | internal/secretservice/write.go:235-278 | attributes that are not storable do not match the entry they were written to, for some range order |
| `Items.CreateAddsOne` | internal/secretservice/collection.go:161-177 | a creating call, replacing or not, adds exactly one entry, visible iff its target group is, or is refused iff no group is exposed |
| `Items.ReplaceIsInPlace` | internal/secretservice/collection.go:150-160 | a replacing call changes the visible list in one place, from the first match to the rewritten entry, and adds nothing |
| `Items.ReplaceKeepsVersion` | internal/secretservice/collection.go:150-160 | a replacing call rewrites the first visible entry its attributes ask for: the old version is kept in its history, attributes and secret are written, and nothing else changes |
| `Items.CreateOutcomeIff` | internal/secretservice/collection.go:148-177 | when a call replaces, and when it is refused |
| `Items.CreatePlaces` | internal/secretservice/write.go:280-308 | a new item is one entry more, at the end of the first group below the top one that is called "Secret Service", created if missing, or of an exposed group; it holds its attributes and its secret, under the UUID drawn for it |
| `Items.UpsertStep` | internal/secretservice/collection.go:148-177 | one replacing call with storable attributes stores the very entry the next call would pick, with the secret of this call, adding an entry only if none matched |
| `Items.UpsertIsIdempotent` | internal/secretservice/collection.go:148-177 | any number of replacing calls with the same attributes adds at most one entry, and the visible entry found afterwards is the one the last call stored and reads back the last secret, with and without an exposed group |
| `Items.IdempotentIff` | internal/secretservice/collection.go:148-177 | "at most one entry is ever added, and none if one matched" holds iff every call is refused, or the attributes are storable and either one matches already or the target group is outside the recycle bin |
| `Items.GrowsInTheEnd` | internal/secretservice/collection.go:148-177 | otherwise repeated calls unmake one match after another until an entry is added |
| `Items.RefusedNeverGrows` | internal/secretservice/collection.go:166-170 | without an exposed group no call ever adds an entry |
| `Items.StoredButNotFound` | internal/secretservice/collection.go:148-177 | where nothing matched, two such calls add two entries |
| `Items.SecretServiceGroupAddsNothing` | internal/secretservice/write.go:280-302 | finding or creating the target group adds no entry and changes nothing visible, and the group is visible iff it and its parent are outside the recycle bin |
| `Items.Vault.UpsertItem` | internal/secretservice/collection.go:148-177 | the closure edits the tree in place exactly as specified, for some range order, and leaves it alone when it refuses |
| `Items.Vault.ReplaceAt` | internal/secretservice/collection.go:152-159 | archive, then overwrite the fields of that one entry |
| `Items.Vault.NewItem` | internal/secretservice/write.go:304-308 | a new entry holds exactly the written fields |
| `Items.Vault.DeleteItem` | internal/secretservice/item.go:128-133 | deletes what lookup finds, and fails iff it finds nothing |
| `Items.Vault.SetItemSecret` | internal/secretservice/item.go:158-167 | archives and overwrites the entry lookup finds, and fails iff it finds nothing |
| `Items.SecretReadsBack` | internal/secretservice/item.go:158-167 | a new secret changes the one entry lookup finds: it reads back, it is still found under its UUID, and no other entry or group changes |
| `NotifyCache.ExactlyLRU` | internal/secretservice/notifycache.go:34-91 | with a constant TTL and a strictly advancing clock an access is suppressed iff its key was used less than one TTL ago with fewer than 256 distinct other keys since, whatever the map iteration order |
| `NotifyCache.NeverHidesWhatTheRegistryShows` | internal/secretservice/notifycache.go:34-91 | for any TTLs and any clock the bounded cache never suppresses what an unlimited one would show |
| `NotifyCache.SameAnswersWhenFewKeysLive` | internal/secretservice/notifycache.go:34-91 | with a monotone clock and at most 256 keys live at each access both give the same answers |
| `NotifyCache.Bounded` | internal/secretservice/notifycache.go:51-57 | never more than 256 entries, whatever the TTLs and the clock |
| `NotifyCache.Registry.Allow` | internal/secretservice/notifycache.go:34-59 | one call is one step of the specification, and the empty key never enters |
| `NotifyCache.Registry.Prune` | internal/secretservice/notifycache.go:70-76 | removes exactly the expired entries |
| `NotifyCache.Registry.EvictSoonest` | internal/secretservice/notifycache.go:80-91 | removes one entry of earliest expiry, if there is any entry |
| `NotifyCache.CacheKey` | internal/secretservice/access.go:52-65 | is never empty |
| `NotifyCache.SameKeyIff` | internal/secretservice/access.go:52-65 | two callers share a key iff the best thing known about both is of the same kind and the same text |
| `NotifyCache.SharedKeys` | internal/secretservice/access.go:52-65 | an executable decides alone, then the first field of the command line, then the bus name |
| `NotifyCache.FirstFieldIff` | internal/secretservice/access.go:56-60 | the first field is the first whole stretch without spaces |
| `Bootstrap.ConcurrentBootstrap` | internal/daemon/pam.go:47-112 | from no files, for any number of handlers interleaved at single file operations with any tokens, failures and crashes: at most one completes the database, and a fully written credential holds its password, sealed to the identity on disk |
| `Bootstrap.CompletedDatabaseUntouched` | internal/dbpool/create.go:17-48 | no run ever changes a completed database file |
| `Bootstrap.ExistingDatabaseUntouched` | internal/dbpool/create.go:22-43 | no run ever changes a database file that is there at the start, whatever it holds |
| `Bootstrap.LaterLogin` | internal/daemon/pam.go:56-79 | after a completed bootstrap a login unlocks iff it brings the same token and the database is complete or deleted; a deleted one comes back with the same password |
| `Bootstrap.FirstLoginCompletes` | internal/daemon/pam.go:88-111 | a first login whose calls all work leaves the three files fitting each other and the database open |
| `Bootstrap.IncompleteRefuses` | internal/daemon/pam.go:81-86 | a handler that sees one sealed file without the other, or a database without both, fails and changes nothing |
| `Bootstrap.WrongTokenIff` | internal/daemon/pam.go:47-112 | a wrong token changes a file iff the database is missing, both checks of the sealed files fail, and creating a database leaves something behind; it unlocks iff that whole new bootstrap works |
| `Bootstrap.CrashLeaves` | internal/daemon/pam.go:81-111 | a crash of a first login by itself after any number of operations leaves no file, a stuck state, or a complete bootstrap |
| `Bootstrap.ConcurrentCrashLeaves` | internal/daemon/pamsocket.go:107-142 | the same at every moment of every run of concurrent handlers |
| `Bootstrap.CutShortIsForever` | internal/daemon/pam.go:81-86 | a daemon that starts again where such a run was cut short, with the database there and no credential, unlocks and changes nothing, however many logins follow |
| `Bootstrap.CrashWhileRecreating` | internal/daemon/pam.go:68-77 | a crash while a deleted database is created again leaves it truncated beside sealed files that open, and no later login unlocks |
| `Bootstrap.StuckForever` | internal/daemon/pam.go:81-86 | in a stuck state every later run of any handlers refuses and changes no file |
| `Bootstrap.CompleteStaysComplete` | internal/daemon/pam.go:56-79 | once complete, no run changes the files, and only handlers with the sealing token unlock |
| `Bootstrap.ActKeepsConsistent` | internal/daemon/pamsocket.go:107-142 | every single operation of every handler keeps the invariant |
| `Bootstrap.Disk.UnlockOrBootstrap` | internal/daemon/pam.go:47-112 | the handler, run alone with any failures, ends in the files and outcome of its step protocol |
| `Bootstrap.Disk.CreateDatabase` | internal/dbpool/create.go:17-48 | O_EXCL creation: an existing file is never touched, and a failed encoding removes the new one if removal works |
| `Bootstrap.Disk.OpenWithPassword` | internal/daemon/pam.go:114-126 | unlocks iff the file opens with exactly this password |
| `Bootstrap.Disk.WriteSealed` | internal/pamcred/pamcred.go:178-208 | truncate and write the sealed identity, then the sealed credential; exactly what each failure leaves |
| `Wire.MessagesRoundTripIff` | internal/sshagent/protocol.go:49-77 | messages written back to back are read back as the same messages iff each has 1 byte to 8 MiB, whatever follows |
| `Wire.FirstMessageIff` | internal/sshagent/protocol.go:49-66 | reading succeeds iff the stream starts with a frame of 1 byte to 8 MiB |
| `Wire.ReadMessage` | internal/sshagent/protocol.go:49-66 | the result and what is left in the stream, for short reads, oversized and empty messages too |
| `Wire.WriteMessage` | internal/sshagent/protocol.go:69-77 | appends the frame, with the length taken modulo 2^32 |
| `Wire.Uint32RoundTrip` | internal/sshagent/protocol.go:113-146 | every 32-bit number is written high byte first and read back as written |
| `Wire.BigEndianRoundTrip` | internal/sshagent/protocol.go:113-146 | any four bytes are the encoding of the number they decode to |
| `Wire.DecodeStringIff` | internal/sshagent/protocol.go:128-138 | exactly the length-prefixed strings decode, unless 4 GiB or more follow the length; below that both decoders are equal |
| `Wire.ReadSshStringIff` | internal/sshagent/key.go:193-203 | exactly the length-prefixed strings decode |
| `Wire.AnswerRoundTrip` | internal/sshagent/protocol.go:91-104 | repeated decodeString on an identities answer recovers the count, blobs and comments and consumes it all; missing comments are empty |
| `Wire.AnswerLayout` | internal/sshagent/protocol.go:91-104 | an answer is the byte 12, the count, and each blob followed by its comment, as length-prefixed strings |
| `Wire.EncodeIdentitiesAnswer` | internal/sshagent/protocol.go:91-104 | the appending loop builds the specified answer |
| `Wire.ParseSignRequestIff` | internal/sshagent/server.go:212-233 | a sign payload parses iff it is two strings, optionally followed by exactly four flag bytes |
| `Wire.SignatureAlgorithm` | internal/sshagent/server.go:275-295 | of all flags only 0, 2 and 4 are accepted, each for its own algorithm |
| `Wire.PublicBlobIff` | internal/sshagent/key.go:166-190 | a blob is extracted iff the bytes are the magic, three strings, four bytes and a string, with any tail; it is the string in that place |
| `Wire.ExtractPublicBlob` | internal/sshagent/key.go:166-190 | the loop over the skipped strings extracts exactly that blob and never indexes out of range |
| `Agent.LoadedIff` | internal/sshagent/server.go:306-363 | after any run of unlocks, locks and removals a key is loaded with given constraints and owner iff some unlock of its owner loaded it and no later event ended it |
| `Agent.LoadedKeysCarry` | internal/sshagent/server.go:328-354 | a loaded key is filed under its fingerprint and carries the owner, removal, confirmation and 32-bit lifetime it was loaded with |
| `Agent.OwnerIsUnlocked` | internal/sshagent/server.go:328-363 | no loaded key belongs to a locked database, even when databases share keys and clients remove some |
| `Agent.LoadedIffLastUnlockerOpen` | internal/sshagent/server.go:328-363 | without explicit removals a key is loaded iff the database that named it last still has it open |
| `Agent.ExactlyTheOpenKeys` | internal/sshagent/server.go:328-363 | with disjoint keys the loaded keys are exactly the union over the unlocked databases, each owned by its own |
| `Agent.SharedKeyDropped` | internal/sshagent/manager.go:114-123 | disjointness is needed: locking the database that loaded a shared key last drops it although the other one is still unlocked |
| `Agent.DisabledHoldsNothing` | internal/sshagent/server.go:328-361 | a disabled agent never holds a key |
| `Agent.IdentityManager.AddIdentity` | internal/sshagent/manager.go:41-60 | files the key under its fingerprint, replacing an equal one |
| `Agent.IdentityManager.RemoveIdentity` | internal/sshagent/manager.go:63-72 | removes exactly that fingerprint, and fails iff it is not there |
| `Agent.IdentityManager.ListIdentities` | internal/sshagent/manager.go:82-91 | lists every loaded key exactly once |
| `Agent.IdentityManager.FindIdentityByFingerprint` | internal/sshagent/manager.go:94-98 | finds the one loaded key whose blob has this fingerprint, and nothing iff there is none |
| `Agent.IdentityManager.FindIdentityByBlob` | internal/sshagent/manager.go:101-111 | comparing blobs finds the key filed under the fingerprint of the blob, whatever the iteration order |
| `Agent.IdentityManager.RemoveIdentitiesForDatabase` | internal/sshagent/manager.go:114-123 | deleting while ranging removes exactly the removable keys of that database |
| `Agent.AgentServer.OnDatabaseUnlocked` | internal/sshagent/server.go:328-354 | one unlock event of the specification |
| `Agent.AgentServer.OnDatabaseLocked` | internal/sshagent/server.go:357-363 | one lock event of the specification |
| `Agent.AgentServer.HandleRemoveIdentity` | internal/sshagent/server.go:306-319 | a payload that is one string removes the key with that blob and no other; any other payload changes nothing |
| `Agent.AgentServer.HandleRemoveAllIdentities` | internal/sshagent/server.go:322-325 | one remove-all event of the specification |
| `Agent.AgentServer.HandleListIdentities` | internal/sshagent/server.go:198-209 | the answer lists every loaded key exactly once, and a client decodes exactly their blobs and comments from it |
| `Agent.AgentServer.HandleSignRequest` | internal/sshagent/server.go:212-273 | a signature is returned iff the payload has its format, the key is loaded, the flags are 0, 2 or 4 and the signer signs; then it is by that key over that data |
| `Session.RoundTrip` | internal/secretservice/session.go:65-131 | what a session encrypts it decrypts; the ciphertext has the length of the next strictly larger multiple of 16; and exactly when encryption fails |
| `Session.BlockLaw` | internal/secretservice/session.go:91-94 | every ciphertext block is the encryption of the bitwise difference of its padded plaintext block and the ciphertext block before it, the IV before the first |
| `Session.FirstBlockPlainIff` | internal/secretservice/session.go:91-94 | the first block goes through the cipher as it is iff the IV is all zeros |
| `Session.DecryptionBlockLaw` | internal/secretservice/session.go:120-122 | every decrypted block is the bitwise difference of the deciphered block and the ciphertext block before it |
| `Session.XorByteByBit` | internal/secretservice/session.go:91-94 | bit k of the exclusive or of two bytes is 1 iff they differ there |
| `Session.DecryptsIffEncrypted` | internal/secretservice/session.go:65-131 | a ciphertext decrypts to a plaintext at most one block shorter iff it is the encryption of that plaintext under the same IV |
| `Session.ClosedAndPanics` | internal/secretservice/session.go:100-122 | a closed session decrypts nothing unless it is plain; decryption panics iff the session is ready, the ciphertext is whole blocks and the IV is not one block |
| `Session.UnpadIff` | internal/secretservice/session.go:145-159 | unpadding succeeds exactly on data ending in n copies of the byte n, 1 <= n <= length |
| `Session.UnpadUndoesPad` | internal/secretservice/session.go:134-159 | unpadding undoes padding |
| `Session.PadUndoesUnpadIff` | internal/secretservice/session.go:134-159 | padding undoes unpadding iff the padding taken off was no longer than a block |
| `Session.PaddedLength` | internal/secretservice/session.go:134-142 | the padded length is the next strictly larger multiple of 16 |
| `Session.Pkcs7Pad` | internal/secretservice/session.go:134-142 | the buffer loops compute the padding |
| `Session.Pkcs7Unpad` | internal/secretservice/session.go:145-159 | the checking loop accepts exactly the padded data |
| `Session.DecryptUndoesEncrypt` | internal/secretservice/session.go:91-122 | CBC decryption undoes CBC encryption for any block permutation |
| `Session.EncryptUndoesDecrypt` | internal/secretservice/session.go:91-122 | and the other way round |
| `Session.Session.Encrypt` | internal/secretservice/session.go:65-97 | the method computes the specified ciphertext, with every early return |
| `Session.Session.Decrypt` | internal/secretservice/session.go:100-131 | the method computes the specified plaintext, error or panic |
| `Session.Session.Close` | internal/secretservice/session.go:58-61 | nothing is encrypted or decrypted by an encrypted session any more; a plain one is not affected |

## Left out

- Entry and group times (creation, modification, location changed): not modelled, so histories are compared without them.
- Rollback of Meta and Binaries: the code restores only the root, so only the root is claimed.
- Save without a mutation (internal/dbpool/save.go:111-115): it has no rollback, and no part of the daemon calls it.
- Entry and group slices: trees are values held in one field, so aliasing between pointers into a slice is not captured; pointers are paths.
- `LiveEntry` and `Vault` copy an entry out and store it back where the code writes through a pointer.
- File watching, the event channel and its dropped events: loaded SSH keys are stated over delivered events.
- Locks and goroutines of the pool, the cache and the identity manager: each of their methods is one step; only the bootstrap handlers, which hold no lock, interleave.
- The connection loop of the agent (internal/sshagent/server.go:137-163), key extraction from entries, and adding keys over the socket (always refused).
- Key lifetime and the confirm flag: stored with a loaded key, never acted on by the code.
- The agent client that forwards keys to an external agent (internal/sshagent/client.go).
- D-Bus export, prompts, polkit, notifications, property setters and collection metadata.
- KDBX, Argon2, AES, age, HKDF and SSH signatures: abstract functions.
- Memory erasure: a wiped field is an empty one.
- Pool.Database.Wipe: attachments in the inner header, auto-type data and the names in Meta are not modelled, and the code does not blank them either.
- Token reading and configuration checks before a handler starts (internal/daemon/pamsocket.go:118-136): easy.
- Wire.ParseSignRequestIff: the direction from format to parse is stated below 4 GiB, because decodeString compares lengths in 32 bits; payloads come from messages of at most 8 MiB.
- Agent.AgentServer.HandleRemoveIdentity: the same bound on its payload.
- Agent.AgentServer.HandleSignRequest: the same bound on its payload; the signer is any function.
