/** The TTL cache that keeps one application from producing a desktop
    notification for every secret it reads (internal/secretservice/notifycache.go).

    Times are integers; the clock reading of an access is part of the access.
    Go's map iteration order is modelled by nondeterministic choice. */
module NotifyCache {
  import opened Text
  import opened Wrappers

  // ---- Whose access it is (access.go) -------------------------------------------

  datatype Caller = Caller(exe: string, command: string, sender: string)

  function UpToSpace(s: string): string {
    if s == "" || IsSpace(s[0]) then "" else [s[0]] + UpToSpace(s[1..])
  }

  // strings.Fields(s)[0], if there is one.
  function FirstField(s: string): (r: Option<string>)
    ensures r.Some? <==> exists c :: c in s && !IsSpace(c)
  {
    if s == "" then None
    else if IsSpace(s[0]) then FirstField(s[1..])
    else Some(UpToSpace(s))
  }

  /** The first field is the first stretch without spaces, all of it. */
  lemma {:induction false} FirstFieldIff(s: string, before: string, field: string, after: string)
    requires s == before + field + after && Blank(before) && field != ""
    requires (forall c | c in field :: !IsSpace(c)) && (after == "" || IsSpace(after[0]))
    ensures FirstField(s) == Some(field)
  {
    if before != "" {
      assert s[0] == before[0] && s[1..] == before[1..] + field + after;
      FirstFieldIff(s[1..], before[1..], field, after);
    } else {
      assert s == field + after && s[0] == field[0];
      UpToSpaceIs(field, after);
    }
  }

  lemma {:induction false} UpToSpaceIs(field: string, after: string)
    requires (forall c | c in field :: !IsSpace(c)) && (after == "" || IsSpace(after[0]))
    ensures UpToSpace(field + after) == field
  {
    if field == "" {
      assert field + after == after;
    } else {
      assert (field + after)[1..] == field[1..] + after;
      UpToSpaceIs(field[1..], after);
    }
  }

  function CacheKey(c: Caller): (r: string)
    ensures r != ""
  {
    if c.exe != "" then "exe:" + c.exe
    else if c.command != "" && FirstField(c.command).Some? then "cmd:" + FirstField(c.command).value
    else if c.sender != "" then "sender:" + c.sender
    else "unknown"
  }

  // The best thing known about a caller.
  datatype Identity = Executable(path: string) | Program(name: string) | Sender(name: string) | Nobody

  function IdentityOf(c: Caller): Identity {
    if c.exe != "" then Executable(c.exe)
    else if FirstField(c.command).Some? then Program(FirstField(c.command).value)
    else if c.sender != "" then Sender(c.sender)
    else Nobody
  }

  /** Two callers share a cache entry iff the best thing known about both is of the
      same kind and the same text. */
  lemma SameKeyIff(a: Caller, b: Caller)
    ensures CacheKey(a) == CacheKey(b) <==> IdentityOf(a) == IdentityOf(b)
  {
    var j, k := CacheKey(a), CacheKey(b);
    if j == k {
      assert j[0] == k[0];
      assert IdentityOf(a).Executable? ==> j[4..] == a.exe && j[0] == 'e';
      assert IdentityOf(b).Executable? ==> k[4..] == b.exe && k[0] == 'e';
      assert IdentityOf(a).Program? ==> j[4..] == IdentityOf(a).name && j[0] == 'c';
      assert IdentityOf(b).Program? ==> k[4..] == IdentityOf(b).name && k[0] == 'c';
      assert IdentityOf(a).Sender? ==> j[7..] == a.sender && j[0] == 's';
      assert IdentityOf(b).Sender? ==> k[7..] == b.sender && k[0] == 's';
    }
  }

  /** An executable decides alone; without one the first field of the command line
      does, and without that the bus name. */
  lemma SharedKeys(a: Caller, b: Caller)
    ensures a.exe != "" || b.exe != "" ==> (CacheKey(a) == CacheKey(b) <==> a.exe == b.exe)
    ensures a.exe == "" && b.exe == "" ==>
              var p, q := FirstField(a.command), FirstField(b.command);
              && (p.Some? || q.Some? ==> (CacheKey(a) == CacheKey(b) <==> p == q))
              && (p.None? && q.None? ==> (CacheKey(a) == CacheKey(b) <==> a.sender == b.sender))
  {
    SameKeyIff(a, b);
  }

  // ---- The cache ------------------------------------------------------------------

  const MAX_ENTRIES: nat := 256

  // cache key -> expiry time
  type Cache = map<string, int>

  // One call of `allow`, with the clock reading it took.
  datatype Access = Access(key: string, ttl: int, time: int)

  predicate Live(c: Cache, key: string, now: int) {
    key in c && now < c[key]
  }

  function LiveKeys(c: Cache, now: int): set<string> {
    set k | k in c && now < c[k]
  }

  function Pruned(c: Cache, now: int): Cache {
    map k | k in c && now < c[k] :: c[k]
  }

  // c' is c without one entry whose expiry is earliest; ties may go either way.
  ghost predicate Evicted(c: Cache, c': Cache) {
    exists k :: k in c && (forall k2 | k2 in c :: c[k] <= c[k2]) && c' == c - {k}
  }

  // What the capacity check leaves before the key itself is stored.
  ghost predicate RoomMade(c: Cache, key: string, now: int, c': Cache) {
    if key in c || |c| < MAX_ENTRIES then c' == c
    else if |Pruned(c, now)| < MAX_ENTRIES then c' == Pruned(c, now)
    else Evicted(Pruned(c, now), c')
  }

  // One access takes cache c to c' and answers `show`.
  ghost predicate Step(c: Cache, a: Access, c': Cache, show: bool) {
    if a.ttl <= 0 then c' == c && show
    else if Live(c, a.key, a.time) then c' == c[a.key := a.time + a.ttl] && !show
    else show && exists r :: RoomMade(c, a.key, a.time, r) && c' == r[a.key := a.time + a.ttl]
  }

  class Registry {
    var entries: Cache

    constructor ()
      ensures entries == map[]
    {
      entries := map[];
    }

    method Allow(key: string, ttl: int, now: int) returns (show: bool)
      requires key != "" && "" !in entries
      modifies this
      ensures Step(old(entries), Access(key, ttl, now), entries, show)
      ensures "" !in entries
    {
      if ttl <= 0 {
        return true;
      }
      if key in entries && now < entries[key] {
        entries := entries[key := now + ttl];
        return false;
      }
      if key !in entries && |entries| >= MAX_ENTRIES {
        Prune(now);
        if |entries| >= MAX_ENTRIES {
          EvictSoonest();
        }
      }
      assert RoomMade(old(entries), key, now, entries);
      entries := entries[key := now + ttl];
      return true;
    }

    method Prune(now: int)
      modifies this
      ensures entries == Pruned(old(entries), now)
    {
      var rest := entries.Keys;
      while rest != {}
        invariant rest <= entries.Keys <= old(entries).Keys
        invariant forall k | k in entries :: entries[k] == old(entries)[k]
        invariant forall k | k in old(entries) ::
            k in entries <==> k in rest || now < old(entries)[k]
        decreases rest
      {
        var key :| key in rest;
        if !(now < entries[key]) {
          entries := entries - {key};
        }
        rest := rest - {key};
      }
    }

    // The empty string doubles as "nothing found yet", which is why no key
    // may be empty.
    method EvictSoonest()
      requires "" !in entries
      modifies this
      ensures if old(entries) == map[] then entries == map[] else Evicted(old(entries), entries)
    {
      var soonestKey, soonest := "", 0;
      var rest := entries.Keys;
      while rest != {}
        invariant rest <= entries.Keys
        invariant soonestKey == "" <==> rest == entries.Keys
        invariant soonestKey != "" ==> soonestKey in entries && entries[soonestKey] == soonest
        invariant soonestKey != "" ==> forall k | k in entries && k !in rest :: soonest <= entries[k]
        decreases rest
      {
        var key :| key in rest;
        if soonestKey == "" || entries[key] < soonest {
          soonestKey, soonest := key, entries[key];
        }
        rest := rest - {key};
      }
      if soonestKey != "" {
        entries := entries - {soonestKey};
      }
    }
  }

  // ---- Runs ----------------------------------------------------------

  // The cache passes through `states`, answering `shows`, on the accesses `accs`.
  ghost predicate IsRun(accs: seq<Access>, states: seq<Cache>, shows: seq<bool>) {
    && |states| == |accs| + 1
    && |shows| == |accs|
    && states[0] == map[]
    && forall i :: 0 <= i < |accs| ==> Step(states[i], accs[i], states[i + 1], shows[i])
  }

  lemma SubsetSize<T>(a: set<T>, b: set<T>)
    requires a <= b
    ensures |a| <= |b|
  {
    assert b == a + (b - a);
  }

  lemma RoomMadeKeepsBound(c: Cache, key: string, now: int, c': Cache)
    requires |c| <= MAX_ENTRIES && RoomMade(c, key, now, c')
    ensures key in c ==> c' == c
    ensures key !in c ==> |c'| < MAX_ENTRIES
    ensures c'.Keys <= c.Keys && forall k | k in c' :: c'[k] == c[k]
  {
    var p := Pruned(c, now);
    assert p.Keys <= c.Keys;
    SubsetSize(p.Keys, c.Keys);
    assert |p| == |p.Keys| && |c| == |c.Keys|;
    if key !in c && |c| >= MAX_ENTRIES && |p| >= MAX_ENTRIES {
      var k :| k in p && (forall k2 | k2 in p :: p[k] <= p[k2]) && c' == p - {k};
      assert c'.Keys == p.Keys - {k};
    }
  }

  lemma StepKeepsBound(c: Cache, a: Access, c': Cache, show: bool)
    requires |c| <= MAX_ENTRIES && Step(c, a, c', show)
    ensures |c'| <= MAX_ENTRIES
  {
    if a.ttl > 0 && !Live(c, a.key, a.time) {
      var r :| RoomMade(c, a.key, a.time, r) && c' == r[a.key := a.time + a.ttl];
      RoomMadeKeepsBound(c, a.key, a.time, r);
      assert c'.Keys == r.Keys + {a.key};
    } else if a.ttl > 0 {
      assert c'.Keys == c.Keys;
    }
  }

  /** The cache never holds more than 256 entries, whatever the TTLs and the clock. */
  lemma {:induction false} Bounded(accs: seq<Access>, states: seq<Cache>, shows: seq<bool>, i: nat)
    requires IsRun(accs, states, shows) && i <= |accs|
    ensures |states[i]| <= 256
  {
    if i > 0 {
      Bounded(accs, states, shows, i - 1);
      StepKeepsBound(states[i - 1], accs[i - 1], states[i], shows[i - 1]);
    }
  }

  // ---- Refinement of the unbounded registry --------------------------

  // The registry's own step: the TTL rule without any capacity.
  function Recorded(reg: Cache, a: Access): Cache {
    if a.ttl <= 0 then reg else reg[a.key := a.time + a.ttl]
  }

  // The same TTL rule without any capacity: what an unlimited cache would hold.
  function RegistryAfter(accs: seq<Access>, n: nat): Cache
    requires n <= |accs|
  {
    if n == 0 then map[]
    else Recorded(RegistryAfter(accs, n - 1), accs[n - 1])
  }

  // Whether the unlimited cache shows access i.
  predicate RegistryShows(accs: seq<Access>, i: nat)
    requires i < |accs|
  {
    accs[i].ttl <= 0 || !Live(RegistryAfter(accs, i), accs[i].key, accs[i].time)
  }

  // Every key of the unlimited cache reg that c lacks had expired by time t.
  predicate Covers(c: Cache, reg: Cache, t: int) {
    forall k | k in reg && k !in c :: reg[k] <= t
  }

  predicate Within(c: Cache, reg: Cache) {
    forall k | k in c :: k in reg && c[k] == reg[k]
  }

  lemma StepStaysWithin(c: Cache, reg: Cache, a: Access, c': Cache, show: bool)
    requires |c| <= MAX_ENTRIES && Within(c, reg) && Step(c, a, c', show)
    ensures Within(c', Recorded(reg, a))
  {
    if a.ttl > 0 && !Live(c, a.key, a.time) {
      var r :| RoomMade(c, a.key, a.time, r) && c' == r[a.key := a.time + a.ttl];
      RoomMadeKeepsBound(c, a.key, a.time, r);
    }
  }

  lemma {:induction false} CacheWithinRegistry(accs: seq<Access>, states: seq<Cache>, shows: seq<bool>, i: nat)
    requires IsRun(accs, states, shows) && i <= |accs|
    ensures Within(states[i], RegistryAfter(accs, i))
  {
    if i > 0 {
      CacheWithinRegistry(accs, states, shows, i - 1);
      Bounded(accs, states, shows, i - 1);
      StepStaysWithin(states[i - 1], RegistryAfter(accs, i - 1), accs[i - 1], states[i], shows[i - 1]);
    }
  }

  /** The capacity limit only ever costs an extra notification: an access the
      unlimited cache would show is always shown. */
  lemma NeverHidesWhatTheRegistryShows(accs: seq<Access>, states: seq<Cache>, shows: seq<bool>, i: nat)
    requires IsRun(accs, states, shows) && i < |accs| && RegistryShows(accs, i)
    ensures shows[i]
  {
    CacheWithinRegistry(accs, states, shows, i);
    assert Step(states[i], accs[i], states[i + 1], shows[i]);
  }

  ghost predicate ClockMonotone(accs: seq<Access>) {
    forall i, j :: 0 <= i < j < |accs| ==> accs[i].time <= accs[j].time
  }

  // At no access do more than 256 keys compete, the accessed one included.
  ghost predicate FewKeysLive(accs: seq<Access>) {
    forall i :: 0 <= i < |accs| && accs[i].ttl > 0 ==>
      |LiveKeys(RegistryAfter(accs, i), accs[i].time) + {accs[i].key}| <= 256
  }

  lemma StepCovers(c: Cache, reg: Cache, a: Access, c': Cache, show: bool, t: int)
    requires Step(c, a, c', show) && Within(c, reg) && Covers(c, reg, t) && t <= a.time
    requires a.ttl > 0 ==> |LiveKeys(reg, a.time) + {a.key}| <= MAX_ENTRIES
    ensures Covers(c', Recorded(reg, a), a.time)
  {
    if a.ttl > 0 && !Live(c, a.key, a.time) {
      var r :| RoomMade(c, a.key, a.time, r) && c' == r[a.key := a.time + a.ttl];
      var p, live := Pruned(c, a.time), LiveKeys(reg, a.time) + {a.key};
      if a.key !in c {
        SubsetSize(p.Keys + {a.key}, live);
        assert |p.Keys + {a.key}| == |p| + 1;
      }
    }
  }

  lemma {:induction false} CoversLive(accs: seq<Access>, states: seq<Cache>, shows: seq<bool>, i: nat)
    requires IsRun(accs, states, shows) && i <= |accs|
    requires ClockMonotone(accs) && FewKeysLive(accs)
    ensures i == 0 ==> RegistryAfter(accs, i) == map[]
    ensures i > 0 ==> Covers(states[i], RegistryAfter(accs, i), accs[i - 1].time)
  {
    if i > 0 {
      CoversLive(accs, states, shows, i - 1);
      CacheWithinRegistry(accs, states, shows, i - 1);
      StepCovers(states[i - 1], RegistryAfter(accs, i - 1), accs[i - 1], states[i], shows[i - 1],
                 if i > 1 then accs[i - 2].time else accs[0].time);
    }
  }

  /** On every run where at most 256 keys are live at each access, the bounded
      cache and the unlimited one give the same answers. */
  lemma SameAnswersWhenFewKeysLive(accs: seq<Access>, states: seq<Cache>, shows: seq<bool>, i: nat)
    requires IsRun(accs, states, shows) && i < |accs|
    requires ClockMonotone(accs) && FewKeysLive(accs)
    ensures shows[i] <==> RegistryShows(accs, i)
  {
    CoversLive(accs, states, shows, i);
    CacheWithinRegistry(accs, states, shows, i);
    assert Step(states[i], accs[i], states[i + 1], shows[i]);
    assert i > 0 ==> accs[i - 1].time <= accs[i].time;
  }

  // ---- Exactly LRU with expiry ---------------------------------------

  ghost predicate ClockStrict(accs: seq<Access>) {
    forall i, j {:trigger Earlier(accs, i, j)} :: 0 <= i < j < |accs| ==> Earlier(accs, i, j)
  }

  ghost predicate Earlier(accs: seq<Access>, i: int, j: int)
    requires 0 <= i < |accs| && 0 <= j < |accs|
  {
    accs[i].time < accs[j].time
  }

  ghost predicate ConstantTTL(accs: seq<Access>, ttl: int) {
    ttl > 0 && forall i :: 0 <= i < |accs| ==> accs[i].ttl == ttl
  }

  // The distinct other keys accessed after access j and before access i.
  ghost function OthersSince(accs: seq<Access>, j: nat, i: nat): set<string>
    requires j < |accs| && i <= |accs|
  {
    set m | j < m < i && accs[m].key != accs[j].key :: accs[m].key
  }

  // Some earlier access to the same key is younger than the TTL and fewer
  // than 256 other keys came in between.
  ghost predicate RecentlyUsed(accs: seq<Access>, i: nat)
    requires i < |accs|
  {
    exists j: nat :: j < i && accs[j].key == accs[i].key
                     && accs[i].time < accs[j].time + accs[j].ttl
                     && |OthersSince(accs, j, i)| < 256
  }

  // Index of the last access to k among the first n, or -1.
  function LastUse(accs: seq<Access>, n: nat, k: string): (j: int)
    requires n <= |accs|
    ensures -1 <= j < n
    ensures j >= 0 ==> accs[j].key == k
    ensures forall m :: j < m < n ==> accs[m].key != k
  {
    if n == 0 then -1 else if accs[n - 1].key == k then n - 1 else LastUse(accs, n - 1, k)
  }

  // What an access with a positive TTL does to the keys: it stores its own and
  // drops either only expired ones or, from a full cache, one that expires first.
  ghost predicate Stored(c: Cache, a: Access, c': Cache) {
    && a.key in c' && c'[a.key] == a.time + a.ttl
    && c'.Keys <= c.Keys + {a.key}
    && (forall k | k in c' && k != a.key :: c'[k] == c[k])
    && (|| (forall k | k in c && k !in c' :: c[k] <= a.time)
        || (|c| == MAX_ENTRIES && a.key !in c
            && exists v :: v in c && (forall k | k in c :: c[v] <= c[k]) && c'.Keys == (c.Keys - {v}) + {a.key}))
  }

  lemma StepStores(c: Cache, a: Access, c': Cache, show: bool)
    requires |c| <= MAX_ENTRIES && a.ttl > 0 && Step(c, a, c', show)
    ensures Stored(c, a, c')
  {
    if !Live(c, a.key, a.time) {
      var r :| RoomMade(c, a.key, a.time, r) && c' == r[a.key := a.time + a.ttl];
      RoomMadeKeepsBound(c, a.key, a.time, r);
      var p := Pruned(c, a.time);
      if a.key !in c && |c| >= MAX_ENTRIES && |p| >= MAX_ENTRIES {
        AllKept(p.Keys, c.Keys);
        assert p == c;
        var v :| v in p && (forall k | k in p :: p[v] <= p[k]) && r == p - {v};
        assert c'.Keys == (c.Keys - {v}) + {a.key};
      }
    }
  }

  lemma AllKept<T>(a: set<T>, b: set<T>)
    requires a <= b && |a| >= |b|
    ensures a == b
  {
    assert b == a + (b - a);
  }

  // The keys used after k, read off the unlimited cache.
  function Newer(reg: Cache, k: string): set<string>
    requires k in reg
  {
    set k2 | k2 in reg && reg[k] < reg[k2]
  }

  // Every cached key was used after k, and at least 256 keys were.
  ghost predicate Followed(reg: Cache, c: Cache, k: string)
    requires k in reg
  {
    c.Keys <= Newer(reg, k) && |Newer(reg, k)| >= MAX_ENTRIES
  }

  // At time t the cache c holds a most-recently-used suffix of reg's live keys.
  ghost predicate MostRecent(reg: Cache, c: Cache, t: int) {
    Within(c, reg) && forall k | k in reg && k !in c && t < reg[k] :: Followed(reg, c, k)
  }

  ghost predicate Distinct(reg: Cache) {
    forall k1, k2 | k1 in reg && k2 in reg && k1 != k2 :: reg[k1] != reg[k2]
  }

  // The evicted key was used before all the others, so 256 keys follow it.
  lemma VictimIsFollowed(reg: Cache, c: Cache, victim: string, a: Access, reg': Cache, c': Cache)
    requires Within(c, reg) && Distinct(reg) && |c| == MAX_ENTRIES && a.key !in c
    requires victim in c && (forall k | k in c :: c[victim] <= c[k])
    requires (forall k | k in reg :: reg[k] < a.time + a.ttl) && reg' == reg[a.key := a.time + a.ttl]
    requires c'.Keys == (c.Keys - {victim}) + {a.key}
    ensures Followed(reg', c', victim)
  {
    SubsetSize(c'.Keys, Newer(reg', victim));
  }

  // A key that is followed stays followed when other keys are used or dropped.
  lemma StaysFollowed(reg: Cache, c: Cache, k: string, a: Access, reg': Cache, c': Cache)
    requires k in reg && Followed(reg, c, k) && k != a.key && c'.Keys <= c.Keys + {a.key}
    requires reg[k] < a.time + a.ttl && reg' == reg[a.key := a.time + a.ttl]
    ensures Followed(reg', c', k)
  {
    assert Newer(reg, k) + {a.key} == Newer(reg', k);
    SubsetSize(Newer(reg, k), Newer(reg', k));
  }

  lemma StaysMostRecent(reg: Cache, c: Cache, t: int, a: Access, reg': Cache, c': Cache)
    requires MostRecent(reg, c, t) && Distinct(reg) && Stored(c, a, c') && t <= a.time
    requires (forall k | k in reg :: reg[k] < a.time + a.ttl) && reg' == reg[a.key := a.time + a.ttl]
    ensures MostRecent(reg', c', a.time) && Distinct(reg')
  {
    forall k | k in reg' && k !in c' && a.time < reg'[k]
      ensures Followed(reg', c', k)
    {
      if k in c {
        var v :| v in c && (forall k | k in c :: c[v] <= c[k]) && c'.Keys == (c.Keys - {v}) + {a.key};
        VictimIsFollowed(reg, c, v, a, reg', c');
      } else {
        StaysFollowed(reg, c, k, a, reg', c');
      }
    }
  }

  lemma StepStaysMostRecent(reg: Cache, c: Cache, t: int, a: Access, c': Cache, show: bool)
    requires MostRecent(reg, c, t) && Distinct(reg) && t <= a.time && a.ttl > 0
    requires |c| <= MAX_ENTRIES && Step(c, a, c', show)
    requires forall k | k in reg :: reg[k] < a.time + a.ttl
    ensures MostRecent(Recorded(reg, a), c', a.time) && Distinct(Recorded(reg, a))
  {
    StepStores(c, a, c', show);
    StaysMostRecent(reg, c, t, a, Recorded(reg, a), c');
  }

  // The unlimited cache records exactly the last use of every key.
  lemma {:induction false} RegistryIsLastUse(accs: seq<Access>, ttl: int, n: nat)
    requires n <= |accs| && ConstantTTL(accs, ttl)
    ensures forall k {:trigger k in RegistryAfter(accs, n)} {:trigger LastUse(accs, n, k)} ::
              && (k in RegistryAfter(accs, n) <==> LastUse(accs, n, k) >= 0)
              && (k in RegistryAfter(accs, n) ==>
                    RegistryAfter(accs, n)[k] == accs[LastUse(accs, n, k)].time + ttl)
  {
    if n > 0 {
      RegistryIsLastUse(accs, ttl, n - 1);
    }
  }

  lemma TimesInOrder(accs: seq<Access>, i: nat, j: nat)
    requires i < |accs| && j < |accs| && ClockStrict(accs)
    ensures i <= j <==> accs[i].time <= accs[j].time
  {
    assert i < j ==> Earlier(accs, i, j);
    assert j < i ==> Earlier(accs, j, i);
  }

  lemma RegistryBelow(accs: seq<Access>, ttl: int, n: nat)
    requires n < |accs| && ConstantTTL(accs, ttl) && ClockStrict(accs)
    ensures forall k | k in RegistryAfter(accs, n) :: RegistryAfter(accs, n)[k] < accs[n].time + ttl
  {
    RegistryIsLastUse(accs, ttl, n);
    forall k | k in RegistryAfter(accs, n)
      ensures RegistryAfter(accs, n)[k] < accs[n].time + ttl
    {
      assert Earlier(accs, LastUse(accs, n, k), n);
    }
  }

  lemma {:induction false} RunStaysMostRecent(accs: seq<Access>, ttl: int, states: seq<Cache>, shows: seq<bool>, i: nat, t: int)
    requires IsRun(accs, states, shows) && i <= |accs| && (i > 0 ==> t == accs[i - 1].time)
    requires ConstantTTL(accs, ttl) && ClockStrict(accs)
    ensures MostRecent(RegistryAfter(accs, i), states[i], t) && Distinct(RegistryAfter(accs, i))
  {
    if i > 0 {
      var t' := if i > 1 then accs[i - 2].time else t;
      RunStaysMostRecent(accs, ttl, states, shows, i - 1, t');
      Bounded(accs, states, shows, i - 1);
      assert i > 1 ==> Earlier(accs, i - 2, i - 1);
      RegistryBelow(accs, ttl, i - 1);
      StepStaysMostRecent(RegistryAfter(accs, i - 1), states[i - 1], t', accs[i - 1], states[i], shows[i - 1]);
    }
  }

  // A live key of the unlimited cache is still held iff fewer than 256 keys are newer.
  lemma HeldIffFewNewer(reg: Cache, c: Cache, t: int, k: string, now: int)
    requires MostRecent(reg, c, t) && |c| <= MAX_ENTRIES && t <= now && Live(reg, k, now)
    ensures k in c <==> |Newer(reg, k)| < MAX_ENTRIES
  {
    if k in c {
      forall k2 | k2 in Newer(reg, k)
        ensures k2 in c.Keys - {k}
      {
      }
      SubsetSize(Newer(reg, k), c.Keys - {k});
    }
  }

  lemma NewerAreOthersSince(accs: seq<Access>, ttl: int, i: nat, k: string)
    requires i <= |accs| && ConstantTTL(accs, ttl) && ClockStrict(accs) && k in RegistryAfter(accs, i)
    ensures LastUse(accs, i, k) >= 0
    ensures Newer(RegistryAfter(accs, i), k) == OthersSince(accs, LastUse(accs, i, k), i)
  {
    RegistryIsLastUse(accs, ttl, i);
    var reg, j := RegistryAfter(accs, i), LastUse(accs, i, k);
    forall k2
      ensures k2 in Newer(reg, k) <==> k2 in OthersSince(accs, j, i)
    {
      var j2 := LastUse(accs, i, k2);
      if j2 >= 0 {
        TimesInOrder(accs, j2, j);
        assert accs[j2].key == k2;
      }
    }
  }

  /** With a constant TTL and a strictly advancing clock the cache is exactly
      LRU with expiry: access i is suppressed iff its key was used less than one
      TTL ago with fewer than 256 distinct other keys since, whatever order the
      map is iterated in. */
  lemma ExactlyLRU(accs: seq<Access>, ttl: int, states: seq<Cache>, shows: seq<bool>, i: nat)
    requires IsRun(accs, states, shows) && i < |accs|
    requires ConstantTTL(accs, ttl) && ClockStrict(accs)
    ensures !shows[i] <==> RecentlyUsed(accs, i)
  {
    var t := if i > 0 then accs[i - 1].time else accs[i].time;
    RunStaysMostRecent(accs, ttl, states, shows, i, t);
    Bounded(accs, states, shows, i);
    assert i > 0 ==> Earlier(accs, i - 1, i);
    var c, reg, a := states[i], RegistryAfter(accs, i), accs[i];
    assert Step(c, a, states[i + 1], shows[i]);
    if Live(reg, a.key, a.time) {
      HeldIffFewNewer(reg, c, t, a.key, a.time);
      NewerAreOthersSince(accs, ttl, i, a.key);
    }
    LiveAndFewIsRecent(accs, ttl, i);
  }

  lemma LiveAndFewIsRecent(accs: seq<Access>, ttl: int, i: nat)
    requires i < |accs| && ConstantTTL(accs, ttl) && ClockStrict(accs)
    ensures RecentlyUsed(accs, i) <==>
              var last := LastUse(accs, i, accs[i].key);
              && Live(RegistryAfter(accs, i), accs[i].key, accs[i].time)
              && last >= 0 && |OthersSince(accs, last, i)| < MAX_ENTRIES
  {
    RegistryIsLastUse(accs, ttl, i);
    var last := LastUse(accs, i, accs[i].key);
    if RecentlyUsed(accs, i) {
      var j: nat :| j < i && accs[j].key == accs[i].key && accs[i].time < accs[j].time + accs[j].ttl
                    && |OthersSince(accs, j, i)| < MAX_ENTRIES;
      TimesInOrder(accs, j, last);
      SubsetSize(OthersSince(accs, last, i), OthersSince(accs, j, i));
    }
  }
}
