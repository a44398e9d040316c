/** The group tree of a database: which entries it lists, which of them the
    Secret Service may see, and the searches and edits that walk it
    (internal/secretservice/write.go and attributes.go, internal/dbpool/pool.go). */
module Groups {
  import opened Text
  import opened Wrappers
  import opened Entries

  datatype Group = Group(uuid: UUID, name: string, notes: string, lastTopVisible: string, entries: seq<Entry>)

  // A slice of groups: the first one, its subgroups, and the rest of the slice.
  datatype Forest = Nil | Node(group: Group, sub: Forest, next: Forest)

  // Where a group stands in a forest, and an entry in a group.
  datatype GroupPtr = This | Below(ptr: GroupPtr) | After(ptr: GroupPtr)
  datatype EntryPtr = EntryPtr(group: GroupPtr, index: nat)

  predicate IsRecycled(g: Group, bin: UUID) {
    g.name == "Recycle Bin" || (bin != ZERO && g.uuid == bin)
  }

  predicate Exposed(g: Group, wanted: string) {
    EqualFold(g.name, wanted) || EqualFold(Hex(g.uuid), wanted)
  }

  // ---- What a forest lists --------------------------------------------

  // All entries, in the order every traversal uses.
  function Flat(f: Forest): seq<Entry> {
    match f
    case Nil => []
    case Node(g, sub, next) => g.entries + Flat(sub) + Flat(next)
  }

  // The entries outside recycled groups that lie in or below an exposed group;
  // `visible` says that an enclosing group was exposed.
  function Visible(f: Forest, bin: UUID, wanted: string, visible: bool): seq<Entry>
    decreases f, 1
  {
    match f
    case Nil => []
    case Node(_, _, next) => FirstShown(f, bin, wanted, visible) + Visible(next, bin, wanted, visible)
  }

  // What the first group of f and its subgroups show.
  function FirstShown(f: Forest, bin: UUID, wanted: string, visible: bool): seq<Entry>
    requires f.Node?
    decreases f, 0
  {
    if IsRecycled(f.group, bin) then []
    else
      var v := visible || Exposed(f.group, wanted);
      (if v then f.group.entries else []) + Visible(f.sub, bin, wanted, v)
  }

  // collectEntriesVisible: an empty exposed group exposes everything.
  function VisibleEntries(f: Forest, bin: UUID, expose: string): seq<Entry> {
    Visible(f, bin, TrimSpace(expose), TrimSpace(expose) == "")
  }

  method CollectEntriesVisibleInto(f: Forest, bin: UUID, wanted: string, visible: bool, entries: seq<Entry>)
    returns (entries': seq<Entry>)
    ensures entries' == entries + Visible(f, bin, wanted, visible)
    decreases f
  {
    entries' := entries;
    var rest := f;
    while rest.Node?
      invariant entries' + Visible(rest, bin, wanted, visible) == entries + Visible(f, bin, wanted, visible)
      invariant rest == f || rest < f
      decreases rest
    {
      var g := rest.group;
      ghost var before := entries';
      if !IsRecycled(g, bin) {
        var groupVisible := visible || Exposed(g, wanted);
        if groupVisible {
          entries' := entries' + g.entries;
        }
        entries' := CollectEntriesVisibleInto(rest.sub, bin, wanted, groupVisible, entries');
      }
      assert entries' == before + FirstShown(rest, bin, wanted, visible);
      Assoc(before, FirstShown(rest, bin, wanted, visible), Visible(rest.next, bin, wanted, visible));
      rest := rest.next;
    }
  }

  lemma Assoc<T>(a: seq<T>, b: seq<T>, c: seq<T>)
    ensures (a + b) + c == a + (b + c)
  {
  }

  // One step outwards around a place x with b before it and a after it.
  lemma Widen<T>(o: seq<T>, b: seq<T>, x: seq<T>, a: seq<T>, n: seq<T>)
    ensures (o + (b + x + a)) + n == (o + b) + x + (a + n)
  {
  }

  lemma UpdateMiddle<T>(b: seq<T>, x: seq<T>, a: seq<T>, i: nat, v: T)
    requires i < |x|
    ensures b + x[i := v] + a == (b + x + a)[|b| + i := v]
  {
  }

  // dbpool's own traversal, which knows no exposed group.
  function RootEntries(f: Forest, bin: UUID): seq<Entry> {
    match f
    case Nil => []
    case Node(g, sub, next) =>
      (if IsRecycled(g, bin) then [] else g.entries + RootEntries(sub, bin)) + RootEntries(next, bin)
  }

  /** The two packages list the same entries when nothing restricts exposure. */
  lemma {:induction false} TraversalsAgree(f: Forest, bin: UUID, wanted: string)
    ensures Visible(f, bin, wanted, true) == RootEntries(f, bin)
  {
    if f.Node? {
      TraversalsAgree(f.sub, bin, wanted);
      TraversalsAgree(f.next, bin, wanted);
    }
  }

  // ---- Pointers into a forest ------------------------------------------

  predicate Has(f: Forest, p: GroupPtr) {
    f.Node? &&
    match p
    case This => true
    case Below(q) => Has(f.sub, q)
    case After(q) => Has(f.next, q)
  }

  function GroupAt(f: Forest, p: GroupPtr): Group
    requires Has(f, p)
  {
    match p
    case This => f.group
    case Below(q) => GroupAt(f.sub, q)
    case After(q) => GroupAt(f.next, q)
  }

  predicate HasEntry(f: Forest, p: EntryPtr) {
    Has(f, p.group) && p.index < |GroupAt(f, p.group).entries|
  }

  function EntryAt(f: Forest, p: EntryPtr): Entry
    requires HasEntry(f, p)
  {
    GroupAt(f, p.group).entries[p.index]
  }

  // f with other entries in the group at p, and nothing else changed.
  function SetEntries(f: Forest, p: GroupPtr, es: seq<Entry>): Forest
    requires Has(f, p)
  {
    match p
    case This => f.(group := f.group.(entries := es))
    case Below(q) => f.(sub := SetEntries(f.sub, q, es))
    case After(q) => f.(next := SetEntries(f.next, q, es))
  }

  function FlatBefore(f: Forest, p: GroupPtr): seq<Entry>
    requires Has(f, p)
  {
    match p
    case This => []
    case Below(q) => f.group.entries + FlatBefore(f.sub, q)
    case After(q) => f.group.entries + Flat(f.sub) + FlatBefore(f.next, q)
  }

  function FlatAfter(f: Forest, p: GroupPtr): seq<Entry>
    requires Has(f, p)
  {
    match p
    case This => Flat(f.sub) + Flat(f.next)
    case Below(q) => FlatAfter(f.sub, q) + Flat(f.next)
    case After(q) => FlatAfter(f.next, q)
  }

  lemma {:induction false} FlatSplits(f: Forest, p: GroupPtr, es: seq<Entry>)
    requires Has(f, p)
    ensures Flat(f) == FlatBefore(f, p) + GroupAt(f, p).entries + FlatAfter(f, p)
    ensures Flat(SetEntries(f, p, es)) == FlatBefore(f, p) + es + FlatAfter(f, p)
  {
    match p
    case This =>
    case Below(q) =>
      FlatSplits(f.sub, q, es);
      Widen(f.group.entries, FlatBefore(f.sub, q), GroupAt(f, p).entries, FlatAfter(f.sub, q), Flat(f.next));
      Widen(f.group.entries, FlatBefore(f.sub, q), es, FlatAfter(f.sub, q), Flat(f.next));
    case After(q) =>
      FlatSplits(f.next, q, es);
      Widen(f.group.entries + Flat(f.sub), FlatBefore(f.next, q), GroupAt(f, p).entries, FlatAfter(f.next, q), []);
      Widen(f.group.entries + Flat(f.sub), FlatBefore(f.next, q), es, FlatAfter(f.next, q), []);
  }

  // Whether the entries of the group at p are listed as visible.
  predicate VisibleAt(f: Forest, p: GroupPtr, bin: UUID, wanted: string, visible: bool)
    requires Has(f, p)
  {
    match p
    case This => !IsRecycled(f.group, bin) && (visible || Exposed(f.group, wanted))
    case Below(q) =>
      !IsRecycled(f.group, bin) && VisibleAt(f.sub, q, bin, wanted, visible || Exposed(f.group, wanted))
    case After(q) => VisibleAt(f.next, q, bin, wanted, visible)
  }

  // The visible entries of everything before and after the group at p.
  function VisibleBefore(f: Forest, p: GroupPtr, bin: UUID, wanted: string, visible: bool): seq<Entry>
    requires Has(f, p)
  {
    match p
    case This => []
    case Below(q) =>
      if IsRecycled(f.group, bin) then []
      else
        var v := visible || Exposed(f.group, wanted);
        (if v then f.group.entries else []) + VisibleBefore(f.sub, q, bin, wanted, v)
    case After(q) => FirstShown(f, bin, wanted, visible) + VisibleBefore(f.next, q, bin, wanted, visible)
  }

  function VisibleAfter(f: Forest, p: GroupPtr, bin: UUID, wanted: string, visible: bool): seq<Entry>
    requires Has(f, p)
  {
    var v := visible || Exposed(f.group, wanted);
    match p
    case This =>
      (if IsRecycled(f.group, bin) then [] else Visible(f.sub, bin, wanted, v)) + Visible(f.next, bin, wanted, visible)
    case Below(q) =>
      (if IsRecycled(f.group, bin) then [] else VisibleAfter(f.sub, q, bin, wanted, v)) + Visible(f.next, bin, wanted, visible)
    case After(q) => VisibleAfter(f.next, q, bin, wanted, visible)
  }

  lemma {:induction false} VisibleSplits(f: Forest, p: GroupPtr, bin: UUID, wanted: string, visible: bool)
    requires Has(f, p)
    ensures Visible(f, bin, wanted, visible) ==
            VisibleBefore(f, p, bin, wanted, visible)
            + (if VisibleAt(f, p, bin, wanted, visible) then GroupAt(f, p).entries else [])
            + VisibleAfter(f, p, bin, wanted, visible)
  {
    var v := visible || Exposed(f.group, wanted);
    var own := if v then f.group.entries else [];
    var shown := if VisibleAt(f, p, bin, wanted, visible) then GroupAt(f, p).entries else [];
    var next := Visible(f.next, bin, wanted, visible);
    match p
    case This =>
      if !IsRecycled(f.group, bin) {
        Assoc(own, Visible(f.sub, bin, wanted, v), next);
      }
    case Below(q) =>
      if !IsRecycled(f.group, bin) {
        VisibleSplits(f.sub, q, bin, wanted, v);
        Widen(own, VisibleBefore(f.sub, q, bin, wanted, v), shown, VisibleAfter(f.sub, q, bin, wanted, v), next);
      }
    case After(q) =>
      VisibleSplits(f.next, q, bin, wanted, visible);
      Widen(FirstShown(f, bin, wanted, visible), VisibleBefore(f.next, q, bin, wanted, visible), shown,
            VisibleAfter(f.next, q, bin, wanted, visible), []);
  }

  lemma {:induction false} VisibleAroundUnchanged(f: Forest, p: GroupPtr, es: seq<Entry>, bin: UUID, wanted: string, visible: bool)
    requires Has(f, p)
    ensures var f' := SetEntries(f, p, es);
            && Has(f', p) && GroupAt(f', p) == GroupAt(f, p).(entries := es)
            && VisibleAt(f', p, bin, wanted, visible) == VisibleAt(f, p, bin, wanted, visible)
            && VisibleBefore(f', p, bin, wanted, visible) == VisibleBefore(f, p, bin, wanted, visible)
            && VisibleAfter(f', p, bin, wanted, visible) == VisibleAfter(f, p, bin, wanted, visible)
  {
    match p
    case This =>
    case Below(q) => VisibleAroundUnchanged(f.sub, q, es, bin, wanted, visible || Exposed(f.group, wanted));
    case After(q) => VisibleAroundUnchanged(f.next, q, es, bin, wanted, visible);
  }

  // Other entries in one group change the visible list at that group only.
  lemma VisibleAfterSet(f: Forest, p: GroupPtr, es: seq<Entry>, bin: UUID, wanted: string, visible: bool)
    requires Has(f, p)
    ensures Visible(SetEntries(f, p, es), bin, wanted, visible) ==
            VisibleBefore(f, p, bin, wanted, visible)
            + (if VisibleAt(f, p, bin, wanted, visible) then es else [])
            + VisibleAfter(f, p, bin, wanted, visible)
  {
    VisibleAroundUnchanged(f, p, es, bin, wanted, visible);
    VisibleSplits(SetEntries(f, p, es), p, bin, wanted, visible);
  }

  // The groups without their entries, and the entry lists without their groups.
  function Skeleton(f: Forest): Forest {
    match f
    case Nil => Nil
    case Node(g, sub, next) => Node(g.(entries := []), Skeleton(sub), Skeleton(next))
  }

  function EntryLists(f: Forest): seq<seq<Entry>> {
    match f
    case Nil => []
    case Node(g, sub, next) => [g.entries] + EntryLists(sub) + EntryLists(next)
  }

  function ListIndex(f: Forest, p: GroupPtr): nat
    requires Has(f, p)
  {
    match p
    case This => 0
    case Below(q) => 1 + ListIndex(f.sub, q)
    case After(q) => 1 + |EntryLists(f.sub)| + ListIndex(f.next, q)
  }

  lemma {:induction false} SetEntriesIsLocal(f: Forest, p: GroupPtr, es: seq<Entry>)
    requires Has(f, p)
    ensures Skeleton(SetEntries(f, p, es)) == Skeleton(f)
    ensures ListIndex(f, p) < |EntryLists(f)| && EntryLists(f)[ListIndex(f, p)] == GroupAt(f, p).entries
    ensures EntryLists(SetEntries(f, p, es)) == EntryLists(f)[ListIndex(f, p) := es]
  {
    match p
    case This =>
    case Below(q) =>
      SetEntriesIsLocal(f.sub, q, es);
      UpdateMiddle([f.group.entries], EntryLists(f.sub), EntryLists(f.next), ListIndex(f.sub, q), es);
    case After(q) =>
      SetEntriesIsLocal(f.next, q, es);
      UpdateMiddle([f.group.entries] + EntryLists(f.sub), EntryLists(f.next), [], ListIndex(f.next, q), es);
  }

  // ---- Searches ---------------------------------------------------------

  // Index of the first entry satisfying m, or |es|.
  function IndexWhere(es: seq<Entry>, m: Entry -> bool): (i: nat)
    ensures i <= |es|
    ensures i < |es| ==> m(es[i])
    ensures forall j :: 0 <= j < i ==> !m(es[j])
  {
    if es == [] || m(es[0]) then 0 else 1 + IndexWhere(es[1..], m)
  }

  function MapBelow(p: Option<EntryPtr>): Option<EntryPtr> {
    match p
    case None => None
    case Some(q) => Some(EntryPtr(Below(q.group), q.index))
  }

  function MapAfter(p: Option<EntryPtr>): Option<EntryPtr> {
    match p
    case None => None
    case Some(q) => Some(EntryPtr(After(q.group), q.index))
  }

  // findMatchingVisibleEntryPtr, trimming the exposed name again at every level.
  function FindVisible(f: Forest, m: Entry -> bool, bin: UUID, expose: string, visible: bool): Option<EntryPtr>
    decreases f
  {
    match f
    case Nil => None
    case Node(g, sub, next) =>
      var wanted := TrimSpace(expose);
      var v := visible || wanted == "" || Exposed(g, wanted);
      var i := IndexWhere(g.entries, m);
      if IsRecycled(g, bin) then MapAfter(FindVisible(next, m, bin, expose, visible))
      else if v && i < |g.entries| then Some(EntryPtr(This, i))
      else
        var below := MapBelow(FindVisible(sub, m, bin, wanted, v));
        if below.Some? then below else MapAfter(FindVisible(next, m, bin, expose, visible))
  }

  // p points at the first entry of the visible list that satisfies m.
  ghost predicate FirstVisible(f: Forest, m: Entry -> bool, p: EntryPtr, bin: UUID, wanted: string, visible: bool) {
    && HasEntry(f, p) && m(EntryAt(f, p))
    && VisibleAt(f, p.group, bin, wanted, visible)
    && (forall e | e in VisibleBefore(f, p.group, bin, wanted, visible) :: !m(e))
    && (forall i :: 0 <= i < p.index ==> !m(GroupAt(f, p.group).entries[i]))
  }

  lemma FirstVisibleBelow(f: Forest, m: Entry -> bool, p: EntryPtr, bin: UUID, wanted: string, visible: bool)
    requires f.Node? && !IsRecycled(f.group, bin)
    requires var v := visible || Exposed(f.group, wanted);
             FirstVisible(f.sub, m, p, bin, wanted, v) && (v ==> forall e | e in f.group.entries :: !m(e))
    ensures FirstVisible(f, m, EntryPtr(Below(p.group), p.index), bin, wanted, visible)
  {
  }

  lemma FirstVisibleAfter(f: Forest, m: Entry -> bool, p: EntryPtr, bin: UUID, wanted: string, visible: bool)
    requires f.Node? && FirstVisible(f.next, m, p, bin, wanted, visible)
    requires forall e | e in FirstShown(f, bin, wanted, visible) :: !m(e)
    ensures FirstVisible(f, m, EntryPtr(After(p.group), p.index), bin, wanted, visible)
  {
  }

  lemma {:induction false} FindVisibleWalks(f: Forest, m: Entry -> bool, bin: UUID, expose: string, visible: bool)
    ensures var found := FindVisible(f, m, bin, expose, visible);
            var wanted := TrimSpace(expose);
            && (found.Some? ==> FirstVisible(f, m, found.value, bin, wanted, visible || wanted == ""))
            && (found.None? ==> forall e | e in Visible(f, bin, wanted, visible || wanted == "") :: !m(e))
    decreases f
  {
    if f.Node? {
      var wanted := TrimSpace(expose);
      var visible' := visible || wanted == "";
      var v := visible' || Exposed(f.group, wanted);
      assert TrimSpace(wanted) == wanted;
      FindVisibleWalks(f.next, m, bin, expose, visible);
      FindVisibleWalks(f.sub, m, bin, wanted, v);
      var next := FindVisible(f.next, m, bin, expose, visible);
      var below := FindVisible(f.sub, m, bin, wanted, v);
      var i := IndexWhere(f.group.entries, m);
      if !IsRecycled(f.group, bin) && v && i < |f.group.entries| {
        assert FirstVisible(f, m, EntryPtr(This, i), bin, wanted, visible');
      } else if !IsRecycled(f.group, bin) && below.Some? {
        FirstVisibleBelow(f, m, below.value, bin, wanted, visible');
      } else {
        assert forall e | e in FirstShown(f, bin, wanted, visible') :: !m(e);
        if next.Some? {
          FirstVisibleAfter(f, m, next.value, bin, wanted, visible');
        }
      }
    }
  }

  /** The entry a replacing CreateItem picks is the first match in the flattened
      visible list, and no entry is picked iff none matches there. */
  lemma FindsFirstVisibleMatch(f: Forest, m: Entry -> bool, bin: UUID, expose: string)
    ensures var found := FindVisible(f, m, bin, expose, false);
            var all := VisibleEntries(f, bin, expose);
            && (found.Some? <==> exists e :: e in all && m(e))
            && (found.Some? ==>
                  && HasEntry(f, found.value)
                  && IndexWhere(all, m) < |all|
                  && EntryAt(f, found.value) == all[IndexWhere(all, m)])
  {
    FindVisibleWalks(f, m, bin, expose, false);
    var found := FindVisible(f, m, bin, expose, false);
    var wanted := TrimSpace(expose);
    if found.Some? {
      var p := found.value;
      FirstVisibleIndex(f, m, p, bin, wanted, wanted == "");
    }
  }

  lemma FirstVisibleIndex(f: Forest, m: Entry -> bool, p: EntryPtr, bin: UUID, wanted: string, visible: bool)
    requires FirstVisible(f, m, p, bin, wanted, visible)
    ensures var all := Visible(f, bin, wanted, visible);
            && IndexWhere(all, m) == |VisibleBefore(f, p.group, bin, wanted, visible)| + p.index < |all|
            && all[IndexWhere(all, m)] == EntryAt(f, p) && EntryAt(f, p) in all
  {
    VisibleSplits(f, p.group, bin, wanted, visible);
    var before := VisibleBefore(f, p.group, bin, wanted, visible);
    var all := Visible(f, bin, wanted, visible);
    var i := |before| + p.index;
    assert all[i] == EntryAt(f, p);
    forall j | 0 <= j < i
      ensures !m(all[j])
    {
      assert j < |before| ==> all[j] == before[j];
    }
  }

  // Storing e' at the first visible match changes just that place of both lists.
  lemma StoreAtFirstVisible(f: Forest, m: Entry -> bool, p: EntryPtr, e': Entry, bin: UUID, wanted: string, visible: bool)
    requires FirstVisible(f, m, p, bin, wanted, visible)
    ensures var f' := StoreEntry(f, p, e');
            var i := IndexWhere(Visible(f, bin, wanted, visible), m);
            && i < |Visible(f, bin, wanted, visible)|
            && Visible(f', bin, wanted, visible) == Visible(f, bin, wanted, visible)[i := e']
            && |Flat(f')| == |Flat(f)|
  {
    var es := GroupAt(f, p.group).entries;
    var es' := es[p.index := e'];
    FirstVisibleIndex(f, m, p, bin, wanted, visible);
    VisibleSplits(f, p.group, bin, wanted, visible);
    VisibleAfterSet(f, p.group, es', bin, wanted, visible);
    UpdateMiddle(VisibleBefore(f, p.group, bin, wanted, visible), es, VisibleAfter(f, p.group, bin, wanted, visible), p.index, e');
    FlatSplits(f, p.group, es');
  }

  function StoreEntry(f: Forest, p: EntryPtr, e: Entry): Forest
    requires HasEntry(f, p)
  {
    SetEntries(f, p.group, GroupAt(f, p.group).entries[p.index := e])
  }

  function MapGroupBelow(p: Option<GroupPtr>): Option<GroupPtr> {
    match p case None => None case Some(q) => Some(Below(q))
  }

  function MapGroupAfter(p: Option<GroupPtr>): Option<GroupPtr> {
    match p case None => None case Some(q) => Some(After(q))
  }

  // findGroupPtrByExposure.
  function FindExposed(f: Forest, bin: UUID, expose: string): (r: Option<GroupPtr>)
    ensures TrimSpace(expose) == "" ==> r.None?
    decreases f
  {
    match f
    case Nil => None
    case Node(g, sub, next) =>
      var wanted := TrimSpace(expose);
      if wanted == "" then None
      else if IsRecycled(g, bin) then MapGroupAfter(FindExposed(next, bin, expose))
      else if Exposed(g, wanted) then Some(This)
      else
        var below := MapGroupBelow(FindExposed(sub, bin, wanted));
        if below.Some? then below else MapGroupAfter(FindExposed(next, bin, expose))
  }

  /** New items go to a group the Secret Service can see, and none is found iff
      no group is visible at all. */
  lemma {:induction false} ExposedGroupIsVisible(f: Forest, bin: UUID, expose: string)
    requires TrimSpace(expose) != ""
    ensures var found := FindExposed(f, bin, expose);
            && (found.Some? ==> Has(f, found.value) && VisibleAt(f, found.value, bin, TrimSpace(expose), false))
            && (found.None? ==> forall p | Has(f, p) :: !VisibleAt(f, p, bin, TrimSpace(expose), false))
    decreases f
  {
    if f.Node? {
      assert TrimSpace(TrimSpace(expose)) == TrimSpace(expose);
      ExposedGroupIsVisible(f.sub, bin, TrimSpace(expose));
      ExposedGroupIsVisible(f.next, bin, expose);
    }
  }

  // ---- Visibility, group by group --------------------------------------------------

  // The group at p and all groups around it, outermost first.
  function Lineage(f: Forest, p: GroupPtr): seq<Group>
    requires Has(f, p)
  {
    match p
    case This => [f.group]
    case Below(q) => [f.group] + Lineage(f.sub, q)
    case After(q) => Lineage(f.next, q)
  }

  // The recycle bin by name or by the UUID in the metadata; the exposed group by
  // name or by hexadecimal UUID, up to case.
  predicate InBin(g: Group, bin: UUID) {
    g.name == "Recycle Bin" || (g.uuid == bin && !AllZero(bin))
  }

  predicate Wanted(g: Group, wanted: string) {
    SameText(g.name, wanted) || SameText(Hex(g.uuid), wanted)
  }

  lemma GroupTests(g: Group, bin: UUID, wanted: string)
    requires |bin| == 16
    ensures IsRecycled(g, bin) <==> InBin(g, bin)
    ensures Exposed(g, wanted) <==> Wanted(g, wanted)
  {
    EqualFoldIff(g.name, wanted);
    EqualFoldIff(Hex(g.uuid), wanted);
    ZeroIff(bin);
  }

  /** The entries of a group are listed iff neither it nor any group around it is
      recycled, and it or one around it is exposed. */
  lemma {:induction false} VisibleAtIff(f: Forest, p: GroupPtr, bin: UUID, wanted: string, visible: bool)
    requires Has(f, p) && |bin| == 16
    ensures VisibleAt(f, p, bin, wanted, visible) <==>
              && (forall g | g in Lineage(f, p) :: !InBin(g, bin))
              && (visible || exists g :: g in Lineage(f, p) && Wanted(g, wanted))
  {
    GroupTests(f.group, bin, wanted);
    match p
    case This =>
      assert f.group in Lineage(f, p);
    case Below(q) =>
      VisibleAtIff(f.sub, q, bin, wanted, visible || Exposed(f.group, wanted));
      assert forall g :: g in Lineage(f, p) <==> g == f.group || g in Lineage(f.sub, q);
    case After(q) => VisibleAtIff(f.next, q, bin, wanted, visible);
  }

  // The entries of all groups that satisfy a test, in the order of the tree.
  lemma {:induction false} ShownByGroup(f: Forest, bin: UUID, wanted: string, visible: bool, e: Entry)
    ensures e in Visible(f, bin, wanted, visible) <==>
              exists p :: Has(f, p) && VisibleAt(f, p, bin, wanted, visible) && e in GroupAt(f, p).entries
  {
    if f.Node? {
      var v := visible || Exposed(f.group, wanted);
      var own, shown := if v then f.group.entries else [], FirstShown(f, bin, wanted, visible);
      assert !IsRecycled(f.group, bin) ==> shown == own + Visible(f.sub, bin, wanted, v);
      assert Visible(f, bin, wanted, visible) == shown + Visible(f.next, bin, wanted, visible);
      ShownByGroup(f.sub, bin, wanted, v, e);
      ShownByGroup(f.next, bin, wanted, visible, e);
      if e in Visible(f, bin, wanted, visible) {
        if e in Visible(f.next, bin, wanted, visible) {
          var q :| Has(f.next, q) && VisibleAt(f.next, q, bin, wanted, visible) && e in GroupAt(f.next, q).entries;
          assert Has(f, After(q));
        } else if v && e in f.group.entries {
          assert Has(f, This);
        } else {
          var q :| Has(f.sub, q) && VisibleAt(f.sub, q, bin, wanted, v) && e in GroupAt(f.sub, q).entries;
          assert Has(f, Below(q));
        }
      }
      if p :| Has(f, p) && VisibleAt(f, p, bin, wanted, visible) && e in GroupAt(f, p).entries {
        VisibleSplits(f, p, bin, wanted, visible);
      }
    }
  }

  /** An entry is visible iff it lies in a group that is not recycled, nor lies in a
      recycled one, and that is exposed or lies in an exposed one; a blank name
      exposes every group. */
  lemma ShownIff(f: Forest, bin: UUID, expose: string, e: Entry)
    requires |bin| == 16
    ensures e in VisibleEntries(f, bin, expose) <==>
              exists p :: Has(f, p) && e in GroupAt(f, p).entries
                          && (forall g | g in Lineage(f, p) :: !InBin(g, bin))
                          && (Blank(expose) || exists g :: g in Lineage(f, p) && Wanted(g, TrimSpace(expose)))
  {
    var wanted := TrimSpace(expose);
    BlankTrimsIff(expose);
    ShownByGroup(f, bin, wanted, wanted == "", e);
    forall p | Has(f, p)
      ensures VisibleAt(f, p, bin, wanted, wanted == "") <==>
                && (forall g | g in Lineage(f, p) :: !InBin(g, bin))
                && (wanted == "" || exists g :: g in Lineage(f, p) && Wanted(g, wanted))
    {
      VisibleAtIff(f, p, bin, wanted, wanted == "");
    }
  }

  // q comes before p when a tree is walked group first, then subgroups, then the rest.
  predicate Precedes(q: GroupPtr, p: GroupPtr) {
    match q
    case This => !p.This?
    case Below(a) => p.After? || (p.Below? && Precedes(a, p.ptr))
    case After(a) => p.After? && Precedes(a, p.ptr)
  }

  /** The group chosen for a new item is the first visible one. */
  lemma {:induction false} FoundIsFirstVisible(f: Forest, bin: UUID, expose: string)
    requires FindExposed(f, bin, expose).Some?
    ensures Has(f, FindExposed(f, bin, expose).value)
    ensures VisibleAt(f, FindExposed(f, bin, expose).value, bin, TrimSpace(expose), false)
    ensures forall q | Has(f, q) && Precedes(q, FindExposed(f, bin, expose).value) ::
              !VisibleAt(f, q, bin, TrimSpace(expose), false)
    decreases f
  {
    var wanted := TrimSpace(expose);
    assert TrimSpace(wanted) == wanted;
    ExposedGroupIsVisible(f, bin, expose);
    ExposedGroupIsVisible(f.sub, bin, wanted);
    if FindExposed(f.sub, bin, wanted).Some? {
      FoundIsFirstVisible(f.sub, bin, wanted);
    }
    if FindExposed(f.next, bin, expose).Some? {
      FoundIsFirstVisible(f.next, bin, expose);
    }
  }

  lemma {:induction false} FoundIsExposed(f: Forest, bin: UUID, expose: string)
    requires FindExposed(f, bin, expose).Some?
    ensures Has(f, FindExposed(f, bin, expose).value)
    ensures Exposed(GroupAt(f, FindExposed(f, bin, expose).value), TrimSpace(expose))
    decreases f
  {
    assert TrimSpace(TrimSpace(expose)) == TrimSpace(expose);
    if FindExposed(f.sub, bin, TrimSpace(expose)).Some? {
      FoundIsExposed(f.sub, bin, TrimSpace(expose));
    }
    if FindExposed(f.next, bin, expose).Some? {
      FoundIsExposed(f.next, bin, expose);
    }
  }

  // ---- Lookup and deletion by UUID --------------------------------------

  function HasUUID(hex: string): Entry -> bool {
    (e: Entry) => Hex(e.uuid) == hex
  }

  // findEntryPtrByUUID, over all groups, recycled or not.
  function FindByUUID(f: Forest, hex: string): Option<EntryPtr> {
    match f
    case Nil => None
    case Node(g, sub, next) =>
      var i := IndexWhere(g.entries, HasUUID(hex));
      if i < |g.entries| then Some(EntryPtr(This, i))
      else
        var below := MapBelow(FindByUUID(sub, hex));
        if below.Some? then below else MapAfter(FindByUUID(next, hex))
  }

  function FlatIndex(f: Forest, p: EntryPtr): nat
    requires HasEntry(f, p)
  {
    |FlatBefore(f, p.group)| + p.index
  }

  /** Lookup by UUID returns the first entry of the flattened list that has it. */
  lemma {:induction false} FindByUUIDFindsFirst(f: Forest, hex: string)
    ensures var found := FindByUUID(f, hex);
            var i := IndexWhere(Flat(f), HasUUID(hex));
            && (found.Some? <==> i < |Flat(f)|)
            && (found.Some? ==> HasEntry(f, found.value) && FlatIndex(f, found.value) == i
                                && EntryAt(f, found.value) == Flat(f)[i])
  {
    if f.Node? {
      var m, own, sub := HasUUID(hex), f.group.entries, Flat(f.sub);
      FindByUUIDFindsFirst(f.sub, hex);
      FindByUUIDFindsFirst(f.next, hex);
      IndexWhereConcat(own + sub, Flat(f.next), m);
      IndexWhereConcat(own, sub, m);
      if IndexWhere(own, m) < |own| {
        assert FindByUUID(f, hex) == Some(EntryPtr(This, IndexWhere(own, m)));
      } else if IndexWhere(sub, m) < |sub| {
        assert FindByUUID(f, hex) == MapBelow(FindByUUID(f.sub, hex));
      } else {
        assert FindByUUID(f, hex) == MapAfter(FindByUUID(f.next, hex));
      }
    }
  }

  lemma IndexWhereConcat(a: seq<Entry>, b: seq<Entry>, m: Entry -> bool)
    ensures IndexWhere(a + b, m) == if IndexWhere(a, m) < |a| then IndexWhere(a, m) else |a| + IndexWhere(b, m)
  {
    var i := IndexWhere(a + b, m);
    var j := if IndexWhere(a, m) < |a| then IndexWhere(a, m) else |a| + IndexWhere(b, m);
    assert j < |a + b| ==> m((a + b)[j]);
    forall k | 0 <= k < j
      ensures !m((a + b)[k])
    {
      assert k >= |a| ==> (a + b)[k] == b[k - |a|];
    }
  }

  function Without(es: seq<Entry>, i: nat): seq<Entry>
    requires i < |es|
  {
    es[..i] + es[i + 1..]
  }

  // removeEntryByUUID: what remains, and whether an entry was removed.
  method RemoveEntryByUUID(f: Forest, hex: string) returns (removed: bool, f': Forest)
    ensures removed <==> FindByUUID(f, hex).Some?
    ensures f' == Removed(f, hex)
    decreases f
  {
    if f.Nil? {
      return false, f;
    }
    var es := f.group.entries;
    for i := 0 to |es|
      invariant forall j :: 0 <= j < i ==> Hex(es[j].uuid) != hex
    {
      if Hex(es[i].uuid) == hex {
        return true, f.(group := f.group.(entries := es[..i] + es[i + 1..]));
      }
    }
    var sub, next;
    removed, sub := RemoveEntryByUUID(f.sub, hex);
    if removed {
      return true, f.(sub := sub);
    }
    removed, next := RemoveEntryByUUID(f.next, hex);
    f' := f.(next := next);
  }

  // The entry that lookup finds taken out of its group; f itself if it finds none.
  function Removed(f: Forest, hex: string): (f': Forest) {
    if f.Nil? then f
    else
      var i := IndexWhere(f.group.entries, HasUUID(hex));
      if i < |f.group.entries| then f.(group := f.group.(entries := Without(f.group.entries, i)))
      else if FindByUUID(f.sub, hex).Some? then f.(sub := Removed(f.sub, hex))
      else f.(next := Removed(f.next, hex))
  }

  lemma {:induction false} RemovedIsLocal(f: Forest, hex: string)
    ensures var found := FindByUUID(f, hex);
            if found.None? then Removed(f, hex) == f
            else HasEntry(f, found.value)
                 && Removed(f, hex) ==
                    SetEntries(f, found.value.group, Without(GroupAt(f, found.value.group).entries, found.value.index))
  {
    if f.Node? {
      RemovedIsLocal(f.sub, hex);
      RemovedIsLocal(f.next, hex);
    }
  }

  /** Deleting removes precisely the entry that lookup finds: the flattened list
      loses that one position, no group changes, and no entry of any other group
      or position moves. */
  lemma DeleteRemovesWhatFindFinds(f: Forest, hex: string)
    requires FindByUUID(f, hex).Some?
    ensures var p := FindByUUID(f, hex).value;
            var f' := Removed(f, hex);
            && HasEntry(f, p) && FlatIndex(f, p) < |Flat(f)|
            && Flat(f') == Without(Flat(f), FlatIndex(f, p))
            && Skeleton(f') == Skeleton(f)
            && ListIndex(f, p.group) < |EntryLists(f)|
            && EntryLists(f') == EntryLists(f)[ListIndex(f, p.group) := Without(GroupAt(f, p.group).entries, p.index)]
  {
    var p := FindByUUID(f, hex).value;
    RemovedIsLocal(f, hex);
    var es := GroupAt(f, p.group).entries;
    FindByUUIDFindsFirst(f, hex);
    FlatSplits(f, p.group, Without(es, p.index));
    WithoutMiddle(FlatBefore(f, p.group), es, FlatAfter(f, p.group), p.index);
    SetEntriesIsLocal(f, p.group, Without(es, p.index));
  }

  lemma WithoutMiddle(b: seq<Entry>, x: seq<Entry>, a: seq<Entry>, i: nat)
    requires i < |x|
    ensures Without(b + x + a, |b| + i) == b + Without(x, i) + a
  {
  }

  lemma NoneLeft(es: seq<Entry>, m: Entry -> bool)
    requires IndexWhere(es, m) < |es|
    ensures var k := IndexWhere(es, m);
            IndexWhere(Without(es, k), m) == |Without(es, k)| <==> forall j :: k < j < |es| ==> !m(es[j])
  {
    var k := IndexWhere(es, m);
    var es' := Without(es, k);
    assert forall j :: k < j < |es| ==> es'[j - 1] == es[j];
    assert forall j :: k <= j < |es'| ==> es'[j] == es[j + 1];
  }

  /** After a delete the UUID is gone iff no later entry carried it too. */
  lemma DeletedIsGoneIff(f: Forest, hex: string)
    requires FindByUUID(f, hex).Some?
    ensures FindByUUID(Removed(f, hex), hex).None? <==>
            forall j :: IndexWhere(Flat(f), HasUUID(hex)) < j < |Flat(f)| ==> Hex(Flat(f)[j].uuid) != hex
  {
    FindByUUIDFindsFirst(f, hex);
    FindByUUIDFindsFirst(Removed(f, hex), hex);
    DeleteRemovesWhatFindFinds(f, hex);
    NoneLeft(Flat(f), HasUUID(hex));
  }

  ghost predicate UniqueUUIDs(f: Forest) {
    forall i, j :: 0 <= i < j < |Flat(f)| ==> Flat(f)[i].uuid != Flat(f)[j].uuid
  }

  // With unique UUIDs, lookup by an entry's own UUID leads back to that entry.
  lemma FindsItself(f: Forest, i: nat)
    requires UniqueUUIDs(f) && i < |Flat(f)|
    ensures IndexWhere(Flat(f), HasUUID(Hex(Flat(f)[i].uuid))) == i
  {
    var hex := Hex(Flat(f)[i].uuid);
    var k := IndexWhere(Flat(f), HasUUID(hex));
    assert HasUUID(hex)(Flat(f)[i]);
    HexInjective(Flat(f)[k].uuid, Flat(f)[i].uuid);
  }

  /** With unique UUIDs no later lookup finds a deleted entry ... */
  lemma DeletedIsGone(f: Forest, i: nat)
    requires UniqueUUIDs(f) && i < |Flat(f)|
    ensures FindByUUID(Removed(f, Hex(Flat(f)[i].uuid)), Hex(Flat(f)[i].uuid)).None?
  {
    var hex := Hex(Flat(f)[i].uuid);
    FindsItself(f, i);
    FindByUUIDFindsFirst(f, hex);
    forall j | i < j < |Flat(f)|
      ensures Hex(Flat(f)[j].uuid) != hex
    {
      if Hex(Flat(f)[j].uuid) == hex {
        HexInjective(Flat(f)[j].uuid, Flat(f)[i].uuid);
      }
    }
    DeletedIsGoneIff(f, hex);
  }

  /** ... and every other entry is still found, unchanged. */
  lemma OthersAreStillFound(f: Forest, i: nat, j: nat)
    requires UniqueUUIDs(f) && i < |Flat(f)| && j < |Flat(f)| && i != j
    ensures var f' := Removed(f, Hex(Flat(f)[i].uuid));
            var p := FindByUUID(f', Hex(Flat(f)[j].uuid));
            p.Some? && HasEntry(f', p.value) && EntryAt(f', p.value) == Flat(f)[j]
  {
    hide Removed, FindByUUID, Flat;
    var hex := Hex(Flat(f)[i].uuid);
    var f' := Removed(f, hex);
    FindsItself(f, i);
    FindByUUIDFindsFirst(f, hex);
    DeleteRemovesWhatFindFinds(f, hex);
    WithoutKeepsUnique(f, i, f');
    var j' := if j < i then j else j - 1;
    assert Flat(f')[j'] == Flat(f)[j];
    FindsItself(f', j');
    FindByUUIDFindsFirst(f', Hex(Flat(f)[j].uuid));
  }

  lemma WithoutKeepsUnique(f: Forest, i: nat, f': Forest)
    requires UniqueUUIDs(f) && i < |Flat(f)| && Flat(f') == Without(Flat(f), i)
    ensures UniqueUUIDs(f')
  {
    forall a, b | 0 <= a < b < |Flat(f')|
      ensures Flat(f')[a].uuid != Flat(f')[b].uuid
    {
      assert Flat(f')[a] == Flat(f)[if a < i then a else a + 1];
      assert Flat(f')[b] == Flat(f)[if b < i then b else b + 1];
    }
  }

  // ---- Copies ---------------------------------------------------------------

  // cloneRootData: everything copied, every UUID drawn anew.
  function Cloned(f: Forest, draw: Draw, at: seq<nat>): Forest {
    match f
    case Nil => Nil
    case Node(g, sub, next) =>
      Node(g.(uuid := draw(at), entries := ClonedEntries(g.entries, draw, at + [0])),
           Cloned(sub, draw, at + [1]), Cloned(next, draw, at + [2]))
  }

  predicate SameForestButKeys(f: Forest, f': Forest) {
    Cloned(f, NoKey, []) == Cloned(f', NoKey, [])
  }

  lemma {:induction false} CloneForestTwice(f: Forest, d1: Draw, d2: Draw, at1: seq<nat>, at2: seq<nat>)
    ensures Cloned(Cloned(f, d1, at1), d2, at2) == Cloned(f, d2, at2)
  {
    if f.Node? {
      CloneAllTwice(f.group.entries, d1, d2, at1 + [0], at2 + [0]);
      CloneForestTwice(f.sub, d1, d2, at1 + [1], at2 + [1]);
      CloneForestTwice(f.next, d1, d2, at1 + [2], at2 + [2]);
    }
  }

  lemma CloneIsSameButKeys(f: Forest, draw: Draw)
    ensures SameForestButKeys(Cloned(f, draw, []), f)
  {
    CloneForestTwice(f, draw, NoKey, [], []);
  }

  // The UUIDs in use.
  function Keys(f: Forest): set<UUID> {
    match f
    case Nil => {}
    case Node(g, sub, next) => {g.uuid} + (set e | e in g.entries :: e.uuid) + Keys(sub) + Keys(next)
  }

  ghost predicate Fresh(draw: Draw, f: Forest) {
    forall at :: draw(at) !in Keys(f)
  }

  lemma {:induction false} ClonedKeysAreDrawn(f: Forest, draw: Draw, at: seq<nat>, e: Entry)
    requires e in Flat(Cloned(f, draw, at))
    ensures exists place :: e.uuid == draw(place)
  {
    var f' := Cloned(f, draw, at);
    if e in f'.group.entries {
      var i :| 0 <= i < |f'.group.entries| && f'.group.entries[i] == e;
      assert f'.group.entries[i] == ClonedEntry(f.group.entries[i], draw, at + [0] + [i]);
    } else if e in Flat(f'.sub) {
      ClonedKeysAreDrawn(f.sub, draw, at + [1], e);
    } else {
      ClonedKeysAreDrawn(f.next, draw, at + [2], e);
    }
  }

  lemma {:induction false} EntryKeysInUse(f: Forest, e: Entry)
    requires e in Flat(f)
    ensures e.uuid in Keys(f)
  {
    if e in f.group.entries {
    } else if e in Flat(f.sub) {
      EntryKeysInUse(f.sub, e);
    } else {
      EntryKeysInUse(f.next, e);
    }
  }

  /** In a clone with fresh UUIDs no entry of the original is found any more. */
  lemma CloneFindsNothing(f: Forest, draw: Draw, e: Entry)
    requires Fresh(draw, f) && e in Flat(f)
    ensures FindByUUID(Cloned(f, draw, []), Hex(e.uuid)).None?
  {
    var f', hex := Cloned(f, draw, []), Hex(e.uuid);
    FindByUUIDFindsFirst(f', hex);
    EntryKeysInUse(f, e);
    var i := IndexWhere(Flat(f'), HasUUID(hex));
    if i < |Flat(f')| {
      ClonedKeysAreDrawn(f, draw, [], Flat(f')[i]);
      HexInjective(Flat(f')[i].uuid, e.uuid);
    }
  }

  // ---- What a clone shows --------------------------------------------------------

  // The visible entries when names alone decide, and no UUID is looked at.
  function VisibleByName(f: Forest, wanted: string, visible: bool): seq<Entry> {
    match f
    case Nil => []
    case Node(g, sub, next) =>
      var v := visible || EqualFold(g.name, wanted);
      (if g.name == "Recycle Bin" then [] else (if v then g.entries else []) + VisibleByName(sub, wanted, v))
      + VisibleByName(next, wanted, visible)
  }

  // No drawn UUID is that of the recycle bin or spells the exposed group.
  ghost predicate Unremarkable(draw: Draw, bin: UUID, wanted: string) {
    forall at :: (bin != ZERO ==> draw(at) != bin) && !EqualFold(Hex(draw(at)), wanted)
  }

  lemma UnkeyedConcat(a: seq<Entry>, b: seq<Entry>)
    ensures Unkeyed(a + b) == Unkeyed(a) + Unkeyed(b)
  {
  }

  lemma ClonedEntriesSameButKeys(es: seq<Entry>, draw: Draw, at: seq<nat>)
    ensures SameButKeys(ClonedEntries(es, draw, at), es)
  {
    forall i | 0 <= i < |es|
      ensures Unkeyed(ClonedEntries(es, draw, at))[i] == Unkeyed(es)[i]
    {
      CloneTwice(es[i], draw, NoKey, at + [i], []);
    }
  }

  /** A clone shows, up to UUIDs, what the names alone show. */
  lemma {:induction false} CloneShowsByName(f: Forest, draw: Draw, at: seq<nat>, bin: UUID, wanted: string, visible: bool)
    requires Unremarkable(draw, bin, wanted)
    ensures SameButKeys(Visible(Cloned(f, draw, at), bin, wanted, visible), VisibleByName(f, wanted, visible))
  {
    if f.Node? {
      var f', v := Cloned(f, draw, at), visible || EqualFold(f.group.name, wanted);
      CloneShowsByName(f.sub, draw, at + [1], bin, wanted, v);
      CloneShowsByName(f.next, draw, at + [2], bin, wanted, visible);
      ClonedEntriesSameButKeys(f.group.entries, draw, at + [0]);
      var own, own' := if v then f.group.entries else [], if v then f'.group.entries else [];
      var sub, sub' := VisibleByName(f.sub, wanted, v), Visible(f'.sub, bin, wanted, v);
      UnkeyedConcat(own, sub);
      UnkeyedConcat(own', sub');
      var first := if f.group.name == "Recycle Bin" then [] else own + sub;
      UnkeyedConcat(first, VisibleByName(f.next, wanted, visible));
      UnkeyedConcat(FirstShown(f', bin, wanted, visible), Visible(f'.next, bin, wanted, visible));
    }
  }

  // No group is recycled or exposed by its UUID alone.
  predicate NamesDecide(f: Forest, bin: UUID, wanted: string) {
    match f
    case Nil => true
    case Node(g, sub, next) =>
      && (IsRecycled(g, bin) ==> g.name == "Recycle Bin")
      && (Exposed(g, wanted) ==> EqualFold(g.name, wanted))
      && NamesDecide(sub, bin, wanted) && NamesDecide(next, bin, wanted)
  }

  lemma {:induction false} NamesDecideVisible(f: Forest, bin: UUID, wanted: string, visible: bool)
    requires NamesDecide(f, bin, wanted)
    ensures Visible(f, bin, wanted, visible) == VisibleByName(f, wanted, visible)
  {
    if f.Node? {
      NamesDecideVisible(f.sub, bin, wanted, visible || EqualFold(f.group.name, wanted));
      NamesDecideVisible(f.next, bin, wanted, visible);
    }
  }

  /** A clone shows the same entries up to UUIDs if no group is recycled or exposed
      by its UUID alone. */
  lemma CloneShowsTheSame(f: Forest, draw: Draw, bin: UUID, expose: string)
    requires NamesDecide(f, bin, TrimSpace(expose)) && Unremarkable(draw, bin, TrimSpace(expose))
    ensures SameButKeys(VisibleEntries(Cloned(f, draw, []), bin, expose), VisibleEntries(f, bin, expose))
  {
    var wanted := TrimSpace(expose);
    CloneShowsByName(f, draw, [], bin, wanted, wanted == "");
    NamesDecideVisible(f, bin, wanted, wanted == "");
  }

  /** Every group for itself: its clone is recycled and exposed as before iff it is
      neither recycled nor exposed by its UUID alone. */
  lemma CloneTreatedAlikeIff(g: Group, drawn: UUID, bin: UUID, wanted: string)
    requires (bin != ZERO ==> drawn != bin) && !EqualFold(Hex(drawn), wanted)
    ensures var g' := g.(uuid := drawn);
            (IsRecycled(g', bin) == IsRecycled(g, bin) && Exposed(g', wanted) == Exposed(g, wanted)) <==>
              NamesDecide(Node(g, Nil, Nil), bin, wanted)
  {
  }

  /** Otherwise it need not: the entries of a recycle bin under another name are
      hidden in the original and shown in its clone. */
  lemma RenamedBinReappears(g: Group, draw: Draw, bin: UUID, expose: string)
    requires g.uuid == bin && bin != ZERO && g.name != "Recycle Bin" && TrimSpace(expose) == ""
    requires draw([]) != bin
    ensures VisibleEntries(Node(g, Nil, Nil), bin, expose) == []
    ensures VisibleEntries(Cloned(Node(g, Nil, Nil), draw, []), bin, expose) == ClonedEntries(g.entries, draw, [0])
  {
    var wanted, f := TrimSpace(expose), Node(g, Nil, Nil);
    var f' := Cloned(f, draw, []);
    assert [] + [0] == [0];
    assert Cloned(f.sub, draw, [] + [1]) == Nil && Cloned(f.next, draw, [] + [2]) == Nil;
    assert Visible(Nil, bin, wanted, true) == [];
    assert FirstShown(f, bin, wanted, true) == [] && FirstShown(f', bin, wanted, true) == f'.group.entries;
  }
}
