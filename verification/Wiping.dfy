/** Blanking the decrypted content of a database when it is locked
    (internal/dbpool/wipe.go). Memory erasure is not expressible here: a wiped
    field is an empty one. */
module Wiping {
  import opened Entries
  import opened Wrappers
  import opened Groups
  import opened Saving

  // ---- What "blank" and "same shape" mean -------------------------------------

  predicate BlankValues(vs: seq<Value>) {
    forall i :: 0 <= i < |vs| ==> vs[i].content == ""
  }

  predicate BlankData(ds: seq<CustomData>) {
    forall i :: 0 <= i < |ds| ==> ds[i].value == ""
  }

  // No secret is left in the entry or in any version of its history, however nested.
  predicate BlankEntry(e: Entry) {
    && BlankValues(e.values) && BlankData(e.customData)
    && e.tags == "" && e.overrideURL == "" && e.foreground == "" && e.background == ""
    && (forall i :: 0 <= i < |e.binaries| ==> e.binaries[i] == "")
    && forall h, v | h in e.histories && v in h.entries :: BlankEntry(v)
  }

  predicate BlankForest(f: Forest) {
    match f
    case Nil => true
    case Node(g, sub, next) =>
      && g.name == "" && g.notes == "" && g.lastTopVisible == ""
      && (forall e | e in g.entries :: BlankEntry(e))
      && BlankForest(sub) && BlankForest(next)
  }

  // Equal up to the text of the fields that are wiped.
  predicate SameShapeEntry(e: Entry, e': Entry) {
    && e.uuid == e'.uuid && |e.values| == |e'.values| && |e.customData| == |e'.customData|
    && |e.binaries| == |e'.binaries| && |e.histories| == |e'.histories|
    && (forall i :: 0 <= i < |e.values| ==> e.values[i].(content := "") == e'.values[i].(content := ""))
    && (forall i :: 0 <= i < |e.customData| ==> e.customData[i].key == e'.customData[i].key)
    && forall i :: 0 <= i < |e.histories| ==> SameShapeEntries(e.histories[i].entries, e'.histories[i].entries)
  }

  predicate SameShapeEntries(es: seq<Entry>, es': seq<Entry>) {
    |es| == |es'| && forall i :: 0 <= i < |es| ==> SameShapeEntry(es[i], es'[i])
  }

  predicate SameShape(f: Forest, f': Forest) {
    match f
    case Nil => f'.Nil?
    case Node(g, sub, next) =>
      && f'.Node? && g.uuid == f'.group.uuid && SameShapeEntries(g.entries, f'.group.entries)
      && SameShape(sub, f'.sub) && SameShape(next, f'.next)
  }

  // ---- The loops that do it -------------------------------------------------------

  method WipeCustomData(items: seq<CustomData>) returns (items': seq<CustomData>)
    ensures |items'| == |items| && BlankData(items')
    ensures forall i :: 0 <= i < |items| ==> items'[i].key == items[i].key
  {
    items' := items;
    for i := 0 to |items|
      invariant |items'| == |items|
      invariant forall j :: 0 <= j < i ==> items'[j].value == ""
      invariant forall j :: 0 <= j < |items| ==> items'[j].key == items[j].key
    {
      items' := items'[i := items'[i].(value := "")];
    }
  }

  method WipeValues(vs: seq<Value>) returns (vs': seq<Value>)
    ensures |vs'| == |vs| && BlankValues(vs')
    ensures forall i :: 0 <= i < |vs| ==> vs'[i] == vs[i].(content := "")
  {
    vs' := vs;
    for i := 0 to |vs|
      invariant |vs'| == |vs|
      invariant forall j :: 0 <= j < i ==> vs'[j] == vs[j].(content := "")
      invariant forall j :: i <= j < |vs| ==> vs'[j] == vs[j]
    {
      vs' := vs'[i := vs'[i].(content := "")];
    }
  }

  method WipeEntry(e: Entry) returns (e': Entry)
    ensures BlankEntry(e') && SameShapeEntry(e, e')
    decreases e, 1
  {
    var values := WipeValues(e.values);
    var binaries := e.binaries;
    for i := 0 to |binaries|
      invariant |binaries| == |e.binaries|
      invariant forall j :: 0 <= j < i ==> binaries[j] == ""
    {
      binaries := binaries[i := ""];
    }
    var customData := WipeCustomData(e.customData);
    var histories := e.histories;
    for i := 0 to |histories|
      invariant |histories| == |e.histories|
      invariant forall j :: 0 <= j < i ==> SameShapeEntries(e.histories[j].entries, histories[j].entries)
      invariant forall j, v | 0 <= j < i && v in histories[j].entries :: BlankEntry(v)
      invariant forall j :: i <= j < |histories| ==> histories[j] == e.histories[j]
    {
      var h := WipeEntries(e.histories[i].entries);
      histories := histories[i := History(h)];
    }
    e' := Entry(e.uuid, values, "", "", "", "", binaries, customData, histories);
  }

  method WipeEntries(es: seq<Entry>) returns (es': seq<Entry>)
    ensures SameShapeEntries(es, es') && forall e | e in es' :: BlankEntry(e)
    decreases es, 0
  {
    es' := es;
    for i := 0 to |es|
      invariant |es'| == |es|
      invariant forall j :: 0 <= j < i ==> SameShapeEntry(es[j], es'[j]) && BlankEntry(es'[j])
      invariant forall j :: i <= j < |es| ==> es'[j] == es[j]
    {
      var e := WipeEntry(es[i]);
      es' := es'[i := e];
    }
  }

  method WipeGroups(f: Forest) returns (f': Forest)
    ensures BlankForest(f') && SameShape(f, f')
    decreases f
  {
    if f.Nil? {
      return Nil;
    }
    var entries := WipeEntries(f.group.entries);
    var sub := WipeGroups(f.sub);
    var next := WipeGroups(f.next);
    f' := Node(Group(f.group.uuid, "", "", "", entries), sub, next);
  }

  // Meta is wiped along with the groups.
  predicate BlankContent(c: Content) {
    && (forall i :: 0 <= i < |c.binaries| ==> c.binaries[i] == "")
    && BlankData(c.customData) && c.defaultUserName == ""
    && (c.root.Some? ==> BlankForest(c.root.value.groups))
  }

  predicate SameShapeContent(c: Content, c': Content) {
    && |c.binaries| == |c'.binaries| && |c.customData| == |c'.customData|
    && (c.root.Some? <==> c'.root.Some?)
    && (c.root.Some? ==> SameShape(c.root.value.groups, c'.root.value.groups))
  }

  method WipeContent(c: Content) returns (c': Content)
    ensures BlankContent(c') && SameShapeContent(c, c')
  {
    var binaries := c.binaries;
    for i := 0 to |binaries|
      invariant |binaries| == |c.binaries|
      invariant forall j :: 0 <= j < i ==> binaries[j] == ""
    {
      binaries := binaries[i := ""];
    }
    var customData := WipeCustomData(c.customData);
    var root := c.root;
    if root.Some? {
      var groups := WipeGroups(root.value.groups);
      root := Some(root.value.(groups := groups));
    }
    c' := Content(root, binaries, customData, "");
  }

  // ---- Nothing is left at any depth ----------------------------------------------

  // v is the version reached from e through its history, then that version's
  // history, and so on.
  predicate IsVersion(e: Entry, path: seq<(nat, nat)>, v: Entry)
    decreases path
  {
    if path == [] then e == v
    else
      && path[0].0 < |e.histories| && path[0].1 < |e.histories[path[0].0].entries|
      && IsVersion(e.histories[path[0].0].entries[path[0].1], path[1..], v)
  }

  /** In a blank tree every entry at any group depth, and every version of it
      inside nested histories, reads back empty for every key. */
  lemma {:induction false} BlankReadsEmpty(f: Forest, e: Entry, path: seq<(nat, nat)>, v: Entry, key: string)
    requires BlankForest(f) && e in Flat(f) && IsVersion(e, path, v)
    ensures GetContent(v.values, key) == ""
    decreases f
  {
    if e in f.group.entries {
      BlankVersion(e, path, v);
    } else if e in Flat(f.sub) {
      BlankReadsEmpty(f.sub, e, path, v, key);
    } else {
      BlankReadsEmpty(f.next, e, path, v, key);
    }
  }

  lemma {:induction false} BlankVersion(e: Entry, path: seq<(nat, nat)>, v: Entry)
    requires BlankEntry(e) && IsVersion(e, path, v)
    ensures BlankEntry(v)
    decreases path
  {
    if path != [] {
      var h := e.histories[path[0].0];
      assert h in e.histories && h.entries[path[0].1] in h.entries;
      BlankVersion(h.entries[path[0].1], path[1..], v);
    }
  }

  /** Wiping keeps the shape of the tree: the same entries, UUID by UUID, in the
      same places. */
  lemma {:induction false} ShapeKeepsEntries(f: Forest, f': Forest)
    requires SameShape(f, f')
    ensures SameShapeEntries(Flat(f), Flat(f'))
  {
    if f.Node? {
      ShapeKeepsEntries(f.sub, f'.sub);
      ShapeKeepsEntries(f.next, f'.next);
    }
  }
}
