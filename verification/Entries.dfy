/** KeePass entries and the edits the Secret Service makes to one entry: writing
    fields and archiving the old version in a bounded history
    (internal/secretservice/write.go). */
module Entries {
  import opened Text
  import opened Wrappers

  datatype Value = Value(key: string, content: string, protected: bool)

  datatype CustomData = CustomData(key: string, value: string)

  datatype Entry = Entry(uuid: UUID, values: seq<Value>, tags: string, overrideURL: string,
                         foreground: string, background: string, binaries: seq<string>,
                         customData: seq<CustomData>, histories: seq<History>)

  datatype History = History(entries: seq<Entry>)

  const DB_NAME := "kpxcd:dbname"
  const DB_UUID := "kpxcd:dbuuid"

  type Attributes = map<string, string>

  // ---- Values: an association list read by first match ----------------

  // Index of the first value with this key, or |vs|.
  function IndexOf(vs: seq<Value>, key: string): (i: nat)
    ensures i <= |vs|
    ensures i < |vs| ==> vs[i].key == key
    ensures forall j :: 0 <= j < i ==> vs[j].key != key
  {
    if vs == [] || vs[0].key == key then 0 else 1 + IndexOf(vs[1..], key)
  }

  function Lookup(vs: seq<Value>, key: string): Option<Value> {
    if IndexOf(vs, key) < |vs| then Some(vs[IndexOf(vs, key)]) else None
  }

  function GetContent(vs: seq<Value>, key: string): string {
    match Lookup(vs, key)
    case Some(v) => v.content
    case None => ""
  }

  function SetValue(vs: seq<Value>, v: Value): seq<Value> {
    if IndexOf(vs, v.key) < |vs| then vs[IndexOf(vs, v.key) := v] else vs + [v]
  }

  lemma SetThenLookup(vs: seq<Value>, v: Value, key: string)
    ensures Lookup(SetValue(vs, v), key) == if key == v.key then Some(v) else Lookup(vs, key)
  {
    var vs' := SetValue(vs, v);
    var i, i' := IndexOf(vs, key), IndexOf(vs', key);
    if key == v.key {
      assert vs'[i].key == key;
    } else {
      assert i < |vs| ==> vs'[i] == vs[i];
      assert i' < |vs| ==> vs'[i'].key == key;
    }
  }

  // ---- Writing the fields of an item ----------------------------------

  function Attr(attrs: Attributes, key: string): string {
    if key in attrs then attrs[key] else ""
  }

  function ResolveLabel(itemLabel: string, attrs: Attributes): string {
    if itemLabel != "" then itemLabel
    else if Attr(attrs, "title") != "" then attrs["title"]
    else if Attr(attrs, "application") != "" then attrs["application"]
    else "Secret Service Item"
  }

  // What one attribute writes.
  function ApplyOne(vs: seq<Value>, itemLabel: string, attrs: Attributes, key: string): seq<Value>
    requires key in attrs
  {
    if key == DB_NAME || key == DB_UUID then vs
    else if key == "title" then SetValue(vs, Value("Title", itemLabel, false))
    else SetValue(vs, Value(key, attrs[key], false))
  }

  // What the attributes write when the map is ranged over in this order.
  function ApplyInOrder(vs: seq<Value>, itemLabel: string, attrs: Attributes, order: seq<string>): seq<Value>
    requires forall k | k in order :: k in attrs
  {
    if order == [] then vs
    else ApplyOne(ApplyInOrder(vs, itemLabel, attrs, order[..|order| - 1]), itemLabel, attrs, order[|order| - 1])
  }

  function ApplyFields(vs: seq<Value>, itemLabel: string, attrs: Attributes, secret: string, order: seq<string>): seq<Value>
    requires forall k | k in order :: k in attrs
  {
    var title := ResolveLabel(itemLabel, attrs);
    ApplyInOrder(SetValue(SetValue(vs, Value("Title", title, false)), Value("Password", secret, true)),
                 title, attrs, order)
  }

  // An order in which the attributes may be ranged over.
  ghost predicate IsOrder(order: seq<string>, attrs: Attributes) {
    && (forall k :: k in order <==> k in attrs)
    && forall i, j :: 0 <= i < j < |order| ==> order[i] != order[j]
  }

  // Whether a key is stored under its own name.
  predicate StoredAsIs(key: string) {
    key != DB_NAME && key != DB_UUID && key != "title"
  }

  lemma {:induction false} LookupInOrder(vs: seq<Value>, itemLabel: string, attrs: Attributes, order: seq<string>, key: string)
    requires forall k | k in order :: k in attrs
    requires key != "Title"
    ensures Lookup(ApplyInOrder(vs, itemLabel, attrs, order), key) ==
            if key in order && StoredAsIs(key) then Some(Value(key, attrs[key], false)) else Lookup(vs, key)
  {
    if order != [] {
      var init, last := order[..|order| - 1], order[|order| - 1];
      assert order == init + [last];
      LookupInOrder(vs, itemLabel, attrs, init, key);
      var before := ApplyInOrder(vs, itemLabel, attrs, init);
      if last == "title" {
        SetThenLookup(before, Value("Title", itemLabel, false), key);
      } else if StoredAsIs(last) {
        SetThenLookup(before, Value(last, attrs[last], false), key);
      }
    }
  }

  // The Title is what the later of the two title attributes wrote.
  function TitleInOrder(before: Option<Value>, itemLabel: string, attrs: Attributes, order: seq<string>): Option<Value>
    requires forall k | k in order :: k in attrs
  {
    if order == [] then before
    else if order[|order| - 1] == "title" then Some(Value("Title", itemLabel, false))
    else if order[|order| - 1] == "Title" then Some(Value("Title", attrs["Title"], false))
    else TitleInOrder(before, itemLabel, attrs, order[..|order| - 1])
  }

  lemma {:induction false} TitleLookupInOrder(vs: seq<Value>, itemLabel: string, attrs: Attributes, order: seq<string>)
    requires forall k | k in order :: k in attrs
    ensures Lookup(ApplyInOrder(vs, itemLabel, attrs, order), "Title") ==
            TitleInOrder(Lookup(vs, "Title"), itemLabel, attrs, order)
  {
    if order != [] {
      var init, last := order[..|order| - 1], order[|order| - 1];
      TitleLookupInOrder(vs, itemLabel, attrs, init);
      var before := ApplyInOrder(vs, itemLabel, attrs, init);
      if last == "title" {
        SetThenLookup(before, Value("Title", itemLabel, false), "Title");
      } else if StoredAsIs(last) {
        SetThenLookup(before, Value(last, attrs[last], false), "Title");
      }
    }
  }

  lemma {:induction false} TitleIsOneOf(before: Option<Value>, itemLabel: string, attrs: Attributes, order: seq<string>)
    requires forall k | k in order :: k in attrs
    ensures "title" !in order && "Title" !in order ==> TitleInOrder(before, itemLabel, attrs, order) == before
    ensures "title" in order && "Title" !in order ==>
              TitleInOrder(before, itemLabel, attrs, order) == Some(Value("Title", itemLabel, false))
    ensures "Title" in order && "title" !in order ==>
              TitleInOrder(before, itemLabel, attrs, order) == Some(Value("Title", attrs["Title"], false))
    ensures "Title" in order && "title" in order ==>
              TitleInOrder(before, itemLabel, attrs, order) in
              {Some(Value("Title", itemLabel, false)), Some(Value("Title", attrs["Title"], false))}
  {
    if order != [] {
      var init, last := order[..|order| - 1], order[|order| - 1];
      assert order == init + [last];
      TitleIsOneOf(before, itemLabel, attrs, init);
    }
  }

  // The attributes "title" and "Title" are both given and disagree.
  predicate TitleConflict(itemLabel: string, attrs: Attributes) {
    "title" in attrs && "Title" in attrs && attrs["Title"] != ResolveLabel(itemLabel, attrs)
  }

  /** What every field reads back after the write, for any range order. The
      secret is lost when an attribute is itself called "Password". */
  lemma AppliedLookups(vs: seq<Value>, itemLabel: string, attrs: Attributes, secret: string, order: seq<string>, key: string)
    requires IsOrder(order, attrs)
    ensures var found := Lookup(ApplyFields(vs, itemLabel, attrs, secret, order), key);
            var title := ResolveLabel(itemLabel, attrs);
            if key == "Title" then
              && ("Title" !in attrs ==> found == Some(Value("Title", title, false)))
              && ("Title" in attrs && "title" !in attrs ==> found == Some(Value("Title", attrs["Title"], false)))
              && found in {Some(Value("Title", title, false)), Some(Value("Title", Attr(attrs, "Title"), false))}
            else if key in attrs && StoredAsIs(key) then found == Some(Value(key, attrs[key], false))
            else if key == "Password" then found == Some(Value("Password", secret, true))
            else found == Lookup(vs, key)
  {
    var title := ResolveLabel(itemLabel, attrs);
    var v1, v2 := Value("Title", title, false), Value("Password", secret, true);
    SetThenLookup(vs, v1, key);
    SetThenLookup(SetValue(vs, v1), v2, key);
    var base := SetValue(SetValue(vs, v1), v2);
    if key == "Title" {
      TitleLookupInOrder(base, title, attrs, order);
      TitleIsOneOf(Lookup(base, "Title"), title, attrs, order);
    } else {
      LookupInOrder(base, title, attrs, order, key);
    }
  }

  /** Where the Title comes from, unless an attribute is itself called "Title": the
      item label if there is one, then the first of "title" and "application" that
      is not empty, then a fixed text. */
  lemma TitleOfWritten(vs: seq<Value>, itemLabel: string, attrs: Attributes, secret: string, order: seq<string>)
    requires IsOrder(order, attrs) && "Title" !in attrs
    ensures var title := GetContent(ApplyFields(vs, itemLabel, attrs, secret, order), "Title");
            && (itemLabel != "" ==> title == itemLabel)
            && (itemLabel == "" && "title" in attrs && attrs["title"] != "" ==> title == attrs["title"])
            && (itemLabel == "" && ("title" in attrs ==> attrs["title"] == "") ==>
                  && ("application" in attrs && attrs["application"] != "" ==> title == attrs["application"])
                  && (("application" in attrs ==> attrs["application"] == "") ==> title == "Secret Service Item"))
  {
    AppliedLookups(vs, itemLabel, attrs, secret, order, "Title");
  }

  ghost function Enumerate(keys: set<string>): (order: seq<string>)
    ensures forall k :: k in order <==> k in keys
    ensures forall i, j :: 0 <= i < j < |order| ==> order[i] != order[j]
  {
    if keys == {} then []
    else var k :| k in keys; [k] + Enumerate(keys - {k})
  }

  ghost function EndingIn(attrs: Attributes, last: string): (order: seq<string>)
    requires last in attrs
    ensures IsOrder(order, attrs) && order != [] && order[|order| - 1] == last
  {
    Enumerate(attrs.Keys - {last}) + [last]
  }

  ghost predicate SameLookups(vs1: seq<Value>, vs2: seq<Value>) {
    forall key :: Lookup(vs1, key) == Lookup(vs2, key)
  }

  lemma OrderIrrelevant(vs: seq<Value>, itemLabel: string, attrs: Attributes, secret: string, o1: seq<string>, o2: seq<string>)
    requires !TitleConflict(itemLabel, attrs) && IsOrder(o1, attrs) && IsOrder(o2, attrs)
    ensures SameLookups(ApplyFields(vs, itemLabel, attrs, secret, o1), ApplyFields(vs, itemLabel, attrs, secret, o2))
  {
    forall key
      ensures Lookup(ApplyFields(vs, itemLabel, attrs, secret, o1), key) ==
              Lookup(ApplyFields(vs, itemLabel, attrs, secret, o2), key)
    {
      AppliedLookups(vs, itemLabel, attrs, secret, o1, key);
      AppliedLookups(vs, itemLabel, attrs, secret, o2, key);
    }
  }

  lemma OrdersDisagree(vs: seq<Value>, itemLabel: string, attrs: Attributes, secret: string)
    returns (o1: seq<string>, o2: seq<string>)
    requires TitleConflict(itemLabel, attrs)
    ensures IsOrder(o1, attrs) && IsOrder(o2, attrs)
    ensures !SameLookups(ApplyFields(vs, itemLabel, attrs, secret, o1), ApplyFields(vs, itemLabel, attrs, secret, o2))
  {
    o1 := EndingIn(attrs, "Title");
    o2 := EndingIn(attrs, "title");
    var title := ResolveLabel(itemLabel, attrs);
    var base := SetValue(SetValue(vs, Value("Title", title, false)), Value("Password", secret, true));
    TitleLookupInOrder(base, title, attrs, o1);
    TitleLookupInOrder(base, title, attrs, o2);
    assert Lookup(ApplyInOrder(base, title, attrs, o1), "Title") != Lookup(ApplyInOrder(base, title, attrs, o2), "Title");
  }

  /** Go ranges over a map in any order. All orders give the same lookups iff
      the attributes do not contain both "title" and a "Title" that differs
      from the resolved item label. */
  lemma OrderIrrelevantIff(vs: seq<Value>, itemLabel: string, attrs: Attributes, secret: string)
    ensures (forall o1, o2 | IsOrder(o1, attrs) && IsOrder(o2, attrs) ::
               SameLookups(ApplyFields(vs, itemLabel, attrs, secret, o1), ApplyFields(vs, itemLabel, attrs, secret, o2)))
            <==> !TitleConflict(itemLabel, attrs)
  {
    if TitleConflict(itemLabel, attrs) {
      var o1, o2 := OrdersDisagree(vs, itemLabel, attrs, secret);
    } else {
      forall o1, o2 | IsOrder(o1, attrs) && IsOrder(o2, attrs)
        ensures SameLookups(ApplyFields(vs, itemLabel, attrs, secret, o1), ApplyFields(vs, itemLabel, attrs, secret, o2))
      {
        OrderIrrelevant(vs, itemLabel, attrs, secret, o1, o2);
      }
    }
  }

  // ---- History ---------------------------------------------------------

  function ValuesSize(vs: seq<Value>): nat {
    if vs == [] then 0 else |vs[0].key| + |vs[0].content| + ValuesSize(vs[1..])
  }

  function HistorySize(es: seq<Entry>): nat {
    if es == [] then 0
    else ValuesSize(es[0].values) + |es[0].tags| + |es[0].overrideURL| + HistorySize(es[1..])
  }

  /** The size of a history is the number of characters in the keys and contents of
      all its values, and in all its tags and override URLs. */
  lemma {:induction false} SizesAddUp(es: seq<Entry>, e: Entry, vs: seq<Value>, v: Value)
    ensures HistorySize([]) == 0 && ValuesSize([]) == 0
    ensures HistorySize(es + [e]) == HistorySize(es) + ValuesSize(e.values) + |e.tags| + |e.overrideURL|
    ensures ValuesSize(vs + [v]) == ValuesSize(vs) + |v.key| + |v.content|
    decreases |es| + |vs|
  {
    if es != [] {
      assert (es + [e])[1..] == es[1..] + [e];
      SizesAddUp(es[1..], e, [], v);
    } else {
      assert es + [e] == [e];
    }
    if vs != [] {
      assert (vs + [v])[1..] == vs[1..] + [v];
      SizesAddUp([], e, vs[1..], v);
    } else {
      assert vs + [v] == [v];
    }
  }

  predicate Fits(es: seq<Entry>, maxItems: nat, maxSize: nat) {
    |es| <= maxItems && (HistorySize(es) <= maxSize || |es| <= 1)
  }

  // The longest suffix that fits.
  function Trimmed(es: seq<Entry>, maxItems: nat, maxSize: nat): seq<Entry> {
    if es == [] || Fits(es, maxItems, maxSize) then es else Trimmed(es[1..], maxItems, maxSize)
  }

  /** Trimming returns a suffix that fits, and no longer suffix does. */
  lemma {:induction false} TrimmedIsLongestFit(es: seq<Entry>, maxItems: nat, maxSize: nat)
    ensures var r := Trimmed(es, maxItems, maxSize);
            && |r| <= |es| && r == es[|es| - |r|..]
            && Fits(r, maxItems, maxSize)
            && forall k :: 0 <= k < |es| - |r| ==> !Fits(es[k..], maxItems, maxSize)
  {
    if es != [] && !Fits(es, maxItems, maxSize) {
      TrimmedIsLongestFit(es[1..], maxItems, maxSize);
      var r := Trimmed(es, maxItems, maxSize);
      assert es[1..][|es| - 1 - |r|..] == es[|es| - |r|..];
      forall k | 0 <= k < |es| - |r|
        ensures !Fits(es[k..], maxItems, maxSize)
      {
        assert k == 0 ==> es[k..] == es;
        assert k > 0 ==> es[k..] == es[1..][k - 1..];
      }
    }
  }

  // What appendHistory archives: a clone under the UUID it drew, without the
  // entry's own history.
  function Archived(e: Entry, drawn: UUID): Entry {
    e.(uuid := drawn, histories := [])
  }

  function WithHistory(e: Entry, drawn: UUID, maxItems: nat, maxSize: nat): Entry {
    var h := FirstHistory(e) + [Archived(e, drawn)];
    e.(histories := [History(Trimmed(h, maxItems, maxSize))] + (if e.histories == [] then [] else e.histories[1..]))
  }

  // A new secret, and the UUID its call draws for the version it archives.
  datatype NewSecret = NewSecret(secret: string, drawn: UUID)

  function SetSecret(e: Entry, u: NewSecret, maxItems: nat, maxSize: nat): Entry {
    var e' := WithHistory(e, u.drawn, maxItems, maxSize);
    e'.(values := SetValue(e'.values, Value("Password", u.secret, true)))
  }

  function AfterSecrets(e: Entry, us: seq<NewSecret>, maxItems: nat, maxSize: nat): Entry {
    if us == [] then e
    else SetSecret(AfterSecrets(e, us[..|us| - 1], maxItems, maxSize), us[|us| - 1], maxItems, maxSize)
  }

  function ValuesAfter(vs: seq<Value>, us: seq<NewSecret>): seq<Value> {
    if us == [] then vs
    else SetValue(ValuesAfter(vs, us[..|us| - 1]), Value("Password", us[|us| - 1].secret, true))
  }

  // The entry as these updates leave it, leaving its history aside.
  function Version(e: Entry, us: seq<NewSecret>): Entry {
    e.(values := ValuesAfter(e.values, us), histories := [])
  }

  // The versions that successive updates replace, oldest first.
  function Versions(e: Entry, us: seq<NewSecret>): (r: seq<Entry>)
    ensures |r| == |us|
  {
    if us == [] then [] else Versions(e, us[..|us| - 1]) + [Version(e, us[..|us| - 1])]
  }

  lemma {:induction false} TrimmedKeepsLast(es: seq<Entry>, e: Entry, maxItems: nat, maxSize: nat)
    requires maxItems > 0
    ensures var r := Trimmed(es + [e], maxItems, maxSize);
            && r != [] && r[|r| - 1] == e
            && |r| - 1 <= |es| && r[..|r| - 1] == es[|es| - (|r| - 1)..]
  {
    var all := es + [e];
    TrimmedIsLongestFit(all, maxItems, maxSize);
    assert all[|es|..] == [e] && Fits([e], maxItems, maxSize);
  }

  lemma TrimmedKeepsMost(es: seq<Entry>, e: Entry, maxItems: nat, maxSize: nat)
    requires maxItems > 0
    ensures var n := |Trimmed(es + [e], maxItems, maxSize)|;
            0 < n <= |es| ==> n == maxItems || HistorySize(es[|es| - n..] + [e]) > maxSize
  {
    TrimmedIsLongestFit(es + [e], maxItems, maxSize);
    var n := |Trimmed(es + [e], maxItems, maxSize)|;
    if 0 < n <= |es| {
      assert (es + [e])[|es| - n..] == es[|es| - n..] + [e];
      assert !Fits((es + [e])[|es| - n..], maxItems, maxSize);
    }
  }

  /** Archiving changes nothing but the histories, and in the first one it puts the
      entry as it stands, without its histories and under the drawn UUID, behind
      some of the latest versions archived before: as many as the limits allow. */
  lemma ArchivingKeepsVersion(e: Entry, drawn: UUID, maxItems: nat, maxSize: nat)
    requires maxItems > 0
    ensures var e' := WithHistory(e, drawn, maxItems, maxSize);
            && e'.(histories := e.histories) == e && e'.histories != []
            && (e.histories != [] ==> e'.histories[1..] == e.histories[1..])
            && KeepsVersion(FirstHistory(e), e, drawn, FirstHistory(e'), maxItems, maxSize)
  {
    var h := FirstHistory(e);
    TrimmedKeepsLast(h, Archived(e, drawn), maxItems, maxSize);
    TrimmedIsLongestFit(h + [Archived(e, drawn)], maxItems, maxSize);
    TrimmedKeepsMost(h, Archived(e, drawn), maxItems, maxSize);
    hide Trimmed, HistorySize;
    assert FirstHistory(WithHistory(e, drawn, maxItems, maxSize)) == Trimmed(h + [Archived(e, drawn)], maxItems, maxSize);
  }

  // h' ends in the version e, under the UUID drawn for it, after a suffix of h; it
  // keeps within the limits, and one version more would not.
  predicate KeepsVersion(h: seq<Entry>, e: Entry, drawn: UUID, h': seq<Entry>, maxItems: nat, maxSize: nat) {
    && h' != [] && |h'| <= |h| + 1
    && var v, kept := h'[|h'| - 1], |h'| - 1;
       && v.uuid == drawn && v.histories == [] && v.(uuid := e.uuid) == e.(histories := [])
       && h'[..kept] == h[|h| - kept..]
       && |h'| <= maxItems && (HistorySize(h') <= maxSize || |h'| == 1)
       && (kept < |h| ==> |h'| == maxItems || HistorySize(h[|h| - kept - 1..] + [v]) > maxSize)
  }

  function LastOf(es: seq<Entry>, n: nat): seq<Entry> {
    if |es| <= n then es else es[|es| - n..]
  }

  function FirstHistory(e: Entry): seq<Entry> {
    if e.histories == [] then [] else e.histories[0].entries
  }

  lemma {:induction false} TrimToItems(es: seq<Entry>, maxItems: nat, maxSize: nat)
    requires HistorySize(LastOf(es, maxItems)) <= maxSize
    ensures Trimmed(es, maxItems, maxSize) == LastOf(es, maxItems)
  {
    if |es| > maxItems {
      TrimToItems(es[1..], maxItems, maxSize);
      assert LastOf(es[1..], maxItems) == LastOf(es, maxItems);
    }
  }

  lemma LastOfAppend(es: seq<Entry>, e: Entry, n: nat)
    requires n > 0
    ensures LastOf(LastOf(es, n) + [e], n) == LastOf(es + [e], n)
  {
  }

  // The last maxItems replaced versions never add up to more than maxSize.
  predicate SizeNotReached(e: Entry, us: seq<NewSecret>, maxItems: nat, maxSize: nat) {
    us == [] ||
    (&& SizeNotReached(e, us[..|us| - 1], maxItems, maxSize)
     && HistorySize(LastOf(Versions(e, us), maxItems)) <= maxSize)
  }

  // The versions under the UUIDs their clones drew.
  function Keyed(es: seq<Entry>, us: seq<NewSecret>): (r: seq<Entry>)
    requires |es| == |us|
    ensures |r| == |es|
  {
    seq(|es|, i requires 0 <= i < |es| => es[i].(uuid := us[i].drawn))
  }

  lemma {:induction false} SizeIgnoresKeys(es: seq<Entry>, us: seq<NewSecret>)
    requires |es| == |us|
    ensures HistorySize(Keyed(es, us)) == HistorySize(es)
  {
    if es != [] {
      assert Keyed(es, us)[1..] == Keyed(es[1..], us[1..]);
      SizeIgnoresKeys(es[1..], us[1..]);
    }
  }

  lemma LastKeyed(es: seq<Entry>, us: seq<NewSecret>, n: nat)
    requires |es| == |us|
    ensures var k := |us| - |LastOf(es, n)|;
            LastOf(Keyed(es, us), n) == Keyed(LastOf(es, n), us[k..])
  {
  }

  lemma {:induction false} SecretsKeepTheRest(e: Entry, us: seq<NewSecret>, maxItems: nat, maxSize: nat)
    ensures AfterSecrets(e, us, maxItems, maxSize).(histories := []) == Version(e, us)
  {
    if us != [] {
      SecretsKeepTheRest(e, us[..|us| - 1], maxItems, maxSize);
    }
  }

  lemma HistoryStep(now: Entry, u: NewSecret, before: seq<Entry>, maxItems: nat, maxSize: nat)
    requires maxItems > 0 && FirstHistory(now) == LastOf(before, maxItems)
    requires HistorySize(LastOf(before + [Archived(now, u.drawn)], maxItems)) <= maxSize
    ensures FirstHistory(SetSecret(now, u, maxItems, maxSize)) == LastOf(before + [Archived(now, u.drawn)], maxItems)
  {
    LastOfAppend(before, Archived(now, u.drawn), maxItems);
    TrimToItems(FirstHistory(now) + [Archived(now, u.drawn)], maxItems, maxSize);
  }

  lemma KeyedStep(es: seq<Entry>, e: Entry, us: seq<NewSecret>)
    requires us != [] && |es| == |us| - 1
    ensures Keyed(es + [e], us) == Keyed(es, us[..|us| - 1]) + [e.(uuid := us[|us| - 1].drawn)]
  {
  }

  lemma LastKeyedSize(es: seq<Entry>, us: seq<NewSecret>, n: nat)
    requires |es| == |us|
    ensures HistorySize(LastOf(Keyed(es, us), n)) == HistorySize(LastOf(es, n))
  {
    LastKeyed(es, us, n);
    SizeIgnoresKeys(LastOf(es, n), us[|us| - |LastOf(es, n)|..]);
  }

  lemma {:induction false} HistoryIsKeyedVersions(e: Entry, us: seq<NewSecret>, maxItems: nat, maxSize: nat)
    requires FirstHistory(e) == [] && maxItems > 0 && SizeNotReached(e, us, maxItems, maxSize)
    ensures FirstHistory(AfterSecrets(e, us, maxItems, maxSize)) == LastOf(Keyed(Versions(e, us), us), maxItems)
  {
    if us != [] {
      hide SetSecret, LastOf, HistorySize, Keyed;
      var init, u := us[..|us| - 1], us[|us| - 1];
      HistoryIsKeyedVersions(e, init, maxItems, maxSize);
      SecretsKeepTheRest(e, init, maxItems, maxSize);
      var now := AfterSecrets(e, init, maxItems, maxSize);
      KeyedStep(Versions(e, init), Version(e, init), us);
      assert Archived(now, u.drawn) == Version(e, init).(uuid := u.drawn);
      LastKeyedSize(Versions(e, us), us, maxItems);
      HistoryStep(now, u, Keyed(Versions(e, init), init), maxItems, maxSize);
    }
  }

  lemma LastKeyedAt(es: seq<Entry>, us: seq<NewSecret>, n: nat, own: UUID)
    requires |es| == |us| && forall i :: 0 <= i < |es| ==> es[i].uuid == own
    ensures var h, kept := LastOf(Keyed(es, us), n), LastOf(es, n);
            && |h| == |kept|
            && (forall i :: 0 <= i < |h| ==> h[i].(uuid := own) == kept[i])
            && (forall i :: 0 <= i < |h| ==> h[i].uuid == us[|us| - |h| + i].drawn)
            && ((forall u | u in us :: u.drawn != own) ==> forall i :: 0 <= i < |h| ==> h[i].uuid != own)
  {
    var h, kept := LastOf(Keyed(es, us), n), LastOf(es, n);
    var k := |us| - |h|;
    forall i | 0 <= i < |h|
      ensures h[i].(uuid := own) == kept[i] && h[i].uuid == us[k + i].drawn
    {
      assert kept[i] == es[k + i] && h[i] == es[k + i].(uuid := us[k + i].drawn);
    }
  }

  /** After n secret updates of an entry without history, while the size limit is
      not reached, its history is the last min(n, maxItems) replaced versions,
      oldest first, each under the UUID its clone drew; if no clone drew the
      entry's own UUID, no archived version carries it. */
  lemma HistoryKeepsLastVersions(e: Entry, us: seq<NewSecret>, maxItems: nat, maxSize: nat)
    requires FirstHistory(e) == [] && maxItems > 0 && SizeNotReached(e, us, maxItems, maxSize)
    ensures var h, kept := FirstHistory(AfterSecrets(e, us, maxItems, maxSize)), LastOf(Versions(e, us), maxItems);
            && |h| == |kept|
            && (forall i :: 0 <= i < |h| ==> h[i].(uuid := e.uuid) == kept[i])
            && (forall i :: 0 <= i < |h| ==> h[i].uuid == us[|us| - |h| + i].drawn)
            && ((forall u | u in us :: u.drawn != e.uuid) ==> forall i :: 0 <= i < |h| ==> h[i].uuid != e.uuid)
  {
    hide AfterSecrets, Versions, SizeNotReached;
    HistoryIsKeyedVersions(e, us, maxItems, maxSize);
    VersionsKeepKey(e, us);
    LastKeyedAt(Versions(e, us), us, maxItems, e.uuid);
  }

  lemma {:induction false} VersionsKeepKey(e: Entry, us: seq<NewSecret>)
    ensures forall i :: 0 <= i < |us| ==> Versions(e, us)[i].uuid == e.uuid
  {
    if us != [] {
      VersionsKeepKey(e, us[..|us| - 1]);
    }
  }

  // ---- Copies -----------------------------------------------------------

  // The UUIDs a clone draws, by the place they are drawn for. gokeepasslib's Clone
  // draws one for every group, every entry and every version in a history.
  type Draw = seq<nat> -> UUID

  function ClonedEntry(e: Entry, draw: Draw, at: seq<nat>): Entry
    decreases e
  {
    e.(uuid := draw(at),
       histories := seq(|e.histories|, h requires 0 <= h < |e.histories| =>
                          History(ClonedEntries(e.histories[h].entries, draw, at + [h]))))
  }

  function ClonedEntries(es: seq<Entry>, draw: Draw, at: seq<nat>): (r: seq<Entry>)
    ensures |r| == |es|
    decreases es
  {
    seq(|es|, i requires 0 <= i < |es| => ClonedEntry(es[i], draw, at + [i]))
  }

  // A clone of a clone is a clone of the original.
  lemma {:induction false} CloneTwice(e: Entry, d1: Draw, d2: Draw, at1: seq<nat>, at2: seq<nat>)
    ensures ClonedEntry(ClonedEntry(e, d1, at1), d2, at2) == ClonedEntry(e, d2, at2)
    decreases e
  {
    var e1 := ClonedEntry(e, d1, at1);
    forall h | 0 <= h < |e.histories|
      ensures ClonedEntries(e1.histories[h].entries, d2, at2 + [h]) == ClonedEntries(e.histories[h].entries, d2, at2 + [h])
    {
      CloneAllTwice(e.histories[h].entries, d1, d2, at1 + [h], at2 + [h]);
    }
  }

  lemma {:induction false} CloneAllTwice(es: seq<Entry>, d1: Draw, d2: Draw, at1: seq<nat>, at2: seq<nat>)
    ensures ClonedEntries(ClonedEntries(es, d1, at1), d2, at2) == ClonedEntries(es, d2, at2)
    decreases es
  {
    forall i | 0 <= i < |es|
      ensures ClonedEntries(ClonedEntries(es, d1, at1), d2, at2)[i] == ClonedEntries(es, d2, at2)[i]
    {
      CloneTwice(es[i], d1, d2, at1 + [i], at2 + [i]);
    }
  }

  function NoKey(at: seq<nat>): UUID {
    ZERO
  }

  // Everything about the entries except which UUIDs they and their versions have.
  function Unkeyed(es: seq<Entry>): seq<Entry> {
    seq(|es|, i requires 0 <= i < |es| => ClonedEntry(es[i], NoKey, []))
  }

  predicate SameButKeys(es: seq<Entry>, es': seq<Entry>) {
    Unkeyed(es) == Unkeyed(es')
  }

  // ---- The entry the daemon edits in place -----------------------------

  // HistoryMaxItems and HistoryMaxSize of the database, when it has metadata.
  datatype Limits = NoMeta | Meta(historyMaxItems: int, historyMaxSize: int)

  function MaxItems(l: Limits): nat {
    if l.Meta? && l.historyMaxItems > 0 then l.historyMaxItems else 10
  }

  function MaxSize(l: Limits): nat {
    if l.Meta? && l.historyMaxSize > 0 then l.historyMaxSize else 6 * 1024 * 1024
  }

  /** A new secret keeps the replaced version and touches no other field, within the
      limits of the database, or 10 versions and 6 MiB where it sets none. */
  lemma SecretKeepsVersion(e: Entry, u: NewSecret, l: Limits)
    ensures var e' := SetSecret(e, u, MaxItems(l), MaxSize(l));
            var items := if l.Meta? && l.historyMaxItems > 0 then l.historyMaxItems else 10;
            var size := if l.Meta? && l.historyMaxSize > 0 then l.historyMaxSize else 6291456;
            && e'.(values := e.values, histories := e.histories) == e
            && KeepsVersion(FirstHistory(e), e, u.drawn, FirstHistory(e'), items, size)
            && forall key :: Lookup(e'.values, key) ==
                 if key == "Password" then Some(Value("Password", u.secret, true)) else Lookup(e.values, key)
  {
    ArchivingKeepsVersion(e, u.drawn, MaxItems(l), MaxSize(l));
    forall key
      ensures Lookup(SetValue(e.values, Value("Password", u.secret, true)), key) ==
              if key == "Password" then Some(Value("Password", u.secret, true)) else Lookup(e.values, key)
    {
      SetThenLookup(e.values, Value("Password", u.secret, true), key);
    }
  }

  method MeasureHistory(es: seq<Entry>) returns (size: nat)
    ensures size == HistorySize(es)
  {
    size := 0;
    for i := 0 to |es|
      invariant size + HistorySize(es[i..]) == HistorySize(es)
    {
      var vs := es[i].values;
      ghost var before := size;
      for j := 0 to |vs|
        invariant size + ValuesSize(vs[j..]) == before + ValuesSize(vs)
      {
        size := size + |vs[j].key| + |vs[j].content|;
        assert vs[j..][1..] == vs[j + 1..];
      }
      size := size + |es[i].tags| + |es[i].overrideURL|;
      assert es[i..][1..] == es[i + 1..];
    }
  }

  // A pointer to an entry inside the database: its two mutable fields.
  class LiveEntry {
    const original: Entry
    var values: seq<Value>
    var histories: seq<History>

    constructor (e: Entry)
      ensures View() == e && original == e
    {
      original, values, histories := e, e.values, e.histories;
    }

    function View(): Entry
      reads this
    {
      original.(values := values, histories := histories)
    }

    method SetEntryValue(v: Value)
      modifies this`values
      ensures values == SetValue(old(values), v)
    {
      var idx := IndexOf(values, v.key);
      if idx < |values| {
        values := values[idx := v];
      } else {
        values := values + [v];
      }
    }

    method ApplyEntryFields(itemLabel: string, attrs: Attributes, secret: string)
      modifies this`values
      ensures exists order :: IsOrder(order, attrs) && values == ApplyFields(old(values), itemLabel, attrs, secret, order)
    {
      var title := itemLabel;
      if title == "" {
        title := Attr(attrs, "title");
      }
      if title == "" {
        title := Attr(attrs, "application");
      }
      if title == "" {
        title := "Secret Service Item";
      }
      SetEntryValue(Value("Title", title, false));
      SetEntryValue(Value("Password", secret, true));
      ghost var base, order: seq<string> := values, [];
      var rest := attrs.Keys;
      while rest != {}
        invariant rest <= attrs.Keys
        invariant forall k :: k in order <==> k in attrs && k !in rest
        invariant forall i, j :: 0 <= i < j < |order| ==> order[i] != order[j]
        invariant values == ApplyInOrder(base, title, attrs, order)
        decreases rest
      {
        var key :| key in rest;
        ghost var order' := order + [key];
        assert order'[..|order|] == order;
        if key == DB_NAME || key == DB_UUID {
        } else if key == "title" {
          SetEntryValue(Value("Title", title, false));
        } else {
          SetEntryValue(Value(key, attrs[key], false));
        }
        order, rest := order', rest - {key};
      }
      assert IsOrder(order, attrs);
    }

    method AppendHistory(drawn: UUID, limits: Limits)
      modifies this`histories
      ensures View() == WithHistory(old(View()), drawn, MaxItems(limits), MaxSize(limits))
    {
      var clone := Archived(View(), drawn);
      if histories == [] {
        histories := [History([])];
      }
      histories := histories[0 := History(histories[0].entries + [clone])];
      TrimHistory(limits);
    }

    method TrimHistory(limits: Limits)
      modifies this`histories
      ensures histories == if old(histories) == [] then []
                           else old(histories)[0 := History(Trimmed(old(histories)[0].entries, MaxItems(limits), MaxSize(limits)))]
    {
      if histories == [] {
        return;
      }
      if histories[0].entries == [] {
        assert histories[0 := History([])] == histories;
        return;
      }
      var maxItems, maxSize := MaxItems(limits), MaxSize(limits);
      var h := histories[0].entries;
      while |h| > maxItems
        invariant Trimmed(h, maxItems, maxSize) == Trimmed(histories[0].entries, maxItems, maxSize)
      {
        h := h[1..];
      }
      var size := MeasureHistory(h);
      while size > maxSize && |h| > 1
        invariant histories == old(histories) && |h| <= maxItems && size == HistorySize(h)
        invariant Trimmed(h, maxItems, maxSize) == Trimmed(histories[0].entries, maxItems, maxSize)
      {
        h := h[1..];
        size := MeasureHistory(h);
      }
      histories := histories[0 := History(h)];
    }

    method SetSecretValue(u: NewSecret, limits: Limits)
      modifies this
      ensures View() == SetSecret(old(View()), u, MaxItems(limits), MaxSize(limits))
    {
      AppendHistory(u.drawn, limits);
      SetEntryValue(Value("Password", u.secret, true));
    }
  }
}
