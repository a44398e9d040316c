/** Secret Service items: the two separately written attribute matchers, and the
    create-or-replace operation with its promise that replacing the same
    attributes again finds the same item
    (internal/secretservice/collection.go, write.go, attributes.go, item.go). */
module Items {
  import opened Text
  import opened Wrappers
  import opened Entries
  import opened Groups

  const CUSTOM := "custom:"

  // What of the open database the matchers and edits depend on.
  datatype Db = Db(name: string, uuid: string, bin: UUID, limits: Limits)

  // ---- Matching ----------------------------------------------------------

  // matchExactEntryAttribute: whether the key is there, and if so whether it matches.
  function ExactMatch(vs: seq<Value>, key: string, value: string): Option<bool> {
    match Lookup(vs, key)
    case Some(v) => Some(EqualFold(v.content, value))
    case None => None
  }

  predicate ExactOrLegacy(vs: seq<Value>, key: string, value: string, legacy: string) {
    match ExactMatch(vs, key, value)
    case Some(matched) => matched
    case None => EqualFold(GetContent(vs, legacy), value)
  }

  predicate IsExact(vs: seq<Value>, key: string, value: string) {
    ExactMatch(vs, key, value) == Some(true)
  }

  // matchAttributesForWrite for one attribute.
  predicate WriteMatches(e: Entry, db: Db, key: string, value: string) {
    if key == DB_NAME then EqualFold(db.name, value)
    else if key == DB_UUID then EqualFold(db.uuid, value)
    else if key == "title" then EqualFold(GetContent(e.values, "Title"), value)
    else if key in {"UserName", "URL", "Notes"} then EqualFold(GetContent(e.values, key), value)
    else if key == "username" then ExactOrLegacy(e.values, key, value, "UserName")
    else if key == "url" then ExactOrLegacy(e.values, key, value, "URL")
    else IsExact(e.values, key, value)
  }

  // matchAttribute, which searches use.
  ghost predicate ReadMatches(e: Entry, db: Db, key: string, value: string) {
    if key == "title" then
      EqualFold(GetContent(e.values, "Title"), value) || Contains(Lower(GetContent(e.values, "Title")), Lower(value))
    else if key == "UserName" then EqualFold(GetContent(e.values, "UserName"), value)
    else if key == "username" then ExactOrLegacy(e.values, key, value, "UserName")
    else if key == "URL" then
      EqualFold(GetContent(e.values, "URL"), value) || Contains(Lower(GetContent(e.values, "URL")), Lower(value))
    else if key == "url" then ExactOrLegacy(e.values, key, value, "URL")
    else if key == "Notes" then Contains(Lower(GetContent(e.values, "Notes")), Lower(value))
    else if key == DB_NAME then EqualFold(db.name, value)
    else if key == DB_UUID then EqualFold(db.uuid, value)
    else if HasPrefix(key, CUSTOM) then
      exists v :: v in e.values && v.key == key[|CUSTOM|..] && EqualFold(v.content, value)
    else IsExact(e.values, key, value)
  }

  predicate MatchForWrite(e: Entry, db: Db, attrs: Attributes) {
    forall key | key in attrs :: WriteMatches(e, db, key, attrs[key])
  }

  ghost predicate MatchForRead(e: Entry, db: Db, attrs: Attributes) {
    forall key | key in attrs :: ReadMatches(e, db, key, attrs[key])
  }

  function Matcher(db: Db, attrs: Attributes): Entry -> bool {
    (e: Entry) => MatchForWrite(e, db, attrs)
  }

  // Collection.SearchItems, as the list of matching entries.
  ghost function SearchItems(es: seq<Entry>, db: Db, attrs: Attributes): seq<Entry> {
    if es == [] then []
    else (if MatchForRead(es[0], db, attrs) then [es[0]] else []) + SearchItems(es[1..], db, attrs)
  }

  lemma {:induction false} SearchReturnsExactlyTheMatches(es: seq<Entry>, db: Db, attrs: Attributes, e: Entry)
    ensures e in SearchItems(es, db, attrs) <==> e in es && MatchForRead(e, db, attrs)
  {
    if es != [] {
      SearchReturnsExactlyTheMatches(es[1..], db, attrs, e);
      assert es == [es[0]] + es[1..];
    }
  }

  predicate NoCustomKey(attrs: Attributes) {
    forall key | key in attrs :: !HasPrefix(key, CUSTOM)
  }

  lemma KeyWriteImpliesRead(e: Entry, db: Db, key: string, value: string)
    requires !HasPrefix(key, CUSTOM) && WriteMatches(e, db, key, value)
    ensures ReadMatches(e, db, key, value)
  {
    if key in {"title", "URL", "Notes"} {
      EqualFoldContains(GetContent(e.values, if key == "title" then "Title" else key), value);
    }
  }

  /** What the write matcher accepts the read matcher accepts, unless an
      attribute key starts with "custom:". */
  lemma WriteMatchImpliesReadMatch(e: Entry, db: Db, attrs: Attributes)
    requires NoCustomKey(attrs) && MatchForWrite(e, db, attrs)
    ensures MatchForRead(e, db, attrs)
  {
    forall key | key in attrs
      ensures ReadMatches(e, db, key, attrs[key])
    {
      KeyWriteImpliesRead(e, db, key, attrs[key]);
    }
  }

  /** For attributes without a "custom:" key the entry that replace picks is also
      among the search results. */
  lemma PickedEntryIsFound(f: Forest, db: Db, attrs: Attributes, expose: string)
    requires NoCustomKey(attrs) && FindVisible(f, Matcher(db, attrs), db.bin, expose, false).Some?
    ensures var p := FindVisible(f, Matcher(db, attrs), db.bin, expose, false).value;
            && HasEntry(f, p) && MatchForWrite(EntryAt(f, p), db, attrs)
            && EntryAt(f, p) in SearchItems(VisibleEntries(f, db.bin, expose), db, attrs)
  {
    var m := Matcher(db, attrs);
    FindsFirstVisibleMatch(f, m, db.bin, expose);
    var e := EntryAt(f, FindVisible(f, m, db.bin, expose, false).value);
    WriteMatchImpliesReadMatch(e, db, attrs);
    SearchReturnsExactlyTheMatches(VisibleEntries(f, db.bin, expose), db, attrs, e);
  }

  // ---- What the two matchers mean, in terms of the fields ----------------------

  // Value i is the one a key reads; no value is.
  predicate Reads(vs: seq<Value>, key: string, i: nat) {
    i < |vs| && vs[i].key == key && forall j :: 0 <= j < i ==> vs[j].key != key
  }

  predicate Missing(vs: seq<Value>, key: string) {
    forall j :: 0 <= j < |vs| ==> vs[j].key != key
  }

  // The field is there with this text up to case, or with this text somewhere in it.
  ghost predicate Holds(vs: seq<Value>, key: string, text: string) {
    exists i: nat :: Reads(vs, key, i) && SameText(vs[i].content, text)
  }

  ghost predicate HoldsWithin(vs: seq<Value>, key: string, text: string) {
    exists i: nat, at: nat :: Reads(vs, key, i) && StandsAt(vs[i].content, text, at)
  }

  // A missing field counts as an empty one.
  ghost predicate HoldsOrEmpty(vs: seq<Value>, key: string, text: string) {
    Holds(vs, key, text) || (Missing(vs, key) && text == "")
  }

  ghost predicate WithinOrEmpty(vs: seq<Value>, key: string, text: string) {
    HoldsWithin(vs, key, text) || (Missing(vs, key) && text == "")
  }

  ghost predicate HoldsOrLegacy(vs: seq<Value>, key: string, legacy: string, text: string) {
    Holds(vs, key, text) || (Missing(vs, key) && HoldsOrEmpty(vs, legacy, text))
  }

  // What an attribute asks of an entry when it is to be replaced, and when it is
  // searched for.
  ghost predicate WriteAsks(vs: seq<Value>, db: Db, key: string, text: string) {
    if key == "kpxcd:dbname" then SameText(db.name, text)
    else if key == "kpxcd:dbuuid" then SameText(db.uuid, text)
    else if key == "title" then HoldsOrEmpty(vs, "Title", text)
    else if key in {"UserName", "URL", "Notes"} then HoldsOrEmpty(vs, key, text)
    else if key == "username" then HoldsOrLegacy(vs, "username", "UserName", text)
    else if key == "url" then HoldsOrLegacy(vs, "url", "URL", text)
    else Holds(vs, key, text)
  }

  ghost predicate SearchAsks(vs: seq<Value>, db: Db, key: string, text: string) {
    if key == "kpxcd:dbname" then SameText(db.name, text)
    else if key == "kpxcd:dbuuid" then SameText(db.uuid, text)
    else if key == "title" then WithinOrEmpty(vs, "Title", text)
    else if key in {"URL", "Notes"} then WithinOrEmpty(vs, key, text)
    else if key == "UserName" then HoldsOrEmpty(vs, "UserName", text)
    else if key == "username" then HoldsOrLegacy(vs, "username", "UserName", text)
    else if key == "url" then HoldsOrLegacy(vs, "url", "URL", text)
    else if |key| >= 7 && key[..7] == "custom:" then
      exists i: nat :: i < |vs| && vs[i].key == key[7..] && SameText(vs[i].content, text)
    else Holds(vs, key, text)
  }

  lemma FieldIff(vs: seq<Value>, key: string, text: string)
    ensures IsExact(vs, key, text) <==> Holds(vs, key, text)
    ensures ExactMatch(vs, key, text).None? <==> Missing(vs, key)
    ensures EqualFold(GetContent(vs, key), text) <==> HoldsOrEmpty(vs, key, text)
    ensures Contains(Lower(GetContent(vs, key)), Lower(text)) <==> WithinOrEmpty(vs, key, text)
  {
    var i := IndexOf(vs, key);
    assert forall j: nat :: Reads(vs, key, j) ==> j == i;
    EqualFoldIff(GetContent(vs, key), text);
    ContainsFoldIff(GetContent(vs, key), text);
    if i < |vs| {
      assert Reads(vs, key, i);
    } else {
      assert text == "" ==> StandsAt("", text, 0);
    }
  }

  lemma LegacyIff(vs: seq<Value>, key: string, legacy: string, text: string)
    ensures ExactOrLegacy(vs, key, text, legacy) <==> HoldsOrLegacy(vs, key, legacy, text)
  {
    FieldIff(vs, key, text);
    FieldIff(vs, legacy, text);
  }

  lemma WriteMatchesIff(e: Entry, db: Db, key: string, text: string)
    ensures WriteMatches(e, db, key, text) <==> WriteAsks(e.values, db, key, text)
  {
    hide ExactOrLegacy, HoldsOrLegacy, IsExact, Holds, HoldsOrEmpty, EqualFold, SameText, GetContent;
    FieldIff(e.values, if key == "title" then "Title" else key, text);
    LegacyIff(e.values, key, if key == "url" then "URL" else "UserName", text);
    EqualFoldIff(db.name, text);
    EqualFoldIff(db.uuid, text);
  }

  lemma ReadMatchesIff(e: Entry, db: Db, key: string, text: string)
    ensures ReadMatches(e, db, key, text) <==> SearchAsks(e.values, db, key, text)
  {
    hide ExactOrLegacy, HoldsOrLegacy, IsExact, Holds, HoldsOrEmpty, WithinOrEmpty;
    hide EqualFold, SameText, GetContent, Contains, Lower;
    FieldIff(e.values, if key == "title" then "Title" else key, text);
    LegacyIff(e.values, key, if key == "url" then "URL" else "UserName", text);
    EqualFoldIff(db.name, text);
    EqualFoldIff(db.uuid, text);
    FoldIsWithin(e.values, if key == "title" then "Title" else key, text);
    CustomIff(e.values, key, text);
    if HasPrefix(key, CUSTOM) {
      CustomIsNoOther(key);
    }
  }

  lemma FoldIsWithin(vs: seq<Value>, key: string, text: string)
    ensures HoldsOrEmpty(vs, key, text) ==> WithinOrEmpty(vs, key, text)
  {
  }

  lemma CustomIff(vs: seq<Value>, key: string, text: string)
    ensures HasPrefix(key, CUSTOM) <==> |key| >= 7 && key[..7] == "custom:"
    ensures HasPrefix(key, CUSTOM) ==>
              ((exists v :: v in vs && v.key == key[|CUSTOM|..] && EqualFold(v.content, text)) <==>
               exists i: nat :: i < |vs| && vs[i].key == key[7..] && SameText(vs[i].content, text))
  {
    forall v: Value
      ensures EqualFold(v.content, text) <==> SameText(v.content, text)
    {
      EqualFoldIff(v.content, text);
    }
  }

  lemma CustomIsNoOther(key: string)
    requires HasPrefix(key, CUSTOM)
    ensures key !in {"title", "UserName", "username", "URL", "url", "Notes", DB_NAME, DB_UUID}
  {
    assert key[..|CUSTOM|] == CUSTOM;
    assert key[0] == 'c' && key[6] == ':';
    assert "title"[0] != 'c' && "UserName"[0] != 'c' && "username"[0] != 'c' && "URL"[0] != 'c' && "url"[0] != 'c';
    assert "Notes"[0] != 'c' && DB_NAME[0] != 'c' && DB_UUID[0] != 'c';
  }

  /** A search returns an entry iff it is there and its fields are what every attribute
      asks for. */
  lemma SearchResultIff(es: seq<Entry>, db: Db, attrs: Attributes, e: Entry)
    ensures e in SearchItems(es, db, attrs) <==>
              e in es && forall key | key in attrs :: SearchAsks(e.values, db, key, attrs[key])
  {
    SearchReturnsExactlyTheMatches(es, db, attrs, e);
    forall key | key in attrs
      ensures ReadMatches(e, db, key, attrs[key]) <==> SearchAsks(e.values, db, key, attrs[key])
    {
      ReadMatchesIff(e, db, key, attrs[key]);
    }
  }

  ghost predicate AllAsked(e: Entry, db: Db, attrs: Attributes) {
    forall key | key in attrs :: WriteAsks(e.values, db, key, attrs[key])
  }

  lemma MatchForWriteIff(e: Entry, db: Db, attrs: Attributes)
    ensures MatchForWrite(e, db, attrs) <==> AllAsked(e, db, attrs)
  {
    forall key | key in attrs
      ensures WriteMatches(e, db, key, attrs[key]) <==> WriteAsks(e.values, db, key, attrs[key])
    {
      WriteMatchesIff(e, db, key, attrs[key]);
    }
  }

  // Entry i of the list is the first that is what every attribute asks for.
  ghost predicate FirstAsked(all: seq<Entry>, i: nat, db: Db, attrs: Attributes) {
    i < |all| && AllAsked(all[i], db, attrs) && forall j :: 0 <= j < i ==> !AllAsked(all[j], db, attrs)
  }

  lemma FirstAskedIff(all: seq<Entry>, i: nat, db: Db, attrs: Attributes)
    ensures FirstAsked(all, i, db, attrs) <==> i < |all| && i == IndexWhere(all, Matcher(db, attrs))
  {
    var m := Matcher(db, attrs);
    forall e
      ensures m(e) <==> AllAsked(e, db, attrs)
    {
      MatchForWriteIff(e, db, attrs);
    }
  }

  /** Replace picks the first visible entry whose fields are what every attribute asks
      for, and none iff there is no such entry. */
  lemma PickedIff(f: Forest, db: Db, attrs: Attributes, expose: string)
    ensures var all, found := VisibleEntries(f, db.bin, expose), FindVisible(f, Matcher(db, attrs), db.bin, expose, false);
            && (found.Some? <==> exists e :: e in all && AllAsked(e, db, attrs))
            && (found.Some? ==> HasEntry(f, found.value)
                                && exists i: nat :: FirstAsked(all, i, db, attrs) && EntryAt(f, found.value) == all[i])
  {
    hide MatchForWrite, AllAsked, FindVisible, VisibleEntries;
    var m, all := Matcher(db, attrs), VisibleEntries(f, db.bin, expose);
    forall e
      ensures m(e) <==> AllAsked(e, db, attrs)
    {
      MatchForWriteIff(e, db, attrs);
    }
    FindsFirstVisibleMatch(f, m, db.bin, expose);
    FirstAskedIff(all, IndexWhere(all, m), db, attrs);
  }

  // ---- A written entry matches its own attributes -------------------------

  predicate DbAttrsMatch(db: Db, attrs: Attributes) {
    && (DB_NAME in attrs ==> EqualFold(db.name, attrs[DB_NAME]))
    && (DB_UUID in attrs ==> EqualFold(db.uuid, attrs[DB_UUID]))
  }

  lemma StoredKeyMatches(vs: seq<Value>, e: Entry, db: Db, itemLabel: string, attrs: Attributes, secret: string,
                         order: seq<string>, key: string)
    requires IsOrder(order, attrs) && e.values == ApplyFields(vs, itemLabel, attrs, secret, order)
    requires key in attrs && StoredAsIs(key) && (key == "Title" ==> "title" !in attrs)
    ensures WriteMatches(e, db, key, attrs[key])
  {
    AppliedLookups(vs, itemLabel, attrs, secret, order, key);
  }

  // Every value the Title may end up with matches the "title" attribute, a
  // "Title" attribute matches it too, and the database attributes name this
  // database.
  predicate Storable(db: Db, attrs: Attributes, itemLabel: string) {
    && DbAttrsMatch(db, attrs)
    && ("title" in attrs ==> EqualFold(ResolveLabel(itemLabel, attrs), attrs["title"]))
    && ("title" in attrs && "Title" in attrs ==> EqualFold(attrs["Title"], attrs["title"]))
  }

  /** An entry written with storable attributes matches them, whatever it held
      before and in whatever order they were written. */
  lemma StorableMatches(vs: seq<Value>, e: Entry, db: Db, itemLabel: string, attrs: Attributes, secret: string, order: seq<string>)
    requires IsOrder(order, attrs) && e.values == ApplyFields(vs, itemLabel, attrs, secret, order)
    requires Storable(db, attrs, itemLabel)
    ensures MatchForWrite(e, db, attrs)
  {
    forall key | key in attrs
      ensures WriteMatches(e, db, key, attrs[key])
    {
      AppliedLookups(vs, itemLabel, attrs, secret, order, "Title");
      if StoredAsIs(key) && key != "Title" {
        StoredKeyMatches(vs, e, db, itemLabel, attrs, secret, order, key);
      }
    }
  }

  lemma LastTitleStays(vs: seq<Value>, itemLabel: string, attrs: Attributes, secret: string, order: seq<string>)
    requires IsOrder(order, attrs) && order != [] && order[|order| - 1] in {"title", "Title"}
    ensures GetContent(ApplyFields(vs, itemLabel, attrs, secret, order), "Title")
            == if order[|order| - 1] == "title" then ResolveLabel(itemLabel, attrs) else attrs["Title"]
  {
    var title := ResolveLabel(itemLabel, attrs);
    var base := SetValue(SetValue(vs, Value("Title", title, false)), Value("Password", secret, true));
    TitleLookupInOrder(base, title, attrs, order);
  }

  /** Without an item label, a "title" that is given and not empty becomes the title, so
      the stored entry matches its own attributes. */
  lemma TitleAttributeMatches(vs: seq<Value>, e: Entry, db: Db, attrs: Attributes, secret: string, order: seq<string>)
    requires IsOrder(order, attrs) && e.values == ApplyFields(vs, "", attrs, secret, order)
    requires "title" in attrs && attrs["title"] != ""
    requires "Title" !in attrs && DB_NAME !in attrs && DB_UUID !in attrs
    ensures GetContent(e.values, "Title") == attrs["title"] && AllAsked(e, db, attrs)
  {
    TitleOfWritten(vs, "", attrs, secret, order);
    forall key | key in attrs
      ensures WriteMatches(e, db, key, attrs[key])
    {
      AppliedLookups(vs, "", attrs, secret, order, key);
    }
    MatchForWriteIff(e, db, attrs);
  }

  /** Attributes that are not storable do not match the entry they were written
      to, for some order of the attribute map. */
  lemma NotStorableMisses(vs: seq<Value>, db: Db, itemLabel: string, attrs: Attributes, secret: string)
    returns (order: seq<string>)
    requires !Storable(db, attrs, itemLabel)
    ensures IsOrder(order, attrs)
    ensures forall e: Entry | e.values == ApplyFields(vs, itemLabel, attrs, secret, order) :: !MatchForWrite(e, db, attrs)
  {
    hide ApplyFields;
    var title := ResolveLabel(itemLabel, attrs);
    if !DbAttrsMatch(db, attrs) {
      order := Enumerate(attrs.Keys);
      var key := if DB_NAME in attrs && !EqualFold(db.name, attrs[DB_NAME]) then DB_NAME else DB_UUID;
      assert forall e: Entry :: !WriteMatches(e, db, key, attrs[key]);
    } else {
      var last := if EqualFold(title, attrs["title"]) then "Title" else "title";
      order := EndingIn(attrs, last);
      LastTitleStays(vs, itemLabel, attrs, secret, order);
      assert forall e: Entry | e.values == ApplyFields(vs, itemLabel, attrs, secret, order) ::
          !WriteMatches(e, db, "title", attrs["title"]);
    }
  }

  // ---- Whether a new item is found by its own attributes ---------------------

  predicate UniqueFields(vs: seq<Value>) {
    forall i, j :: 0 <= i < j < |vs| ==> vs[i].key != vs[j].key
  }

  lemma {:induction false} WrittenFieldsUnique(vs: seq<Value>, itemLabel: string, attrs: Attributes, order: seq<string>)
    requires UniqueFields(vs) && forall k | k in order :: k in attrs
    ensures UniqueFields(ApplyInOrder(vs, itemLabel, attrs, order))
  {
    if order != [] {
      WrittenFieldsUnique(vs, itemLabel, attrs, order[..|order| - 1]);
    }
  }

  // The "custom:" branch of the read matcher, once every key occurs once.
  lemma CustomKeyReads(e: Entry, db: Db, key: string, value: string)
    requires HasPrefix(key, CUSTOM) && UniqueFields(e.values)
    ensures ReadMatches(e, db, key, value) <==>
              var field := Lookup(e.values, key[|CUSTOM|..]);
              field.Some? && EqualFold(field.value.content, value)
  {
    CustomIsNoOther(key);
    var i := IndexOf(e.values, key[|CUSTOM|..]);
    assert i < |e.values| ==> e.values[i] in e.values;
  }

  // What a new entry holds under a key, as far as its caller can tell.
  function FieldGiven(itemLabel: string, attrs: Attributes, secret: string, key: string): Option<string> {
    if key == "Title" then Some(if "Title" in attrs then attrs["Title"] else ResolveLabel(itemLabel, attrs))
    else if key in attrs && StoredAsIs(key) then Some(attrs[key])
    else if key == "Password" then Some(secret)
    else None
  }

  // Every "custom:" attribute repeats, up to case, a field given under its short name.
  predicate CustomFieldsGiven(itemLabel: string, attrs: Attributes, secret: string) {
    forall key | key in attrs && HasPrefix(key, CUSTOM) ::
      var given := FieldGiven(itemLabel, attrs, secret, key[|CUSTOM|..]);
      given.Some? && EqualFold(given.value, attrs[key])
  }

  lemma CustomKeyOfNew(e: Entry, db: Db, itemLabel: string, attrs: Attributes, secret: string, order: seq<string>, key: string)
    requires IsOrder(order, attrs) && e.values == ApplyFields([], itemLabel, attrs, secret, order)
    requires Storable(db, attrs, itemLabel) && key in attrs && HasPrefix(key, CUSTOM)
    ensures ReadMatches(e, db, key, attrs[key]) <==>
              var given := FieldGiven(itemLabel, attrs, secret, key[|CUSTOM|..]);
              given.Some? && EqualFold(given.value, attrs[key])
  {
    var base := SetValue(SetValue([], Value("Title", ResolveLabel(itemLabel, attrs), false)), Value("Password", secret, true));
    WrittenFieldsUnique(base, ResolveLabel(itemLabel, attrs), attrs, order);
    CustomKeyReads(e, db, key, attrs[key]);
    AppliedLookups([], itemLabel, attrs, secret, order, key[|CUSTOM|..]);
  }

  /** A new item with storable attributes is found by a search for these attributes
      iff every "custom:k" among them repeats, up to case, what is stored under k:
      another attribute, the title, or the secret. */
  lemma NewItemIsFoundIff(es: seq<Entry>, db: Db, attrs: Attributes, call: Call)
    requires IsOrder(call.order, attrs) && Storable(db, attrs, call.itemLabel) && NewEntry(attrs, call) in es
    ensures NewEntry(attrs, call) in SearchItems(es, db, attrs) <==>
              CustomFieldsGiven(call.itemLabel, attrs, call.secret)
  {
    var e := NewEntry(attrs, call);
    SearchReturnsExactlyTheMatches(es, db, attrs, e);
    StorableMatches([], e, db, call.itemLabel, attrs, call.secret, call.order);
    forall key | key in attrs
      ensures if HasPrefix(key, CUSTOM) then
                ReadMatches(e, db, key, attrs[key]) <==>
                  var given := FieldGiven(call.itemLabel, attrs, call.secret, key[|CUSTOM|..]);
                  given.Some? && EqualFold(given.value, attrs[key])
              else ReadMatches(e, db, key, attrs[key])
    {
      if HasPrefix(key, CUSTOM) {
        CustomKeyOfNew(e, db, call.itemLabel, attrs, call.secret, call.order, key);
      } else {
        KeyWriteImpliesRead(e, db, key, attrs[key]);
      }
    }
  }

  /** The simplest case: an item stored with the one attribute "custom:pin" is
      matched for replacing and never found by searching. */
  lemma CustomPinIsNotFound(es: seq<Entry>, db: Db, call: Call)
    requires call.order == ["custom:pin"]
    ensures var attrs := map["custom:pin" := "1234"];
            && IsOrder(call.order, attrs) && MatchForWrite(NewEntry(attrs, call), db, attrs)
            && NewEntry(attrs, call) !in SearchItems(es, db, attrs)
  {
    var attrs: Attributes := map["custom:pin" := "1234"];
    assert "custom:pin"[..7] == CUSTOM && "custom:pin"[7..] == "pin";
    var e := NewEntry(attrs, call);
    StorableMatches([], e, db, call.itemLabel, attrs, call.secret, call.order);
    CustomKeyOfNew(e, db, call.itemLabel, attrs, call.secret, call.order, "custom:pin");
    assert FieldGiven(call.itemLabel, attrs, call.secret, "pin") == None;
    SearchReturnsExactlyTheMatches(es, db, attrs, e);
  }

  // ---- CreateItem ---------------------------------------------------------

  const SECRET_SERVICE := "Secret Service"

  // One call, and what it draws: the range order of its attributes and new UUIDs.
  datatype Call = Call(itemLabel: string, secret: string, order: seq<string>,
                       entryUUID: UUID, rootUUID: UUID, groupUUID: UUID, archiveUUID: UUID)

  datatype Created = Created(groups: Forest, entry: Entry, replaced: bool) | NoExposedGroup

  function Replacement(e: Entry, db: Db, attrs: Attributes, call: Call): Entry
    requires IsOrder(call.order, attrs)
  {
    var e' := WithHistory(e, call.archiveUUID, MaxItems(db.limits), MaxSize(db.limits));
    e'.(values := ApplyFields(e'.values, call.itemLabel, attrs, call.secret, call.order))
  }

  function NewEntry(attrs: Attributes, call: Call): Entry
    requires IsOrder(call.order, attrs)
  {
    Entry(call.entryUUID, ApplyFields([], call.itemLabel, attrs, call.secret, call.order), "", "", "", "", [], [], [])
  }

  // The first group of a slice with this name, and a group put at its end.
  function FindNamed(f: Forest, name: string): Option<GroupPtr> {
    match f
    case Nil => None
    case Node(g, _, next) => if g.name == name then Some(This) else MapGroupAfter(FindNamed(next, name))
  }

  function Append(f: Forest, g: Group): Forest {
    match f
    case Nil => Node(g, Nil, Nil)
    case Node(_, _, next) => f.(next := Append(next, g))
  }

  function EndOf(f: Forest): GroupPtr {
    match f
    case Nil => This
    case Node(_, _, next) => After(EndOf(next))
  }

  function WithRoot(f: Forest, call: Call): Forest {
    if f.Nil? then Node(Group(call.rootUUID, "Root", "", "", []), Nil, Nil) else f
  }

  // findOrCreateSecretServiceGroup: below the first group, created if missing.
  function SecretServiceGroup(f: Forest, call: Call): (Forest, GroupPtr) {
    var f1 := WithRoot(f, call);
    var found := FindNamed(f1.sub, SECRET_SERVICE);
    if found.Some? then (f1, Below(found.value))
    else (f1.(sub := Append(f1.sub, Group(call.groupUUID, SECRET_SERVICE, "", "", []))), Below(EndOf(f1.sub)))
  }

  lemma {:induction false} NamedIsThere(f: Forest, g: Group, bin: UUID)
    ensures var found := FindNamed(f, g.name);
            found.Some? ==> Has(f, found.value)
                            && forall wanted, visible :: VisibleAt(f, found.value, bin, wanted, visible) <==>
                                 !IsRecycled(GroupAt(f, found.value), bin)
                                 && (visible || Exposed(GroupAt(f, found.value), wanted))
    ensures Has(Append(f, g), EndOf(f)) && GroupAt(Append(f, g), EndOf(f)) == g
    ensures forall wanted, visible :: VisibleAt(Append(f, g), EndOf(f), bin, wanted, visible) <==>
              !IsRecycled(g, bin) && (visible || Exposed(g, wanted))
    ensures g.entries == [] ==> Flat(Append(f, g)) == Flat(f)
  {
    if f.Node? {
      NamedIsThere(f.next, g, bin);
    }
  }

  lemma SecretServiceGroupIsThere(f: Forest, call: Call)
    ensures var (f', p) := SecretServiceGroup(f, call); Has(f', p)
  {
    NamedIsThere(WithRoot(f, call).sub, Group(call.groupUUID, SECRET_SERVICE, "", "", []), []);
  }

  // The closure CreateItem hands to UpdateAndSave.
  function CreateItem(f: Forest, db: Db, attrs: Attributes, expose: string, replace: bool, call: Call): Created
    requires IsOrder(call.order, attrs)
  {
    var found := if replace && attrs != map[] then FindVisible(f, Matcher(db, attrs), db.bin, expose, false) else None;
    if found.Some? then
      FindVisibleWalks(f, Matcher(db, attrs), db.bin, expose, false);
      var e := Replacement(EntryAt(f, found.value), db, attrs, call);
      Created(StoreEntry(f, found.value, e), e, true)
    else
      var e := NewEntry(attrs, call);
      if expose != "" then
        var group := FindExposed(f, db.bin, expose);
        if group.None? then NoExposedGroup
        else
          ExposedGroupIsVisible(f, db.bin, expose);
          Created(SetEntries(f, group.value, GroupAt(f, group.value).entries + [e]), e, false)
      else
        SecretServiceGroupIsThere(f, call);
        var (f', p) := SecretServiceGroup(f, call);
        Created(SetEntries(f', p, GroupAt(f', p).entries + [e]), e, false)
  }

  // Where a new item would go, when no group is exposed, is not in the recycle bin.
  predicate TargetVisible(f: Forest, db: Db, expose: string, call: Call) {
    expose == "" ==>
      var f1 := WithRoot(f, call);
      var found := FindNamed(f1.sub, SECRET_SERVICE);
      && !IsRecycled(f1.group, db.bin)
      && (if found.Some? then Has(f1.sub, found.value) && !IsRecycled(GroupAt(f1.sub, found.value), db.bin)
          else db.bin == ZERO || call.groupUUID != db.bin)
  }

  ghost predicate Matched(f: Forest, db: Db, attrs: Attributes, expose: string) {
    exists e :: e in VisibleEntries(f, db.bin, expose) && MatchForWrite(e, db, attrs)
  }

  lemma MatchedIffFound(f: Forest, db: Db, attrs: Attributes, expose: string)
    ensures Matched(f, db, attrs, expose) <==> FindVisible(f, Matcher(db, attrs), db.bin, expose, false).Some?
  {
    FindsFirstVisibleMatch(f, Matcher(db, attrs), db.bin, expose);
    var m := Matcher(db, attrs);
    assert forall e :: m(e) <==> MatchForWrite(e, db, attrs);
  }

  // The replacing case: the visible list changes where the first match was, to the
  // stored entry, and nothing is added.
  lemma ReplaceIsInPlace(f: Forest, db: Db, attrs: Attributes, expose: string, call: Call)
    requires IsOrder(call.order, attrs) && attrs != map[] && Matched(f, db, attrs, expose)
    ensures var r := CreateItem(f, db, attrs, expose, true, call);
            var all, i := VisibleEntries(f, db.bin, expose), IndexWhere(VisibleEntries(f, db.bin, expose), Matcher(db, attrs));
            && r.Created? && r.replaced && |Flat(r.groups)| == |Flat(f)|
            && i < |all| && VisibleEntries(r.groups, db.bin, expose) == all[i := r.entry]
            && r.entry == Replacement(all[i], db, attrs, call)
            && Refused(r.groups, db, expose) == Refused(f, db, expose)
  {
    MatchedIffFound(f, db, attrs, expose);
    var m, wanted := Matcher(db, attrs), TrimSpace(expose);
    FindVisibleWalks(f, m, db.bin, expose, false);
    var p := FindVisible(f, m, db.bin, expose, false).value;
    ReplaceIsLocal(f, m, p, Replacement(EntryAt(f, p), db, attrs, call), db.bin, expose);
  }

  lemma ReplaceIsLocal(f: Forest, m: Entry -> bool, p: EntryPtr, e: Entry, bin: UUID, expose: string)
    requires FirstVisible(f, m, p, bin, TrimSpace(expose), TrimSpace(expose) == "")
    ensures var all, i := VisibleEntries(f, bin, expose), IndexWhere(VisibleEntries(f, bin, expose), m);
            && |Flat(StoreEntry(f, p, e))| == |Flat(f)|
            && i < |all| && all[i] == EntryAt(f, p) && VisibleEntries(StoreEntry(f, p, e), bin, expose) == all[i := e]
            && FindExposed(StoreEntry(f, p, e), bin, expose) == FindExposed(f, bin, expose)
  {
    var wanted := TrimSpace(expose);
    FirstVisibleIndex(f, m, p, bin, wanted, wanted == "");
    StoreAtFirstVisible(f, m, p, e, bin, wanted, wanted == "");
    ExposureIgnoresEntries(f, p.group, GroupAt(f, p.group).entries[p.index := e], bin, expose);
  }

  // Nothing matches and no exposed group is there to put a new entry in.
  predicate Refused(f: Forest, db: Db, expose: string) {
    expose != "" && FindExposed(f, db.bin, expose).None?
  }

  // The first entry of the list that is what every attribute asks for is rewritten.
  ghost predicate FirstRewritten(all: seq<Entry>, all': seq<Entry>, i: nat, db: Db, attrs: Attributes, call: Call) {
    && FirstAsked(all, i, db, attrs) && |all'| == |all| && all' == all[i := all'[i]]
    && Rewritten(all[i], all'[i], db, attrs, call)
  }

  lemma ReplaceRewrites(f: Forest, db: Db, attrs: Attributes, expose: string, call: Call) returns (i: nat)
    requires IsOrder(call.order, attrs) && attrs != map[] && Matched(f, db, attrs, expose)
    ensures var r := CreateItem(f, db, attrs, expose, true, call);
            && r.Created? && r.replaced && |Flat(r.groups)| == |Flat(f)|
            && FirstRewritten(VisibleEntries(f, db.bin, expose), VisibleEntries(r.groups, db.bin, expose), i, db, attrs, call)
            && r.entry == VisibleEntries(r.groups, db.bin, expose)[i]
  {
    hide CreateItem, Rewritten, FirstAsked, VisibleEntries, Matched;
    ReplaceIsInPlace(f, db, attrs, expose, call);
    var r, all := CreateItem(f, db, attrs, expose, true, call), VisibleEntries(f, db.bin, expose);
    i := IndexWhere(all, Matcher(db, attrs));
    FirstAskedIff(all, i, db, attrs);
    ReplacementIsRewritten(all[i], db, attrs, call);
    assert all[i := r.entry][i] == r.entry;
  }

  /** A replacing call rewrites the first visible entry its attributes ask for: that
      version is kept in its history, every attribute and the secret are written,
      and nothing else about the entry, and no other entry of the list, changes. */
  lemma ReplaceKeepsVersion(f: Forest, db: Db, attrs: Attributes, expose: string, replace: bool, call: Call)
    requires IsOrder(call.order, attrs)
    ensures var r := CreateItem(f, db, attrs, expose, replace, call);
            r.Created? && r.replaced ==>
              exists i: nat :: FirstRewritten(VisibleEntries(f, db.bin, expose), VisibleEntries(r.groups, db.bin, expose),
                                              i, db, attrs, call)
                               && VisibleEntries(r.groups, db.bin, expose)[i] == r.entry
  {
    var r := CreateItem(f, db, attrs, expose, replace, call);
    if r.Created? && r.replaced {
      MatchedIffFound(f, db, attrs, expose);
      var i := ReplaceRewrites(f, db, attrs, expose, call);
    }
  }

  // e' is e with these attributes and this secret written over it, and e archived.
  ghost predicate Rewritten(e: Entry, e': Entry, db: Db, attrs: Attributes, call: Call) {
    && e'.(values := e.values, histories := e.histories) == e
    && KeepsVersion(FirstHistory(e), e, call.archiveUUID, FirstHistory(e'), MaxItems(db.limits), MaxSize(db.limits))
    && FieldsHold(e.values, e'.values, attrs, call.secret)
  }

  // Every attribute and the secret read back; fields nobody names are as before.
  ghost predicate FieldsHold(vs: seq<Value>, vs': seq<Value>, attrs: Attributes, secret: string) {
    forall key :: key != "Title" ==>
      Lookup(vs', key) ==
        if key in attrs && key !in {"title", "kpxcd:dbname", "kpxcd:dbuuid"} then Some(Value(key, attrs[key], false))
        else if key == "Password" then Some(Value("Password", secret, true))
        else Lookup(vs, key)
  }

  lemma FieldsAreWritten(vs: seq<Value>, attrs: Attributes, call: Call)
    requires IsOrder(call.order, attrs)
    ensures FieldsHold(vs, ApplyFields(vs, call.itemLabel, attrs, call.secret, call.order), attrs, call.secret)
  {
    forall key | key != "Title"
      ensures Lookup(ApplyFields(vs, call.itemLabel, attrs, call.secret, call.order), key) ==
                if key in attrs && key !in {"title", "kpxcd:dbname", "kpxcd:dbuuid"} then Some(Value(key, attrs[key], false))
                else if key == "Password" then Some(Value("Password", call.secret, true))
                else Lookup(vs, key)
    {
      AppliedLookups(vs, call.itemLabel, attrs, call.secret, call.order, key);
    }
  }

  lemma ReplacementIsRewritten(e: Entry, db: Db, attrs: Attributes, call: Call)
    requires IsOrder(call.order, attrs)
    ensures Rewritten(e, Replacement(e, db, attrs, call), db, attrs, call)
  {
    ArchivingKeepsVersion(e, call.archiveUUID, MaxItems(db.limits), MaxSize(db.limits));
    FieldsAreWritten(e.values, attrs, call);
  }

  // The creating case: exactly one entry more, shown iff its group is.
  lemma CreateAddsOne(f: Forest, db: Db, attrs: Attributes, expose: string, replace: bool, call: Call)
    requires IsOrder(call.order, attrs) && (!replace || attrs == map[] || !Matched(f, db, attrs, expose))
    ensures var r := CreateItem(f, db, attrs, expose, replace, call);
            && (r.NoExposedGroup? <==> Refused(f, db, expose))
            && (r.Created? ==>
                  && !r.replaced && r.entry == NewEntry(attrs, call) && |Flat(r.groups)| == |Flat(f)| + 1
                  && Refused(r.groups, db, expose) == Refused(f, db, expose)
                  && var old', new' := VisibleEntries(f, db.bin, expose), VisibleEntries(r.groups, db.bin, expose);
                     forall e :: e in new' <==> e in old' || (e == r.entry && TargetVisible(f, db, expose, call)))
  {
    MatchedIffFound(f, db, attrs, expose);
    var wanted := TrimSpace(expose);
    var e := NewEntry(attrs, call);
    if expose != "" {
      if wanted != "" {
        ExposedGroupIsVisible(f, db.bin, expose);
        var group := FindExposed(f, db.bin, expose);
        if group.Some? {
          AddsOne(f, group.value, e, db.bin, wanted, false);
          ExposureIgnoresEntries(f, group.value, GroupAt(f, group.value).entries + [e], db.bin, expose);
        }
      }
    } else {
      var (f', p) := SecretServiceGroup(f, call);
      SecretServiceGroupIsThere(f, call);
      AddsOne(f', p, e, db.bin, wanted, true);
      SecretServiceGroupAddsNothing(f, call, db);
    }
  }

  lemma AddsOne(f: Forest, p: GroupPtr, e: Entry, bin: UUID, wanted: string, visible: bool)
    requires Has(f, p)
    ensures var f' := SetEntries(f, p, GroupAt(f, p).entries + [e]);
            && |Flat(f')| == |Flat(f)| + 1
            && forall e' :: e' in Visible(f', bin, wanted, visible) <==>
                 e' in Visible(f, bin, wanted, visible) || (e' == e && VisibleAt(f, p, bin, wanted, visible))
  {
    var es := GroupAt(f, p).entries + [e];
    FlatSplits(f, p, es);
    VisibleSplits(f, p, bin, wanted, visible);
    VisibleAfterSet(f, p, es, bin, wanted, visible);
  }

  lemma {:induction false} ExposureIgnoresEntries(f: Forest, p: GroupPtr, es: seq<Entry>, bin: UUID, expose: string)
    requires Has(f, p)
    ensures FindExposed(SetEntries(f, p, es), bin, expose) == FindExposed(f, bin, expose)
  {
    match p
    case This =>
    case Below(q) => ExposureIgnoresEntries(f.sub, q, es, bin, TrimSpace(expose));
    case After(q) => ExposureIgnoresEntries(f.next, q, es, bin, expose);
  }

  lemma {:induction false} AppendShowsNothing(f: Forest, g: Group, bin: UUID, wanted: string, visible: bool)
    requires g.entries == []
    ensures Visible(Append(f, g), bin, wanted, visible) == Visible(f, bin, wanted, visible)
  {
    if f.Node? {
      AppendShowsNothing(f.next, g, bin, wanted, visible);
      assert FirstShown(Append(f, g), bin, wanted, visible) == FirstShown(f, bin, wanted, visible);
    } else {
      assert FirstShown(Append(f, g), bin, wanted, visible) == [];
    }
  }

  lemma SecretServiceGroupAddsNothing(f: Forest, call: Call, db: Db)
    ensures var (f', p) := SecretServiceGroup(f, call);
            && Has(f', p) && |Flat(f')| == |Flat(f)|
            && Visible(f', db.bin, "", true) == Visible(f, db.bin, "", true)
            && (VisibleAt(f', p, db.bin, "", true) <==> TargetVisible(f, db, "", call))
  {
    var f1, g := WithRoot(f, call), Group(call.groupUUID, SECRET_SERVICE, "", "", []);
    NamedIsThere(f1.sub, g, db.bin);
    AppendShowsNothing(f1.sub, g, db.bin, "", true);
  }

  // Some group is visible under this exposed name.
  ghost predicate SomeGroupShown(f: Forest, bin: UUID, wanted: string) {
    exists p :: Has(f, p) && VisibleAt(f, p, bin, wanted, false)
  }

  /** What a call does: it replaces iff it is asked to and some visible entry is what
      every attribute asks for; otherwise it is refused iff an exposed group is
      configured and none is there to be found. */
  lemma CreateOutcomeIff(f: Forest, db: Db, attrs: Attributes, expose: string, replace: bool, call: Call)
    requires IsOrder(call.order, attrs)
    ensures var r := CreateItem(f, db, attrs, expose, replace, call);
            var hit := replace && attrs != map[] && (exists e :: e in VisibleEntries(f, db.bin, expose) && AllAsked(e, db, attrs));
            && (r.Created? && r.replaced <==> hit)
            && (r.NoExposedGroup? <==>
                  !hit && expose != "" && (Blank(expose) || !SomeGroupShown(f, db.bin, TrimSpace(expose))))
  {
    PickedIff(f, db, attrs, expose);
    BlankTrimsIff(expose);
    if TrimSpace(expose) != "" {
      ExposedGroupIsVisible(f, db.bin, expose);
    }
  }

  // Somewhere in the list e was put in, and nothing else changed.
  ghost predicate OneMore(es: seq<Entry>, es': seq<Entry>, e: Entry) {
    exists k: nat :: k <= |es| && es' == es[..k] + [e] + es[k..]
  }

  lemma InsertedOnce(f: Forest, p: GroupPtr, e: Entry)
    requires Has(f, p)
    ensures OneMore(Flat(f), Flat(SetEntries(f, p, GroupAt(f, p).entries + [e])), e)
  {
    var es := GroupAt(f, p).entries;
    FlatSplits(f, p, es + [e]);
    var k := |FlatBefore(f, p)| + |es|;
    assert Flat(f)[..k] == FlatBefore(f, p) + es && Flat(f)[k..] == FlatAfter(f, p);
  }

  // A group in the first slice of a forest.
  predicate InSlice(p: GroupPtr) {
    p.This? || (p.After? && InSlice(p.ptr))
  }

  function SliceIndex(p: GroupPtr): nat
    requires InSlice(p)
  {
    if p.This? then 0 else 1 + SliceIndex(p.ptr)
  }

  // Where a new item belongs: in the first group directly below the first one that is
  // called "Secret Service", or, where one is configured, in an exposed group.
  ghost predicate Belongs(f: Forest, p: GroupPtr, expose: string) {
    && Has(f, p)
    && if expose == "" then
         && p.Below? && InSlice(p.ptr) && GroupAt(f, p).name == "Secret Service"
         && forall q | InSlice(q) && Has(f.sub, q) && SliceIndex(q) < SliceIndex(p.ptr) ::
              GroupAt(f.sub, q).name != "Secret Service"
       else Wanted(GroupAt(f, p), TrimSpace(expose))
  }

  ghost predicate FirstNamed(f: Forest, p: GroupPtr, name: string) {
    && InSlice(p) && Has(f, p) && GroupAt(f, p).name == name
    && forall q | InSlice(q) && Has(f, q) && SliceIndex(q) < SliceIndex(p) :: GroupAt(f, q).name != name
  }

  lemma {:induction false} NamedIsInSlice(f: Forest, g: Group)
    ensures FindNamed(f, g.name).Some? ==>
              var p := FindNamed(f, g.name).value; FirstNamed(f, p, g.name)
    ensures FindNamed(f, g.name).None? ==> FirstNamed(Append(f, g), EndOf(f), g.name)
    ensures g.entries == [] ==> Flat(Append(f, g)) == Flat(f)
  {
    if f.Node? {
      NamedIsInSlice(f.next, g);
    }
  }

  /** A new item is one entry more, under the UUID drawn for it and without history, at
      the end of a group where it belongs; it holds its attributes and its secret. */
  lemma CreatePlaces(f: Forest, db: Db, attrs: Attributes, expose: string, replace: bool, call: Call)
    requires IsOrder(call.order, attrs)
    ensures var r := CreateItem(f, db, attrs, expose, replace, call);
            r.Created? && !r.replaced ==>
              && OneMore(Flat(f), Flat(r.groups), r.entry)
              && r.entry.(values := []) == Entry(call.entryUUID, [], "", "", "", "", [], [], [])
              && FieldsHold([], r.entry.values, attrs, call.secret)
              && (expose == "" && f.Nil? ==> r.groups.Node? && r.groups.group.name == "Root" && r.groups.next.Nil?)
              && exists p :: Belongs(r.groups, p, expose) && GroupAt(r.groups, p).entries != []
                             && GroupAt(r.groups, p).entries[|GroupAt(r.groups, p).entries| - 1] == r.entry
  {
    hide FieldsHold, OneMore, ApplyFields, Exposed, Wanted;
    var r := CreateItem(f, db, attrs, expose, replace, call);
    if r.Created? && !r.replaced {
      FieldsAreWritten([], attrs, call);
      if expose != "" {
        var p := FindExposed(f, db.bin, expose).value;
        FoundIsExposed(f, db.bin, expose);
        PlacedAt(f, p, r.entry);
        ExposedIsWanted(GroupAt(f, p), TrimSpace(expose));
        assert Belongs(r.groups, p, expose);
      } else {
        var (f', p) := SecretServiceGroup(f, call);
        TargetIsNamed(f, call);
        PlacedAt(f', p, r.entry);
        StaysFirstNamed(f'.sub, p.ptr, GroupAt(f', p).entries + [r.entry]);
        assert Belongs(r.groups, p, expose);
      }
    }
  }

  lemma {:induction false} NameKept(f: Forest, p: GroupPtr, es: seq<Entry>, q: GroupPtr)
    requires Has(f, p)
    ensures var f' := SetEntries(f, p, es);
            Has(f', q) ==> Has(f, q) && GroupAt(f', q).name == GroupAt(f, q).name
  {
    if p.Below? && q.Below? {
      NameKept(f.sub, p.ptr, es, q.ptr);
    } else if p.After? && q.After? {
      NameKept(f.next, p.ptr, es, q.ptr);
    }
  }

  lemma StaysFirstNamed(f: Forest, p: GroupPtr, es: seq<Entry>)
    requires FirstNamed(f, p, "Secret Service")
    ensures FirstNamed(SetEntries(f, p, es), p, "Secret Service")
  {
    VisibleAroundUnchanged(f, p, es, ZERO, "", true);
    forall q | InSlice(q) && Has(SetEntries(f, p, es), q) && SliceIndex(q) < SliceIndex(p)
      ensures GroupAt(SetEntries(f, p, es), q).name != "Secret Service"
    {
      NameKept(f, p, es, q);
    }
  }

  lemma ExposedIsWanted(g: Group, wanted: string)
    requires Exposed(g, wanted)
    ensures forall es: seq<Entry> :: Wanted(g.(entries := es), wanted)
  {
    EqualFoldIff(g.name, wanted);
    EqualFoldIff(Hex(g.uuid), wanted);
  }

  lemma TargetIsNamed(f: Forest, call: Call)
    ensures var (f', p) := SecretServiceGroup(f, call);
            && Has(f', p) && p.Below? && FirstNamed(f'.sub, p.ptr, "Secret Service") && Flat(f') == Flat(f)
  {
    NamedIsInSlice(WithRoot(f, call).sub, Group(call.groupUUID, SECRET_SERVICE, "", "", []));
  }

  lemma PlacedAt(f: Forest, p: GroupPtr, e: Entry)
    requires Has(f, p)
    ensures var f' := SetEntries(f, p, GroupAt(f, p).entries + [e]);
            && OneMore(Flat(f), Flat(f'), e) && Has(f', p)
            && GroupAt(f', p) == GroupAt(f, p).(entries := GroupAt(f, p).entries + [e])
  {
    InsertedOnce(f, p, e);
    VisibleAroundUnchanged(f, p, GroupAt(f, p).entries + [e], ZERO, "", true);
  }

  /** The same for an item just created: it is among the results of a search for its
      attributes iff every "custom:" attribute repeats a stored field. */
  lemma CreatedIsFoundIff(f: Forest, db: Db, attrs: Attributes, expose: string, replace: bool, call: Call)
    requires IsOrder(call.order, attrs) && (!replace || attrs == map[] || !Matched(f, db, attrs, expose))
    requires Storable(db, attrs, call.itemLabel) && TargetVisible(f, db, expose, call)
    ensures var r := CreateItem(f, db, attrs, expose, replace, call);
            r.Created? ==> (r.entry in SearchItems(VisibleEntries(r.groups, db.bin, expose), db, attrs) <==>
                              CustomFieldsGiven(call.itemLabel, attrs, call.secret))
  {
    var r := CreateItem(f, db, attrs, expose, replace, call);
    CreateAddsOne(f, db, attrs, expose, replace, call);
    if r.Created? {
      NewItemIsFoundIff(VisibleEntries(r.groups, db.bin, expose), db, attrs, call);
    }
  }

  // ---- Any number of calls --------------------------------------------------

  // The groups after these calls; a refused one changes nothing.
  function AfterCalls(f: Forest, db: Db, attrs: Attributes, expose: string, calls: seq<Call>): Forest
    requires forall c | c in calls :: IsOrder(c.order, attrs)
  {
    if calls == [] then f
    else
      var before := AfterCalls(f, db, attrs, expose, calls[..|calls| - 1]);
      match CreateItem(before, db, attrs, expose, true, calls[|calls| - 1])
      case Created(groups, _, _) => groups
      case NoExposedGroup => before
  }

  lemma {:induction false} UpsertInvariant(f: Forest, db: Db, attrs: Attributes, expose: string, calls: seq<Call>)
    requires attrs != map[] && forall c | c in calls :: IsOrder(c.order, attrs)
    requires forall c | c in calls :: Lasting(f, db, attrs, expose, c)
    ensures var f' := AfterCalls(f, db, attrs, expose, calls);
            || (f' == f && (calls == [] || (!Matched(f, db, attrs, expose) && Refused(f, db, expose))))
            || (Matched(f', db, attrs, expose)
                && |Flat(f')| == |Flat(f)| + (if Matched(f, db, attrs, expose) then 0 else 1))
  {
    if calls != [] {
      var init, call := calls[..|calls| - 1], calls[|calls| - 1];
      assert forall c | c in init :: c in calls;
      UpsertInvariant(f, db, attrs, expose, init);
      UpsertStep(AfterCalls(f, db, attrs, expose, init), db, attrs, expose, call);
    }
  }

  // What this call stores will match again, and be visible if it is new.
  ghost predicate Lasting(f: Forest, db: Db, attrs: Attributes, expose: string, call: Call) {
    Storable(db, attrs, call.itemLabel) && (Matched(f, db, attrs, expose) || TargetVisible(f, db, expose, call))
  }

  lemma LastingLater(f: Forest, f': Forest, db: Db, attrs: Attributes, expose: string, call: Call)
    requires Lasting(f, db, attrs, expose, call) && (f' == f || Matched(f', db, attrs, expose))
    ensures Lasting(f', db, attrs, expose, call)
  {
  }

  // The entry a replacing CreateItem would pick now is e.
  ghost predicate Picks(f: Forest, db: Db, attrs: Attributes, expose: string, e: Entry) {
    var p := FindVisible(f, Matcher(db, attrs), db.bin, expose, false);
    p.Some? && HasEntry(f, p.value) && EntryAt(f, p.value) == e
  }

  // The secret a stored item reads back.
  function SecretRead(attrs: Attributes, secret: string): string {
    if "Password" in attrs then attrs["Password"] else secret
  }

  lemma PicksTheReplaced(f: Forest, db: Db, attrs: Attributes, expose: string, call: Call)
    requires attrs != map[] && IsOrder(call.order, attrs) && Storable(db, attrs, call.itemLabel)
    requires Matched(f, db, attrs, expose)
    ensures var r := CreateItem(f, db, attrs, expose, true, call);
            r.Created? && Picks(r.groups, db, attrs, expose, r.entry)
  {
    hide CreateItem, MatchForWrite, ApplyFields, FindVisible;
    var m, all, r := Matcher(db, attrs), VisibleEntries(f, db.bin, expose), CreateItem(f, db, attrs, expose, true, call);
    ReplaceIsInPlace(f, db, attrs, expose, call);
    var i := IndexWhere(all, m);
    StorableMatches(all[i].values, r.entry, db, call.itemLabel, attrs, call.secret, call.order);
    assert all[i := r.entry][i] == r.entry && m(r.entry);
    assert forall j :: 0 <= j < i ==> all[i := r.entry][j] == all[j];
    FindsFirstVisibleMatch(r.groups, m, db.bin, expose);
  }

  lemma PicksTheCreated(f: Forest, db: Db, attrs: Attributes, expose: string, call: Call)
    requires attrs != map[] && IsOrder(call.order, attrs) && Storable(db, attrs, call.itemLabel)
    requires !Matched(f, db, attrs, expose) && TargetVisible(f, db, expose, call)
    ensures var r := CreateItem(f, db, attrs, expose, true, call);
            r.Created? ==> Picks(r.groups, db, attrs, expose, r.entry)
  {
    var m, r := Matcher(db, attrs), CreateItem(f, db, attrs, expose, true, call);
    CreateAddsOne(f, db, attrs, expose, true, call);
    if r.Created? {
      StorableMatches([], r.entry, db, call.itemLabel, attrs, call.secret, call.order);
      FindsFirstVisibleMatch(r.groups, m, db.bin, expose);
      assert r.entry in VisibleEntries(r.groups, db.bin, expose) && m(r.entry);
    }
  }

  lemma SecretOfStored(vs: seq<Value>, itemLabel: string, attrs: Attributes, secret: string, order: seq<string>)
    requires IsOrder(order, attrs)
    ensures GetContent(ApplyFields(vs, itemLabel, attrs, secret, order), "Password") == SecretRead(attrs, secret)
  {
    AppliedLookups(vs, itemLabel, attrs, secret, order, "Password");
  }

  /** One replacing call stores an entry that the next one would pick, with the
      secret of this call, and adds an entry only if none matched. */
  lemma UpsertStep(f: Forest, db: Db, attrs: Attributes, expose: string, call: Call)
    requires attrs != map[] && IsOrder(call.order, attrs) && Lasting(f, db, attrs, expose, call)
    ensures var r := CreateItem(f, db, attrs, expose, true, call);
            && (r.NoExposedGroup? <==> !Matched(f, db, attrs, expose) && Refused(f, db, expose))
            && (r.Created? ==>
                  && Matched(r.groups, db, attrs, expose)
                  && Picks(r.groups, db, attrs, expose, r.entry)
                  && GetContent(r.entry.values, "Password") == SecretRead(attrs, call.secret)
                  && |Flat(r.groups)| == |Flat(f)| + (if Matched(f, db, attrs, expose) then 0 else 1))
  {
    var r := CreateItem(f, db, attrs, expose, true, call);
    if Matched(f, db, attrs, expose) {
      ReplaceIsInPlace(f, db, attrs, expose, call);
      PicksTheReplaced(f, db, attrs, expose, call);
      var all := VisibleEntries(f, db.bin, expose);
      SecretOfStored(all[IndexWhere(all, Matcher(db, attrs))].values, call.itemLabel, attrs, call.secret, call.order);
    } else {
      CreateAddsOne(f, db, attrs, expose, true, call);
      PicksTheCreated(f, db, attrs, expose, call);
      SecretOfStored([], call.itemLabel, attrs, call.secret, call.order);
    }
    if r.Created? {
      MatchedIffFound(r.groups, db, attrs, expose);
    }
  }

  /** Any number of replacing CreateItem calls with the same attributes adds at
      most one entry, none if one matched before. Unless every call is refused for
      want of an exposed group, the entry found afterwards is the one the last call
      stored, and it reads back the last secret (unless an attribute called
      "Password" stands in its place), with and without an exposed group. */
  lemma UpsertIsIdempotent(f: Forest, db: Db, attrs: Attributes, expose: string, calls: seq<Call>)
    requires attrs != map[] && forall c | c in calls :: IsOrder(c.order, attrs)
    requires forall c | c in calls :: Lasting(f, db, attrs, expose, c)
    ensures var f' := AfterCalls(f, db, attrs, expose, calls);
            && |Flat(f)| <= |Flat(f')| <= |Flat(f)| + (if Matched(f, db, attrs, expose) then 0 else 1)
            && (calls != [] && (Matched(f, db, attrs, expose) || !Refused(f, db, expose)) ==>
                  var last := calls[|calls| - 1];
                  var r := CreateItem(AfterCalls(f, db, attrs, expose, calls[..|calls| - 1]), db, attrs, expose, true, last);
                  && r.Created? && r.groups == f' && Picks(f', db, attrs, expose, r.entry)
                  && GetContent(r.entry.values, "Password") == SecretRead(attrs, last.secret))
  {
    hide CreateItem, Matched, Refused, Lasting, Picks, MatchForWrite;
    UpsertInvariant(f, db, attrs, expose, calls);
    if calls != [] {
      var init, last := calls[..|calls| - 1], calls[|calls| - 1];
      assert forall c | c in init :: c in calls;
      UpsertInvariant(f, db, attrs, expose, init);
      LastingLater(f, AfterCalls(f, db, attrs, expose, init), db, attrs, expose, last);
      UpsertStep(AfterCalls(f, db, attrs, expose, init), db, attrs, expose, last);
    }
  }

  // The second call does not find what the first one stored.
  lemma StoredButNotFound(f: Forest, db: Db, attrs: Attributes, expose: string, call: Call)
    requires attrs != map[] && IsOrder(call.order, attrs)
    requires !Matched(f, db, attrs, expose) && !Refused(f, db, expose)
    requires !TargetVisible(f, db, expose, call) || !MatchForWrite(NewEntry(attrs, call), db, attrs)
    ensures |Flat(AfterCalls(f, db, attrs, expose, [call, call]))| == |Flat(f)| + 2
  {
    hide MatchForWrite, NewEntry, TargetVisible, CreateItem;
    CreateAddsOne(f, db, attrs, expose, true, call);
    var f1 := CreateItem(f, db, attrs, expose, true, call).groups;
    CreateAddsOne(f1, db, attrs, expose, true, call);
    assert [call, call][..1] == [call] && [call][..0] == [];
    assert AfterCalls(f, db, attrs, expose, [call]) == f1;
  }

  // All of these calls carry this item label and would draw this group UUID.
  ghost predicate Alike(calls: seq<Call>, attrs: Attributes, itemLabel: string, groupUUID: UUID, rootUUID: UUID) {
    forall c | c in calls ::
      IsOrder(c.order, attrs) && c.itemLabel == itemLabel && c.groupUUID == groupUUID && c.rootUUID == rootUUID
  }

  lemma {:induction false} RefusedNeverGrows(f: Forest, db: Db, attrs: Attributes, expose: string, calls: seq<Call>)
    requires attrs != map[] && Refused(f, db, expose) && forall c | c in calls :: IsOrder(c.order, attrs)
    ensures var f' := AfterCalls(f, db, attrs, expose, calls);
            |Flat(f')| == |Flat(f)| && Refused(f', db, expose)
  {
    if calls != [] {
      var init, call := calls[..|calls| - 1], calls[|calls| - 1];
      assert forall c | c in init :: c in calls;
      RefusedNeverGrows(f, db, attrs, expose, init);
      var before := AfterCalls(f, db, attrs, expose, init);
      if Matched(before, db, attrs, expose) {
        ReplaceIsInPlace(before, db, attrs, expose, call);
      } else {
        CreateAddsOne(before, db, attrs, expose, true, call);
      }
    }
  }

  function CountWhere(es: seq<Entry>, m: Entry -> bool): nat {
    if es == [] then 0 else (if m(es[0]) then 1 else 0) + CountWhere(es[1..], m)
  }

  lemma {:induction false} OneMatchLess(es: seq<Entry>, m: Entry -> bool, i: nat, e: Entry)
    requires i < |es| && m(es[i]) && !m(e)
    ensures CountWhere(es[i := e], m) == CountWhere(es, m) - 1
  {
    if i > 0 {
      OneMatchLess(es[1..], m, i - 1, e);
      assert es[i := e][1..] == es[1..][i - 1 := e];
    } else {
      assert es[0 := e][1..] == es[1..];
    }
  }

  lemma {:induction false} FirstCallFirst(f: Forest, db: Db, attrs: Attributes, expose: string, first: Call, more: seq<Call>)
    requires IsOrder(first.order, attrs) && forall c | c in more :: IsOrder(c.order, attrs)
    requires CreateItem(f, db, attrs, expose, true, first).Created?
    ensures AfterCalls(f, db, attrs, expose, [first] + more)
            == AfterCalls(CreateItem(f, db, attrs, expose, true, first).groups, db, attrs, expose, more)
  {
    var all := [first] + more;
    if more == [] {
      assert all == [first] && all[..0] == [];
    } else {
      assert all[..|all| - 1] == [first] + more[..|more| - 1];
      assert forall c | c in more[..|more| - 1] :: c in more;
      FirstCallFirst(f, db, attrs, expose, first, more[..|more| - 1]);
    }
  }

  // Attributes that are not storable unmake one match with each call, until none
  // is left and an entry is added.
  lemma {:induction false} GrowsInTheEnd(f: Forest, db: Db, attrs: Attributes, expose: string, call: Call)
    returns (calls: seq<Call>)
    requires attrs != map[] && !Refused(f, db, expose) && !Storable(db, attrs, call.itemLabel)
    ensures Alike(calls, attrs, call.itemLabel, call.groupUUID, call.rootUUID)
    ensures |Flat(AfterCalls(f, db, attrs, expose, calls))| > |Flat(f)|
    decreases CountWhere(VisibleEntries(f, db.bin, expose), Matcher(db, attrs))
  {
    hide CreateItem, Storable, ApplyFields, MatchForWrite;
    if !Matched(f, db, attrs, expose) {
      var bad := call.(order := Enumerate(attrs.Keys));
      CreateAddsOne(f, db, attrs, expose, true, bad);
      FirstCallFirst(f, db, attrs, expose, bad, []);
      assert [bad] + [] == [bad];
      calls := [bad];
    } else {
      var more: seq<Call>;
      var bad := UnmakesMatch(f, db, attrs, expose, call);
      var f1 := CreateItem(f, db, attrs, expose, true, bad).groups;
      more := GrowsInTheEnd(f1, db, attrs, expose, call);
      FirstCallFirst(f, db, attrs, expose, bad, more);
      calls := [bad] + more;
    }
  }

  lemma UnmakesMatch(f: Forest, db: Db, attrs: Attributes, expose: string, call: Call) returns (bad: Call)
    requires attrs != map[] && !Storable(db, attrs, call.itemLabel) && Matched(f, db, attrs, expose)
    ensures IsOrder(bad.order, attrs) && bad == call.(order := bad.order)
    ensures var r := CreateItem(f, db, attrs, expose, true, bad);
            && r.Created? && |Flat(r.groups)| == |Flat(f)| && Refused(r.groups, db, expose) == Refused(f, db, expose)
            && CountWhere(VisibleEntries(r.groups, db.bin, expose), Matcher(db, attrs))
               < CountWhere(VisibleEntries(f, db.bin, expose), Matcher(db, attrs))
  {
    MatchedIffFound(f, db, attrs, expose);
    var m, all := Matcher(db, attrs), VisibleEntries(f, db.bin, expose);
    FindsFirstVisibleMatch(f, m, db.bin, expose);
    var i := IndexWhere(all, m);
    var order := NotStorableMisses(all[i].values, db, call.itemLabel, attrs, call.secret);
    bad := call.(order := order);
    ReplaceIsInPlace(f, db, attrs, expose, bad);
    OneMatchLess(all, m, i, Replacement(all[i], db, attrs, bad));
  }

  /** "Repeated calls add at most one entry, and none if one matched" holds for all
      range orders iff every call is refused, or the attributes are storable under
      that item label and either one matches already or the target group is outside
      the recycle bin. */
  lemma IdempotentIff(f: Forest, db: Db, attrs: Attributes, expose: string, call: Call)
    requires attrs != map[]
    ensures (forall calls | Alike(calls, attrs, call.itemLabel, call.groupUUID, call.rootUUID) ::
               |Flat(AfterCalls(f, db, attrs, expose, calls))| <= |Flat(f)| + (if Matched(f, db, attrs, expose) then 0 else 1))
            <==> Refused(f, db, expose) || Lasting(f, db, attrs, expose, call)
  {
    hide CreateItem, MatchForWrite, ApplyFields, Storable, Matched, Refused;
    if Refused(f, db, expose) || Lasting(f, db, attrs, expose, call) {
      forall calls | Alike(calls, attrs, call.itemLabel, call.groupUUID, call.rootUUID)
        ensures |Flat(AfterCalls(f, db, attrs, expose, calls))| <= |Flat(f)| + (if Matched(f, db, attrs, expose) then 0 else 1)
      {
        if Refused(f, db, expose) {
          RefusedNeverGrows(f, db, attrs, expose, calls);
        } else {
          UpsertIsIdempotent(f, db, attrs, expose, calls);
        }
      }
    } else if Matched(f, db, attrs, expose) {
      var calls := GrowsInTheEnd(f, db, attrs, expose, call);
    } else {
      var order := Enumerate(attrs.Keys);
      if !Storable(db, attrs, call.itemLabel) {
        order := NotStorableMisses([], db, call.itemLabel, attrs, call.secret);
      }
      var bad := call.(order := order);
      StoredButNotFound(f, db, attrs, expose, bad);
      assert Alike([bad, bad], attrs, call.itemLabel, call.groupUUID, call.rootUUID);
    }
  }

  // ---- The database the daemon edits ------------------------------------------

  // Content.Root.Groups of an open database.
  class Vault {
    var groups: Forest
    const db: Db

    constructor (groups: Forest, db: Db)
      ensures this.groups == groups && this.db == db
    {
      this.groups, this.db := groups, db;
    }

    // The replacing branch: archive the entry at p, then write the fields over it.
    method ReplaceAt(p: EntryPtr, attrs: Attributes, call: Call) returns (ghost order: seq<string>)
      requires HasEntry(groups, p)
      modifies this`groups
      ensures IsOrder(order, attrs)
      ensures groups == StoreEntry(old(groups), p, Replacement(EntryAt(old(groups), p), db, attrs, call.(order := order)))
    {
      var entry := new LiveEntry(EntryAt(groups, p));
      entry.AppendHistory(call.archiveUUID, db.limits);
      ghost var archived := entry.View();
      entry.ApplyEntryFields(call.itemLabel, attrs, call.secret);
      order :| IsOrder(order, attrs)
               && entry.values == ApplyFields(archived.values, call.itemLabel, attrs, call.secret, order);
      assert entry.View() == Replacement(EntryAt(groups, p), db, attrs, call.(order := order));
      groups := StoreEntry(groups, p, entry.View());
    }

    method NewItem(attrs: Attributes, call: Call) returns (e: Entry, ghost order: seq<string>)
      ensures IsOrder(order, attrs) && e == NewEntry(attrs, call.(order := order))
    {
      var entry := new LiveEntry(Entry(call.entryUUID, [], "", "", "", "", [], [], []));
      entry.ApplyEntryFields(call.itemLabel, attrs, call.secret);
      order :| IsOrder(order, attrs)
               && entry.values == ApplyFields([], call.itemLabel, attrs, call.secret, order);
      e := entry.View();
    }

    // The closure of Collection.CreateItem. `order` is what the range loop happens
    // to do; the caller cannot fix it.
    method UpsertItem(attrs: Attributes, expose: string, replace: bool, call: Call)
      returns (ok: bool, replaced: bool, ghost order: seq<string>)
      modifies this`groups
      ensures IsOrder(order, attrs)
      ensures var r := CreateItem(old(groups), db, attrs, expose, replace, call.(order := order));
              if ok then r.Created? && r.groups == groups && r.replaced == replaced
              else r.NoExposedGroup? && groups == old(groups) && !replaced
    {
      if replace && attrs != map[] {
        var found := FindVisible(groups, Matcher(db, attrs), db.bin, expose, false);
        if found.Some? {
          FindVisibleWalks(groups, Matcher(db, attrs), db.bin, expose, false);
          order := ReplaceAt(found.value, attrs, call);
          return true, true, order;
        }
      }
      var entry;
      entry, order := NewItem(attrs, call);
      if expose != "" {
        var group := FindExposed(groups, db.bin, expose);
        if group.None? {
          return false, false, order;
        }
        ExposedGroupIsVisible(groups, db.bin, expose);
        groups := SetEntries(groups, group.value, GroupAt(groups, group.value).entries + [entry]);
      } else {
        SecretServiceGroupIsThere(groups, call);
        var (f, p) := SecretServiceGroup(groups, call);
        groups := SetEntries(f, p, GroupAt(f, p).entries + [entry]);
      }
      return true, false, order;
    }

    // The closure of Item.Delete.
    method DeleteItem(hex: string) returns (ok: bool)
      modifies this`groups
      ensures ok <==> FindByUUID(old(groups), hex).Some?
      ensures groups == Removed(old(groups), hex)
    {
      ok, groups := RemoveEntryByUUID(groups, hex);
    }

    // The closure of Item.SetSecret.
    method SetItemSecret(hex: string, u: NewSecret) returns (ok: bool)
      modifies this`groups
      ensures ok <==> FindByUUID(old(groups), hex).Some?
      ensures groups == WithSecret(old(groups), db, hex, u)
    {
      var found := FindByUUID(groups, hex);
      if found.None? {
        return false;
      }
      FindByUUIDFindsFirst(groups, hex);
      var entry := new LiveEntry(EntryAt(groups, found.value));
      entry.SetSecretValue(u, db.limits);
      groups := StoreEntry(groups, found.value, entry.View());
      return true;
    }
  }

  function WithSecret(f: Forest, db: Db, hex: string, u: NewSecret): Forest {
    var found := FindByUUID(f, hex);
    if found.None? then f
    else
      FindByUUIDFindsFirst(f, hex);
      StoreEntry(f, found.value, SetSecret(EntryAt(f, found.value), u, MaxItems(db.limits), MaxSize(db.limits)))
  }

  lemma SecretStored(f: Forest, db: Db, hex: string, u: NewSecret)
    requires FindByUUID(f, hex).Some?
    ensures var f' := WithSecret(f, db, hex, u);
            var i := IndexWhere(Flat(f), HasUUID(hex));
            && i < |Flat(f)| && HasUUID(hex)(Flat(f)[i])
            && Flat(f') == Flat(f)[i := SetSecret(Flat(f)[i], u, MaxItems(db.limits), MaxSize(db.limits))]
            && Skeleton(f') == Skeleton(f)
  {
    FindByUUIDFindsFirst(f, hex);
    var p := FindByUUID(f, hex).value;
    var e := SetSecret(EntryAt(f, p), u, MaxItems(db.limits), MaxSize(db.limits));
    var es := GroupAt(f, p.group).entries;
    FlatSplits(f, p.group, es[p.index := e]);
    SetEntriesIsLocal(f, p.group, es[p.index := e]);
    UpdateMiddle(FlatBefore(f, p.group), es, FlatAfter(f, p.group), p.index, e);
  }

  /** A new secret changes the one entry that lookup finds: it reads back, the
      entry is still found under its UUID, and no other entry changes. */
  lemma SecretReadsBack(f: Forest, db: Db, hex: string, u: NewSecret)
    requires FindByUUID(f, hex).Some?
    ensures var f' := WithSecret(f, db, hex, u);
            var i := IndexWhere(Flat(f), HasUUID(hex));
            && i < |Flat(f)| && IndexWhere(Flat(f'), HasUUID(hex)) == i
            && Flat(f') == Flat(f)[i := SetSecret(Flat(f)[i], u, MaxItems(db.limits), MaxSize(db.limits))]
            && GetContent(Flat(f')[i].values, "Password") == u.secret
            && Skeleton(f') == Skeleton(f)
  {
    SecretStored(f, db, hex, u);
    var f', i := WithSecret(f, db, hex, u), IndexWhere(Flat(f), HasUUID(hex));
    SetThenLookup(Flat(f)[i].values, Value("Password", u.secret, true), "Password");
    assert HasUUID(hex)(Flat(f')[i]);
    assert forall j :: 0 <= j < i ==> Flat(f')[j] == Flat(f)[j];
  }
}
