/** Turning inline entity references in a diagram's frontmatter into top-level bindings. */
module BindingMigration {
  import opened Text
  import opened Sequences

  // ---------------------------------------------------------------- the data

  /** A field's value is kept as the text `str` gives it. */
  datatype Item = NotADict(text: string) | Fields(fields: seq<(string, string)>)

  datatype Value = Plain(text: string, truthy: bool) | Items(items: seq<Item>, repr: string)

  datatype Binding =
    | ScopedBy(id: string, entityId: string)
    | Represents(id: string, itemId: string, entityId: string)

  type Entries = seq<(string, Value)>

  const SCOPE_KEY := "_scope_entity_id"
  const ENTITY_KEY := "entity_id"
  const ID_KEY := "id"

  /** `item.get(key, "")`. */
  function Field(fields: seq<(string, string)>, key: string): string {
    if fields == [] then "" else if fields[0].0 == key then fields[0].1 else Field(fields[1..], key)
  }

  function Dropping(fields: seq<(string, string)>, key: string): (r: seq<(string, string)>)
    ensures forall i | 0 <= i < |r| :: r[i].0 != key
  {
    if fields == [] then [] else (if fields[0].0 == key then [] else [fields[0]]) + Dropping(fields[1..], key)
  }

  function EntityIdOf(item: Item): string { if item.Fields? then Strip(Field(item.fields, ENTITY_KEY)) else "" }

  function ItemIdOf(item: Item): string { if item.Fields? then Strip(Field(item.fields, ID_KEY)) else "" }

  function Clean(item: Item): Item {
    match item
    case NotADict(_) => item
    case Fields(fields) => Fields(Dropping(fields, ENTITY_KEY))
  }

  function ScopeIdOf(value: Value): string {
    match value
    case Plain(text, truthy) => if truthy then Strip(text) else ""
    case Items(items, repr) => if items != [] then Strip(repr) else ""
  }

  function BindingId(itemId: string): string { "bind-" + itemId }

  // ---------------------------------------------------------------- names for the scope binding

  function Decimal(n: nat): string {
    if n < 10 then [('0' as int + n) as char] else Decimal(n / 10) + [('0' as int + n % 10) as char]
  }

  function Reading(s: string): int {
    if s == [] then 0 else 10 * Reading(s[..|s| - 1]) + (s[|s| - 1] as int - '0' as int)
  }

  lemma {:induction false} DecimalReads(n: nat)
    ensures Reading(Decimal(n)) == n && Decimal(n) != []
  {
    var s := Decimal(n);
    if n < 10 {
      assert s[..0] == [];
    } else {
      DecimalReads(n / 10);
      assert s[..|s| - 1] == Decimal(n / 10);
    }
  }

  const SCOPE_STEM := "bind-scope"

  /** The names the search tries, in order. */
  function ScopeName(n: nat): string { if n == 0 then SCOPE_STEM else SCOPE_STEM + ['-'] + Decimal(n) }

  lemma ScopeNamesDiffer(m: nat, n: nat)
    requires m != n
    ensures ScopeName(m) != ScopeName(n)
  {
    DecimalReads(m);
    DecimalReads(n);
    var k := |SCOPE_STEM| + 1;
    assert m > 0 ==> ScopeName(m)[k..] == Decimal(m);
    assert n > 0 ==> ScopeName(n)[k..] == Decimal(n);
  }

  ghost function Tried(n: nat): set<string> { if n == 0 then {} else Tried(n - 1) + {ScopeName(n - 1)} }

  lemma {:induction false} NotYetTried(n: nat, k: nat)
    requires n <= k
    ensures ScopeName(k) !in Tried(n)
  {
    if n > 0 {
      NotYetTried(n - 1, k);
      ScopeNamesDiffer(n - 1, k);
    }
  }

  lemma {:induction false} TriedCount(taken: set<string>, n: nat)
    requires forall m: nat | m < n :: ScopeName(m) in taken
    ensures |Tried(n)| == n && Tried(n) <= taken
  {
    if n > 0 {
      TriedCount(taken, n - 1);
      NotYetTried(n - 1, n - 1);
    }
  }

  /** Pigeonhole: only as many names can be taken as there are taken names. */
  lemma TakenBound(taken: set<string>, n: nat)
    requires forall m: nat | m < n :: ScopeName(m) in taken
    ensures n <= |taken|
  {
    TriedCount(taken, n);
    SubsetSize(Tried(n), taken);
  }

  lemma SubsetSize(a: set<string>, b: set<string>)
    requires a <= b
    ensures |a| <= |b|
  {
    assert b == a + (b - a);
  }

  /** The first name in order that is free. */
  function FirstFree(taken: set<string>, n: nat): (r: nat)
    requires forall m: nat | m < n :: ScopeName(m) in taken
    ensures n <= r && ScopeName(r) !in taken && forall m: nat | m < r :: ScopeName(m) in taken
    decreases |taken| - n
  {
    TakenBound(taken, n);
    if ScopeName(n) !in taken then n
    else
      TakenBound(taken, n + 1);
      FirstFree(taken, n + 1)
  }

  // ---------------------------------------------------------------- the migration

  function Ids(bindings: seq<Binding>): set<string> {
    if bindings == [] then {} else Ids(bindings[..|bindings| - 1]) + {bindings[|bindings| - 1].id}
  }

  lemma IdsSnoc(bindings: seq<Binding>, b: Binding)
    ensures Ids(bindings + [b]) == Ids(bindings) + {b.id}
  {
    assert (bindings + [b])[..|bindings|] == bindings;
  }

  lemma {:induction false} IdsMember(bindings: seq<Binding>, i: nat)
    requires i < |bindings|
    ensures bindings[i].id in Ids(bindings)
  {
    if i < |bindings| - 1 {
      IdsMember(bindings[..|bindings| - 1], i);
    }
  }

  lemma {:induction false} IdsHolder(bindings: seq<Binding>, id: string) returns (i: nat)
    requires id in Ids(bindings)
    ensures i < |bindings| && bindings[i].id == id
  {
    i := |bindings| - 1;
    if bindings[i].id != id {
      i := IdsHolder(bindings[..|bindings| - 1], id);
    }
  }

  /** The bindings after one item has been read: one more, unless its id is taken or it has none. */
  function Claim(item: Item, existing: set<string>, added: seq<Binding>): seq<Binding> {
    ClaimFor(ItemIdOf(item), EntityIdOf(item), existing, added)
  }

  function ClaimFor(itemId: string, entityId: string, existing: set<string>, added: seq<Binding>): seq<Binding> {
    var bid := BindingId(itemId);
    if entityId == "" || itemId == "" || bid in existing || bid in Ids(added) then added
    else added + [Represents(bid, itemId, entityId)]
  }

  function Mint(value: Value, existing: set<string>, added: seq<Binding>): seq<Binding> {
    if ScopeIdOf(value) == "" then added
    else added + [ScopedBy(ScopeName(FirstFree(existing + Ids(added), 0)), ScopeIdOf(value))]
  }

  function ClaimAll(items: seq<Item>, existing: set<string>, added: seq<Binding>): seq<Binding> {
    if items == [] then added
    else Claim(items[|items| - 1], existing, ClaimAll(items[..|items| - 1], existing, added))
  }

  function CleanAll(items: seq<Item>): seq<Item> { seq(|items|, i requires 0 <= i < |items| => Clean(items[i])) }

  function CleanEntry(entry: (string, Value)): Entries {
    if entry.0 == SCOPE_KEY then []
    else if entry.1.Plain? then [entry]
    else [(entry.0, entry.1.(items := CleanAll(entry.1.items)))]
  }

  function BindEntry(entry: (string, Value), existing: set<string>, added: seq<Binding>): seq<Binding> {
    if entry.0 == SCOPE_KEY then Mint(entry.1, existing, added)
    else if entry.1.Plain? then added
    else ClaimAll(entry.1.items, existing, added)
  }

  function Updated(entries: Entries): Entries {
    if entries == [] then [] else Updated(entries[..|entries| - 1]) + CleanEntry(entries[|entries| - 1])
  }

  function Bound(entries: Entries, existing: set<string>): seq<Binding> {
    if entries == [] then []
    else BindEntry(entries[|entries| - 1], existing, Bound(entries[..|entries| - 1], existing))
  }

  method MigrateDiagramEntities(entries: Entries, existing: set<string>)
    returns (updated: Entries, added: seq<Binding>, count: nat)
    ensures updated == Updated(entries) && added == Bound(entries, existing) && count == |added|
  {
    added, updated, count := [], [], 0;
    for n := 0 to |entries|
      invariant updated == Updated(entries[..n]) && added == Bound(entries[..n], existing) && count == |added|
    {
      assert entries[..n + 1][..n] == entries[..n];
      var key, value := entries[n].0, entries[n].1;
      if key == SCOPE_KEY {
        var scopeId := ScopeIdOf(value);
        if scopeId != "" {
          var bid := FreeScopeName(existing + Ids(added));
          added := added + [ScopedBy(bid, scopeId)];
          count := count + 1;
        }
        continue;
      }
      if value.Plain? {
        updated := updated + [entries[n]];
        continue;
      }
      var itemsOut: seq<Item>;
      itemsOut, added, count := MigrateItems(value.items, existing, added, count);
      updated := updated + [(key, value.(items := itemsOut))];
    }
    assert entries[..|entries|] == entries;
  }

  /** The search loop: it ends, at the first free name in order. */
  method FreeScopeName(taken: set<string>) returns (bid: string)
    ensures bid == ScopeName(FirstFree(taken, 0)) && bid !in taken
  {
    bid := SCOPE_STEM;
    var suffix := 0;
    while bid in taken
      invariant bid == ScopeName(suffix)
      invariant forall m: nat | m < suffix :: ScopeName(m) in taken
      decreases |taken| - suffix
    {
      TakenBound(taken, suffix + 1);
      suffix := suffix + 1;
      bid := SCOPE_STEM + ['-'] + Decimal(suffix);
    }
    FirstFreeIs(taken, suffix);
  }

  lemma FirstFreeIs(taken: set<string>, n: nat)
    requires ScopeName(n) !in taken && forall m: nat | m < n :: ScopeName(m) in taken
    ensures FirstFree(taken, 0) == n
  {
    var r := FirstFree(taken, 0);
    assert ScopeName(r) !in taken && ScopeName(n) !in taken;
  }

  lemma ClaimStep(items: seq<Item>, n: nat, existing: set<string>, before: seq<Binding>)
    requires n < |items|
    ensures ClaimAll(items[..n + 1], existing, before) == Claim(items[n], existing, ClaimAll(items[..n], existing, before))
  {
    assert items[..n + 1][..n] == items[..n];
  }

  lemma CleanStep(items: seq<Item>, n: nat)
    requires n < |items|
    ensures CleanAll(items[..n + 1]) == CleanAll(items[..n]) + [Clean(items[n])]
  {
    var a, b := CleanAll(items[..n + 1]), CleanAll(items[..n]) + [Clean(items[n])];
    assert forall i | 0 <= i < |a| :: a[i] == b[i];
  }

  method MigrateItems(items: seq<Item>, existing: set<string>, before: seq<Binding>, countBefore: nat)
    returns (itemsOut: seq<Item>, added: seq<Binding>, count: nat)
    requires countBefore == |before|
    ensures itemsOut == CleanAll(items) && added == ClaimAll(items, existing, before) && count == |added|
  {
    itemsOut, added, count := [], before, countBefore;
    for n := 0 to |items|
      invariant itemsOut == CleanAll(items[..n]) && added == ClaimAll(items[..n], existing, before) && count == |added|
    {
      var item := items[n];
      ClaimStep(items, n, existing, before);
      CleanStep(items, n);
      if item.Fields? {
        var entityId, itemId := EntityIdOf(item), ItemIdOf(item);
        if entityId != "" && itemId != "" {
          var bid := BindingId(itemId);
          if bid !in existing && bid !in Ids(added) {
            added := added + [Represents(bid, itemId, entityId)];
            count := count + 1;
          }
        }
      }
      itemsOut := itemsOut + [Clean(item)];
    }
    assert items[..|items|] == items;
  }

  // ---------------------------------------------------------------- new ids are new

  /** Ids are distinct, unused before, and an item's binding is named after it. */
  ghost predicate WellNamed(added: seq<Binding>, existing: set<string>) {
    && (forall i | 0 <= i < |added| :: added[i].id !in existing)
    && (forall i | 0 <= i < |added| :: added[i].Represents? ==> added[i].id == BindingId(added[i].itemId))
    && (forall i, j | 0 <= i < j < |added| :: added[i].id != added[j].id)
  }

  lemma OneMore(added: seq<Binding>, existing: set<string>, b: Binding)
    requires WellNamed(added, existing) && b.id !in existing && b.id !in Ids(added)
    requires b.Represents? ==> b.id == BindingId(b.itemId)
    ensures WellNamed(added + [b], existing)
  {
    forall i | 0 <= i < |added| ensures added[i].id in Ids(added) { IdsMember(added, i); }
  }

  lemma {:induction false} ClaimsAreWellNamed(items: seq<Item>, existing: set<string>, added: seq<Binding>)
    requires WellNamed(added, existing)
    ensures WellNamed(ClaimAll(items, existing, added), existing)
  {
    if items != [] {
      var before := ClaimAll(items[..|items| - 1], existing, added);
      var item := items[|items| - 1];
      ClaimsAreWellNamed(items[..|items| - 1], existing, added);
      if Claim(item, existing, before) != before {
        OneMore(before, existing, Represents(BindingId(ItemIdOf(item)), ItemIdOf(item), EntityIdOf(item)));
      }
    }
  }

  /** Minted ids differ from every existing id and from each other. */
  lemma {:induction false} BindingsAreWellNamed(entries: Entries, existing: set<string>)
    ensures WellNamed(Bound(entries, existing), existing)
  {
    if entries != [] {
      var before := Bound(entries[..|entries| - 1], existing);
      var entry := entries[|entries| - 1];
      BindingsAreWellNamed(entries[..|entries| - 1], existing);
      if entry.0 == SCOPE_KEY {
        if ScopeIdOf(entry.1) != "" {
          OneMore(before, existing, ScopedBy(ScopeName(FirstFree(existing + Ids(before), 0)), ScopeIdOf(entry.1)));
        }
      } else if entry.1.Items? {
        ClaimsAreWellNamed(entry.1.items, existing, before);
      }
    }
  }

  // ---------------------------------------------------------------- nothing inline is left

  predicate Cleaned(item: Item) { item.Fields? ==> forall i | 0 <= i < |item.fields| :: item.fields[i].0 != ENTITY_KEY }

  predicate EntryMigrated(entry: (string, Value)) {
    entry.0 != SCOPE_KEY && (entry.1.Items? ==> forall i | 0 <= i < |entry.1.items| :: Cleaned(entry.1.items[i]))
  }

  predicate Migrated(entries: Entries) { forall i | 0 <= i < |entries| :: EntryMigrated(entries[i]) }

  lemma {:induction false} NothingInlineIsLeft(entries: Entries)
    ensures Migrated(Updated(entries))
  {
    if entries != [] {
      NothingInlineIsLeft(entries[..|entries| - 1]);
      var last := CleanEntry(entries[|entries| - 1]);
      assert forall i | 0 <= i < |last| :: EntryMigrated(last[i]);
    }
  }

  lemma {:induction false} AbsentField(fields: seq<(string, string)>, key: string)
    requires forall i | 0 <= i < |fields| :: fields[i].0 != key
    ensures Field(fields, key) == "" && Dropping(fields, key) == fields
  {
    if fields != [] {
      AbsentField(fields[1..], key);
    }
  }

  lemma CleanedStays(item: Item)
    requires Cleaned(item)
    ensures Clean(item) == item && EntityIdOf(item) == ""
  {
    if item.Fields? {
      AbsentField(item.fields, ENTITY_KEY);
    }
  }

  lemma {:induction false} CleanedItemsClaimNothing(items: seq<Item>, existing: set<string>, added: seq<Binding>)
    requires forall i | 0 <= i < |items| :: Cleaned(items[i])
    ensures ClaimAll(items, existing, added) == added && CleanAll(items) == items
  {
    forall i | 0 <= i < |items| ensures Clean(items[i]) == items[i] { CleanedStays(items[i]); }
    if items != [] {
      CleanedItemsClaimNothing(items[..|items| - 1], existing, added);
      CleanedStays(items[|items| - 1]);
    }
  }

  lemma MigratedEntryStays(entry: (string, Value), existing: set<string>, before: seq<Binding>)
    requires EntryMigrated(entry)
    ensures CleanEntry(entry) == [entry] && BindEntry(entry, existing, before) == before
  {
    if entry.1.Items? {
      CleanedItemsClaimNothing(entry.1.items, existing, before);
    }
  }

  /** A second run finds nothing to do, whatever bindings exist by then. */
  lemma {:induction false} MigratedIsAFixpoint(entries: Entries, existing: set<string>)
    requires Migrated(entries)
    ensures Updated(entries) == entries && Bound(entries, existing) == []
  {
    if entries != [] {
      var init, last := entries[..|entries| - 1], entries[|entries| - 1];
      MigratedIsAFixpoint(init, existing);
      assert EntryMigrated(last);
      MigratedEntryStays(last, existing, Bound(init, existing));
      InitAndLast(entries);
    }
  }

  lemma InitAndLast<T>(s: seq<T>)
    requires s != []
    ensures s[..|s| - 1] + [s[|s| - 1]] == s
  {
  }

  lemma SecondRunAddsNothing(entries: Entries, existing: set<string>)
    ensures Updated(Updated(entries)) == Updated(entries)
    ensures Bound(Updated(entries), existing + Ids(Bound(entries, existing))) == []
  {
    NothingInlineIsLeft(entries);
    MigratedIsAFixpoint(Updated(entries), existing + Ids(Bound(entries, existing)));
  }

  // ---------------------------------------------------------------- what is not touched

  predicate IsOtherField(field: (string, string)) { field.0 != ENTITY_KEY }

  predicate IsSame<T(==)>(a: T, b: T) { a == b }

  /** The fields of an item but one, in their order, and so what each key but that one is read to hold. */
  ghost predicate CarriesFields(was: seq<(string, string)>, now: seq<(string, string)>) {
    && (forall k | k != ENTITY_KEY :: Field(now, k) == Field(was, k))
    && Selects(was, IsOtherField, IsSame, now)
  }

  ghost predicate CarriesItem(was: Item, now: Item) {
    match was
    case NotADict(_) => now == was
    case Fields(fields) => now.Fields? && CarriesFields(fields, now.fields)
  }

  /** An entry under its key: a plain value as it is, a list with its items in their places. */
  ghost predicate CarriesEntry(was: (string, Value), now: (string, Value)) {
    && now.0 == was.0
    && match was.1
       case Plain(_, _) => now.1 == was.1
       case Items(items, _) =>
         now.1.Items? && |now.1.items| == |items| && forall i | 0 <= i < |items| :: CarriesItem(items[i], now.1.items[i])
  }

  lemma {:induction false} OtherFieldsAreRead(fields: seq<(string, string)>, k: string)
    requires k != ENTITY_KEY
    ensures Field(Dropping(fields, ENTITY_KEY), k) == Field(fields, k)
  {
    if fields != [] {
      var rest := Dropping(fields[1..], ENTITY_KEY);
      OtherFieldsAreRead(fields[1..], k);
      assert ([fields[0]] + rest)[1..] == rest;
      assert [] + rest == rest;
    }
  }

  lemma OneFieldIsChosen(field: (string, string), kept: seq<(string, string)>)
    requires kept == if field.0 == ENTITY_KEY then [] else [field]
    ensures Selects([field], IsOtherField, IsSame, kept)
  {
    SelectsOne(field, IsOtherField, IsSame, kept);
  }

  lemma {:induction false} OtherFieldsAreChosen(fields: seq<(string, string)>)
    ensures Selects(fields, IsOtherField, IsSame, Dropping(fields, ENTITY_KEY))
  {
    if fields == [] {
      SelectsNothing(IsOtherField, IsSame<(string, string)>);
    } else {
      OtherFieldsAreChosen(fields[1..]);
      FirstAndRestAreChosen(fields[0], fields[1..], Dropping(fields[1..], ENTITY_KEY));
      assert [fields[0]] + fields[1..] == fields;
    }
  }

  lemma FirstAndRestAreChosen(field: (string, string), rest: seq<(string, string)>, kept: seq<(string, string)>)
    requires Selects(rest, IsOtherField, IsSame, kept)
    ensures Selects([field] + rest, IsOtherField, IsSame, (if field.0 == ENTITY_KEY then [] else [field]) + kept)
  {
    var one := if field.0 == ENTITY_KEY then [] else [field];
    OneFieldIsChosen(field, one);
    SelectsAppend([field], rest, IsOtherField, IsSame, one, kept);
  }

  lemma CleanCarries(item: Item)
    ensures CarriesItem(item, Clean(item))
  {
    if item.Fields? {
      OtherFieldsAreChosen(item.fields);
      forall k | k != ENTITY_KEY ensures Field(Dropping(item.fields, ENTITY_KEY), k) == Field(item.fields, k) {
        OtherFieldsAreRead(item.fields, k);
      }
    }
  }

  predicate IsOtherEntry(entry: (string, Value)) { entry.0 != SCOPE_KEY }

  lemma CleanEntryCarries(entry: (string, Value))
    ensures if IsOtherEntry(entry) then |CleanEntry(entry)| == 1 && CarriesEntry(entry, CleanEntry(entry)[0]) else CleanEntry(entry) == []
  {
    if entry.1.Items? {
      var items := entry.1.items;
      forall i | 0 <= i < |items| ensures CarriesItem(items[i], CleanAll(items)[i]) {
        CleanCarries(items[i]);
      }
    }
  }

  /** Nothing is lost but the scope and the inline ids: each other entry stands in its place under its
      key, each plain value is as it was, and each item keeps all its other fields in their order. */
  lemma {:induction false} MigrationKeepsTheRest(entries: Entries)
    ensures Selects(entries, IsOtherEntry, CarriesEntry, Updated(entries))
  {
    if entries == [] {
      SelectsNothing(IsOtherEntry, CarriesEntry);
    } else {
      var init, last := entries[..|entries| - 1], entries[|entries| - 1];
      MigrationKeepsTheRest(init);
      CleanEntryCarries(last);
      SelectsOne(last, IsOtherEntry, CarriesEntry, CleanEntry(last));
      SelectsAppend(init, [last], IsOtherEntry, CarriesEntry, Updated(init), CleanEntry(last));
      InitAndLast(entries);
    }
  }

  // ---------------------------------------------------------------- what is kept

  /** An item and the entity it refers to inline. */
  type Reference = (string, string)

  function ReferenceOf(item: Item): set<Reference> { ReferenceTo(ItemIdOf(item), EntityIdOf(item)) }

  function ReferenceTo(itemId: string, entityId: string): set<Reference> {
    if entityId == "" then {} else {(itemId, entityId)}
  }

  function ReferencesIn(items: seq<Item>): set<Reference> {
    if items == [] then {} else ReferencesIn(items[..|items| - 1]) + ReferenceOf(items[|items| - 1])
  }

  function References(entries: Entries): set<Reference> {
    if entries == [] then {}
    else
      var entry := entries[|entries| - 1];
      References(entries[..|entries| - 1])
      + if entry.0 != SCOPE_KEY && entry.1.Items? then ReferencesIn(entry.1.items) else {}
  }

  predicate Keeps(added: seq<Binding>, r: Reference) { Represents(BindingId(r.0), r.0, r.1) in added }

  ghost predicate Explained(added: seq<Binding>, refs: set<Reference>) {
    forall b | b in added && b.Represents? :: b.itemId != "" && (b.itemId, b.entityId) in refs
  }

  lemma {:induction false} ClaimsAreExplained(items: seq<Item>, existing: set<string>, added: seq<Binding>, refs: set<Reference>)
    requires Explained(added, refs)
    ensures Explained(ClaimAll(items, existing, added), refs + ReferencesIn(items))
  {
    if items != [] {
      var init := items[..|items| - 1];
      ClaimsAreExplained(init, existing, added, refs);
    }
  }

  /** Every `represents` binding states a reference some item made. */
  lemma {:induction false} BindingsAreExplained(entries: Entries, existing: set<string>)
    ensures Explained(Bound(entries, existing), References(entries))
  {
    if entries != [] {
      var init := entries[..|entries| - 1];
      var entry := entries[|entries| - 1];
      BindingsAreExplained(init, existing);
      if entry.0 != SCOPE_KEY && entry.1.Items? {
        ClaimsAreExplained(entry.1.items, existing, Bound(init, existing), References(init));
      }
    }
  }

  /** The id a reference would be bound under is taken, by it or by an earlier claimant. */
  predicate Settled(r: Reference, existing: set<string>, ids: set<string>) {
    r.0 == "" || BindingId(r.0) in existing || BindingId(r.0) in ids
  }

  lemma {:induction false} ClaimsSettle(items: seq<Item>, existing: set<string>, added: seq<Binding>)
    ensures Ids(added) <= Ids(ClaimAll(items, existing, added))
    ensures forall r | r in ReferencesIn(items) :: Settled(r, existing, Ids(ClaimAll(items, existing, added)))
  {
    if items != [] {
      var init := items[..|items| - 1];
      var item := items[|items| - 1];
      var before := ClaimAll(init, existing, added);
      ClaimsSettle(init, existing, added);
      ClaimGrows(ItemIdOf(item), EntityIdOf(item), existing, before);
    }
  }

  lemma ClaimGrows(itemId: string, entityId: string, existing: set<string>, before: seq<Binding>)
    ensures Ids(before) <= Ids(ClaimFor(itemId, entityId, existing, before))
    ensures forall r | r in ReferenceTo(itemId, entityId) :: Settled(r, existing, Ids(ClaimFor(itemId, entityId, existing, before)))
  {
    IdsSnoc(before, Represents(BindingId(itemId), itemId, entityId));
  }

  lemma {:induction false} ReferencesSettle(entries: Entries, existing: set<string>)
    ensures forall r | r in References(entries) :: Settled(r, existing, Ids(Bound(entries, existing)))
  {
    if entries != [] {
      var init := entries[..|entries| - 1];
      var entry := entries[|entries| - 1];
      var before := Bound(init, existing);
      ReferencesSettle(init, existing);
      if entry.0 == SCOPE_KEY {
        if ScopeIdOf(entry.1) != "" {
          IdsSnoc(before, ScopedBy(ScopeName(FirstFree(existing + Ids(before), 0)), ScopeIdOf(entry.1)));
        }
      } else if entry.1.Items? {
        ClaimsSettle(entry.1.items, existing, before);
      }
    }
  }

  /** A reference whose item id is not empty, is its own and names a binding that does not exist yet. */
  ghost predicate HasOwnFreeId(r: Reference, entries: Entries, existing: set<string>) {
    r.0 != "" && BindingId(r.0) !in existing && forall s | s in References(entries) && s.0 == r.0 :: s == r
  }

  /** No scope is bound under this id. */
  ghost predicate Unscoped(id: string, added: seq<Binding>) { forall b | b in added && b.ScopedBy? :: b.id != id }

  lemma BindingIdInjective(a: string, b: string)
    requires BindingId(a) == BindingId(b)
    ensures a == b
  {
    assert BindingId(a)[5..] == a && BindingId(b)[5..] == b;
  }

  /** Item ids that do not begin with `scope` never meet the scope binding's name. */
  lemma OrdinaryIdsAvoidTheScope(id: string, n: nat)
    requires BindingId(id) == ScopeName(n)
    ensures "scope" <= id
  {
    assert BindingId(id)[5..] == id;
    assert SCOPE_STEM[5..] == "scope";
    assert ScopeName(n)[..10] == SCOPE_STEM;
  }

  lemma {:induction false} ClaimAllKeeps(items: seq<Item>, existing: set<string>, added: seq<Binding>, b: Binding)
    requires b in added
    ensures b in ClaimAll(items, existing, added)
  {
    if items != [] {
      ClaimAllKeeps(items[..|items| - 1], existing, added, b);
    }
  }

  lemma EntryKeeps(entry: (string, Value), existing: set<string>, before: seq<Binding>, b: Binding)
    requires b in before
    ensures b in BindEntry(entry, existing, before)
  {
    if entry.0 != SCOPE_KEY && entry.1.Items? {
      ClaimAllKeeps(entry.1.items, existing, before, b);
    }
  }

  lemma BoundStep(entries: Entries, n: nat, existing: set<string>)
    requires n < |entries|
    ensures Bound(entries[..n + 1], existing) == BindEntry(entries[n], existing, Bound(entries[..n], existing))
  {
    assert entries[..n + 1][..n] == entries[..n];
  }

  /** What is bound stays bound. */
  lemma {:induction false} BoundStays(entries: Entries, n: nat, existing: set<string>, b: Binding)
    requires n <= |entries| && b in Bound(entries[..n], existing)
    ensures b in Bound(entries, existing)
  {
    if n == |entries| {
      assert entries[..n] == entries;
    } else {
      var init := entries[..|entries| - 1];
      assert init[..n] == entries[..n];
      BoundStays(init, n, existing, b);
      EntryKeeps(entries[|entries| - 1], existing, Bound(init, existing), b);
    }
  }

  /** A stated scope is always bound, under the first name of its sequence that is then free. */
  lemma ScopeIsKept(entries: Entries, existing: set<string>, n: nat)
    requires n < |entries| && entries[n].0 == SCOPE_KEY && ScopeIdOf(entries[n].1) != ""
    ensures var before := Bound(entries[..n], existing);
            ScopedBy(ScopeName(FirstFree(existing + Ids(before), 0)), ScopeIdOf(entries[n].1)) in Bound(entries, existing)
  {
    var before := Bound(entries[..n], existing);
    var b := ScopedBy(ScopeName(FirstFree(existing + Ids(before), 0)), ScopeIdOf(entries[n].1));
    BoundStep(entries, n, existing);
    assert (before + [b])[|before|] == b;
    BoundStays(entries, n + 1, existing, b);
  }

  // ---------------------------------------------------------------- which references are kept

  /** The names the references bind, or find taken. */
  function NamesOf(refs: set<Reference>): set<string> { set r | r in refs && r.0 != "" :: BindingId(r.0) }

  predicate ScopeFree(entries: Entries) { forall i | 0 <= i < |entries| :: entries[i].0 != SCOPE_KEY }

  lemma ClaimTakes(itemId: string, entityId: string, existing: set<string>, before: seq<Binding>)
    ensures existing + Ids(ClaimFor(itemId, entityId, existing, before))
         == existing + Ids(before) + NamesOf(ReferenceTo(itemId, entityId))
  {
    IdsSnoc(before, Represents(BindingId(itemId), itemId, entityId));
    NamesOfOne(itemId, entityId);
  }

  lemma NamesOfOne(itemId: string, entityId: string)
    ensures NamesOf(ReferenceTo(itemId, entityId)) == if entityId == "" || itemId == "" then {} else {BindingId(itemId)}
  {
    if entityId != "" {
      assert (itemId, entityId) in ReferenceTo(itemId, entityId);
    }
  }

  lemma NamesOfBoth(a: set<Reference>, b: set<Reference>)
    ensures NamesOf(a + b) == NamesOf(a) + NamesOf(b)
  {
  }

  lemma {:induction false} ClaimsTake(items: seq<Item>, existing: set<string>, added: seq<Binding>)
    ensures existing + Ids(ClaimAll(items, existing, added)) == existing + Ids(added) + NamesOf(ReferencesIn(items))
  {
    if items != [] {
      var init, last := items[..|items| - 1], items[|items| - 1];
      ClaimsTake(init, existing, added);
      ClaimTakes(ItemIdOf(last), EntityIdOf(last), existing, ClaimAll(init, existing, added));
      NamesOfBoth(ReferencesIn(init), ReferenceOf(last));
    }
  }

  /** Ahead of the scope, the names taken are those that exist and those the references bind. */
  lemma {:induction false} TakenAhead(entries: Entries, existing: set<string>)
    requires ScopeFree(entries)
    ensures existing + Ids(Bound(entries, existing)) == existing + NamesOf(References(entries))
  {
    if entries != [] {
      var init, entry := entries[..|entries| - 1], entries[|entries| - 1];
      TakenAhead(init, existing);
      if entry.1.Items? {
        ClaimsTake(entry.1.items, existing, Bound(init, existing));
        NamesOfBoth(References(init), ReferencesIn(entry.1.items));
      }
    }
  }

  /** Keys of a dictionary. */
  predicate UniqueKeys(entries: Entries) { forall i, j | 0 <= i < j < |entries| :: entries[i].0 != entries[j].0 }

  /** Where the scope is stated, or the length where it is not. */
  function ScopePlace(entries: Entries): (n: nat)
    ensures n <= |entries| && ScopeFree(entries[..n]) && (n < |entries| ==> entries[n].0 == SCOPE_KEY)
  {
    if entries == [] || entries[0].0 == SCOPE_KEY then 0
    else
      var n := 1 + ScopePlace(entries[1..]);
      assert entries[..n] == [entries[0]] + entries[1..][..n - 1];
      n
  }

  /** The scope, stated behind these references, takes this id: it is the first name free of the
      existing bindings and of the references ahead of the scope. */
  predicate ScopeTakes(id: string, entries: Entries, existing: set<string>) {
    var n := ScopePlace(entries);
    && n < |entries| && ScopeIdOf(entries[n].1) != ""
    && id == ScopeName(FirstFree(existing + NamesOf(References(entries[..n])), 0))
  }

  lemma {:induction false} ClaimsBindNoScope(items: seq<Item>, existing: set<string>, added: seq<Binding>, b: Binding)
    requires b in ClaimAll(items, existing, added) && b.ScopedBy?
    ensures b in added
  {
    if items != [] {
      ClaimsBindNoScope(items[..|items| - 1], existing, added, b);
    }
  }

  lemma EntryBindsNoScope(entry: (string, Value), existing: set<string>, before: seq<Binding>, b: Binding)
    requires entry.0 != SCOPE_KEY && b in BindEntry(entry, existing, before) && b.ScopedBy?
    ensures b in before
  {
    if entry.1.Items? {
      ClaimsBindNoScope(entry.1.items, existing, before, b);
    }
  }

  lemma {:induction false} ScopeFreeBindsNoScope(entries: Entries, existing: set<string>, b: Binding)
    requires ScopeFree(entries) && b in Bound(entries, existing)
    ensures !b.ScopedBy?
  {
    var init, entry := entries[..|entries| - 1], entries[|entries| - 1];
    if b.ScopedBy? {
      EntryBindsNoScope(entry, existing, Bound(init, existing), b);
      ScopeFreeBindsNoScope(init, existing, b);
    }
  }

  lemma ScopeBoundHere(value: Value, existing: set<string>, before: seq<Binding>, b: Binding)
    requires b in Mint(value, existing, before) && b !in before
    ensures ScopeIdOf(value) != "" && b.id == ScopeName(FirstFree(existing + Ids(before), 0))
  {
  }

  lemma UniqueKeysBefore(entries: Entries, n: nat)
    requires UniqueKeys(entries) && n < |entries| && entries[n].0 == SCOPE_KEY
    ensures ScopeFree(entries[..n])
  {
  }

  /** A scope binding stands where the scope is stated. */
  lemma {:induction false} ScopeBoundAtItsPlace(entries: Entries, existing: set<string>, n: nat, b: Binding)
    requires UniqueKeys(entries) && n < |entries| && entries[n].0 == SCOPE_KEY
    requires b in Bound(entries, existing) && b.ScopedBy?
    ensures ScopeIdOf(entries[n].1) != "" && b.id == ScopeName(FirstFree(existing + Ids(Bound(entries[..n], existing)), 0))
  {
    var m := |entries| - 1;
    var init, entry := entries[..m], entries[m];
    if n == m {
      UniqueKeysBefore(entries, n);
      if b in Bound(init, existing) {
        ScopeFreeBindsNoScope(init, existing, b);
      }
      ScopeBoundHere(entry.1, existing, Bound(init, existing), b);
    } else {
      EntryBindsNoScope(entry, existing, Bound(init, existing), b);
      assert init[..n] == entries[..n];
      ScopeBoundAtItsPlace(init, existing, n, b);
    }
  }

  /** Which id the scope takes can be told from the entries. */
  lemma UnscopedIff(id: string, entries: Entries, existing: set<string>)
    requires UniqueKeys(entries)
    ensures Unscoped(id, Bound(entries, existing)) <==> !ScopeTakes(id, entries, existing)
  {
    var n := ScopePlace(entries);
    TakenAhead(entries[..n], existing);
    if n == |entries| {
      assert entries[..n] == entries;
      forall b | b in Bound(entries, existing) ensures !b.ScopedBy? {
        ScopeFreeBindsNoScope(entries, existing, b);
      }
    } else {
      forall b | b in Bound(entries, existing) && b.ScopedBy? ensures ScopeTakes(b.id, entries, existing) {
        ScopeBoundAtItsPlace(entries, existing, n, b);
      }
      if ScopeTakes(id, entries, existing) {
        ScopeIsKept(entries, existing, n);
      }
    }
  }

  // ---------------------------------------------------------------- which single reference is kept

  function ListTo(itemId: string, entityId: string): seq<Reference> {
    if entityId == "" then [] else [(itemId, entityId)]
  }

  function ListIn(items: seq<Item>): seq<Reference> {
    if items == [] then []
    else ListIn(items[..|items| - 1]) + ListTo(ItemIdOf(items[|items| - 1]), EntityIdOf(items[|items| - 1]))
  }

  /** The references of the entries, in order. */
  function ReferenceList(entries: Entries): seq<Reference> {
    if entries == [] then []
    else
      var entry := entries[|entries| - 1];
      ReferenceList(entries[..|entries| - 1])
      + if entry.0 != SCOPE_KEY && entry.1.Items? then ListIn(entry.1.items) else []
  }

  /** The entity the first of these references to carry this item id names. */
  function FirstNamed(refs: seq<Reference>, id: string): Option<string> {
    if refs == [] then None
    else if refs[0].0 == id then Some(refs[0].1)
    else FirstNamed(refs[1..], id)
  }

  lemma {:induction false} FirstAppend(a: seq<Reference>, b: seq<Reference>, id: string)
    ensures FirstNamed(a + b, id) == if FirstNamed(a, id).Some? then FirstNamed(a, id) else FirstNamed(b, id)
  {
    if a == [] {
      assert a + b == b;
    } else {
      assert (a + b)[1..] == a[1..] + b;
      FirstAppend(a[1..], b, id);
    }
  }

  lemma {:induction false} FirstIsListed(refs: seq<Reference>, id: string)
    ensures FirstNamed(refs, id).Some? ==> (id, FirstNamed(refs, id).value) in refs
  {
    if refs != [] {
      FirstIsListed(refs[1..], id);
    }
  }

  /** Every binding states the first reference with its item id, and every reference has met its fate. */
  ghost predicate Led(added: seq<Binding>, refs: seq<Reference>, existing: set<string>) {
    && (forall b | b in added && b.Represents? :: FirstNamed(refs, b.itemId) == Some(b.entityId))
    && forall r | r in refs :: Settled(r, existing, Ids(added))
  }

  lemma NotNamedYet(added: seq<Binding>, refs: seq<Reference>, existing: set<string>, itemId: string)
    requires Led(added, refs, existing) && itemId != "" && BindingId(itemId) !in existing && BindingId(itemId) !in Ids(added)
    ensures FirstNamed(refs, itemId).None?
  {
    FirstIsListed(refs, itemId);
    assert forall r | r in refs :: Settled(r, existing, Ids(added)) ==> r.0 != itemId;
  }

  lemma ClaimLeads(itemId: string, entityId: string, added: seq<Binding>, refs: seq<Reference>, existing: set<string>)
    requires Led(added, refs, existing)
    ensures Led(ClaimFor(itemId, entityId, existing, added), refs + ListTo(itemId, entityId), existing)
  {
    var refs' := refs + ListTo(itemId, entityId);
    var added' := ClaimFor(itemId, entityId, existing, added);
    ClaimGrows(itemId, entityId, existing, added);
    forall b | b in added' && b.Represents? ensures FirstNamed(refs', b.itemId) == Some(b.entityId) {
      FirstAppend(refs, ListTo(itemId, entityId), b.itemId);
      if b !in added {
        NotNamedYet(added, refs, existing, itemId);
      }
    }
    forall r | r in refs' ensures Settled(r, existing, Ids(added')) {
      if r !in refs {
        assert r in ReferenceTo(itemId, entityId);
      }
    }
  }

  lemma {:induction false} ClaimsLead(items: seq<Item>, added: seq<Binding>, refs: seq<Reference>, existing: set<string>)
    requires Led(added, refs, existing)
    ensures Led(ClaimAll(items, existing, added), refs + ListIn(items), existing)
  {
    if items == [] {
      assert refs + ListIn(items) == refs;
    } else {
      var init, last := items[..|items| - 1], items[|items| - 1];
      ClaimsLead(init, added, refs, existing);
      ClaimLeads(ItemIdOf(last), EntityIdOf(last), ClaimAll(init, existing, added), refs + ListIn(init), existing);
      assert refs + ListIn(items) == refs + ListIn(init) + ListTo(ItemIdOf(last), EntityIdOf(last));
    }
  }

  lemma MintLeads(value: Value, added: seq<Binding>, refs: seq<Reference>, existing: set<string>)
    requires Led(added, refs, existing)
    ensures Led(Mint(value, existing, added), refs, existing)
  {
    IdsSnoc(added, ScopedBy(ScopeName(FirstFree(existing + Ids(added), 0)), ScopeIdOf(value)));
  }

  lemma {:induction false} FirstsLead(entries: Entries, existing: set<string>)
    ensures Led(Bound(entries, existing), ReferenceList(entries), existing)
  {
    if entries != [] {
      var init, entry := entries[..|entries| - 1], entries[|entries| - 1];
      FirstsLead(init, existing);
      if entry.0 == SCOPE_KEY {
        MintLeads(entry.1, Bound(init, existing), ReferenceList(init), existing);
        assert ReferenceList(init) + [] == ReferenceList(init);
      } else if entry.1.Items? {
        ClaimsLead(entry.1.items, Bound(init, existing), ReferenceList(init), existing);
      } else {
        assert ReferenceList(init) + [] == ReferenceList(init);
      }
    }
  }

  lemma KeptIsFirst(r: Reference, entries: Entries, existing: set<string>)
    requires Keeps(Bound(entries, existing), r)
    ensures r.0 != "" && BindingId(r.0) !in existing && Unscoped(BindingId(r.0), Bound(entries, existing))
    ensures FirstNamed(ReferenceList(entries), r.0) == Some(r.1)
  {
    var added := Bound(entries, existing);
    BindingsAreWellNamed(entries, existing);
    BindingsAreExplained(entries, existing);
    FirstsLead(entries, existing);
    var i :| 0 <= i < |added| && added[i] == Represents(BindingId(r.0), r.0, r.1);
    forall b | b in added && b.ScopedBy? ensures b.id != BindingId(r.0) {
      var j :| 0 <= j < |added| && added[j] == b;
    }
  }

  lemma FirstIsKept(r: Reference, entries: Entries, existing: set<string>)
    requires r.0 != "" && BindingId(r.0) !in existing && Unscoped(BindingId(r.0), Bound(entries, existing))
    requires FirstNamed(ReferenceList(entries), r.0) == Some(r.1)
    ensures Keeps(Bound(entries, existing), r)
  {
    var added := Bound(entries, existing);
    BindingsAreWellNamed(entries, existing);
    FirstsLead(entries, existing);
    FirstIsListed(ReferenceList(entries), r.0);
    assert Settled(r, existing, Ids(added));
    var i := IdsHolder(added, BindingId(r.0));
    assert added[i] in added && added[i].Represents?;
    BindingIdInjective(added[i].itemId, r.0);
  }

  /** A single reference is kept exactly when its item has an id, no binding is named after it yet, the
      scope does not take that name, and no reference before it carries the same item id. */
  lemma ReferenceIsKeptIff(r: Reference, entries: Entries, existing: set<string>)
    requires UniqueKeys(entries)
    ensures Keeps(Bound(entries, existing), r) <==>
            && r.0 != "" && BindingId(r.0) !in existing && !ScopeTakes(BindingId(r.0), entries, existing)
            && FirstNamed(ReferenceList(entries), r.0) == Some(r.1)
  {
    UnscopedIff(BindingId(r.0), entries, existing);
    if Keeps(Bound(entries, existing), r) {
      KeptIsFirst(r, entries, existing);
    } else if r.0 != "" && BindingId(r.0) !in existing && !ScopeTakes(BindingId(r.0), entries, existing)
           && FirstNamed(ReferenceList(entries), r.0) == Some(r.1) {
      FirstIsKept(r, entries, existing);
    }
  }

  lemma {:induction false} ListInIs(items: seq<Item>, r: Reference)
    ensures r in ListIn(items) <==> r in ReferencesIn(items)
  {
    if items != [] {
      ListInIs(items[..|items| - 1], r);
    }
  }

  lemma {:induction false} ListIs(entries: Entries, r: Reference)
    ensures r in ReferenceList(entries) <==> r in References(entries)
  {
    if entries != [] {
      ListIs(entries[..|entries| - 1], r);
      if entries[|entries| - 1].1.Items? {
        ListInIs(entries[|entries| - 1].1.items, r);
      }
    }
  }

  lemma {:induction false} ListedHasAFirst(refs: seq<Reference>, r: Reference)
    requires r in refs
    ensures FirstNamed(refs, r.0).Some?
  {
    if refs[0].0 != r.0 {
      ListedHasAFirst(refs[1..], r);
    }
  }

  /** When the migration can state a reference, as can be told beforehand: the item has an id of its
      own, no binding is named after it yet, and the scope does not take that name. */
  ghost predicate Claimable(r: Reference, entries: Entries, existing: set<string>) {
    HasOwnFreeId(r, entries, existing) && !ScopeTakes(BindingId(r.0), entries, existing)
  }

  lemma OwnIsFirst(r: Reference, entries: Entries, existing: set<string>)
    requires r in References(entries) && HasOwnFreeId(r, entries, existing)
    ensures FirstNamed(ReferenceList(entries), r.0) == Some(r.1)
  {
    var refs := ReferenceList(entries);
    ListIs(entries, r);
    ListedHasAFirst(refs, r);
    FirstIsListed(refs, r.0);
    ListIs(entries, (r.0, FirstNamed(refs, r.0).value));
  }

  /** Every item-to-entity reference is kept as a binding exactly when each is claimable. */
  lemma KeepsEveryReferenceIff(entries: Entries, existing: set<string>)
    requires UniqueKeys(entries)
    ensures (forall r | r in References(entries) :: Keeps(Bound(entries, existing), r)) <==>
            (forall r | r in References(entries) :: Claimable(r, entries, existing))
  {
    forall r | r in References(entries) && Claimable(r, entries, existing) ensures Keeps(Bound(entries, existing), r) {
      OwnIsFirst(r, entries, existing);
      ReferenceIsKeptIff(r, entries, existing);
    }
    if forall r | r in References(entries) :: Keeps(Bound(entries, existing), r) {
      forall r | r in References(entries) ensures Claimable(r, entries, existing) {
        ReferenceIsKeptIff(r, entries, existing);
        forall s | s in References(entries) && s.0 == r.0 ensures s == r {
          ReferenceIsKeptIff(s, entries, existing);
        }
      }
    }
  }

  /** An item id that does not begin with `scope` is never the one the scope takes. */
  lemma OrdinaryIdsAreNotTaken(id: string, entries: Entries, existing: set<string>)
    requires !("scope" <= id)
    ensures !ScopeTakes(BindingId(id), entries, existing)
  {
    var n := ScopePlace(entries);
    if ScopeTakes(BindingId(id), entries, existing) {
      OrdinaryIdsAvoidTheScope(id, FirstFree(existing + NamesOf(References(entries[..n])), 0));
    }
  }

  // ---------------------------------------------------------------- references that are lost

  function Stating(id: string, entityId: string): Item { Fields([(ID_KEY, id), (ENTITY_KEY, entityId)]) }

  function Only(item: Item): (string, Value) { ("nodes", Items([item], "")) }

  lemma PairFields(k: string, a: string, k': string, b: string)
    requires k != k'
    ensures Field([(k, a), (k', b)], k) == a && Field([(k, a), (k', b)], k') == b
  {
    assert [(k, a), (k', b)][1..] == [(k', b)];
  }

  lemma KeysDiffer()
    ensures ID_KEY != ENTITY_KEY
  {
    assert |ID_KEY| != |ENTITY_KEY|;
  }

  lemma StatingStates(id: string, entityId: string)
    requires Trimmed(id) && Trimmed(entityId)
    ensures ItemIdOf(Stating(id, entityId)) == id && EntityIdOf(Stating(id, entityId)) == entityId
  {
    KeysDiffer();
    PairFields(ID_KEY, id, ENTITY_KEY, entityId);
    TrimmedIsStripped(id);
    TrimmedIsStripped(entityId);
  }

  /** An item's id and the entity it refers to are read without the blanks about them. */
  lemma PaddedStates(id: string, entityId: string, left: string, right: string)
    requires Trimmed(id) && id != [] && Trimmed(entityId) && entityId != [] && AllSpace(left) && AllSpace(right)
    ensures var item := Stating(left + id + right, left + entityId + right);
            ItemIdOf(item) == id && EntityIdOf(item) == entityId
  {
    KeysDiffer();
    PairFields(ID_KEY, left + id + right, ENTITY_KEY, left + entityId + right);
    StripUnique(left, id, right);
    StripUnique(left, entityId, right);
  }

  /** So a single item, however padded, is bound under `bind-` and its id. */
  lemma PaddedItemIsBound(id: string, entityId: string, left: string, right: string)
    requires Trimmed(id) && id != [] && Trimmed(entityId) && entityId != [] && AllSpace(left) && AllSpace(right)
    ensures Bound([Only(Stating(left + id + right, left + entityId + right))], {})
         == [Represents("bind-" + id, id, entityId)]
  {
    var item := Stating(left + id + right, left + entityId + right);
    PaddedStates(id, entityId, left, right);
    OneMoreItem([], item, {});
    assert [] + [Only(item)] == [Only(item)];
    FirstClaim(id, entityId);
  }

  lemma FirstClaim(itemId: string, entityId: string)
    requires itemId != "" && entityId != ""
    ensures ClaimFor(itemId, entityId, {}, []) == [Represents("bind-" + itemId, itemId, entityId)]
  {
  }

  /** One more entry of one item: its claim, and its reference. */
  lemma OneMoreItem(entries: Entries, item: Item, existing: set<string>)
    ensures Bound(entries + [Only(item)], existing) == Claim(item, existing, Bound(entries, existing))
    ensures ReferenceOf(item) <= References(entries + [Only(item)])
  {
    var all := entries + [Only(item)];
    assert all[..|entries|] == entries;
    assert [item][..0] == [];
    assert ClaimAll([item][..0], existing, Bound(entries, existing)) == Bound(entries, existing);
  }

  lemma TakenItemBindsNothing(entries: Entries, item: Item, itemId: string, entityId: string, existing: set<string>)
    requires itemId == ItemIdOf(item) && entityId == EntityIdOf(item) && entityId != ""
    requires BindingId(itemId) in existing || BindingId(itemId) in Ids(Bound(entries, existing))
    ensures Bound(entries + [Only(item)], existing) == Bound(entries, existing)
    ensures (itemId, entityId) in References(entries + [Only(item)])
  {
    OneMoreItem(entries, item, existing);
    assert (itemId, entityId) in ReferenceTo(itemId, entityId);
  }

  lemma AloneIsLost(item: Item, itemId: string, entityId: string, existing: set<string>)
    requires itemId == ItemIdOf(item) && entityId == EntityIdOf(item) && entityId != "" && BindingId(itemId) in existing
    ensures (itemId, entityId) in References([Only(item)]) && Bound([Only(item)], existing) == []
  {
    assert [] + [Only(item)] == [Only(item)];
    TakenItemBindsNothing([], item, itemId, entityId, existing);
  }

  /** The reference of an item whose binding id exists is lost. */
  lemma TakenIdLosesReference(id: string, entityId: string)
    requires Trimmed(id) && Trimmed(entityId) && entityId != ""
    ensures (id, entityId) in References([Only(Stating(id, entityId))])
    ensures Bound([Only(Stating(id, entityId))], {BindingId(id)}) == []
  {
    StatingStates(id, entityId);
    AloneIsLost(Stating(id, entityId), id, entityId, {BindingId(id)});
  }

  function ScopeEntry(scope: string): (string, Value) { (SCOPE_KEY, Plain(scope, true)) }

  /** A scope stated as a text, however padded, is bound under `bind-scope`; one that is missing or false
      is not bound. */
  lemma ScopeAloneIsBound(scope: string, left: string, right: string)
    requires Trimmed(scope) && scope != [] && AllSpace(left) && AllSpace(right)
    ensures Bound([(SCOPE_KEY, Plain(left + scope + right, true))], {}) == [ScopedBy("bind-scope", scope)]
    ensures Bound([(SCOPE_KEY, Plain(left + scope + right, false))], {}) == []
  {
    StripUnique(left, scope, right);
    AloneIsMinted(Plain(left + scope + right, true), scope);
    AloneIsMinted(Plain(left + scope + right, false), "");
    FirstNameIsFree();
  }

  lemma AloneIsMinted(value: Value, scope: string)
    requires ScopeIdOf(value) == scope
    ensures Bound([(SCOPE_KEY, value)], {}) == if scope == "" then [] else [ScopedBy(ScopeName(FirstFree({}, 0)), scope)]
  {
    var entries := [(SCOPE_KEY, value)];
    assert entries[..0] == [] && Bound(entries[..0], {}) == [];
    var none: set<string> := {};
    assert none + Ids([]) == none;
  }

  lemma FirstNameIsFree()
    ensures FirstFree({}, 0) == 0 && ScopeName(0) == "bind-scope"
  {
    FirstFreeIs({}, 0);
  }

  lemma ScopeTakesFirst(scope: string)
    requires Trimmed(scope) && scope != ""
    ensures Bound([ScopeEntry(scope)], {}) == [ScopedBy(ScopeName(0), scope)]
  {
    var entries := [ScopeEntry(scope)];
    TrimmedIsStripped(scope);
    assert entries[..0] == [];
    assert Bound(entries[..0], {}) == [];
    var none: set<string> := {};
    assert none + Ids([]) == none;
    assert FirstFree(none, 0) == 0;
  }

  lemma ScopeIsTheName()
    ensures BindingId("scope") == ScopeName(0) && Trimmed("scope")
  {
  }

  /** And so is that of an item `scope` listed behind the scope, with no binding existing at all. */
  lemma ScopeLosesReference(scope: string, entityId: string)
    requires Trimmed(scope) && scope != "" && Trimmed(entityId) && entityId != ""
    ensures var entries := [ScopeEntry(scope)] + [Only(Stating("scope", entityId))];
            ("scope", entityId) in References(entries) && Bound(entries, {}) == [ScopedBy(BindingId("scope"), scope)]
  {
    ScopeIsTheName();
    StatingStates("scope", entityId);
    ScopeTakesFirst(scope);
    IdsMember([ScopedBy(ScopeName(0), scope)], 0);
    TakenItemBindsNothing([ScopeEntry(scope)], Stating("scope", entityId), "scope", entityId, {});
  }
}
