/** A repository as it would be: the committed store under a stack of overlays. */
module CandidateRepositories {
  import opened Text
  import opened Orders
  import opened DiagramExtraction

  datatype Record = Entity(entity: EntityRecord) | Connection(connection: ConnectionRecord) | Diagram(diagram: DiagramRecord)

  function IdOf(r: Record): string {
    match r case Entity(e) => e.artifactId case Connection(c) => c.artifactId case Diagram(d) => d.artifactId
  }

  datatype Overlay = Overlay(additions: map<string, Record>, deletions: set<string>)

  /** The committed store: its records by id. */
  datatype Store = Store(entities: map<string, EntityRecord>, diagrams: map<string, DiagramRecord>)

  datatype Repository = Committed(store: Store) | Overlaid(base: Repository, overlay: Overlay)

  datatype EntityFilter = EntityFilter(artifactType: Option<string>, domain: Option<string>, status: Option<string>)
  datatype DiagramFilter = DiagramFilter(diagramType: Option<string>, status: Option<string>)

  const ANY := EntityFilter(None, None, None)
  const ANY_DIAGRAM := DiagramFilter(None, None)

  predicate Wants(o: Option<string>, value: string) { o.None? || o.value == value }

  predicate EntityMatches(e: EntityRecord, f: EntityFilter) {
    Wants(f.artifactType, e.artifactType) && Wants(f.domain, e.domain) && Wants(f.status, e.status)
  }

  predicate DiagramMatches(d: DiagramRecord, f: DiagramFilter) {
    Wants(f.diagramType, d.diagramType) && Wants(f.status, d.status)
  }

  function Lookup<T>(m: map<string, T>, id: string): Option<T> { if id in m then Some(m[id]) else None }

  function GetEntity(r: Repository, id: string): Option<EntityRecord> {
    match r
    case Committed(store) => Lookup(store.entities, id)
    case Overlaid(base, overlay) =>
      if id in overlay.additions && overlay.additions[id].Entity? then Some(overlay.additions[id].entity)
      else if id in overlay.deletions then None
      else GetEntity(base, id)
  }

  function GetDiagram(r: Repository, id: string): Option<DiagramRecord> {
    match r
    case Committed(store) => Lookup(store.diagrams, id)
    case Overlaid(base, overlay) =>
      if id in overlay.additions && overlay.additions[id].Diagram? then Some(overlay.additions[id].diagram)
      else if id in overlay.deletions then None
      else GetDiagram(base, id)
  }

  // ---------------------------------------------------------------- listings

  predicate AddsEntity(overlay: Overlay, id: string) { id in overlay.additions && overlay.additions[id].Entity? }

  predicate AddsDiagram(overlay: Overlay, id: string) { id in overlay.additions && overlay.additions[id].Diagram? }

  /** What a listing shows under an id: a matching addition, or below it what the base lists and is
      not suppressed. */
  function ListedEntity(r: Repository, f: EntityFilter, id: string): Option<EntityRecord> {
    match r
    case Committed(store) => if id in store.entities && EntityMatches(store.entities[id], f) then Some(store.entities[id]) else None
    case Overlaid(base, overlay) =>
      if AddsEntity(overlay, id) && EntityMatches(overlay.additions[id].entity, f) then Some(overlay.additions[id].entity)
      else if id in overlay.deletions then None
      else ListedEntity(base, f, id)
  }

  function ListedDiagram(r: Repository, f: DiagramFilter, id: string): Option<DiagramRecord> {
    match r
    case Committed(store) => if id in store.diagrams && DiagramMatches(store.diagrams[id], f) then Some(store.diagrams[id]) else None
    case Overlaid(base, overlay) =>
      if AddsDiagram(overlay, id) && DiagramMatches(overlay.additions[id].diagram, f) then Some(overlay.additions[id].diagram)
      else if id in overlay.deletions then None
      else ListedDiagram(base, f, id)
  }

  /** Records are filed under their own ids. */
  predicate WellKeyed(r: Repository) {
    match r
    case Committed(store) =>
      (forall id :: id in store.entities ==> store.entities[id].artifactId == id)
      && (forall id :: id in store.diagrams ==> store.diagrams[id].artifactId == id)
    case Overlaid(base, overlay) => WellKeyed(base) && RecordsKeyed(overlay.additions)
  }

  predicate RecordsKeyed(records: map<string, Record>) { forall id :: id in records ==> IdOf(records[id]) == id }

  lemma {:induction false} ListedAreKeyed(r: Repository, f: EntityFilter, id: string)
    requires WellKeyed(r) && ListedEntity(r, f, id).Some?
    ensures ListedEntity(r, f, id).value.artifactId == id
  {
    if r.Overlaid? && !(AddsEntity(r.overlay, id) && EntityMatches(r.overlay.additions[id].entity, f)) {
      ListedAreKeyed(r.base, f, id);
    }
  }

  lemma {:induction false} ListedDiagramsAreKeyed(r: Repository, f: DiagramFilter, id: string)
    requires WellKeyed(r) && ListedDiagram(r, f, id).Some?
    ensures ListedDiagram(r, f, id).value.artifactId == id
  {
    if r.Overlaid? && !(AddsDiagram(r.overlay, id) && DiagramMatches(r.overlay.additions[id].diagram, f)) {
      ListedDiagramsAreKeyed(r.base, f, id);
    }
  }

  // ---------------------------------------------------------------- ascending ids

  predicate Ascending(ids: seq<string>) { forall i, j | 0 <= i < j < |ids| :: Less(ids[i], ids[j]) }

  predicate SameMembers(ids: seq<string>, s: set<string>) {
    (forall i | 0 <= i < |ids| :: ids[i] in s) && forall id :: id in s ==> id in ids
  }

  /** Where `id` goes among ascending ids. */
  function Slot(ids: seq<string>, id: string): (n: nat)
    ensures n <= |ids| && (forall i | 0 <= i < n :: Less(ids[i], id)) && (n < |ids| ==> !Less(ids[n], id))
  {
    if ids == [] || !Less(ids[0], id) then 0
    else
      var n := 1 + Slot(ids[1..], id);
      assert forall i | 1 <= i < n :: ids[i] == ids[1..][i - 1];
      n
  }

  lemma InsertAscends(ids: seq<string>, id: string, n: nat)
    requires Ascending(ids) && id !in ids && n == Slot(ids, id)
    ensures Ascending(ids[..n] + [id] + ids[n..])
  {
    var r := ids[..n] + [id] + ids[n..];
    forall i, j | 0 <= i < j < |r| ensures Less(r[i], r[j]) {
      if i == n {
        AboveSlot(ids, id, j - 1);
      } else if i < n < j {
        assert r[j] == ids[j - 1];
      }
    }
  }

  lemma AboveSlot(ids: seq<string>, id: string, k: nat)
    requires Ascending(ids) && id !in ids && Slot(ids, id) <= k < |ids|
    ensures Less(id, ids[k])
  {
    var n := Slot(ids, id);
    LessIsConnected(ids[n], id);
    if k > n {
      LessIsTransitive(id, ids[n], ids[k]);
    }
  }

  method SortedIds(s: set<string>) returns (ids: seq<string>)
    ensures Ascending(ids) && SameMembers(ids, s)
  {
    ids := [];
    var todo := s;
    while todo != {}
      invariant todo <= s && Ascending(ids) && SameMembers(ids, s - todo)
      decreases |todo|
    {
      var id :| id in todo;
      var n := Slot(ids, id);
      InsertAscends(ids, id, n);
      InsertMembers(ids, s - todo, id, n);
      ids := ids[..n] + [id] + ids[n..];
      todo := todo - {id};
      assert s - todo == s - (todo + {id}) + {id};
    }
    assert s - {} == s;
  }

  lemma InsertMembers(ids: seq<string>, s: set<string>, id: string, n: nat)
    requires SameMembers(ids, s) && n <= |ids|
    ensures SameMembers(ids[..n] + [id] + ids[n..], s + {id})
  {
    var r := ids[..n] + [id] + ids[n..];
    forall x | x in s + {id} ensures x in r {
      if x == id {
        assert r[n] == id;
      } else {
        var i :| 0 <= i < |ids| && ids[i] == x;
        assert r[if i < n then i else i + 1] == x;
      }
    }
  }

  /** Ids have one ascending order. */
  lemma {:induction false} AscendingIsUnique(a: seq<string>, b: seq<string>, s: set<string>)
    requires Ascending(a) && Ascending(b) && SameMembers(a, s) && SameMembers(b, s)
    ensures a == b
    decreases |a|
  {
    if a == [] || b == [] {
      EmptyMembers(a, s);
      EmptyMembers(b, s);
    } else {
      LeastIsFirst(a, b, s);
      TailMembers(a, s);
      TailMembers(b, s);
      AscendingIsUnique(a[1..], b[1..], s - {a[0]});
      assert a == [a[0]] + a[1..] && b == [b[0]] + b[1..];
    }
  }

  lemma EmptyMembers(a: seq<string>, s: set<string>)
    requires SameMembers(a, s)
    ensures a == [] <==> s == {}
  {
    if a != [] {
      assert a[0] in s;
    }
    if s != {} {
      var id :| id in s;
      assert id in a;
    }
  }

  lemma LeastIsFirst(a: seq<string>, b: seq<string>, s: set<string>)
    requires Ascending(a) && Ascending(b) && SameMembers(a, s) && SameMembers(b, s) && a != [] && b != []
    ensures a[0] == b[0]
  {
    var i :| 0 <= i < |b| && b[i] == a[0];
    var j :| 0 <= j < |a| && a[j] == b[0];
    LessIsAsymmetric(a[0], b[0]);
  }

  lemma TailMembers(a: seq<string>, s: set<string>)
    requires Ascending(a) && SameMembers(a, s) && a != []
    ensures SameMembers(a[1..], s - {a[0]})
  {
    LessIsIrreflexive(a[0]);
    forall x | x in s - {a[0]} ensures x in a[1..] {
      var i :| 0 <= i < |a| && a[i] == x;
      assert a[1..][i - 1] == x;
    }
  }

  // ---------------------------------------------------------------- listing, as the overlay does it

  function Ids<T>(l: seq<T>, idOf: T -> string): seq<string> { seq(|l|, i requires 0 <= i < |l| => idOf(l[i])) }

  /** The listing of what a view holds: each record once, by ascending id. */
  ghost predicate IsListing<T(!new)>(l: seq<T>, idOf: T -> string, view: string -> Option<T>) {
    Ascending(Ids(l, idOf)) && (forall i | 0 <= i < |l| :: view(idOf(l[i])) == Some(l[i]))
    && forall id :: view(id).Some? ==> id in Ids(l, idOf)
  }

  lemma ViewedIsListed<T(!new)>(l: seq<T>, idOf: T -> string, view: string -> Option<T>, id: string, x: T)
    requires IsListing(l, idOf, view) && view(id) == Some(x)
    ensures x in l
  {
    var ids := Ids(l, idOf);
    assert view(id).Some?;
    var i :| 0 <= i < |ids| && ids[i] == id;
    assert view(idOf(l[i])) == Some(l[i]);
  }

  /** There is one such listing. */
  lemma ListingIsUnique<T(!new)>(l: seq<T>, l': seq<T>, idOf: T -> string, view: string -> Option<T>)
    requires IsListing(l, idOf, view) && IsListing(l', idOf, view)
    ensures l == l'
  {
    var ids, ids' := Ids(l, idOf), Ids(l', idOf);
    var s := set id | id in ids;
    forall i | 0 <= i < |ids'| ensures ids'[i] in s {
      assert view(idOf(l'[i])).Some?;
    }
    forall id | id in s ensures id in ids' {
      var i :| 0 <= i < |ids| && ids[i] == id;
      assert view(idOf(l[i])).Some?;
    }
    AscendingIsUnique(ids, ids', s);
    assert |l| == |ids| == |l'|;
    forall i | 0 <= i < |l| ensures l[i] == l'[i] {
      assert ids[i] == ids'[i];
    }
  }

  /** `sorted(out.values(), key=…)`. */
  method InOrder<T(!new)>(out: map<string, T>, idOf: T -> string, ghost view: string -> Option<T>) returns (l: seq<T>)
    requires forall id :: Lookup(out, id) == view(id)
    requires forall id :: id in out ==> idOf(out[id]) == id
    ensures IsListing(l, idOf, view)
  {
    var ids := SortedIds(out.Keys);
    l := seq(|ids|, i requires 0 <= i < |ids| => out[ids[i]]);
    assert Ids(l, idOf) == ids;
    forall i | 0 <= i < |l| ensures view(idOf(l[i])) == Some(l[i]) {
      assert Lookup(out, ids[i]) == view(ids[i]);
    }
    forall id | view(id).Some? ensures id in Ids(l, idOf) {
      assert Lookup(out, id) == view(id);
    }
  }

  /** The loop over the additions, or over a store's records: those picked, under their own ids. */
  method Picked<S(!new), T(!new)>(records: map<string, S>, pick: S -> Option<T>, idOf: T -> string) returns (out: map<string, T>)
    requires forall id :: id in records && pick(records[id]).Some? ==> idOf(pick(records[id]).value) == id
    ensures forall id :: Lookup(out, id) == if id in records then pick(records[id]) else None
  {
    out := map[];
    var todo := records.Keys;
    while todo != {}
      invariant todo <= records.Keys
      invariant forall id :: Lookup(out, id) == if id in records && id !in todo then pick(records[id]) else None
      decreases |todo|
    {
      var key :| key in todo;
      var picked := pick(records[key]);
      if picked.Some? {
        out := out[idOf(picked.value) := picked.value];
      }
      todo := todo - {key};
    }
  }

  /** The loop over the base's own listing. */
  method Below<T(!new)>(added: map<string, T>, l: seq<T>, deletions: set<string>, idOf: T -> string, ghost view: string -> Option<T>)
    returns (out: map<string, T>)
    requires IsListing(l, idOf, view)
    ensures forall id :: Lookup(out, id) == if id in added then Some(added[id]) else if id in deletions then None else view(id)
  {
    out := added;
    for i := 0 to |l|
      invariant forall id :: id in added ==> id in out && out[id] == added[id]
      invariant forall id :: id in out && id !in added ==> id !in deletions && view(id) == Some(out[id])
      invariant forall j | 0 <= j < i :: idOf(l[j]) in deletions || idOf(l[j]) in out
    {
      if idOf(l[i]) !in deletions && idOf(l[i]) !in out {
        out := out[idOf(l[i]) := l[i]];
      }
    }
    forall id ensures Lookup(out, id) == if id in added then Some(added[id]) else if id in deletions then None else view(id) {
      if view(id).Some? && id !in deletions {
        var j :| 0 <= j < |l| && Ids(l, idOf)[j] == id;
        assert idOf(l[j]) in deletions || idOf(l[j]) in out;
      }
    }
  }

  function EntityId(e: EntityRecord): string { e.artifactId }

  function DiagramId(d: DiagramRecord): string { d.artifactId }

  function EntityView(r: Repository, f: EntityFilter): string -> Option<EntityRecord> { (id: string) => ListedEntity(r, f, id) }

  function DiagramView(r: Repository, f: DiagramFilter): string -> Option<DiagramRecord> { (id: string) => ListedDiagram(r, f, id) }

  function PickEntity(f: EntityFilter): Record -> Option<EntityRecord> {
    (r: Record) => if r.Entity? && EntityMatches(r.entity, f) then Some(r.entity) else None
  }

  function PickDiagram(f: DiagramFilter): Record -> Option<DiagramRecord> {
    (r: Record) => if r.Diagram? && DiagramMatches(r.diagram, f) then Some(r.diagram) else None
  }

  function StoredEntity(f: EntityFilter): EntityRecord -> Option<EntityRecord> {
    (e: EntityRecord) => if EntityMatches(e, f) then Some(e) else None
  }

  function StoredDiagram(f: DiagramFilter): DiagramRecord -> Option<DiagramRecord> {
    (d: DiagramRecord) => if DiagramMatches(d, f) then Some(d) else None
  }

  method ListEntities(r: Repository, f: EntityFilter) returns (l: seq<EntityRecord>)
    requires WellKeyed(r)
    ensures IsListing(l, EntityId, EntityView(r, f))
    decreases r
  {
    var out: map<string, EntityRecord>;
    match r {
      case Committed(store) =>
        out := Picked(store.entities, StoredEntity(f), EntityId);
      case Overlaid(base, overlay) =>
        var added := Picked(overlay.additions, PickEntity(f), EntityId);
        var below := ListEntities(base, f);
        out := Below(added, below, overlay.deletions, EntityId, EntityView(base, f));
    }
    forall id ensures Lookup(out, id) == EntityView(r, f)(id) {
    }
    forall id | id in out ensures EntityId(out[id]) == id {
      assert Lookup(out, id) == EntityView(r, f)(id);
      ListedAreKeyed(r, f, id);
    }
    l := InOrder(out, EntityId, EntityView(r, f));
  }

  method ListDiagrams(r: Repository, f: DiagramFilter) returns (l: seq<DiagramRecord>)
    requires WellKeyed(r)
    ensures IsListing(l, DiagramId, DiagramView(r, f))
    decreases r
  {
    var out: map<string, DiagramRecord>;
    match r {
      case Committed(store) =>
        out := Picked(store.diagrams, StoredDiagram(f), DiagramId);
      case Overlaid(base, overlay) =>
        var added := Picked(overlay.additions, PickDiagram(f), DiagramId);
        var below := ListDiagrams(base, f);
        out := Below(added, below, overlay.deletions, DiagramId, DiagramView(base, f));
    }
    forall id ensures Lookup(out, id) == DiagramView(r, f)(id) {
    }
    forall id | id in out ensures DiagramId(out[id]) == id {
      assert Lookup(out, id) == DiagramView(r, f)(id);
      ListedDiagramsAreKeyed(r, f, id);
    }
    l := InOrder(out, DiagramId, DiagramView(r, f));
  }

  // ---------------------------------------------------------------- looking up and listing agree

  /** An id resolves to a record exactly when the unfiltered listing shows that record under it. */
  lemma {:induction false} GetIffListed(r: Repository, id: string)
    ensures GetEntity(r, id) == ListedEntity(r, ANY, id)
  {
    if r.Overlaid? {
      GetIffListed(r.base, id);
    }
  }

  lemma {:induction false} GetDiagramIffListed(r: Repository, id: string)
    ensures GetDiagram(r, id) == ListedDiagram(r, ANY_DIAGRAM, id)
  {
    if r.Overlaid? {
      GetDiagramIffListed(r.base, id);
    }
  }

  /** A filtered listing shows every matching record the view holds. */
  lemma {:induction false} FilteredShowsMatches(r: Repository, f: EntityFilter, id: string)
    requires GetEntity(r, id).Some? && EntityMatches(GetEntity(r, id).value, f)
    ensures ListedEntity(r, f, id) == GetEntity(r, id)
  {
    if r.Overlaid? && !AddsEntity(r.overlay, id) {
      FilteredShowsMatches(r.base, f, id);
    }
  }

  /** And shows nothing under an id the view does not hold; but the record may be a stale one. */
  lemma {:induction false} FilteredIsVisible(r: Repository, f: EntityFilter, id: string)
    requires ListedEntity(r, f, id).Some?
    ensures GetEntity(r, id).Some? && EntityMatches(ListedEntity(r, f, id).value, f)
  {
    if r.Overlaid? && !(AddsEntity(r.overlay, id) && EntityMatches(r.overlay.additions[id].entity, f)) {
      FilteredIsVisible(r.base, f, id);
    }
  }

  /** Diagram listings likewise show every matching diagram of the view. */
  lemma {:induction false} FilteredShowsDiagrams(r: Repository, f: DiagramFilter, id: string)
    requires GetDiagram(r, id).Some? && DiagramMatches(GetDiagram(r, id).value, f)
    ensures ListedDiagram(r, f, id) == GetDiagram(r, id)
  {
    if r.Overlaid? && !AddsDiagram(r.overlay, id) {
      FilteredShowsDiagrams(r.base, f, id);
    }
  }

  /** Each record of a filtered listing has the type, the domain and the status asked for, where asked for. */
  lemma ListedAsAsked(r: Repository, f: EntityFilter, l: seq<EntityRecord>, e: EntityRecord)
    requires IsListing(l, EntityId, EntityView(r, f)) && e in l
    ensures f.artifactType.Some? ==> e.artifactType == f.artifactType.value
    ensures f.domain.Some? ==> e.domain == f.domain.value
    ensures f.status.Some? ==> e.status == f.status.value
  {
    FilteredIsVisible(r, f, e.artifactId);
  }

  /** And each record in view that has them is there. */
  lemma AskedIsListed(r: Repository, f: EntityFilter, l: seq<EntityRecord>, id: string, e: EntityRecord)
    requires IsListing(l, EntityId, EntityView(r, f)) && GetEntity(r, id) == Some(e)
    requires f.artifactType.Some? ==> e.artifactType == f.artifactType.value
    requires f.domain.Some? ==> e.domain == f.domain.value
    requires f.status.Some? ==> e.status == f.status.value
    ensures e in l
  {
    FilteredShowsMatches(r, f, id);
    ViewedIsListed(l, EntityId, EntityView(r, f), id, e);
  }

  lemma {:induction false} ListedDiagramMatches(r: Repository, f: DiagramFilter, id: string)
    requires ListedDiagram(r, f, id).Some?
    ensures DiagramMatches(ListedDiagram(r, f, id).value, f)
  {
    if r.Overlaid? && !(AddsDiagram(r.overlay, id) && DiagramMatches(r.overlay.additions[id].diagram, f)) {
      ListedDiagramMatches(r.base, f, id);
    }
  }

  /** Diagram listings likewise. */
  lemma ListedDiagramAsAsked(r: Repository, f: DiagramFilter, l: seq<DiagramRecord>, d: DiagramRecord)
    requires IsListing(l, DiagramId, DiagramView(r, f)) && d in l
    ensures f.diagramType.Some? ==> d.diagramType == f.diagramType.value
    ensures f.status.Some? ==> d.status == f.status.value
  {
    ListedDiagramMatches(r, f, d.artifactId);
  }

  lemma AskedDiagramIsListed(r: Repository, f: DiagramFilter, l: seq<DiagramRecord>, id: string, d: DiagramRecord)
    requires IsListing(l, DiagramId, DiagramView(r, f)) && GetDiagram(r, id) == Some(d)
    requires f.diagramType.Some? ==> d.diagramType == f.diagramType.value
    requires f.status.Some? ==> d.status == f.status.value
    ensures d in l
  {
    FilteredShowsDiagrams(r, f, id);
    ViewedIsListed(l, DiagramId, DiagramView(r, f), id, d);
  }

  function PassedDiagram(d: Option<DiagramRecord>, f: DiagramFilter): Option<DiagramRecord> {
    if d.Some? && DiagramMatches(d.value, f) then d else None
  }

  /** What the filter passes of a record, if there is one. */
  function Passed(e: Option<EntityRecord>, f: EntityFilter): Option<EntityRecord> {
    if e.Some? && EntityMatches(e.value, f) then e else None
  }

  /** Filtering a listing is listing what the filter passes. */
  ghost predicate Exact(r: Repository) {
    forall f, id :: ListedEntity(r, f, id).Some? ==> GetEntity(r, id) == ListedEntity(r, f, id)
  }

  lemma ExactMeansFiltered(r: Repository, f: EntityFilter, id: string)
    requires Exact(r)
    ensures ListedEntity(r, f, id) == Passed(ListedEntity(r, ANY, id), f)
  {
    GetIffListed(r, id);
    if Passed(GetEntity(r, id), f).Some? {
      FilteredShowsMatches(r, f, id);
    }
    if ListedEntity(r, f, id).Some? {
      FilteredIsVisible(r, f, id);
    }
  }

  predicate Alike(a: EntityRecord, b: EntityRecord) {
    a.artifactType == b.artifactType && a.domain == b.domain && a.status == b.status
  }

  /** Every added id the base resolves is suppressed, or keeps what filters look at. */
  ghost predicate Clean(base: Repository, overlay: Overlay) {
    forall id :: AddsEntity(overlay, id) && id !in overlay.deletions && GetEntity(base, id).Some? ==>
      Alike(overlay.additions[id].entity, GetEntity(base, id).value)
  }

  lemma CleanIsExact(base: Repository, overlay: Overlay)
    requires Exact(base) && Clean(base, overlay)
    ensures Exact(Overlaid(base, overlay))
  {
    var r := Overlaid(base, overlay);
    forall f, id | ListedEntity(r, f, id).Some? ensures GetEntity(r, id) == ListedEntity(r, f, id) {
      if !(AddsEntity(overlay, id) && EntityMatches(overlay.additions[id].entity, f)) {
        assert GetEntity(base, id) == ListedEntity(base, f, id);
        FilteredIsVisible(base, f, id);
      }
    }
  }

  function Likeness(e: EntityRecord): EntityFilter { EntityFilter(Some(e.artifactType), Some(e.domain), Some(e.status)) }

  lemma ExactIsClean(base: Repository, overlay: Overlay)
    requires Exact(Overlaid(base, overlay))
    ensures Clean(base, overlay)
  {
    var r := Overlaid(base, overlay);
    forall id | AddsEntity(overlay, id) && id !in overlay.deletions && GetEntity(base, id).Some?
      ensures Alike(overlay.additions[id].entity, GetEntity(base, id).value)
    {
      var f := Likeness(GetEntity(base, id).value);
      FilteredShowsMatches(base, f, id);
      assert ListedEntity(r, f, id).Some?;
      FilteredIsVisible(r, f, id);
    }
  }

  /** Over a base whose filtered listings are exact, an overlay's are exact if and only if it is clean. */
  lemma ExactIffClean(base: Repository, overlay: Overlay)
    requires Exact(base)
    ensures Exact(Overlaid(base, overlay)) <==> Clean(base, overlay)
  {
    if Clean(base, overlay) {
      CleanIsExact(base, overlay);
    }
    if Exact(Overlaid(base, overlay)) {
      ExactIsClean(base, overlay);
    }
  }

  function Sample(id: string, domain: string): EntityRecord { EntityRecord(id, "", "", "", "", domain, id, None) }

  /** Not every overlay is: one that moves an entity to another domain still lists it in the old one. */
  lemma StaleListing(id: string, domain: string, other: string)
    requires domain != other
    ensures var base := Committed(Store(map[id := Sample(id, domain)], map[]));
            var r := Overlaid(base, Overlay(map[id := Entity(Sample(id, other))], {}));
            var f := EntityFilter(None, Some(domain), None);
            Exact(base) && GetEntity(r, id) == Some(Sample(id, other)) && ListedEntity(r, f, id) == Some(Sample(id, domain))
  {
    CommittedIsExact(Store(map[id := Sample(id, domain)], map[]));
  }

  lemma CommittedIsExact(store: Store)
    ensures Exact(Committed(store))
  {
  }

  // ---------------------------------------------------------------- changing diagrams

  function EntitiesById(es: seq<EntityRecord>): map<string, EntityRecord> {
    if es == [] then map[] else EntitiesById(es[..|es| - 1])[es[|es| - 1].artifactId := es[|es| - 1]]
  }

  function ConnectionsById(cs: seq<ConnectionRecord>): map<string, ConnectionRecord> {
    if cs == [] then map[] else ConnectionsById(cs[..|cs| - 1])[cs[|cs| - 1].artifactId := cs[|cs| - 1]]
  }

  /** What a diagram carries: its entities and connections, and these by id, a later one of the same
      id winning. */
  datatype Extraction =
    Extraction(entityList: DiagramRecord -> seq<EntityRecord>, connectionList: DiagramRecord -> seq<ConnectionRecord>)
  {
    function entities(d: DiagramRecord): map<string, EntityRecord> { EntitiesById(entityList(d)) }

    function connections(d: DiagramRecord): map<string, ConnectionRecord> { ConnectionsById(connectionList(d)) }
  }

  function WorkspaceOf(types: map<string, set<string>>, d: DiagramRecord): set<string> {
    if d.diagramType in types then types[d.diagramType] else {}
  }

  /** Extraction with the workspace-scoped entity types of each diagram type. */
  function ExtractionFor(types: map<string, set<string>>): Extraction {
    Extraction((d: DiagramRecord) => Extracted(d, WorkspaceOf(types, d)),
               (d: DiagramRecord) => ExtractedConnections(d, WorkspaceOf(types, d)))
  }

  /** One step: diagrams changed, ids deleted, and how the changed diagrams are read. */
  datatype Change = Change(changed: seq<DiagramRecord>, deleted: set<string>, extraction: Extraction)

  function ChangedIds(changed: seq<DiagramRecord>): set<string> { set d | d in changed :: d.artifactId }

  /** The ids a repository may resolve to an entity. */
  function KnownIds(r: Repository): set<string> {
    match r
    case Committed(store) => store.entities.Keys
    case Overlaid(base, overlay) => KnownIds(base) + overlay.additions.Keys
  }

  lemma {:induction false} ListedIsKnown(r: Repository, f: EntityFilter, id: string)
    requires ListedEntity(r, f, id).Some?
    ensures id in KnownIds(r)
  {
    if r.Overlaid? && id !in r.overlay.additions {
      ListedIsKnown(r.base, f, id);
    }
  }

  function OfType(d: DiagramRecord): EntityFilter { EntityFilter(None, Some(d.diagramType), None) }

  predicate IsChild(base: Repository, d: DiagramRecord, id: string) {
    var e := ListedEntity(base, OfType(d), id);
    e.Some? && e.value.hostDiagramId == Some(d.artifactId)
  }

  function ChildEntityIds(base: Repository, d: DiagramRecord): set<string> {
    set id | id in KnownIds(base) && IsChild(base, d, id)
  }

  lemma ChildIffListed(base: Repository, d: DiagramRecord, id: string)
    ensures id in ChildEntityIds(base, d) <==> IsChild(base, d, id)
  {
    if IsChild(base, d, id) {
      ListedIsKnown(base, OfType(d), id);
    }
  }

  function ChildrenOf(base: Repository, id: string): set<string> {
    match GetDiagram(base, id) case None => {} case Some(d) => ChildEntityIds(base, d)
  }

  function ChildrenOfAll(base: Repository, ids: set<string>): set<string> {
    set d, id | d in ids && id in ChildrenOf(base, d) :: id
  }

  function Touched(c: Change): set<string> { c.deleted + ChangedIds(c.changed) }

  function Suppressed(base: Repository, touched: set<string>): set<string> { touched + ChildrenOfAll(base, touched) }

  function WithEntities(m: map<string, Record>, es: seq<EntityRecord>): map<string, Record>
    decreases |es|
  {
    if es == [] then m else WithEntities(m, es[..|es| - 1])[es[|es| - 1].artifactId := Entity(es[|es| - 1])]
  }

  function WithConnections(m: map<string, Record>, cs: seq<ConnectionRecord>): map<string, Record>
    decreases |cs|
  {
    if cs == [] then m else WithConnections(m, cs[..|cs| - 1])[cs[|cs| - 1].artifactId := Connection(cs[|cs| - 1])]
  }

  lemma {:induction false} WithEntitiesAt(m: map<string, Record>, es: seq<EntityRecord>, id: string)
    ensures Lookup(WithEntities(m, es), id)
         == if id in EntitiesById(es) then Some(Entity(EntitiesById(es)[id])) else Lookup(m, id)
    decreases |es|
  {
    if es != [] {
      WithEntitiesAt(m, es[..|es| - 1], id);
    }
  }

  lemma {:induction false} WithConnectionsAt(m: map<string, Record>, cs: seq<ConnectionRecord>, id: string)
    ensures Lookup(WithConnections(m, cs), id)
         == if id in ConnectionsById(cs) then Some(Connection(ConnectionsById(cs)[id])) else Lookup(m, id)
    decreases |cs|
  {
    if cs != [] {
      WithConnectionsAt(m, cs[..|cs| - 1], id);
    }
  }

  /** What one changed diagram adds: itself, its entities, its connections. */
  function WithDiagram(m: map<string, Record>, d: DiagramRecord, x: Extraction): map<string, Record> {
    WithConnections(WithEntities(m[d.artifactId := Diagram(d)], x.entityList(d)), x.connectionList(d))
  }

  function AddedAt(d: DiagramRecord, x: Extraction, id: string): Option<Record> {
    if id in x.connections(d) then Some(Connection(x.connections(d)[id]))
    else if id in x.entities(d) then Some(Entity(x.entities(d)[id]))
    else if id == d.artifactId then Some(Diagram(d))
    else None
  }

  lemma WithDiagramAt(m: map<string, Record>, d: DiagramRecord, x: Extraction, id: string)
    ensures Lookup(WithDiagram(m, d, x), id) == if AddedAt(d, x, id).Some? then AddedAt(d, x, id) else Lookup(m, id)
  {
    var start := m[d.artifactId := Diagram(d)];
    WithEntitiesAt(start, x.entityList(d), id);
    WithConnectionsAt(WithEntities(start, x.entityList(d)), x.connectionList(d), id);
  }

  function Additions(changed: seq<DiagramRecord>, x: Extraction): map<string, Record> {
    if changed == [] then map[] else WithDiagram(Additions(changed[..|changed| - 1], x), changed[|changed| - 1], x)
  }

  function With(base: Repository, c: Change): Repository {
    Overlaid(base, Overlay(Additions(c.changed, c.extraction), Suppressed(base, Touched(c))))
  }

  method ChildIds(base: Repository, d: DiagramRecord) returns (ids: set<string>)
    requires WellKeyed(base)
    ensures ids == ChildEntityIds(base, d)
  {
    var l := ListEntities(base, OfType(d));
    ids := {};
    for i := 0 to |l|
      invariant forall id :: id in ids <==> exists j :: 0 <= j < i && l[j].artifactId == id && l[j].hostDiagramId == Some(d.artifactId)
    {
      if l[i].hostDiagramId == Some(d.artifactId) {
        ids := ids + {l[i].artifactId};
      }
    }
    ListedChildren(base, d, l, ids);
  }

  lemma ListedChildren(base: Repository, d: DiagramRecord, l: seq<EntityRecord>, ids: set<string>)
    requires IsListing(l, EntityId, EntityView(base, OfType(d)))
    requires forall id :: id in ids <==> exists j :: 0 <= j < |l| && l[j].artifactId == id && l[j].hostDiagramId == Some(d.artifactId)
    ensures ids == ChildEntityIds(base, d)
  {
    var view := EntityView(base, OfType(d));
    forall id ensures id in ids <==> id in ChildEntityIds(base, d) {
      ChildIffListed(base, d, id);
      if id in ids {
        var j :| 0 <= j < |l| && l[j].artifactId == id && l[j].hostDiagramId == Some(d.artifactId);
        assert view(EntityId(l[j])) == Some(l[j]);
      }
      if IsChild(base, d, id) {
        assert view(id).Some?;
        var j :| 0 <= j < |l| && Ids(l, EntityId)[j] == id;
        assert view(EntityId(l[j])) == Some(l[j]);
      }
    }
  }

  /** What suppressing one diagram adds: the ids of its children in the base view. */
  method SuppressOne(base: Repository, id: string, suppressions: set<string>) returns (r: set<string>)
    requires WellKeyed(base)
    ensures r == suppressions + ChildrenOf(base, id)
  {
    var diagram := GetDiagram(base, id);
    r := suppressions;
    if diagram.Some? {
      var children := ChildIds(base, diagram.value);
      r := r + children;
    }
  }

  /** The loop over the deleted ids. */
  method SuppressDeleted(base: Repository, deleted: set<string>) returns (suppressions: set<string>)
    requires WellKeyed(base)
    ensures suppressions == deleted + ChildrenOfAll(base, deleted)
  {
    suppressions := deleted;
    var todo := deleted;
    while todo != {}
      invariant todo <= deleted
      invariant suppressions == deleted + ChildrenOfAll(base, deleted - todo)
      decreases |todo|
    {
      var did :| did in todo;
      ghost var done := deleted - todo;
      suppressions := SuppressOne(base, did, suppressions);
      todo := todo - {did};
      assert deleted - todo == done + {did};
      OneMoreTouched(base, done, did);
    }
    assert deleted - {} == deleted;
  }

  lemma OneMoreTouched(base: Repository, ids: set<string>, id: string)
    ensures ChildrenOfAll(base, ids + {id}) == ChildrenOfAll(base, ids) + ChildrenOf(base, id)
  {
  }

  /** The loop over the changed diagrams, suppressions. */
  method SuppressChanged(base: Repository, changed: seq<DiagramRecord>, deleted: set<string>) returns (suppressions: set<string>)
    requires WellKeyed(base)
    ensures suppressions == Suppressed(base, deleted + ChangedIds(changed))
  {
    suppressions := SuppressDeleted(base, deleted);
    assert deleted + ChangedIds(changed[..0]) == deleted;
    for n := 0 to |changed|
      invariant suppressions == Suppressed(base, deleted + ChangedIds(changed[..n]))
    {
      OneMoreChanged(base, changed, n, deleted);
      suppressions := suppressions + {changed[n].artifactId};
      suppressions := SuppressOne(base, changed[n].artifactId, suppressions);
    }
    assert changed[..|changed|] == changed;
  }

  lemma OneMoreChanged(base: Repository, changed: seq<DiagramRecord>, n: nat, deleted: set<string>)
    requires n < |changed|
    ensures Suppressed(base, deleted + ChangedIds(changed[..n + 1]))
         == Suppressed(base, deleted + ChangedIds(changed[..n])) + {changed[n].artifactId} + ChildrenOf(base, changed[n].artifactId)
  {
    var touched := deleted + ChangedIds(changed[..n]);
    assert changed[..n + 1] == changed[..n] + [changed[n]];
    assert ChangedIds(changed[..n + 1]) == ChangedIds(changed[..n]) + {changed[n].artifactId};
    assert deleted + ChangedIds(changed[..n + 1]) == touched + {changed[n].artifactId};
    OneMoreTouched(base, touched, changed[n].artifactId);
  }

  /** The loop over the entities of a changed diagram. */
  method AddEntities(additions: map<string, Record>, es: seq<EntityRecord>) returns (r: map<string, Record>)
    ensures r == WithEntities(additions, es)
  {
    r := additions;
    for i := 0 to |es|
      invariant r == WithEntities(additions, es[..i])
    {
      assert es[..i + 1][..i] == es[..i];
      r := r[es[i].artifactId := Entity(es[i])];
    }
    assert es[..|es|] == es;
  }

  /** The loop over its connections. */
  method AddConnections(additions: map<string, Record>, cs: seq<ConnectionRecord>) returns (r: map<string, Record>)
    ensures r == WithConnections(additions, cs)
  {
    r := additions;
    for i := 0 to |cs|
      invariant r == WithConnections(additions, cs[..i])
    {
      assert cs[..i + 1][..i] == cs[..i];
      r := r[cs[i].artifactId := Connection(cs[i])];
    }
    assert cs[..|cs|] == cs;
  }

  lemma ExtractionIs(types: map<string, set<string>>, d: DiagramRecord)
    ensures ExtractionFor(types).entityList(d) == Extracted(d, WorkspaceOf(types, d))
    ensures ExtractionFor(types).connectionList(d) == ExtractedConnections(d, WorkspaceOf(types, d))
  {
  }

  /** What one changed diagram adds, in the order it is added. */
  method AddOne(additions: map<string, Record>, d: DiagramRecord, types: map<string, set<string>>) returns (r: map<string, Record>)
    ensures r == WithDiagram(additions, d, ExtractionFor(types))
  {
    var es := ExtractDiagramEntities(d, WorkspaceOf(types, d));
    var cs := ExtractDiagramConnections(d, WorkspaceOf(types, d));
    ExtractionIs(types, d);
    r := additions[d.artifactId := Diagram(d)];
    r := AddEntities(r, es);
    r := AddConnections(r, cs);
  }

  /** The loop over the changed diagrams, additions. */
  method AddChanged(changed: seq<DiagramRecord>, types: map<string, set<string>>) returns (additions: map<string, Record>)
    ensures additions == Additions(changed, ExtractionFor(types))
  {
    additions := map[];
    ghost var x := ExtractionFor(types);
    for n := 0 to |changed|
      invariant additions == Additions(changed[..n], x)
    {
      OneMoreAdded(changed, n, x);
      additions := AddOne(additions, changed[n], types);
    }
    assert changed[..|changed|] == changed;
  }

  lemma OneMoreAdded(changed: seq<DiagramRecord>, n: nat, x: Extraction)
    requires n < |changed|
    ensures Additions(changed[..n + 1], x) == WithDiagram(Additions(changed[..n], x), changed[n], x)
  {
    assert changed[..n + 1][..n] == changed[..n];
  }

  method CandidateWith(base: Repository, changed: seq<DiagramRecord>, deleted: set<string>, types: map<string, set<string>>)
    returns (r: Repository)
    requires WellKeyed(base)
    ensures r == With(base, Change(changed, deleted, ExtractionFor(types)))
  {
    var suppressions := SuppressChanged(base, changed, deleted);
    var additions := AddChanged(changed, types);
    r := Overlaid(base, Overlay(additions, suppressions));
  }
}
