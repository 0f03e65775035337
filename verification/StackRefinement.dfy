/** A stack of overlays refines the repository in which the changes have been applied. */
module StackRefinement {
  import opened Text
  import opened DiagramExtraction
  import opened CandidateRepositories
  import opened CandidateStacks

  // ---------------------------------------------------------------- applying a change

  function HostedBy(store: Store, diagrams: set<string>): set<string> {
    set id | id in store.entities && store.entities[id].hostDiagramId.Some? && store.entities[id].hostDiagramId.value in diagrams
  }

  function Removed(store: Store, c: Change): set<string> { c.deleted + HostedBy(store, Touched(c)) }

  function CarriedByAll(changed: seq<DiagramRecord>, x: Extraction): map<string, EntityRecord> {
    if changed == [] then map[] else CarriedByAll(changed[..|changed| - 1], x) + x.entities(changed[|changed| - 1])
  }

  function ChangedDiagrams(changed: seq<DiagramRecord>): map<string, DiagramRecord> {
    if changed == [] then map[]
    else ChangedDiagrams(changed[..|changed| - 1])[changed[|changed| - 1].artifactId := changed[|changed| - 1]]
  }

  /** The store a change leads to: what is deleted is gone, what touched diagrams hosted is gone, and
      the changed diagrams are there with what they carry. */
  function Applied(store: Store, c: Change): Store {
    Store(store.entities - Removed(store, c) + CarriedByAll(c.changed, c.extraction),
          store.diagrams - c.deleted + ChangedDiagrams(c.changed))
  }

  function AppliedAll(store: Store, cs: seq<Change>): Store {
    if cs == [] then store else Applied(AppliedAll(store, cs[..|cs| - 1]), cs[|cs| - 1])
  }

  // ---------------------------------------------------------------- what is asked of a view

  /** Two views give the same answer to each question about an id: both lookups and both listings. */
  predicate SameAnswers(r: Repository, r': Repository, id: string, f: EntityFilter, g: DiagramFilter) {
    GetEntity(r, id) == GetEntity(r', id) && ListedEntity(r, f, id) == ListedEntity(r', f, id)
    && GetDiagram(r, id) == GetDiagram(r', id) && ListedDiagram(r, g, id) == ListedDiagram(r', g, id)
  }

  /** No question tells these views apart. */
  ghost predicate Observed(r: Repository, r': Repository) { forall id, f, g :: SameAnswers(r, r', id, f, g) }

  /** Such views list the same records in the same order. */
  lemma ObservedListAlike(r: Repository, r': Repository, f: EntityFilter, l: seq<EntityRecord>, l': seq<EntityRecord>)
    requires Observed(r, r') && IsListing(l, EntityId, EntityView(r, f)) && IsListing(l', EntityId, EntityView(r', f))
    ensures l == l'
  {
    var view, view' := EntityView(r, f), EntityView(r', f);
    forall id ensures view(id) == view'(id) {
      assert SameAnswers(r, r', id, f, ANY_DIAGRAM);
    }
    ListingIsUnique(l, l', EntityId, view);
  }

  lemma ObservedListDiagramsAlike(r: Repository, r': Repository, g: DiagramFilter, l: seq<DiagramRecord>, l': seq<DiagramRecord>)
    requires Observed(r, r') && IsListing(l, DiagramId, DiagramView(r, g)) && IsListing(l', DiagramId, DiagramView(r', g))
    ensures l == l'
  {
    var view, view' := DiagramView(r, g), DiagramView(r', g);
    forall id ensures view(id) == view'(id) {
      assert SameAnswers(r, r', id, ANY, g);
    }
    ListingIsUnique(l, l', DiagramId, view);
  }

  ghost predicate SameRecords(r: Repository, store: Store) {
    forall id :: GetEntity(r, id) == Lookup(store.entities, id) && GetDiagram(r, id) == Lookup(store.diagrams, id)
  }

  /** A view that resolves as a store does and lists exactly answers every question as the store does. */
  lemma RecordsDecide(r: Repository, store: Store)
    requires SameRecords(r, store) && Exact(r) && DiagramsExact(r)
    ensures Observed(r, Committed(store))
  {
    CommittedIsExact(store);
    CommittedListsDiagramsExactly(store);
    forall id, f, g ensures SameAnswers(r, Committed(store), id, f, g) {
      ExactMeansFiltered(r, f, id);
      ExactMeansFiltered(Committed(store), f, id);
      GetIffListed(r, id);
      GetIffListed(Committed(store), id);
    }
  }

  // ---------------------------------------------------------------- one step

  lemma {:induction false} CarriedAt(changed: seq<DiagramRecord>, x: Extraction, i: nat, id: string)
    requires NoClash(changed, x) && i < |changed| && id in x.entities(changed[i])
    ensures Lookup(CarriedByAll(changed, x), id) == Some(x.entities(changed[i])[id])
  {
    var n := |changed| - 1;
    if i < n {
      NoClashBefore(changed, x, n);
      CarriedAt(changed[..n], x, i, id);
      assert Separate(changed[i], changed[n], x);
    }
  }

  lemma {:induction false} CarriedFrom(changed: seq<DiagramRecord>, x: Extraction, id: string) returns (i: nat)
    requires id in CarriedByAll(changed, x)
    ensures i < |changed| && id in x.entities(changed[i])
  {
    i := |changed| - 1;
    if id !in x.entities(changed[i]) {
      i := CarriedFrom(changed[..i], x, id);
    }
  }

  /** The entities an overlay adds are those the changed diagrams carry. */
  lemma AddedIsCarried(base: Repository, c: Change, id: string)
    requires NoClash(c.changed, c.extraction)
    ensures AddsEntity(With(base, c).overlay, id) <==> id in CarriedByAll(c.changed, c.extraction)
    ensures id in CarriedByAll(c.changed, c.extraction) ==>
      Lookup(With(base, c).overlay.additions, id) == Some(Entity(CarriedByAll(c.changed, c.extraction)[id]))
  {
    if AddsEntity(With(base, c).overlay, id) {
      var i := AddedEntityIsExtracted(c.changed, c.extraction, id);
      CarriedAt(c.changed, c.extraction, i, id);
    }
    if id in CarriedByAll(c.changed, c.extraction) {
      var i := CarriedFrom(c.changed, c.extraction, id);
      CarriedAt(c.changed, c.extraction, i, id);
      ExtractedIsAdded(c.changed, c.extraction, i, id);
    }
  }

  lemma DiagramIsKeyed(base: Repository, d: string)
    requires WellKeyed(base) && GetDiagram(base, d).Some?
    ensures GetDiagram(base, d).value.artifactId == d
  {
    GetDiagramIffListed(base, d);
    ListedDiagramsAreKeyed(base, ANY_DIAGRAM, d);
  }

  /** Over an exact view, a diagram's children are the entities it hosts. */
  lemma ChildIsHosted(base: Repository, d: string, id: string)
    requires WellKeyed(base) && Exact(base) && id in ChildrenOf(base, d)
    ensures IsHosted(base, d, id)
  {
    var diagram := GetDiagram(base, d).value;
    DiagramIsKeyed(base, d);
    ChildIffListed(base, diagram, id);
    assert GetEntity(base, id) == ListedEntity(base, OfType(diagram), id);
  }

  /** What every view in a stack keeps. */
  ghost predicate Consistent(r: Repository) { WellKeyed(r) && Hosted(r) && Apart(r) && Exact(r) }

  /** What a step suppresses of the entities in view is what applying the change removes. */
  lemma SuppressedIffRemoved(base: Repository, store: Store, c: Change, id: string)
    requires SameRecords(base, store) && Consistent(base) && KeepsApart(base, c) && GetEntity(base, id).Some?
    ensures id in Suppressed(base, Touched(c)) <==> id in Removed(store, c)
  {
    assert HostIsThere(base, id) && GetEntity(base, id) == Lookup(store.entities, id);
    if id in Removed(store, c) && id !in c.deleted {
      HostedIsSuppressed(base, c, id);
    }
    if id in Suppressed(base, Touched(c)) && id !in Touched(c) {
      var h :| h in Touched(c) && id in ChildrenOf(base, h);
      ChildIsHosted(base, h, id);
    }
  }

  lemma StepEntity(base: Repository, store: Store, c: Change, id: string)
    requires SameRecords(base, store) && Consistent(base) && KeepsApart(base, c)
    ensures GetEntity(With(base, c), id) == Lookup(Applied(store, c).entities, id)
  {
    AddedIsCarried(base, c, id);
    assert GetEntity(base, id) == Lookup(store.entities, id);
    if GetEntity(base, id).Some? {
      SuppressedIffRemoved(base, store, c, id);
    }
  }

  lemma {:induction false} ChangedAt(changed: seq<DiagramRecord>, x: Extraction, i: nat)
    requires NoClash(changed, x) && i < |changed|
    ensures Lookup(ChangedDiagrams(changed), changed[i].artifactId) == Some(changed[i])
  {
    var n := |changed| - 1;
    if i < n {
      NoClashBefore(changed, x, n);
      ChangedAt(changed[..n], x, i);
      assert Separate(changed[i], changed[n], x);
    }
  }

  lemma {:induction false} ChangedFrom(changed: seq<DiagramRecord>, id: string)
    ensures id in ChangedDiagrams(changed) <==> id in ChangedIds(changed)
  {
    if changed != [] {
      var init, last := changed[..|changed| - 1], changed[|changed| - 1];
      assert changed == init + [last];
      ChangedFrom(init, id);
      assert ChangedIds(changed) == ChangedIds(init) + {last.artifactId};
    }
  }

  lemma StepDiagram(base: Repository, store: Store, c: Change, id: string)
    requires SameRecords(base, store) && Apart(base) && KeepsApart(base, c)
    ensures GetDiagram(With(base, c), id) == Lookup(Applied(store, c).diagrams, id)
  {
    ChangedFrom(c.changed, id);
    assert GetDiagram(base, id) == Lookup(store.diagrams, id);
    if id in ChangedIds(c.changed) {
      var i :| 0 <= i < |c.changed| && c.changed[i].artifactId == id;
      ChangedAt(c.changed, c.extraction, i);
      ChangedDiagramIsShown(base, c, i);
    } else {
      NotAddedAsDiagram(base, c, id);
      if id in Suppressed(base, Touched(c)) {
        SuppressedIsTouchedOrEntity(base, c, id);
      }
    }
  }

  lemma NotAddedAsDiagram(base: Repository, c: Change, id: string)
    requires id !in ChangedIds(c.changed)
    ensures !AddsDiagram(With(base, c).overlay, id)
  {
    if AddsDiagram(With(base, c).overlay, id) {
      var i := AddedDiagramIsChanged(c.changed, c.extraction, id);
    }
  }

  /** One overlay over a view resolves as the store the change leads to. */
  lemma StepShows(base: Repository, store: Store, c: Change)
    requires SameRecords(base, store) && Consistent(base) && KeepsApart(base, c)
    ensures SameRecords(With(base, c), Applied(store, c))
  {
    forall id ensures GetEntity(With(base, c), id) == Lookup(Applied(store, c).entities, id)
                   && GetDiagram(With(base, c), id) == Lookup(Applied(store, c).diagrams, id) {
      StepEntity(base, store, c, id);
      StepDiagram(base, store, c, id);
    }
  }

  lemma StepStaysConsistent(base: Repository, c: Change)
    requires Consistent(base) && FaithfulChange(c) && KeepsApart(base, c) && Clean(base, With(base, c).overlay)
    ensures Consistent(With(base, c))
  {
    CandidateIsWellKeyed(base, c);
    StepKeepsHosts(base, c);
    CleanIsExact(base, With(base, c).overlay);
  }

  lemma StepListsDiagrams(base: Repository, c: Change)
    requires DiagramsExact(base)
    ensures DiagramsExact(With(base, c))
  {
    forall f, id ensures ListedDiagram(With(base, c), f, id) == PassedDiagram(GetDiagram(With(base, c), id), f) {
      StepListsDiagram(base, c, f, id);
    }
  }

  /** A view no question tells from a committed store lists exactly, as the store does. */
  lemma ObservedIsExact(r: Repository, store: Store)
    requires Observed(r, Committed(store))
    ensures Exact(r)
  {
    CommittedIsExact(store);
    forall f, id | ListedEntity(r, f, id).Some? ensures GetEntity(r, id) == ListedEntity(r, f, id) {
      assert SameAnswers(r, Committed(store), id, f, ANY_DIAGRAM);
    }
  }

  /** One overlay answers every question as the store the change leads to exactly when it is clean. */
  lemma StepShowsIff(base: Repository, store: Store, c: Change)
    requires SameRecords(base, store) && Consistent(base) && DiagramsExact(base) && KeepsApart(base, c)
    ensures Observed(With(base, c), Committed(Applied(store, c))) <==> Clean(base, With(base, c).overlay)
  {
    if Clean(base, With(base, c).overlay) {
      StepShows(base, store, c);
      CleanIsExact(base, With(base, c).overlay);
      StepListsDiagrams(base, c);
      RecordsDecide(With(base, c), Applied(store, c));
    }
    if Observed(With(base, c), Committed(Applied(store, c))) {
      ObservedIsExact(With(base, c), Applied(store, c));
      ExactIsClean(base, With(base, c).overlay);
    }
  }

  // ---------------------------------------------------------------- stacks

  /** Each change is faithful, keeps ids apart and makes a clean overlay. */
  ghost predicate AllOrderly(base: Repository, cs: seq<Change>) { AllKeepApart(base, cs) && AllClean(base, cs) }

  /** A store whose hosted entities have their diagrams and whose ids are used once. */
  ghost predicate SoundStore(store: Store) {
    WellKeyed(Committed(store)) && Hosted(Committed(store)) && Apart(Committed(store))
  }

  lemma {:induction false} StackResolves(store: Store, cs: seq<Change>)
    requires SoundStore(store) && AllOrderly(Committed(store), cs)
    ensures SameRecords(Stack(Committed(store), cs), AppliedAll(store, cs)) && Consistent(Stack(Committed(store), cs))
    decreases |cs|
  {
    if cs == [] {
      CommittedIsExact(store);
    } else {
      var init, c := cs[..|cs| - 1], cs[|cs| - 1];
      StackResolves(store, init);
      StepShows(Stack(Committed(store), init), AppliedAll(store, init), c);
      StepStaysConsistent(Stack(Committed(store), init), c);
    }
  }

  /** Any stack of overlays over a committed store answers every question, lookups and listings under
      every filter, as the committed store would in which all its changes had been applied. */
  lemma StackShows(store: Store, cs: seq<Change>)
    requires SoundStore(store) && AllOrderly(Committed(store), cs)
    ensures Observed(Stack(Committed(store), cs), Committed(AppliedAll(store, cs)))
  {
    StackResolves(store, cs);
    CommittedListsDiagramsExactly(store);
    StackListsDiagramsExactly(Committed(store), cs);
    RecordsDecide(Stack(Committed(store), cs), AppliedAll(store, cs));
  }

  /** The stack answers as its store does, and so does every stack below it. */
  ghost predicate AllShow(store: Store, cs: seq<Change>)
    decreases |cs|
  {
    Observed(Stack(Committed(store), cs), Committed(AppliedAll(store, cs))) && (cs != [] ==> AllShow(store, cs[..|cs| - 1]))
  }

  /** Where ids are kept apart, that is so all the way up exactly when every overlay is clean. */
  lemma {:induction false} StackShowsIff(store: Store, cs: seq<Change>)
    requires SoundStore(store) && AllKeepApart(Committed(store), cs)
    ensures AllShow(store, cs) <==> AllClean(Committed(store), cs)
    decreases |cs|
  {
    if AllClean(Committed(store), cs) {
      StackShows(store, cs);
    }
    if cs != [] {
      var init := cs[..|cs| - 1];
      StackShowsIff(store, init);
      if AllClean(Committed(store), init) {
        StackResolves(store, init);
        CommittedListsDiagramsExactly(store);
        StackListsDiagramsExactly(Committed(store), init);
        StepShowsIff(Stack(Committed(store), init), AppliedAll(store, init), cs[|cs| - 1]);
      }
    }
  }

  /** And that store is sound again. */
  lemma AppliedIsSound(store: Store, cs: seq<Change>)
    requires SoundStore(store) && AllOrderly(Committed(store), cs)
    ensures SoundStore(AppliedAll(store, cs))
  {
    var r, applied := Stack(Committed(store), cs), AppliedAll(store, cs);
    StackResolves(store, cs);
    forall id ensures HostIsThere(Committed(applied), id) {
      assert HostIsThere(r, id);
    }
    forall id ensures GetEntity(Committed(applied), id).None? || GetDiagram(Committed(applied), id).None? {
      assert GetEntity(r, id).None? || GetDiagram(r, id).None?;
    }
    forall id | id in applied.entities ensures applied.entities[id].artifactId == id {
      EntityIsKeyed(r, id);
    }
    forall id | id in applied.diagrams ensures applied.diagrams[id].artifactId == id {
      DiagramIsKeyed(r, id);
    }
  }

  lemma EntityIsKeyed(base: Repository, id: string)
    requires WellKeyed(base) && GetEntity(base, id).Some?
    ensures GetEntity(base, id).value.artifactId == id
  {
    GetIffListed(base, id);
    ListedAreKeyed(base, ANY, id);
  }

  // ---------------------------------------------------------------- what a diagram hosts, from its change on

  /** No later change touches the diagram, or deletes or extracts anew what it carries. */
  ghost predicate LeftAlone(cs: seq<Change>, k: nat, d: string, carried: set<string>) {
    forall j | k < j < |cs| :: d !in Touched(cs[j]) && cs[j].deleted !! carried && CarriesNone(cs[j], carried)
  }

  ghost predicate CarriesNone(c: Change, ids: set<string>) {
    forall i | 0 <= i < |c.changed| :: Carried(c, i).Keys !! ids
  }

  lemma LeftAloneBefore(cs: seq<Change>, k: nat, d: string, carried: set<string>, n: nat)
    requires LeftAlone(cs, k, d, carried) && n <= |cs|
    ensures LeftAlone(cs[..n], k, d, carried)
  {
  }

  /** A step that leaves a diagram alone leaves the entities it hosts. */
  lemma HostedStays(base: Repository, c: Change, d: string, id: string)
    requires Consistent(base) && FaithfulChange(c) && KeepsApart(base, c)
    requires d !in Touched(c) && (IsHosted(base, d, id) ==> id !in c.deleted && CarriesNone(c, {id}))
    ensures IsHosted(With(base, c), d, id) <==> IsHosted(base, d, id)
    ensures IsHosted(base, d, id) ==> GetEntity(With(base, c), id) == GetEntity(base, id)
  {
    if AddsEntity(With(base, c).overlay, id) {
      var i := AddedEntityIsExtracted(c.changed, c.extraction, id);
      CarriedNamesItsHost(c, i, id);
      assert c.changed[i].artifactId in ChangedIds(c.changed);
      assert id in Carried(c, i).Keys;
    } else if IsHosted(base, d, id) && id in Suppressed(base, Touched(c)) {
      HostedIsNotSuppressed(base, c, d, id);
    }
  }

  lemma HostedIsNotSuppressed(base: Repository, c: Change, d: string, id: string)
    requires Consistent(base) && KeepsApart(base, c) && IsHosted(base, d, id) && d !in Touched(c) && id !in c.deleted
    ensures id !in Suppressed(base, Touched(c))
  {
    if id in Suppressed(base, Touched(c)) && id !in Touched(c) {
      var h :| h in Touched(c) && id in ChildrenOf(base, h);
      ChildIsHosted(base, h, id);
    }
  }

  /** The diagram hosts exactly these entities, each as it is here. */
  ghost predicate HostsJust(r: Repository, d: string, es: map<string, EntityRecord>, id: string) {
    && (IsHosted(r, d, id) <==> id in es)
    && (id in es ==> GetEntity(r, id) == Some(es[id]))
  }

  lemma HostsJustStays(base: Repository, c: Change, d: string, es: map<string, EntityRecord>, id: string)
    requires Consistent(base) && FaithfulChange(c) && KeepsApart(base, c) && HostsJust(base, d, es, id)
    requires d !in Touched(c) && c.deleted !! es.Keys && CarriesNone(c, es.Keys)
    ensures HostsJust(With(base, c), d, es, id)
  {
    if id in es {
      forall i | 0 <= i < |c.changed| ensures Carried(c, i).Keys !! {id} {
        assert id in es.Keys;
      }
    }
    HostedStays(base, c, d, id);
  }

  /** In every stack, whichever step changed a diagram last, what the diagram hosts is exactly what was
      extracted from it then. */
  lemma {:induction false} StackHostsItsExtraction(store: Store, cs: seq<Change>, k: nat, i: nat, id: string)
    requires SoundStore(store) && AllOrderly(Committed(store), cs) && k < |cs| && i < |cs[k].changed|
    requires LeftAlone(cs, k, cs[k].changed[i].artifactId, Carried(cs[k], i).Keys)
    ensures HostsJust(Stack(Committed(store), cs), cs[k].changed[i].artifactId, Carried(cs[k], i), id)
    decreases |cs|
  {
    var n := |cs| - 1;
    var below, c := Stack(Committed(store), cs[..n]), cs[n];
    StackResolves(store, cs[..n]);
    if k == n {
      ChangedHostsItsExtraction(below, c, i, id);
    } else {
      LeftAloneBefore(cs, k, cs[k].changed[i].artifactId, Carried(cs[k], i).Keys, n);
      StackHostsItsExtraction(store, cs[..n], k, i, id);
      HostsJustStays(below, c, cs[k].changed[i].artifactId, Carried(cs[k], i), id);
    }
  }

  // ---------------------------------------------------------------- two diagrams, one step or two

  function One(d: DiagramRecord, x: Extraction): Change { Change([d], {}, x) }

  function Both(d: DiagramRecord, d': DiagramRecord, x: Extraction): Change { Change([d, d'], {}, x) }

  /** A view after two changes, one by one. */
  function InTurn(base: Repository, d: DiagramRecord, d': DiagramRecord, x: Extraction): Repository {
    With(With(base, One(d, x)), One(d', x))
  }

  /** Nothing the changed diagram carries is another's in the store. */
  ghost predicate TakesFromNone(store: Store, d: DiagramRecord, x: Extraction) {
    forall id | id in x.entities(d) && id in store.entities :: store.entities[id].hostDiagramId == Some(d.artifactId)
  }

  /** Two changes that can be made in turn or at once. */
  ghost predicate Independent(store: Store, d: DiagramRecord, d': DiagramRecord, x: Extraction) {
    SoundStore(store) && Faithful(x) && KeepsApart(Committed(store), Both(d, d', x))
    && TakesFromNone(store, d, x) && TakesFromNone(store, d', x)
  }

  function Alone(d: DiagramRecord): map<string, DiagramRecord> { map[d.artifactId := d] }

  lemma OneApplied(d: DiagramRecord, x: Extraction)
    ensures CarriedByAll([d], x) == x.entities(d) && ChangedDiagrams([d]) == Alone(d) && ChangedIds([d]) == {d.artifactId}
  {
    assert [d][..0] == [];
    assert CarriedByAll([d][..0], x) == map[];
    assert ChangedDiagrams([d][..0]) == map[];
  }

  lemma BothApplied(d: DiagramRecord, d': DiagramRecord, x: Extraction)
    ensures CarriedByAll([d, d'], x) == x.entities(d) + x.entities(d')
    ensures ChangedDiagrams([d, d']) == Alone(d) + Alone(d') && ChangedIds([d, d']) == {d.artifactId, d'.artifactId}
  {
    OneApplied(d, x);
    assert [d, d'][..1] == [d];
  }

  lemma PairIsApart(base: Repository, d: DiagramRecord, d': DiagramRecord, x: Extraction)
    requires KeepsApart(base, Both(d, d', x))
    ensures Separate(d, d', x) && Spares(d, d, x) && Spares(d', d', x) && Spares(d, d', x) && Spares(d', d, x)
    ensures (forall id | id in x.entities(d) || id in x.entities(d') :: GetDiagram(base, id).None?)
    ensures GetEntity(base, d.artifactId).None? && GetEntity(base, d'.artifactId).None?
  {
    var c := Both(d, d', x);
    assert c.changed[0] == d && c.changed[1] == d';
    assert Separate(c.changed[0], c.changed[1], x) && Spares(c.changed[0], c.changed[0], x) && Spares(c.changed[1], c.changed[1], x);
    assert Spares(c.changed[0], c.changed[1], x) && Spares(c.changed[1], c.changed[0], x);
    assert Carried(c, 0) == x.entities(d) && Carried(c, 1) == x.entities(d');
  }

  lemma OneKeepsApart(base: Repository, d: DiagramRecord, x: Extraction)
    requires Spares(d, d, x) && GetEntity(base, d.artifactId).None?
    requires forall id | id in x.entities(d) :: GetDiagram(base, id).None?
    ensures KeepsApart(base, One(d, x))
  {
    var c := One(d, x);
    assert forall i | 0 <= i < |c.changed| :: c.changed[i] == d && Carried(c, i) == x.entities(d);
  }

  lemma OneTakesItsOwn(base: Repository, store: Store, d: DiagramRecord, x: Extraction)
    requires SameRecords(base, store) && TakesFromNone(store, d, x)
    ensures TakesOnlyItsOwn(base, One(d, x))
  {
    var c := One(d, x);
    OneApplied(d, x);
    forall i, id | 0 <= i < |c.changed| && id in Carried(c, i) ensures BelongsTo(base, id, Touched(c)) {
      assert GetEntity(base, id) == Lookup(store.entities, id);
    }
  }

  lemma FirstIsOrderly(store: Store, d: DiagramRecord, d': DiagramRecord, x: Extraction)
    requires Independent(store, d, d', x)
    ensures KeepsApart(Committed(store), One(d, x)) && Clean(Committed(store), With(Committed(store), One(d, x)).overlay)
  {
    PairIsApart(Committed(store), d, d', x);
    OneKeepsApart(Committed(store), d, x);
    OneTakesItsOwn(Committed(store), store, d, x);
    CandidateIsClean(Committed(store), One(d, x));
  }

  /** After the first change the store still keeps the second diagram's ids clear of it. */
  lemma MiddleStore(store: Store, d: DiagramRecord, d': DiagramRecord, x: Extraction)
    requires Independent(store, d, d', x)
    ensures var middle := Applied(store, One(d, x));
            TakesFromNone(middle, d', x) && d'.artifactId !in middle.entities
            && forall id | id in x.entities(d') :: id !in middle.diagrams
  {
    PairIsApart(Committed(store), d, d', x);
    OneApplied(d, x);
    forall id | id in x.entities(d') ensures id !in Applied(store, One(d, x)).diagrams {
      assert GetDiagram(Committed(store), id).None?;
    }
  }

  lemma OneCommitted(store: Store)
    requires SoundStore(store)
    ensures SameRecords(Committed(store), store) && Consistent(Committed(store))
  {
    CommittedIsExact(store);
  }

  lemma SecondIsOrderly(store: Store, d: DiagramRecord, d': DiagramRecord, x: Extraction)
    requires Independent(store, d, d', x)
    ensures var r := With(Committed(store), One(d, x)); KeepsApart(r, One(d', x)) && Clean(r, With(r, One(d', x)).overlay)
  {
    var r, middle := With(Committed(store), One(d, x)), Applied(store, One(d, x));
    OneCommitted(store);
    FirstIsOrderly(store, d, d', x);
    StepShows(Committed(store), store, One(d, x));
    StepStaysConsistent(Committed(store), One(d, x));
    MiddleStore(store, d, d', x);
    PairIsApart(Committed(store), d, d', x);
    assert GetEntity(r, d'.artifactId) == Lookup(middle.entities, d'.artifactId);
    forall id | id in x.entities(d') ensures GetDiagram(r, id).None? {
      assert GetDiagram(r, id) == Lookup(middle.diagrams, id);
    }
    OneKeepsApart(r, d', x);
    OneTakesItsOwn(r, middle, d', x);
    CandidateIsClean(r, One(d', x));
  }

  lemma StepObserved(base: Repository, store: Store, c: Change)
    requires SameRecords(base, store) && Consistent(base) && DiagramsExact(base)
    requires FaithfulChange(c) && KeepsApart(base, c) && Clean(base, With(base, c).overlay)
    ensures SameRecords(With(base, c), Applied(store, c)) && Consistent(With(base, c)) && DiagramsExact(With(base, c))
    ensures Observed(With(base, c), Committed(Applied(store, c)))
  {
    StepShows(base, store, c);
    StepStaysConsistent(base, c);
    StepListsDiagrams(base, c);
    StepShowsIff(base, store, c);
  }

  lemma InTurnShows(store: Store, d: DiagramRecord, d': DiagramRecord, x: Extraction)
    requires Independent(store, d, d', x)
    ensures Observed(InTurn(Committed(store), d, d', x), Committed(Applied(Applied(store, One(d, x)), One(d', x))))
  {
    OneCommitted(store);
    CommittedListsDiagramsExactly(store);
    FirstIsOrderly(store, d, d', x);
    StepObserved(Committed(store), store, One(d, x));
    SecondIsOrderly(store, d, d', x);
    StepObserved(With(Committed(store), One(d, x)), Applied(store, One(d, x)), One(d', x));
  }

  lemma SameLookups<T>(a: map<string, T>, b: map<string, T>)
    requires forall id :: Lookup(a, id) == Lookup(b, id)
    ensures a == b
  {
    forall id ensures (id in a <==> id in b) && (id in a && id in b ==> a[id] == b[id]) {
      assert Lookup(a, id) == Lookup(b, id);
    }
  }

  /** A store after diagrams were changed: what they hosted replaced by what they carry. */
  function Replaced(store: Store, touched: set<string>, carried: map<string, EntityRecord>, diagrams: map<string, DiagramRecord>): Store {
    Store(store.entities - HostedBy(store, touched) + carried, store.diagrams + diagrams)
  }

  lemma NothingDeleted(store: Store, c: Change)
    requires c.deleted == {}
    ensures Applied(store, c) == Replaced(store, ChangedIds(c.changed), CarriedByAll(c.changed, c.extraction), ChangedDiagrams(c.changed))
  {
    assert Touched(c) == ChangedIds(c.changed);
    assert Removed(store, c) == HostedBy(store, Touched(c));
    assert store.diagrams - {} == store.diagrams;
  }

  lemma OneReplaced(store: Store, d: DiagramRecord, x: Extraction)
    ensures Applied(store, One(d, x)) == Replaced(store, {d.artifactId}, x.entities(d), Alone(d))
  {
    NothingDeleted(store, One(d, x));
    OneApplied(d, x);
  }

  lemma BothReplaced(store: Store, d: DiagramRecord, d': DiagramRecord, x: Extraction)
    ensures Applied(store, Both(d, d', x))
         == Replaced(store, {d.artifactId, d'.artifactId}, x.entities(d) + x.entities(d'), Alone(d) + Alone(d'))
  {
    NothingDeleted(store, Both(d, d', x));
    BothApplied(d, d', x);
  }

  ghost predicate AllHostedBy(m: map<string, EntityRecord>, d: string) { forall id | id in m :: m[id].hostDiagramId == Some(d) }

  lemma ReplacedEntity(store: Store, touched: set<string>, m: map<string, EntityRecord>, ds: map<string, DiagramRecord>, id: string)
    ensures Lookup(Replaced(store, touched, m, ds).entities, id)
         == if id in m then Some(m[id]) else if id in HostedBy(store, touched) then None else Lookup(store.entities, id)
  {
  }

  lemma ReplacedInTurn(store: Store, a: string, m: map<string, EntityRecord>, ds: map<string, DiagramRecord>,
                       b: string, m': map<string, EntityRecord>, ds': map<string, DiagramRecord>, id: string)
    requires a != b && AllHostedBy(m, a)
    ensures Lookup(Replaced(Replaced(store, {a}, m, ds), {b}, m', ds').entities, id)
         == Lookup(Replaced(store, {a, b}, m + m', ds + ds').entities, id)
  {
    var middle := Replaced(store, {a}, m, ds);
    ReplacedEntity(store, {a}, m, ds, id);
    ReplacedEntity(middle, {b}, m', ds', id);
    ReplacedEntity(store, {a, b}, m + m', ds + ds', id);
  }

  lemma ReplacedTwice(store: Store, a: string, m: map<string, EntityRecord>, ds: map<string, DiagramRecord>,
                      b: string, m': map<string, EntityRecord>, ds': map<string, DiagramRecord>)
    requires a != b && AllHostedBy(m, a)
    ensures Replaced(Replaced(store, {a}, m, ds), {b}, m', ds') == Replaced(store, {a, b}, m + m', ds + ds')
  {
    var s, t := Replaced(Replaced(store, {a}, m, ds), {b}, m', ds'), Replaced(store, {a, b}, m + m', ds + ds');
    forall id ensures Lookup(s.entities, id) == Lookup(t.entities, id) {
      ReplacedInTurn(store, a, m, ds, b, m', ds', id);
    }
    SameLookups(s.entities, t.entities);
    assert store.diagrams + ds + ds' == store.diagrams + (ds + ds');
  }

  lemma CarriedIsHosted(d: DiagramRecord, x: Extraction)
    requires Faithful(x)
    ensures AllHostedBy(x.entities(d), d.artifactId)
  {
    forall id | id in x.entities(d) ensures x.entities(d)[id].hostDiagramId == Some(d.artifactId) {
      assert NamesItsHost(x.entities(d)[id], d, id);
    }
  }

  lemma InTurnReplaced(store: Store, d: DiagramRecord, d': DiagramRecord, x: Extraction)
    ensures Applied(Applied(store, One(d, x)), One(d', x))
         == Replaced(Replaced(store, {d.artifactId}, x.entities(d), Alone(d)), {d'.artifactId}, x.entities(d'), Alone(d'))
  {
    OneReplaced(store, d, x);
    OneReplaced(Replaced(store, {d.artifactId}, x.entities(d), Alone(d)), d', x);
  }

  /** Applying two changes in turn is applying both at once. */
  lemma InTurnIsBoth(store: Store, d: DiagramRecord, d': DiagramRecord, x: Extraction)
    requires Faithful(x) && d.artifactId != d'.artifactId
    ensures Applied(Applied(store, One(d, x)), One(d', x)) == Applied(store, Both(d, d', x))
  {
    CarriedIsHosted(d, x);
    InTurnReplaced(store, d, d', x);
    ReplacedTwice(store, d.artifactId, x.entities(d), Alone(d), d'.artifactId, x.entities(d'), Alone(d'));
    BothReplaced(store, d, d', x);
  }

  lemma BothObserved(store: Store, d: DiagramRecord, d': DiagramRecord, x: Extraction)
    requires Independent(store, d, d', x)
    ensures Observed(With(Committed(store), Both(d, d', x)), Committed(Applied(store, Both(d, d', x))))
  {
    var c := Both(d, d', x);
    OneCommitted(store);
    CommittedListsDiagramsExactly(store);
    BothApplied(d, d', x);
    forall i, id | 0 <= i < |c.changed| && id in Carried(c, i) ensures BelongsTo(Committed(store), id, Touched(c)) {
      assert Carried(c, i) == if i == 0 then x.entities(d) else x.entities(d');
    }
    CandidateIsClean(Committed(store), c);
    StepObserved(Committed(store), store, c);
  }

  lemma ObservedAlike(r: Repository, r': Repository, s: Repository)
    requires Observed(r, s) && Observed(r', s)
    ensures Observed(r, r')
  {
    forall id, f, g ensures SameAnswers(r, r', id, f, g) {
      assert SameAnswers(r, s, id, f, g) && SameAnswers(r', s, id, f, g);
    }
  }

  /** Changing two diagrams one after the other is changing both at once, when neither takes over an id
      another diagram holds: no question tells the two views apart. */
  lemma TwoStepsAreOne(store: Store, d: DiagramRecord, d': DiagramRecord, x: Extraction)
    requires Independent(store, d, d', x)
    ensures Observed(InTurn(Committed(store), d, d', x), With(Committed(store), Both(d, d', x)))
  {
    PairIsApart(Committed(store), d, d', x);
    InTurnShows(store, d, d', x);
    InTurnIsBoth(store, d, d', x);
    BothObserved(store, d, d', x);
    ObservedAlike(InTurn(Committed(store), d, d', x), With(Committed(store), Both(d, d', x)), Committed(Applied(store, Both(d, d', x))));
  }

  lemma IndependenceIsMutual(store: Store, d: DiagramRecord, d': DiagramRecord, x: Extraction)
    requires Independent(store, d, d', x)
    ensures Independent(store, d', d, x)
  {
    PairIsApart(Committed(store), d, d', x);
    var c, s := Both(d, d', x), Both(d', d, x);
    assert Carried(c, 0) == x.entities(d) && Carried(c, 1) == x.entities(d');
    forall i, j | 0 <= i < 2 && 0 <= j < 2 ensures Spares(s.changed[i], s.changed[j], x) && (i != j ==> Separate(s.changed[i], s.changed[j], x)) {
      assert s.changed[i] == c.changed[1 - i] && s.changed[j] == c.changed[1 - j];
    }
    forall i, id | 0 <= i < |s.changed| && id in Carried(s, i) ensures GetDiagram(Committed(store), id).None? {
      assert Carried(s, i) == Carried(c, 1 - i);
    }
  }

  lemma MergesCommute<T>(m: map<string, T>, m': map<string, T>)
    requires m.Keys !! m'.Keys
    ensures m + m' == m' + m
  {
  }

  lemma BothCommute(store: Store, d: DiagramRecord, d': DiagramRecord, x: Extraction)
    requires Separate(d, d', x)
    ensures Applied(store, Both(d, d', x)) == Applied(store, Both(d', d, x))
  {
    BothReplaced(store, d, d', x);
    BothReplaced(store, d', d, x);
    assert {d.artifactId, d'.artifactId} == {d'.artifactId, d.artifactId};
    MergesCommute(x.entities(d), x.entities(d'));
    MergesCommute(Alone(d), Alone(d'));
  }

  /** And in either order. */
  lemma EitherOrder(store: Store, d: DiagramRecord, d': DiagramRecord, x: Extraction)
    requires Independent(store, d, d', x)
    ensures Observed(InTurn(Committed(store), d, d', x), InTurn(Committed(store), d', d, x))
  {
    PairIsApart(Committed(store), d, d', x);
    IndependenceIsMutual(store, d, d', x);
    InTurnShows(store, d, d', x);
    InTurnShows(store, d', d, x);
    InTurnIsBoth(store, d, d', x);
    InTurnIsBoth(store, d', d, x);
    BothCommute(store, d, d', x);
    ObservedAlike(InTurn(Committed(store), d, d', x), InTurn(Committed(store), d', d, x), Committed(Applied(store, Both(d, d', x))));
  }

  // ---------------------------------------------------------------- when an id does move

  /** An entity that moves from `d` as it stood to `d'`, no other id being disturbed. */
  ghost predicate Moves(base: Repository, x: Extraction, d: DiagramRecord, d': DiagramRecord, id: string) {
    WellKeyed(base) && Faithful(x) && Hosted(base) && Apart(base) && Exact(base) && NoClash([d], x) && NoClash([d'], x)
    && d.artifactId != d'.artifactId && id != d.artifactId && id !in x.entities(d) && id in x.entities(d')
    && GetEntity(base, id).Some? && GetEntity(base, id).value.hostDiagramId == Some(d.artifactId)
  }

  lemma OneChild(base: Repository, d: DiagramRecord, x: Extraction, id: string)
    requires id != d.artifactId
    ensures id in Suppressed(base, Touched(One(d, x))) <==> id in ChildrenOf(base, d.artifactId)
  {
    assert ChangedIds([d]) == {d.artifactId};
    assert Touched(One(d, x)) == {d.artifactId};
    assert d.artifactId in Touched(One(d, x));
  }

  /** Giving it to `d'` first does not suppress it where it was. */
  lemma NotSuppressedByTaker(base: Repository, x: Extraction, d: DiagramRecord, d': DiagramRecord, id: string)
    requires Moves(base, x, d, d', id)
    ensures id !in Suppressed(base, Touched(One(d', x))) && id != d'.artifactId
  {
    assert Spares([d'][0], [d'][0], x);
    OneChild(base, d', x, id);
    if GetDiagram(base, d'.artifactId).Some? {
      DiagramIsKeyed(base, d'.artifactId);
      ChildIffListed(base, GetDiagram(base, d'.artifactId).value, id);
    }
  }

  lemma TakerShowsIt(base: Repository, x: Extraction, d': DiagramRecord, id: string)
    requires NoClash([d'], x) && id in x.entities(d')
    ensures GetEntity(With(base, One(d', x)), id) == Some(x.entities(d')[id])
    ensures Lookup(With(base, One(d', x)).overlay.additions, id) == Some(Entity(x.entities(d')[id]))
  {
    ExtractedIsAdded([d'], x, 0, id);
  }

  /** Once `d'` has it, the listing of its old domain shows the new record if that is of the domain
      too, and the old record otherwise. */
  lemma TakerListing(base: Repository, x: Extraction, d: DiagramRecord, d': DiagramRecord, id: string, f: EntityFilter)
    requires Moves(base, x, d, d', id) && f == EntityFilter(None, Some(GetEntity(base, id).value.domain), None)
    ensures ListedEntity(With(base, One(d', x)), f, id)
         == if d'.diagramType == GetEntity(base, id).value.domain then Some(x.entities(d')[id]) else GetEntity(base, id)
  {
    TakerShowsIt(base, x, d', id);
    assert NamesItsHost(x.entities(d')[id], d', id);
    NotSuppressedByTaker(base, x, d, d', id);
    FilteredShowsMatches(base, f, id);
  }

  lemma OldDiagramStays(base: Repository, x: Extraction, d: DiagramRecord, d': DiagramRecord, id: string)
    requires Moves(base, x, d, d', id)
    ensures GetDiagram(With(base, One(d', x)), d.artifactId) == GetDiagram(base, d.artifactId)
    ensures GetDiagram(base, d.artifactId).Some? && GetDiagram(base, d.artifactId).value.diagramType == GetEntity(base, id).value.domain
    ensures GetDiagram(base, d.artifactId).value.artifactId == d.artifactId
  {
    assert HostIsThere(base, id);
    assert ChangedIds([d']) == {d'.artifactId};
    UntouchedDiagramStays(base, One(d', x), d.artifactId);
  }

  /** So changing `d` still finds it among the children of `d` exactly when the two types differ. */
  lemma StaleChildIff(base: Repository, x: Extraction, d: DiagramRecord, d': DiagramRecord, id: string)
    requires Moves(base, x, d, d', id)
    ensures id in ChildrenOf(With(base, One(d', x)), d.artifactId) <==> d'.diagramType != GetEntity(base, id).value.domain
  {
    var f := EntityFilter(None, Some(GetEntity(base, id).value.domain), None);
    OldDiagramStays(base, x, d, d', id);
    ChildIffListed(With(base, One(d', x)), GetDiagram(base, d.artifactId).value, id);
    TakerListing(base, x, d, d', id, f);
    assert NamesItsHost(x.entities(d')[id], d', id);
  }

  lemma NotAddedAsEntity(d: DiagramRecord, x: Extraction, id: string)
    requires id !in x.entities(d)
    ensures !(id in Additions([d], x) && Additions([d], x)[id].Entity?)
  {
    if id in Additions([d], x) && Additions([d], x)[id].Entity? {
      var i := AddedEntityIsExtracted([d], x, id);
    }
  }

  lemma MovedLastIff(base: Repository, x: Extraction, d: DiagramRecord, d': DiagramRecord, id: string)
    requires Moves(base, x, d, d', id)
    ensures GetEntity(InTurn(base, d', d, x), id).Some? <==> d'.diagramType == GetEntity(base, id).value.domain
  {
    TakerShowsIt(base, x, d', id);
    StaleChildIff(base, x, d, d', id);
    OneChild(With(base, One(d', x)), d, x, id);
    NotAddedAsEntity(d, x, id);
  }

  /** An entity that moves between diagrams is there in the end if its old diagram is changed first;
      if it is changed last, the entity is lost unless the two diagrams are of one type. */
  lemma MovedSurvivesIff(base: Repository, x: Extraction, d: DiagramRecord, d': DiagramRecord, id: string)
    requires Moves(base, x, d, d', id)
    ensures GetEntity(InTurn(base, d, d', x), id) == Some(x.entities(d')[id])
    ensures GetEntity(InTurn(base, d', d, x), id).Some? <==> d'.diagramType == GetEntity(base, id).value.domain
  {
    TakerShowsIt(With(base, One(d, x)), x, d', id);
    MovedLastIff(base, x, d, d', id);
  }

  /** A diagram that files one entity, workspace-wide, under its id. */
  function Holding(d: string, diagramType: string, t: string, id: string): DiagramRecord {
    DiagramRecord(d, diagramType, "", "", [Group(t, Some([Item(id, "", "", "", "", "", "", "", "", "")]))], [])
  }

  function Empty(d: string, diagramType: string): DiagramRecord { DiagramRecord(d, diagramType, "", "", [], []) }

  lemma HoldingHolds(d: string, diagramType: string, t: string, id: string)
    requires id != ""
    ensures Extracted(Holding(d, diagramType, t, id), {t})
         == [EntityRecord(id, t, id, "", "", diagramType, id, Some(d))]
    ensures ExtractedConnections(Holding(d, diagramType, t, id), {t}) == []
  {
    var diag := Holding(d, diagramType, t, id);
    var items := [Item(id, "", "", "", "", "", "", "", "", "")];
    assert items[..0] == [] && diag.groups[..0] == [];
    assert ItemRecords(diag, t, true, items[..0]) == [];
    assert GroupRecords(diag, diag.groups[..0], {t}) == [];
    var read := Reader(diag, FullIdsOf(Extracted(diag, {t})));
    assert ItemConnections(items[..0], read) == [] && GroupConnections(diag.groups[..0], read) == [];
    assert ItemConnection(items[0], read) == None;
  }

  /** The repository's own extraction, the one entity type being workspace-wide in both diagram types. */
  function Types(t: string, kind: string, kind': string): map<string, set<string>> { map[kind := {t}, kind' := {t}] }

  lemma HoldingCarries(d: string, kind: string, t: string, id: string, types: map<string, set<string>>)
    requires id != "" && Lookup(types, kind) == Some({t})
    ensures ExtractionFor(types).entities(Holding(d, kind, t, id)) == map[id := EntityRecord(id, t, id, "", "", kind, id, Some(d))]
    ensures ExtractionFor(types).connections(Holding(d, kind, t, id)) == map[]
  {
    var diag := Holding(d, kind, t, id);
    ExtractionIs(types, diag);
    HoldingHolds(d, kind, t, id);
    var e := EntityRecord(id, t, id, "", "", kind, id, Some(d));
    assert [e][..0] == [];
    assert EntitiesById([e][..0]) == map[];
  }

  lemma EmptyCarries(d: string, kind: string, types: map<string, set<string>>)
    ensures ExtractionFor(types).entities(Empty(d, kind)) == map[]
    ensures ExtractionFor(types).connections(Empty(d, kind)) == map[]
  {
    ExtractionIs(types, Empty(d, kind));
  }

  /** The committed store in which the one entity is in the one diagram. */
  function OneHeld(d: string, kind: string, t: string, id: string): Repository {
    Committed(Store(map[id := EntityRecord(id, t, id, "", "", kind, id, Some(d))], map[d := Holding(d, kind, t, id)]))
  }

  lemma NoClashOfOne(d: DiagramRecord, x: Extraction)
    requires Spares(d, d, x)
    ensures NoClash([d], x)
  {
  }

  lemma OneHeldMoves(d: string, kind: string, d': string, kind': string, t: string, id: string)
    requires d != d' && id != "" && id != d && id != d'
    ensures Moves(OneHeld(d, kind, t, id), ExtractionFor(Types(t, kind, kind')), Empty(d, kind), Holding(d', kind', t, id), id)
  {
    var types := Types(t, kind, kind');
    var x := ExtractionFor(types);
    ExtractionIsFaithful(types);
    EmptyCarries(d, kind, types);
    HoldingCarries(d', kind', t, id, types);
    NoClashOfOne(Empty(d, kind), x);
    NoClashOfOne(Holding(d', kind', t, id), x);
    OneHeldIsSound(d, kind, t, id);
  }

  lemma OneHeldIsSound(d: string, kind: string, t: string, id: string)
    requires id != d
    ensures var base := OneHeld(d, kind, t, id); WellKeyed(base) && Hosted(base) && Apart(base) && Exact(base)
  {
    CommittedIsExact(OneHeld(d, kind, t, id).store);
  }

  /** So moving an entity to a diagram of another type, and changing its old diagram last, loses it. */
  lemma MovedCanBeLost(d: string, kind: string, d': string, kind': string, t: string, id: string)
    requires d != d' && id != "" && id != d && id != d' && kind != kind'
    ensures var base, x := OneHeld(d, kind, t, id), ExtractionFor(Types(t, kind, kind'));
            GetEntity(InTurn(base, Empty(d, kind), Holding(d', kind', t, id), x), id).Some?
            && GetEntity(InTurn(base, Holding(d', kind', t, id), Empty(d, kind), x), id).None?
  {
    OneHeldMoves(d, kind, d', kind', t, id);
    MovedSurvivesIff(OneHeld(d, kind, t, id), ExtractionFor(Types(t, kind, kind')), Empty(d, kind), Holding(d', kind', t, id), id);
  }
}
