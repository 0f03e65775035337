/** What any stack of overlays shows: the repository the changes lead to. */
module CandidateStacks {
  import opened Text
  import opened DiagramExtraction
  import opened CandidateRepositories

  // ---------------------------------------------------------------- extraction, as the overlay relies on it

  /** Whatever is extracted is filed under its own id and names its diagram and its type. */
  ghost predicate Faithful(x: Extraction) {
    (forall d, id :: id in x.entities(d) ==> NamesItsHost(x.entities(d)[id], d, id))
    && forall d, id :: id in x.connections(d) ==> x.connections(d)[id].artifactId == id
  }

  predicate NamesItsHost(e: EntityRecord, d: DiagramRecord, id: string) {
    e.artifactId == id && e.hostDiagramId == Some(d.artifactId) && e.domain == d.diagramType
  }

  lemma {:induction false} ByIdIsFiled(es: seq<EntityRecord>, id: string)
    requires id in EntitiesById(es)
    ensures EntitiesById(es)[id].artifactId == id && EntitiesById(es)[id] in es
  {
    var init, last := es[..|es| - 1], es[|es| - 1];
    assert es == init + [last];
    if last.artifactId != id {
      ByIdIsFiled(init, id);
    }
  }

  lemma {:induction false} ConnectionsByIdAreFiled(cs: seq<ConnectionRecord>, id: string)
    requires id in ConnectionsById(cs)
    ensures ConnectionsById(cs)[id].artifactId == id && ConnectionsById(cs)[id] in cs
  {
    var init, last := cs[..|cs| - 1], cs[|cs| - 1];
    assert cs == init + [last];
    if last.artifactId != id {
      ConnectionsByIdAreFiled(init, id);
    }
  }

  /** Of several records under one id the last is filed. */
  lemma {:induction false} LastIsFiled(es: seq<EntityRecord>, i: nat)
    requires i < |es| && forall j | i < j < |es| :: es[j].artifactId != es[i].artifactId
    ensures Lookup(EntitiesById(es), es[i].artifactId) == Some(es[i])
  {
    if i < |es| - 1 {
      LastIsFiled(es[..|es| - 1], i);
    }
  }

  lemma {:induction false} LastConnectionIsFiled(cs: seq<ConnectionRecord>, i: nat)
    requires i < |cs| && forall j | i < j < |cs| :: cs[j].artifactId != cs[i].artifactId
    ensures Lookup(ConnectionsById(cs), cs[i].artifactId) == Some(cs[i])
  {
    if i < |cs| - 1 {
      LastConnectionIsFiled(cs[..|cs| - 1], i);
    }
  }

  lemma ExtractionNamesHost(types: map<string, set<string>>, d: DiagramRecord, id: string)
    requires id in ExtractionFor(types).entities(d)
    ensures NamesItsHost(ExtractionFor(types).entities(d)[id], d, id)
  {
    var ws := WorkspaceOf(types, d);
    ExtractionIs(types, d);
    ByIdIsFiled(Extracted(d, ws), id);
    GroupRecordIs(d, d.groups, ws, EntitiesById(Extracted(d, ws))[id]);
  }

  /** The extraction the repository uses is such a one, whatever the workspace types. */
  lemma ExtractionIsFaithful(types: map<string, set<string>>)
    ensures Faithful(ExtractionFor(types))
  {
    var x := ExtractionFor(types);
    forall d, id | id in x.entities(d) ensures NamesItsHost(x.entities(d)[id], d, id) {
      ExtractionNamesHost(types, d, id);
    }
    forall d, id | id in x.connections(d) ensures x.connections(d)[id].artifactId == id {
      ExtractionIs(types, d);
      ConnectionsByIdAreFiled(ExtractedConnections(d, WorkspaceOf(types, d)), id);
    }
  }

  // ---------------------------------------------------------------- what a change adds

  /** Two diagrams that share no id. */
  ghost predicate Separate(d: DiagramRecord, d': DiagramRecord, x: Extraction) {
    d.artifactId != d'.artifactId && x.entities(d).Keys !! x.entities(d').Keys
  }

  /** A diagram that files nothing over another's own id, and no connection over its entities. */
  ghost predicate Spares(d: DiagramRecord, d': DiagramRecord, x: Extraction) {
    d'.artifactId !in x.entities(d) && d'.artifactId !in x.connections(d)
    && x.connections(d).Keys !! x.entities(d').Keys
  }

  /** Changed diagrams that file nothing under the same id. */
  ghost predicate NoClash(changed: seq<DiagramRecord>, x: Extraction) {
    (forall i, j | 0 <= i < |changed| && 0 <= j < |changed| && i != j :: Separate(changed[i], changed[j], x))
    && forall i, j | 0 <= i < |changed| && 0 <= j < |changed| :: Spares(changed[i], changed[j], x)
  }

  lemma NoClashBefore(changed: seq<DiagramRecord>, x: Extraction, n: nat)
    requires NoClash(changed, x) && n <= |changed|
    ensures NoClash(changed[..n], x)
  {
  }

  // ---------------------------------------------------------------- when that is so

  /** The id is of an entity the diagram files workspace-wide. */
  ghost predicate FilesInWorkspace(d: DiagramRecord, types: map<string, set<string>>, id: string) {
    exists e :: e in Extracted(d, WorkspaceOf(types, d)) && e.artifactType in WorkspaceOf(types, d) && e.artifactId == id
  }

  ghost predicate AllTidy(changed: seq<DiagramRecord>, types: map<string, set<string>>) {
    forall i | 0 <= i < |changed| :: Tidy(changed[i], WorkspaceOf(types, changed[i]))
  }

  /** Two diagrams have ids of their own and file nothing workspace-wide under the same one. */
  ghost predicate Distinct(d: DiagramRecord, d': DiagramRecord, types: map<string, set<string>>) {
    d.artifactId != d'.artifactId && forall id :: !(FilesInWorkspace(d, types, id) && FilesInWorkspace(d', types, id))
  }

  /** The changed diagrams are distinct, and no entity filed workspace-wide is named as one of them. */
  ghost predicate WorkspaceApart(changed: seq<DiagramRecord>, types: map<string, set<string>>) {
    (forall i, j | 0 <= i < |changed| && 0 <= j < |changed| && i != j :: Distinct(changed[i], changed[j], types))
    && forall i, j | 0 <= i < |changed| && 0 <= j < |changed| :: !FilesInWorkspace(changed[i], types, changed[j].artifactId)
  }

  lemma {:induction false} ExtractedIsFiled(es: seq<EntityRecord>, e: EntityRecord)
    requires e in es
    ensures e.artifactId in EntitiesById(es)
  {
    if e != es[|es| - 1] {
      ExtractedIsFiled(es[..|es| - 1], e);
    }
  }

  lemma FiledIsCarried(d: DiagramRecord, types: map<string, set<string>>, id: string)
    requires FilesInWorkspace(d, types, id)
    ensures id in ExtractionFor(types).entities(d)
  {
    var es := Extracted(d, WorkspaceOf(types, d));
    var e :| e in es && e.artifactId == id;
    ExtractionIs(types, d);
    ExtractedIsFiled(es, e);
  }

  lemma CarriedEntity(d: DiagramRecord, types: map<string, set<string>>, id: string) returns (e: EntityRecord)
    requires id in ExtractionFor(types).entities(d)
    ensures e in Extracted(d, WorkspaceOf(types, d)) && e.artifactId == id
  {
    var es := Extracted(d, WorkspaceOf(types, d));
    ExtractionIs(types, d);
    ByIdIsFiled(es, id);
    e := EntitiesById(es)[id];
  }

  lemma CarriedConnection(d: DiagramRecord, types: map<string, set<string>>, id: string) returns (c: ConnectionRecord)
    requires id in ExtractionFor(types).connections(d)
    ensures c in ExtractedConnections(d, WorkspaceOf(types, d)) && c.artifactId == id
  {
    var cs := ExtractedConnections(d, WorkspaceOf(types, d));
    ExtractionIs(types, d);
    ConnectionsByIdAreFiled(cs, id);
    c := ConnectionsById(cs)[id];
  }

  /** Tidy diagrams share only what both file workspace-wide. */
  lemma SharedIsFiled(d: DiagramRecord, d': DiagramRecord, types: map<string, set<string>>, id: string)
    requires Tidy(d, WorkspaceOf(types, d)) && Tidy(d', WorkspaceOf(types, d')) && d.artifactId != d'.artifactId
    requires id in ExtractionFor(types).entities(d) && id in ExtractionFor(types).entities(d')
    ensures FilesInWorkspace(d, types, id) && FilesInWorkspace(d', types, id)
  {
    var e := CarriedEntity(d, types, id);
    var e' := CarriedEntity(d', types, id);
    SharedIdsAreWorkspaceIds(d, d', WorkspaceOf(types, d), WorkspaceOf(types, d'), e, e');
  }

  /** An id without the mark is filed workspace-wide, if at all. */
  lemma UnmarkedIsFiled(d: DiagramRecord, types: map<string, set<string>>, id: string)
    requires id in ExtractionFor(types).entities(d) && '#' !in id
    ensures FilesInWorkspace(d, types, id)
  {
    var e := CarriedEntity(d, types, id);
    GroupRecordIs(d, d.groups, WorkspaceOf(types, d), e);
    ScopedIsMarked(d.artifactId, e.artifactType, e.displayAlias);
  }

  lemma ConnectionsAreSpare(d: DiagramRecord, d': DiagramRecord, types: map<string, set<string>>, id: string)
    requires Tidy(d, WorkspaceOf(types, d)) && Tidy(d', WorkspaceOf(types, d'))
    requires id in ExtractionFor(types).connections(d)
    ensures id !in ExtractionFor(types).entities(d') && id != d'.artifactId
  {
    var c := CarriedConnection(d, types, id);
    var local := ConnectionIsScoped(d, WorkspaceOf(types, d), c);
    ScopedIsMarked(d.artifactId, "conn", local);
    if id in ExtractionFor(types).entities(d') {
      var e := CarriedEntity(d', types, id);
      ConnectionIdsAreApart(d', d, WorkspaceOf(types, d'), WorkspaceOf(types, d), e, c);
    }
  }

  lemma TidySpares(d: DiagramRecord, d': DiagramRecord, types: map<string, set<string>>)
    requires Tidy(d, WorkspaceOf(types, d)) && Tidy(d', WorkspaceOf(types, d'))
    ensures Spares(d, d', ExtractionFor(types)) <==> !FilesInWorkspace(d, types, d'.artifactId)
  {
    var x := ExtractionFor(types);
    if FilesInWorkspace(d, types, d'.artifactId) {
      FiledIsCarried(d, types, d'.artifactId);
    } else {
      if d'.artifactId in x.entities(d) {
        UnmarkedIsFiled(d, types, d'.artifactId);
      }
      forall id | id in x.connections(d) ensures id !in x.entities(d') && id != d'.artifactId {
        ConnectionsAreSpare(d, d', types, id);
      }
    }
  }

  lemma TidySeparate(d: DiagramRecord, d': DiagramRecord, types: map<string, set<string>>)
    requires Tidy(d, WorkspaceOf(types, d)) && Tidy(d', WorkspaceOf(types, d'))
    ensures Separate(d, d', ExtractionFor(types)) <==> Distinct(d, d', types)
  {
    var x := ExtractionFor(types);
    if Distinct(d, d', types) {
      forall id | id in x.entities(d) ensures id !in x.entities(d') {
        if id in x.entities(d') {
          SharedIsFiled(d, d', types, id);
        }
      }
    }
    forall id | FilesInWorkspace(d, types, id) && FilesInWorkspace(d', types, id)
      ensures id in x.entities(d) && id in x.entities(d')
    {
      FiledIsCarried(d, types, id);
      FiledIsCarried(d', types, id);
    }
  }

  /** Changed diagrams whose ids leave room for the marks clash exactly where their workspace-wide ids do:
      with each other, or with the diagrams' own. */
  lemma NoClashIff(changed: seq<DiagramRecord>, types: map<string, set<string>>)
    requires AllTidy(changed, types)
    ensures NoClash(changed, ExtractionFor(types)) <==> WorkspaceApart(changed, types)
  {
    forall i, j | 0 <= i < |changed| && 0 <= j < |changed|
      ensures Separate(changed[i], changed[j], ExtractionFor(types)) <==> Distinct(changed[i], changed[j], types)
      ensures Spares(changed[i], changed[j], ExtractionFor(types))
         <==> !FilesInWorkspace(changed[i], types, changed[j].artifactId)
    {
      TidySeparate(changed[i], changed[j], types);
      TidySpares(changed[i], changed[j], types);
    }
  }

  // ---------------------------------------------------------------- the additions

  lemma {:induction false} ChangedIsAdded(changed: seq<DiagramRecord>, x: Extraction, i: nat)
    requires NoClash(changed, x) && i < |changed|
    ensures Lookup(Additions(changed, x), changed[i].artifactId) == Some(Diagram(changed[i]))
  {
    var n := |changed| - 1;
    assert Spares(changed[n], changed[i], x);
    if i < n {
      NoClashBefore(changed, x, n);
      ChangedIsAdded(changed[..n], x, i);
      assert Separate(changed[i], changed[n], x);
    }
    NotExtracted(Additions(changed[..n], x), changed[n], x, changed[i].artifactId);
  }

  lemma NotExtracted(before: map<string, Record>, d: DiagramRecord, x: Extraction, id: string)
    requires id !in x.entities(d) && id !in x.connections(d)
    ensures Lookup(WithDiagram(before, d, x), id) == if id == d.artifactId then Some(Diagram(d)) else Lookup(before, id)
  {
    WithDiagramAt(before, d, x, id);
  }

  lemma ExtractedLast(before: map<string, Record>, d: DiagramRecord, x: Extraction, id: string)
    requires id in x.entities(d) && id !in x.connections(d)
    ensures Lookup(WithDiagram(before, d, x), id) == Some(Entity(x.entities(d)[id]))
  {
    WithDiagramAt(before, d, x, id);
  }

  lemma {:induction false} ExtractedIsAdded(changed: seq<DiagramRecord>, x: Extraction, i: nat, id: string)
    requires NoClash(changed, x) && i < |changed| && id in x.entities(changed[i])
    ensures Lookup(Additions(changed, x), id) == Some(Entity(x.entities(changed[i])[id]))
  {
    var n := |changed| - 1;
    assert Spares(changed[n], changed[i], x);
    if i < n {
      NoClashBefore(changed, x, n);
      ExtractedIsAdded(changed[..n], x, i, id);
      assert Separate(changed[i], changed[n], x) && Spares(changed[i], changed[n], x);
      NotExtracted(Additions(changed[..n], x), changed[n], x, id);
    } else {
      ExtractedLast(Additions(changed[..n], x), changed[n], x, id);
    }
  }

  /** So is every extracted connection, unless a later diagram of the change files one under its id. */
  lemma {:induction false} ConnectionIsAdded(changed: seq<DiagramRecord>, x: Extraction, i: nat, id: string)
    requires NoClash(changed, x) && i < |changed| && id in x.connections(changed[i])
    requires forall j | i < j < |changed| :: id !in x.connections(changed[j])
    ensures Lookup(Additions(changed, x), id) == Some(Connection(x.connections(changed[i])[id]))
  {
    var n := |changed| - 1;
    WithDiagramAt(Additions(changed[..n], x), changed[n], x, id);
    if i < n {
      NoClashBefore(changed, x, n);
      ConnectionIsAdded(changed[..n], x, i, id);
      assert Spares(changed[i], changed[n], x);
    }
  }

  lemma {:induction false} AddedDiagramIsChanged(changed: seq<DiagramRecord>, x: Extraction, id: string) returns (i: nat)
    requires id in Additions(changed, x) && Additions(changed, x)[id].Diagram?
    ensures i < |changed| && changed[i].artifactId == id && Additions(changed, x)[id] == Diagram(changed[i])
  {
    i := |changed| - 1;
    WithDiagramAt(Additions(changed[..i], x), changed[i], x, id);
    if AddedAt(changed[i], x, id).None? {
      i := AddedDiagramIsChanged(changed[..i], x, id);
    }
  }

  lemma {:induction false} AddedEntityIsExtracted(changed: seq<DiagramRecord>, x: Extraction, id: string) returns (i: nat)
    requires id in Additions(changed, x) && Additions(changed, x)[id].Entity?
    ensures i < |changed| && id in x.entities(changed[i]) && Additions(changed, x)[id] == Entity(x.entities(changed[i])[id])
  {
    i := |changed| - 1;
    WithDiagramAt(Additions(changed[..i], x), changed[i], x, id);
    if AddedAt(changed[i], x, id).None? {
      i := AddedEntityIsExtracted(changed[..i], x, id);
    }
  }

  lemma {:induction false} AdditionsAreKeyed(changed: seq<DiagramRecord>, x: Extraction)
    requires Faithful(x)
    ensures RecordsKeyed(Additions(changed, x))
  {
    if changed != [] {
      var n := |changed| - 1;
      AdditionsAreKeyed(changed[..n], x);
      forall id | id in Additions(changed, x) ensures IdOf(Additions(changed, x)[id]) == id {
        WithDiagramAt(Additions(changed[..n], x), changed[n], x, id);
        AddedIsKeyed(changed[n], x, id);
      }
    }
  }

  lemma AddedIsKeyed(d: DiagramRecord, x: Extraction, id: string)
    requires Faithful(x)
    ensures AddedAt(d, x, id).Some? ==> IdOf(AddedAt(d, x, id).value) == id
  {
    if id in x.entities(d) {
      assert NamesItsHost(x.entities(d)[id], d, id);
    }
  }

  /** A change read faithfully. */
  ghost predicate FaithfulChange(c: Change) { Faithful(c.extraction) }

  lemma CandidateIsWellKeyed(base: Repository, c: Change)
    requires WellKeyed(base) && FaithfulChange(c)
    ensures WellKeyed(With(base, c))
  {
    AdditionsAreKeyed(c.changed, c.extraction);
  }

  // ---------------------------------------------------------------- hosts

  /** Every hosted entity's diagram is in view, of the type the entity names. */
  ghost predicate Hosted(r: Repository) { forall id :: HostIsThere(r, id) }

  predicate HostIsThere(r: Repository, id: string) {
    var e := GetEntity(r, id);
    e.Some? && e.value.hostDiagramId.Some? ==>
      var d := GetDiagram(r, e.value.hostDiagramId.value);
      d.Some? && d.value.diagramType == e.value.domain && d.value.artifactId == e.value.hostDiagramId.value
  }

  /** No id names both an entity and a diagram. */
  ghost predicate Apart(r: Repository) { forall id :: GetEntity(r, id).None? || GetDiagram(r, id).None? }

  /** What the `i`-th changed diagram carries. */
  function Carried(c: Change, i: nat): map<string, EntityRecord>
    requires i < |c.changed|
  {
    c.extraction.entities(c.changed[i])
  }

  /** A change whose new ids keep entities and diagrams apart. */
  ghost predicate KeepsApart(base: Repository, c: Change) {
    NoClash(c.changed, c.extraction)
    && (forall i, id | 0 <= i < |c.changed| && id in Carried(c, i) :: GetDiagram(base, id).None?)
    && (forall i | 0 <= i < |c.changed| :: GetEntity(base, c.changed[i].artifactId).None?)
  }

  /** What a touched diagram hosts in the base is suppressed. */
  lemma HostedIsSuppressed(base: Repository, c: Change, id: string)
    requires GetEntity(base, id).Some? && HostIsThere(base, id)
    requires GetEntity(base, id).value.hostDiagramId.Some? && GetEntity(base, id).value.hostDiagramId.value in Touched(c)
    ensures id in Suppressed(base, Touched(c))
  {
    var h := GetEntity(base, id).value.hostDiagramId.value;
    var d := GetDiagram(base, h).value;
    FilteredShowsMatches(base, OfType(d), id);
    ChildIffListed(base, d, id);
    assert id in ChildrenOf(base, h);
  }

  lemma SuppressedIsTouchedOrEntity(base: Repository, c: Change, id: string)
    requires id in Suppressed(base, Touched(c))
    ensures id in Touched(c) || GetEntity(base, id).Some?
  {
    if id !in Touched(c) {
      var h :| h in Touched(c) && id in ChildrenOf(base, h);
      var d := GetDiagram(base, h).value;
      FilteredIsVisible(base, OfType(d), id);
    }
  }

  /** A diagram the change does not touch stays as it was. */
  lemma UntouchedDiagramStays(base: Repository, c: Change, h: string)
    requires Apart(base) && h !in Touched(c) && GetDiagram(base, h).Some?
    ensures GetDiagram(With(base, c), h) == GetDiagram(base, h)
  {
    if h in Suppressed(base, Touched(c)) {
      SuppressedIsTouchedOrEntity(base, c, h);
    }
    if AddsDiagram(With(base, c).overlay, h) {
      var i := AddedDiagramIsChanged(c.changed, c.extraction, h);
    }
  }

  lemma ChangedDiagramIsShown(base: Repository, c: Change, i: nat)
    requires NoClash(c.changed, c.extraction) && i < |c.changed|
    ensures GetDiagram(With(base, c), c.changed[i].artifactId) == Some(c.changed[i])
  {
    ChangedIsAdded(c.changed, c.extraction, i);
  }

  lemma CarriedNamesItsHost(c: Change, i: nat, id: string)
    requires FaithfulChange(c) && i < |c.changed| && id in Carried(c, i)
    ensures NamesItsHost(Carried(c, i)[id], c.changed[i], id)
  {
  }

  lemma HostsStay(base: Repository, c: Change, id: string)
    requires FaithfulChange(c) && Hosted(base) && Apart(base) && NoClash(c.changed, c.extraction)
    ensures HostIsThere(With(base, c), id)
  {
    var r := With(base, c);
    if AddsEntity(r.overlay, id) {
      var i := AddedEntityIsExtracted(c.changed, c.extraction, id);
      CarriedNamesItsHost(c, i, id);
      ChangedDiagramIsShown(base, c, i);
    } else if GetEntity(r, id).Some? && GetEntity(r, id).value.hostDiagramId.Some? {
      assert HostIsThere(base, id);
      var h := GetEntity(base, id).value.hostDiagramId.value;
      if h in Touched(c) {
        HostedIsSuppressed(base, c, id);
      }
      UntouchedDiagramStays(base, c, h);
    }
  }

  lemma StaysApart(base: Repository, c: Change, id: string)
    requires Apart(base) && KeepsApart(base, c)
    ensures GetEntity(With(base, c), id).None? || GetDiagram(With(base, c), id).None?
  {
    var overlay := With(base, c).overlay;
    if AddsEntity(overlay, id) {
      var i := AddedEntityIsExtracted(c.changed, c.extraction, id);
      assert id in Carried(c, i);
    } else if AddsDiagram(overlay, id) {
      var i := AddedDiagramIsChanged(c.changed, c.extraction, id);
    }
  }

  /** One step keeps every hosted entity's diagram in view and the two kinds of ids apart. */
  lemma StepKeepsHosts(base: Repository, c: Change)
    requires FaithfulChange(c) && Hosted(base) && Apart(base) && KeepsApart(base, c)
    ensures Hosted(With(base, c)) && Apart(With(base, c))
  {
    forall id ensures HostIsThere(With(base, c), id) {
      HostsStay(base, c, id);
    }
    forall id ensures GetEntity(With(base, c), id).None? || GetDiagram(With(base, c), id).None? {
      StaysApart(base, c, id);
    }
  }

  /** The id resolves to an entity that names this diagram as its host. */
  predicate IsHosted(r: Repository, d: string, id: string) {
    GetEntity(r, id).Some? && GetEntity(r, id).value.hostDiagramId == Some(d)
  }

  /** And the entities a changed diagram hosts are exactly those extracted from it. */
  lemma ChangedHostsItsExtraction(base: Repository, c: Change, i: nat, id: string)
    requires FaithfulChange(c) && Hosted(base) && NoClash(c.changed, c.extraction) && i < |c.changed|
    ensures IsHosted(With(base, c), c.changed[i].artifactId, id) <==> id in Carried(c, i)
    ensures id in Carried(c, i) ==> GetEntity(With(base, c), id) == Some(Carried(c, i)[id])
  {
    var r := With(base, c);
    if id in Carried(c, i) {
      ExtractedIsAdded(c.changed, c.extraction, i, id);
      CarriedNamesItsHost(c, i, id);
    } else if AddsEntity(r.overlay, id) {
      var j := AddedEntityIsExtracted(c.changed, c.extraction, id);
      CarriedNamesItsHost(c, j, id);
    } else if IsHosted(r, c.changed[i].artifactId, id) {
      assert HostIsThere(base, id);
      assert c.changed[i].artifactId in ChangedIds(c.changed);
      HostedIsSuppressed(base, c, id);
    }
  }

  // ---------------------------------------------------------------- stacks

  function Stack(base: Repository, cs: seq<Change>): Repository {
    if cs == [] then base else With(Stack(base, cs[..|cs| - 1]), cs[|cs| - 1])
  }

  /** Each change is read faithfully and keeps ids apart over the stack below it. */
  ghost predicate AllKeepApart(base: Repository, cs: seq<Change>)
    decreases |cs|
  {
    cs != [] ==>
      AllKeepApart(base, cs[..|cs| - 1])
      && FaithfulChange(cs[|cs| - 1]) && KeepsApart(Stack(base, cs[..|cs| - 1]), cs[|cs| - 1])
  }

  /** In every stack, every hosted entity's diagram is in view, of the entity's own type. */
  lemma {:induction false} StackKeepsHosts(base: Repository, cs: seq<Change>)
    requires Hosted(base) && Apart(base) && AllKeepApart(base, cs)
    ensures Hosted(Stack(base, cs)) && Apart(Stack(base, cs))
    decreases |cs|
  {
    if cs != [] {
      StackKeepsHosts(base, cs[..|cs| - 1]);
      StepKeepsHosts(Stack(base, cs[..|cs| - 1]), cs[|cs| - 1]);
    }
  }

  // ---------------------------------------------------------------- filtered listings over stacks

  /** Whatever is extracted anew under an id the base resolves belonged to a diagram the change touches. */
  ghost predicate TakesOnlyItsOwn(base: Repository, c: Change) {
    forall i, id | 0 <= i < |c.changed| && id in Carried(c, i) :: BelongsTo(base, id, Touched(c))
  }

  predicate BelongsTo(base: Repository, id: string, diagrams: set<string>) {
    var e := GetEntity(base, id);
    e.Some? ==> e.value.hostDiagramId.Some? && e.value.hostDiagramId.value in diagrams
  }

  lemma CandidateIsClean(base: Repository, c: Change)
    requires Hosted(base) && TakesOnlyItsOwn(base, c)
    ensures Clean(base, With(base, c).overlay)
  {
    var overlay := With(base, c).overlay;
    forall id | AddsEntity(overlay, id) && GetEntity(base, id).Some? ensures id in overlay.deletions {
      var i := AddedEntityIsExtracted(c.changed, c.extraction, id);
      assert id in Carried(c, i);
      assert BelongsTo(base, id, Touched(c)) && HostIsThere(base, id);
      HostedIsSuppressed(base, c, id);
    }
  }

  ghost predicate AllTakeOnlyTheirOwn(base: Repository, cs: seq<Change>)
    decreases |cs|
  {
    cs != [] ==>
      AllTakeOnlyTheirOwn(base, cs[..|cs| - 1]) && TakesOnlyItsOwn(Stack(base, cs[..|cs| - 1]), cs[|cs| - 1])
  }

  /** Each overlay is clean over the stack below it. */
  ghost predicate AllClean(base: Repository, cs: seq<Change>)
    decreases |cs|
  {
    cs != [] ==>
      AllClean(base, cs[..|cs| - 1]) && Clean(Stack(base, cs[..|cs| - 1]), Stack(base, cs).overlay)
  }

  /** Changes that take over only ids of diagrams they touch are clean; so are others, such as a move
      between diagrams of one type. */
  lemma {:induction false} OwnIsClean(base: Repository, cs: seq<Change>)
    requires Hosted(base) && Apart(base) && AllKeepApart(base, cs) && AllTakeOnlyTheirOwn(base, cs)
    ensures AllClean(base, cs)
    decreases |cs|
  {
    if cs != [] {
      OwnIsClean(base, cs[..|cs| - 1]);
      StackKeepsHosts(base, cs[..|cs| - 1]);
      CandidateIsClean(Stack(base, cs[..|cs| - 1]), cs[|cs| - 1]);
    }
  }

  /** The stack lists exactly, and so does every stack below it. */
  ghost predicate AllExact(base: Repository, cs: seq<Change>)
    decreases |cs|
  {
    Exact(Stack(base, cs)) && (cs != [] ==> AllExact(base, cs[..|cs| - 1]))
  }

  /** Over an exact base, filtered listings are exact all the way up exactly when every overlay is clean. */
  lemma {:induction false} StackListsExactlyIff(base: Repository, cs: seq<Change>)
    requires Exact(base)
    ensures AllExact(base, cs) <==> AllClean(base, cs)
    decreases |cs|
  {
    if cs != [] {
      var below := Stack(base, cs[..|cs| - 1]);
      StackListsExactlyIff(base, cs[..|cs| - 1]);
      if Exact(below) {
        ExactIffClean(below, With(below, cs[|cs| - 1]).overlay);
      }
    }
  }

  /** A filtered diagram listing shows exactly the matching diagrams of the view. */
  ghost predicate DiagramsExact(r: Repository) {
    forall f, id :: ListedDiagram(r, f, id) == PassedDiagram(GetDiagram(r, id), f)
  }

  lemma CommittedListsDiagramsExactly(store: Store)
    ensures DiagramsExact(Committed(store))
  {
  }

  lemma StepListsDiagram(base: Repository, c: Change, f: DiagramFilter, id: string)
    requires ListedDiagram(base, f, id) == PassedDiagram(GetDiagram(base, id), f)
    ensures ListedDiagram(With(base, c), f, id) == PassedDiagram(GetDiagram(With(base, c), id), f)
  {
    var overlay := With(base, c).overlay;
    if AddsDiagram(overlay, id) {
      var i := AddedDiagramIsChanged(c.changed, c.extraction, id);
      assert id in overlay.deletions;
    }
  }

  /** So it does in every stack whatever: a changed diagram is always suppressed below. */
  lemma {:induction false} StackListsDiagramsExactly(base: Repository, cs: seq<Change>)
    requires DiagramsExact(base)
    ensures DiagramsExact(Stack(base, cs))
    decreases |cs|
  {
    if cs != [] {
      var below := Stack(base, cs[..|cs| - 1]);
      StackListsDiagramsExactly(base, cs[..|cs| - 1]);
      forall f, id ensures ListedDiagram(Stack(base, cs), f, id) == PassedDiagram(GetDiagram(Stack(base, cs), id), f) {
        StepListsDiagram(below, cs[|cs| - 1], f, id);
      }
    }
  }
}
