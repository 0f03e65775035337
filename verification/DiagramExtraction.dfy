/** Entities and connections a diagram carries in its own frontmatter. */
module DiagramExtraction {
  import opened Text

  // Frontmatter values are taken as the text `str` gives them; a missing or falsy value is "".

  datatype Item =
    | NotADict
    | Item(id: string, nodeId: string, source: string, sourceId: string, target: string, targetId: string,
           connType: string, caption: string, text: string, name: string)

  /** The items filed under an entity type, or none where what is filed is not a list. */
  datatype Group = Group(entityType: string, items: Option<seq<Item>>)

  datatype DiagramRecord =
    DiagramRecord(artifactId: string, diagramType: string, version: string, status: string,
                  groups: seq<Group>, connections: seq<Item>)

  datatype EntityRecord =
    EntityRecord(artifactId: string, artifactType: string, name: string, version: string, status: string,
                 domain: string, displayAlias: string, hostDiagramId: Option<string>)

  datatype ConnectionRecord =
    ConnectionRecord(artifactId: string, source: string, target: string, connType: string, version: string, status: string)

  function Or(a: string, b: string): string { if a != "" then a else b }

  function LocalId(item: Item): string
    requires item.Item?
  {
    Or(item.id, item.nodeId)
  }

  predicate IsConnectionItem(item: Item)
    requires item.Item?
  {
    LocalId(item) == "" && Or(item.source, item.sourceId) != "" && Or(item.target, item.targetId) != ""
    && item.connType != ""
  }

  /** `{diagram}#{kind}/{local}`. */
  function Scoped(diagram: string, kind: string, local: string): string { diagram + ['#'] + kind + ['/'] + local }

  function FullId(diagram: string, entityType: string, isWorkspace: bool, local: string): string {
    if isWorkspace then local else Scoped(diagram, entityType, local)
  }

  predicate IsEntityItem(item: Item) { item.Item? && LocalId(item) != "" }

  function ItemRecord(diag: DiagramRecord, entityType: string, isWorkspace: bool, item: Item): EntityRecord
    requires IsEntityItem(item)
  {
    var local := LocalId(item);
    EntityRecord(FullId(diag.artifactId, entityType, isWorkspace, local), entityType,
                 Or(item.caption, Or(item.text, Or(item.name, local))), diag.version, diag.status,
                 diag.diagramType, local, Some(diag.artifactId))
  }

  function Listed(g: Group): seq<Item> { match g.items case None => [] case Some(items) => items }

  function ItemRecords(diag: DiagramRecord, entityType: string, isWorkspace: bool, items: seq<Item>): seq<EntityRecord>
    decreases |items|
  {
    if items == [] then []
    else
      ItemRecords(diag, entityType, isWorkspace, items[..|items| - 1])
      + if IsEntityItem(items[|items| - 1]) then [ItemRecord(diag, entityType, isWorkspace, items[|items| - 1])] else []
  }

  function GroupRecords(diag: DiagramRecord, groups: seq<Group>, workspace: set<string>): seq<EntityRecord>
    decreases |groups|
  {
    if groups == [] then []
    else
      var g := groups[|groups| - 1];
      GroupRecords(diag, groups[..|groups| - 1], workspace)
      + ItemRecords(diag, g.entityType, g.entityType in workspace, Listed(g))
  }

  function Extracted(diag: DiagramRecord, workspace: set<string>): seq<EntityRecord> {
    GroupRecords(diag, diag.groups, workspace)
  }

  method ExtractDiagramEntities(diag: DiagramRecord, workspace: set<string>) returns (result: seq<EntityRecord>)
    ensures result == Extracted(diag, workspace)
  {
    result := [];
    for n := 0 to |diag.groups|
      invariant result == GroupRecords(diag, diag.groups[..n], workspace)
    {
      assert diag.groups[..n + 1][..n] == diag.groups[..n];
      var g := diag.groups[n];
      if g.items.None? {
        assert result + [] == result;
        continue;
      }
      var isWorkspace := g.entityType in workspace;
      var items := g.items.value;
      result := ExtractItems(diag, g.entityType, isWorkspace, items, result);
    }
    assert diag.groups[..|diag.groups|] == diag.groups;
  }

  /** The inner loop, over the items of one group. */
  method ExtractItems(diag: DiagramRecord, entityType: string, isWorkspace: bool, items: seq<Item>, found: seq<EntityRecord>)
    returns (result: seq<EntityRecord>)
    ensures result == found + ItemRecords(diag, entityType, isWorkspace, items)
  {
    result := found;
    for i := 0 to |items|
      invariant result == found + ItemRecords(diag, entityType, isWorkspace, items[..i])
    {
      OneMoreRecord(diag, entityType, isWorkspace, items, i);
      var item := items[i];
      if item.NotADict? || IsConnectionItem(item) || LocalId(item) == "" {
        continue;
      }
      result := result + [ItemRecord(diag, entityType, isWorkspace, item)];
    }
    assert items[..|items|] == items;
  }

  // ---------------------------------------------------------------- local ids

  /** The last full id given to each local id. */
  function FullIdsOf(es: seq<EntityRecord>): map<string, string> {
    if es == [] then map[] else FullIdsOf(es[..|es| - 1])[es[|es| - 1].displayAlias := es[|es| - 1].artifactId]
  }

  lemma {:induction false} FullIdsAppend(a: seq<EntityRecord>, b: seq<EntityRecord>)
    ensures FullIdsOf(a + b) == FullIdsOf(a) + FullIdsOf(b)
  {
    if b == [] {
      assert a + b == a;
    } else {
      var n := |b| - 1;
      assert (a + b)[..|a + b| - 1] == a + b[..n];
      FullIdsAppend(a, b[..n]);
    }
  }

  lemma FullIdsOfOne(e: EntityRecord)
    ensures FullIdsOf([e]) == map[e.displayAlias := e.artifactId]
  {
    assert [e][..0] == [];
    assert FullIdsOf([e][..0]) == map[];
  }

  method DiagramLocalToFull(diag: DiagramRecord, workspace: set<string>) returns (result: map<string, string>)
    ensures result == FullIdsOf(Extracted(diag, workspace))
  {
    result := map[];
    for n := 0 to |diag.groups|
      invariant result == FullIdsOf(GroupRecords(diag, diag.groups[..n], workspace))
    {
      assert diag.groups[..n + 1][..n] == diag.groups[..n];
      var g := diag.groups[n];
      ghost var before := GroupRecords(diag, diag.groups[..n], workspace);
      if g.items.None? {
        assert before + [] == before;
        continue;
      }
      assert GroupRecords(diag, diag.groups[..n + 1], workspace)
          == before + ItemRecords(diag, g.entityType, g.entityType in workspace, g.items.value);
      result := LocalToFullIn(diag, g.entityType, g.entityType in workspace, g.items.value, result, before);
    }
    assert diag.groups[..|diag.groups|] == diag.groups;
  }

  /** The inner loop, over the items of one group. */
  method LocalToFullIn(diag: DiagramRecord, entityType: string, isWorkspace: bool, items: seq<Item>,
                       known: map<string, string>, ghost before: seq<EntityRecord>)
    returns (result: map<string, string>)
    requires known == FullIdsOf(before)
    ensures result == FullIdsOf(before + ItemRecords(diag, entityType, isWorkspace, items))
  {
    result := known;
    assert before + [] == before;
    for i := 0 to |items|
      invariant result == FullIdsOf(before + ItemRecords(diag, entityType, isWorkspace, items[..i]))
    {
      OneMoreRecord(diag, entityType, isWorkspace, items, i);
      if IsEntityItem(items[i]) {
        var local := LocalId(items[i]);
        OneMoreFullId(before, ItemRecords(diag, entityType, isWorkspace, items[..i]), ItemRecord(diag, entityType, isWorkspace, items[i]));
        result := result[local := FullId(diag.artifactId, entityType, isWorkspace, local)];
      }
    }
    assert items[..|items|] == items;
  }

  lemma OneMoreRecord(diag: DiagramRecord, entityType: string, isWorkspace: bool, items: seq<Item>, i: nat)
    requires i < |items|
    ensures IsEntityItem(items[i]) ==>
      ItemRecords(diag, entityType, isWorkspace, items[..i + 1])
      == ItemRecords(diag, entityType, isWorkspace, items[..i]) + [ItemRecord(diag, entityType, isWorkspace, items[i])]
    ensures !IsEntityItem(items[i]) ==>
      ItemRecords(diag, entityType, isWorkspace, items[..i + 1]) == ItemRecords(diag, entityType, isWorkspace, items[..i])
  {
    assert items[..i + 1][..i] == items[..i];
  }

  lemma OneMoreFullId(before: seq<EntityRecord>, done: seq<EntityRecord>, e: EntityRecord)
    ensures FullIdsOf(before + (done + [e])) == FullIdsOf(before + done)[e.displayAlias := e.artifactId]
  {
    FullIdsAppend(before + done, [e]);
    FullIdsOfOne(e);
    assert before + done + [e] == before + (done + [e]);
  }

  /** A local id resolves exactly when an entity is extracted under it, and then to such an entity. */
  lemma {:induction false} LocalIdsNameEntities(es: seq<EntityRecord>, local: string)
    ensures local in FullIdsOf(es) <==> exists e :: e in es && e.displayAlias == local
    ensures local in FullIdsOf(es) ==>
      exists e :: e in es && e.displayAlias == local && e.artifactId == FullIdsOf(es)[local]
  {
    if es != [] {
      var init, last := es[..|es| - 1], es[|es| - 1];
      assert es == init + [last];
      LocalIdsNameEntities(init, local);
      if last.displayAlias == local {
        assert last in es;
      }
    }
  }

  // ---------------------------------------------------------------- connections

  function Resolve(ids: map<string, string>, diagram: string, local: string): string {
    if local in ids then ids[local] else Scoped(diagram, "unknown", local)
  }

  function SourceOf(kc: Item): string
    requires kc.Item?
  {
    Or(kc.source, kc.sourceId)
  }

  function TargetOf(kc: Item): string
    requires kc.Item?
  {
    Or(kc.target, kc.targetId)
  }

  function DiagramConnectionRecord(kc: Item, diag: DiagramRecord, ids: map<string, string>): Option<ConnectionRecord> {
    if kc.NotADict? || kc.connType == "" || SourceOf(kc) == "" || TargetOf(kc) == "" then None
    else
      var local := Or(kc.id, SourceOf(kc) + [':'] + kc.connType + [':'] + TargetOf(kc));
      Some(ConnectionRecord(Scoped(diag.artifactId, "conn", local), Resolve(ids, diag.artifactId, SourceOf(kc)),
                            Resolve(ids, diag.artifactId, TargetOf(kc)), kc.connType, diag.version, diag.status))
  }

  function Optionally<T>(o: Option<T>): seq<T> { match o case None => [] case Some(x) => [x] }

  /** How a row becomes a record, the diagram and its ids being given. */
  type RowReader = Item -> Option<ConnectionRecord>

  function Reader(diag: DiagramRecord, ids: map<string, string>): RowReader {
    (kc: Item) => DiagramConnectionRecord(kc, diag, ids)
  }

  function ConnectionRecords(rows: seq<Item>, read: RowReader): seq<ConnectionRecord>
    decreases |rows|
  {
    if rows == [] then [] else ConnectionRecords(rows[..|rows| - 1], read) + Optionally(read(rows[|rows| - 1]))
  }

  /** The records of the items that look like a connection. */
  function ItemConnections(items: seq<Item>, read: RowReader): seq<ConnectionRecord>
    decreases |items|
  {
    if items == [] then []
    else ItemConnections(items[..|items| - 1], read) + Optionally(ItemConnection(items[|items| - 1], read))
  }

  function ItemConnection(item: Item, read: RowReader): Option<ConnectionRecord> {
    if item.Item? && IsConnectionItem(item) then read(item) else None
  }

  lemma OneMoreItem(items: seq<Item>, i: nat, read: RowReader)
    requires i < |items|
    ensures ItemConnections(items[..i + 1], read)
         == ItemConnections(items[..i], read) + Optionally(ItemConnection(items[i], read))
  {
    assert items[..i + 1][..i] == items[..i];
  }

  function GroupConnections(groups: seq<Group>, read: RowReader): seq<ConnectionRecord>
    decreases |groups|
  {
    if groups == [] then []
    else GroupConnections(groups[..|groups| - 1], read) + ItemConnections(Listed(groups[|groups| - 1]), read)
  }

  function AllConnections(diag: DiagramRecord, read: RowReader): seq<ConnectionRecord> {
    ConnectionRecords(diag.connections, read) + GroupConnections(diag.groups, read)
  }

  function ExtractedConnections(diag: DiagramRecord, workspace: set<string>): seq<ConnectionRecord> {
    AllConnections(diag, Reader(diag, FullIdsOf(Extracted(diag, workspace))))
  }

  method ExtractDiagramConnections(diag: DiagramRecord, workspace: set<string>) returns (result: seq<ConnectionRecord>)
    ensures result == ExtractedConnections(diag, workspace)
  {
    var ids := DiagramLocalToFull(diag, workspace);
    result := AppendRows(diag.connections, Reader(diag, ids));
    result := AppendGroups(result, diag.groups, Reader(diag, ids));
  }

  /** The loop over the diagram's own rows. */
  method AppendRows(rows: seq<Item>, read: RowReader) returns (result: seq<ConnectionRecord>)
    ensures result == ConnectionRecords(rows, read)
  {
    result := [];
    for i := 0 to |rows|
      invariant result == ConnectionRecords(rows[..i], read)
    {
      assert rows[..i + 1][..i] == rows[..i];
      var record := read(rows[i]);
      if record.Some? {
        result := result + [record.value];
      }
    }
    assert rows[..|rows|] == rows;
  }

  lemma OneMoreGroup(found: seq<ConnectionRecord>, groups: seq<Group>, n: nat, read: RowReader)
    requires n < |groups|
    ensures found + GroupConnections(groups[..n + 1], read)
         == found + GroupConnections(groups[..n], read) + ItemConnections(Listed(groups[n]), read)
  {
    assert groups[..n + 1][..n] == groups[..n];
  }

  /** The loop over the groups. */
  method AppendGroups(found: seq<ConnectionRecord>, groups: seq<Group>, read: RowReader)
    returns (result: seq<ConnectionRecord>)
    ensures result == found + GroupConnections(groups, read)
  {
    result := found;
    for n := 0 to |groups|
      invariant result == found + GroupConnections(groups[..n], read)
    {
      OneMoreGroup(found, groups, n, read);
      if groups[n].items.Some? {
        result := AppendItems(result, Listed(groups[n]), read);
      }
    }
    assert groups[..|groups|] == groups;
  }

  /** The loop over one group's items. */
  method AppendItems(found: seq<ConnectionRecord>, items: seq<Item>, read: RowReader)
    returns (result: seq<ConnectionRecord>)
    ensures result == found + ItemConnections(items, read)
  {
    result := found;
    for i := 0 to |items|
      invariant result == found + ItemConnections(items[..i], read)
    {
      OneMoreItem(items, i, read);
      var record := ItemConnection(items[i], read);
      if record.Some? {
        result := result + [record.value];
      }
    }
    assert items[..|items|] == items;
  }

  /** Every record was read from some row. */
  ghost predicate IsRead(c: ConnectionRecord, read: RowReader) { exists kc :: read(kc) == Some(c) }

  lemma {:induction false} RowsAreRead(rows: seq<Item>, read: RowReader, c: ConnectionRecord)
    requires c in ConnectionRecords(rows, read)
    ensures IsRead(c, read)
    decreases |rows|
  {
    if c in ConnectionRecords(rows[..|rows| - 1], read) {
      RowsAreRead(rows[..|rows| - 1], read, c);
    }
  }

  lemma {:induction false} ItemsAreRead(items: seq<Item>, read: RowReader, c: ConnectionRecord)
    requires c in ItemConnections(items, read)
    ensures IsRead(c, read)
    decreases |items|
  {
    if c in ItemConnections(items[..|items| - 1], read) {
      ItemsAreRead(items[..|items| - 1], read, c);
    }
  }

  lemma {:induction false} GroupsAreRead(groups: seq<Group>, read: RowReader, c: ConnectionRecord)
    requires c in GroupConnections(groups, read)
    ensures IsRead(c, read)
    decreases |groups|
  {
    if c in GroupConnections(groups[..|groups| - 1], read) {
      GroupsAreRead(groups[..|groups| - 1], read, c);
    } else {
      ItemsAreRead(Listed(groups[|groups| - 1]), read, c);
    }
  }

  lemma ConnectionsAreRead(diag: DiagramRecord, read: RowReader, c: ConnectionRecord) returns (kc: Item)
    requires c in AllConnections(diag, read)
    ensures read(kc) == Some(c)
  {
    if c in ConnectionRecords(diag.connections, read) {
      RowsAreRead(diag.connections, read, c);
    } else {
      GroupsAreRead(diag.groups, read, c);
    }
    kc :| read(kc) == Some(c);
  }

  /** An endpoint: an extracted entity's id, or marked unknown because no entity has that local id. */
  ghost predicate EndpointResolves(end: string, diag: DiagramRecord, es: seq<EntityRecord>) {
    (exists e :: e in es && e.artifactId == end)
    || exists local :: end == Scoped(diag.artifactId, "unknown", local) && forall e :: e in es ==> e.displayAlias != local
  }

  lemma ResolvedEndpoint(diag: DiagramRecord, es: seq<EntityRecord>, local: string)
    ensures EndpointResolves(Resolve(FullIdsOf(es), diag.artifactId, local), diag, es)
  {
    LocalIdsNameEntities(es, local);
  }

  /** Every connection a diagram carries ends at entities of that diagram, or says it does not know. */
  lemma ConnectionsEndAtEntities(diag: DiagramRecord, workspace: set<string>, c: ConnectionRecord)
    requires c in ExtractedConnections(diag, workspace)
    ensures EndpointResolves(c.source, diag, Extracted(diag, workspace))
    ensures EndpointResolves(c.target, diag, Extracted(diag, workspace))
  {
    var es := Extracted(diag, workspace);
    var kc := ConnectionsAreRead(diag, Reader(diag, FullIdsOf(es)), c);
    ResolvedEndpoint(diag, es, SourceOf(kc));
    ResolvedEndpoint(diag, es, TargetOf(kc));
  }

  // ---------------------------------------------------------------- what every extracted record says

  lemma {:induction false} ItemRecordIs(diag: DiagramRecord, entityType: string, isWorkspace: bool, items: seq<Item>, e: EntityRecord)
    requires e in ItemRecords(diag, entityType, isWorkspace, items)
    ensures e.hostDiagramId == Some(diag.artifactId) && e.domain == diag.diagramType && e.displayAlias != ""
    ensures e.artifactType == entityType && e.artifactId == FullId(diag.artifactId, entityType, isWorkspace, e.displayAlias)
    decreases |items|
  {
    if e in ItemRecords(diag, entityType, isWorkspace, items[..|items| - 1]) {
      ItemRecordIs(diag, entityType, isWorkspace, items[..|items| - 1], e);
    }
  }

  lemma {:induction false} GroupRecordIs(diag: DiagramRecord, groups: seq<Group>, workspace: set<string>, e: EntityRecord)
    requires e in GroupRecords(diag, groups, workspace)
    ensures e.hostDiagramId == Some(diag.artifactId) && e.domain == diag.diagramType && e.displayAlias != ""
    ensures e.artifactId == FullId(diag.artifactId, e.artifactType, e.artifactType in workspace, e.displayAlias)
    ensures exists g :: g in groups && g.entityType == e.artifactType
    decreases |groups|
  {
    var init, g := groups[..|groups| - 1], groups[|groups| - 1];
    assert groups == init + [g];
    if e in GroupRecords(diag, init, workspace) {
      GroupRecordIs(diag, init, workspace, e);
    } else {
      ItemRecordIs(diag, g.entityType, g.entityType in workspace, Listed(g), e);
      assert g in groups;
    }
  }

  /** A diagram whose ids leave room for the marks `#` and `/`, and which files nothing under `conn`. */
  predicate Tidy(diag: DiagramRecord, workspace: set<string>) {
    '#' !in diag.artifactId
    && (forall g :: g in diag.groups ==> '/' !in g.entityType && g.entityType != "conn")
    && (forall e :: e in Extracted(diag, workspace) && e.artifactType in workspace ==> '#' !in e.artifactId)
  }

  /** `{diagram}#{kind}/{local}` can be taken apart again. */
  lemma ScopedIsInjective(d: string, k: string, l: string, d': string, k': string, l': string)
    requires '#' !in d && '#' !in d' && '/' !in k && '/' !in k'
    requires Scoped(d, k, l) == Scoped(d', k', l')
    ensures d == d' && k == k' && l == l'
  {
    ScopedParts(d, k, l);
    ScopedParts(d', k', l');
  }

  lemma ScopedParts(d: string, k: string, l: string)
    requires '#' !in d && '/' !in k
    ensures Cut(Scoped(d, k, l), '#').0 == d && Cut(Scoped(d, k, l), '#').1.Some?
    ensures Cut(Cut(Scoped(d, k, l), '#').1.value, '/') == (k, Some(l))
  {
    assert Scoped(d, k, l) == d + ['#'] + (k + ['/'] + l);
    CutIs(d, '#', Some(k + ['/'] + l));
    CutIs(k, '/', Some(l));
  }

  lemma ScopedIsMarked(d: string, k: string, l: string)
    ensures '#' in Scoped(d, k, l)
  {
    assert Scoped(d, k, l)[|d|] == '#';
  }

  lemma ConnectionIsScoped(diag: DiagramRecord, workspace: set<string>, c: ConnectionRecord) returns (local: string)
    requires c in ExtractedConnections(diag, workspace)
    ensures c.artifactId == Scoped(diag.artifactId, "conn", local)
  {
    var kc := ConnectionsAreRead(diag, Reader(diag, FullIdsOf(Extracted(diag, workspace))), c);
    local := Or(kc.id, SourceOf(kc) + [':'] + kc.connType + [':'] + TargetOf(kc));
  }

  /** Among tidy diagrams no connection takes an entity's id, or an id without the mark. */
  lemma ConnectionIdsAreApart(d: DiagramRecord, d': DiagramRecord, workspace: set<string>, workspace': set<string>,
                              e: EntityRecord, c: ConnectionRecord)
    requires Tidy(d, workspace) && Tidy(d', workspace')
    requires e in Extracted(d, workspace) && c in ExtractedConnections(d', workspace')
    ensures '#' in c.artifactId && e.artifactId != c.artifactId
  {
    var local := ConnectionIsScoped(d', workspace', c);
    ScopedIsMarked(d'.artifactId, "conn", local);
    GroupRecordIs(d, d.groups, workspace, e);
    if e.artifactId == c.artifactId && e.artifactType !in workspace {
      ConnIsOneSegment();
      ScopedIsInjective(d.artifactId, e.artifactType, e.displayAlias, d'.artifactId, "conn", local);
    }
  }

  lemma ConnIsOneSegment()
    ensures '/' !in "conn"
  {
  }

  /** Among tidy diagrams two share an entity id only where both file it workspace-wide. */
  lemma SharedIdsAreWorkspaceIds(d: DiagramRecord, d': DiagramRecord, workspace: set<string>, workspace': set<string>,
                                 e: EntityRecord, e': EntityRecord)
    requires Tidy(d, workspace) && Tidy(d', workspace') && d.artifactId != d'.artifactId
    requires e in Extracted(d, workspace) && e' in Extracted(d', workspace') && e.artifactId == e'.artifactId
    ensures e.artifactType in workspace && e'.artifactType in workspace'
  {
    GroupRecordIs(d, d.groups, workspace, e);
    GroupRecordIs(d', d'.groups, workspace', e');
    ScopedIsMarked(d.artifactId, e.artifactType, e.displayAlias);
    ScopedIsMarked(d'.artifactId, e'.artifactType, e'.displayAlias);
    if e.artifactType !in workspace && e'.artifactType !in workspace' {
      ScopedIsInjective(d.artifactId, e.artifactType, e.displayAlias, d'.artifactId, e'.artifactType, e'.displayAlias);
    }
  }
}
