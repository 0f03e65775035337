/** What a diagram carries, told from its frontmatter: which items become entities and which rows
    connections, and what every field of the records says. */
module DiagramContents {
  import opened Text
  import opened Sequences
  import opened DiagramExtraction

  /** The first of these that says something. */
  function FirstSaid(options: seq<string>): string {
    if options == [] then "" else if options[0] != "" then options[0] else FirstSaid(options[1..])
  }

  lemma FirstOfTwo(a: string, b: string)
    ensures FirstSaid([a, b]) == Or(a, b)
  {
    assert [a, b][1..] == [b] && [b][1..] == [];
    assert FirstSaid([]) == "";
    assert FirstSaid([b]) == b;
  }

  lemma FirstOfMore(a: string, rest: seq<string>)
    ensures FirstSaid([a] + rest) == Or(a, FirstSaid(rest))
  {
    assert ([a] + rest)[1..] == rest;
  }

  lemma FirstOfFour(a: string, b: string, c: string, d: string)
    ensures FirstSaid([a, b, c, d]) == Or(a, Or(b, Or(c, d)))
  {
    FirstOfTwo(c, d);
    FirstOfMore(b, [c, d]);
    FirstOfMore(a, [b, c, d]);
    assert [b] + [c, d] == [b, c, d] && [a] + [b, c, d] == [a, b, c, d];
  }

  // ---------------------------------------------------------------- the items of a diagram

  /** An item and the entity type it is filed under. */
  type Row = (string, Item)

  function RowsOf(g: Group): seq<Row> {
    match g.items
    case None => []
    case Some(items) => RowsUnder(g.entityType, items)
  }

  function RowsUnder(entityType: string, items: seq<Item>): seq<Row> {
    seq(|items|, i requires 0 <= i < |items| => (entityType, items[i]))
  }

  /** All items that stand in lists, in order. */
  function AllRows(groups: seq<Group>): seq<Row> {
    if groups == [] then [] else AllRows(groups[..|groups| - 1]) + RowsOf(groups[|groups| - 1])
  }

  // ---------------------------------------------------------------- entities

  predicate IsNode(row: Row) { row.1.Item? && FirstSaid([row.1.id, row.1.nodeId]) != "" }

  /** The record an item is to become. */
  ghost predicate IsRecordOf(row: Row, e: EntityRecord, diag: DiagramRecord, workspace: set<string>) {
    && row.1.Item?
    && e.displayAlias == FirstSaid([row.1.id, row.1.nodeId]) && e.artifactType == row.0
    && e.name == FirstSaid([row.1.caption, row.1.text, row.1.name, e.displayAlias])
    && e.version == diag.version && e.status == diag.status
    && e.domain == diag.diagramType && e.hostDiagramId == Some(diag.artifactId)
    && e.artifactId == if row.0 in workspace then e.displayAlias
                       else diag.artifactId + ['#'] + row.0 + ['/'] + e.displayAlias
  }

  ghost function Records(diag: DiagramRecord, workspace: set<string>): (Row, EntityRecord) -> bool {
    (row: Row, e: EntityRecord) => IsRecordOf(row, e, diag, workspace)
  }

  lemma ItemIsRecorded(diag: DiagramRecord, entityType: string, workspace: set<string>, item: Item)
    ensures IsEntityItem(item) <==> IsNode((entityType, item))
    ensures IsEntityItem(item) ==>
      IsRecordOf((entityType, item), ItemRecord(diag, entityType, entityType in workspace, item), diag, workspace)
  {
    if item.Item? {
      FirstOfTwo(item.id, item.nodeId);
      FirstOfFour(item.caption, item.text, item.name, LocalId(item));
    }
  }

  lemma RowsSnoc(entityType: string, items: seq<Item>)
    requires items != []
    ensures RowsUnder(entityType, items) == RowsUnder(entityType, items[..|items| - 1]) + [(entityType, items[|items| - 1])]
  {
  }

  function RecordsOf(diag: DiagramRecord, entityType: string, workspace: set<string>, item: Item): seq<EntityRecord> {
    if IsEntityItem(item) then [ItemRecord(diag, entityType, entityType in workspace, item)] else []
  }

  lemma OneItemIsRecorded(diag: DiagramRecord, entityType: string, workspace: set<string>, item: Item)
    ensures Selects([(entityType, item)], IsNode, Records(diag, workspace), RecordsOf(diag, entityType, workspace, item))
  {
    ItemIsRecorded(diag, entityType, workspace, item);
    SelectsOne((entityType, item), IsNode, Records(diag, workspace), RecordsOf(diag, entityType, workspace, item));
  }

  lemma {:induction false} ItemsAreRecorded(diag: DiagramRecord, entityType: string, workspace: set<string>, items: seq<Item>)
    ensures Selects(RowsUnder(entityType, items), IsNode, Records(diag, workspace),
                    ItemRecords(diag, entityType, entityType in workspace, items))
    decreases |items|
  {
    var rel, isWorkspace := Records(diag, workspace), entityType in workspace;
    if items == [] {
      assert RowsUnder(entityType, items) == [];
      SelectsNothing(IsNode, rel);
    } else {
      var init, last := items[..|items| - 1], items[|items| - 1];
      ItemsAreRecorded(diag, entityType, workspace, init);
      OneItemIsRecorded(diag, entityType, workspace, last);
      SelectsAppend(RowsUnder(entityType, init), [(entityType, last)], IsNode, rel,
                    ItemRecords(diag, entityType, isWorkspace, init), RecordsOf(diag, entityType, workspace, last));
      RowsSnoc(entityType, items);
    }
  }

  lemma {:induction false} GroupsAreRecorded(diag: DiagramRecord, groups: seq<Group>, workspace: set<string>)
    ensures Selects(AllRows(groups), IsNode, Records(diag, workspace), GroupRecords(diag, groups, workspace))
    decreases |groups|
  {
    var rel := Records(diag, workspace);
    if groups == [] {
      SelectsNothing(IsNode, rel);
    } else {
      var init, g := groups[..|groups| - 1], groups[|groups| - 1];
      GroupsAreRecorded(diag, init, workspace);
      ItemsAreRecorded(diag, g.entityType, workspace, Listed(g));
      assert RowsOf(g) == RowsUnder(g.entityType, Listed(g));
      SelectsAppend(AllRows(init), RowsOf(g), IsNode, rel, GroupRecords(diag, init, workspace),
                    ItemRecords(diag, g.entityType, g.entityType in workspace, Listed(g)));
    }
  }

  /** The entities are the items with a local id, in order, each recorded with what it says. */
  lemma EntitiesAreTheNodes(diag: DiagramRecord, workspace: set<string>)
    ensures Selects(AllRows(diag.groups), IsNode, Records(diag, workspace), Extracted(diag, workspace))
  {
    GroupsAreRecorded(diag, diag.groups, workspace);
  }

  // ---------------------------------------------------------------- connections

  /** The end a local id stands for: the last entity drawn under it, or unknown where there is none. */
  ghost predicate StandsFor(end: string, local: string, diagram: string, es: seq<EntityRecord>) {
    if exists i :: 0 <= i < |es| && es[i].displayAlias == local
    then exists i :: IsLastUnder(es, local, i) && es[i].artifactId == end
    else end == diagram + ['#'] + "unknown" + ['/'] + local
  }

  predicate IsLastUnder(es: seq<EntityRecord>, local: string, i: int) {
    0 <= i < |es| && es[i].displayAlias == local && forall j | i < j < |es| :: es[j].displayAlias != local
  }

  lemma {:induction false} LastIsFound(es: seq<EntityRecord>, local: string)
    ensures local in FullIdsOf(es) <==> exists i :: 0 <= i < |es| && es[i].displayAlias == local
    ensures local in FullIdsOf(es) ==> exists i :: IsLastUnder(es, local, i) && es[i].artifactId == FullIdsOf(es)[local]
  {
    if es != [] {
      var n := |es| - 1;
      LastIsFound(es[..n], local);
      if es[n].displayAlias == local {
        assert IsLastUnder(es, local, n);
      } else if local in FullIdsOf(es) {
        var i :| IsLastUnder(es[..n], local, i) && es[..n][i].artifactId == FullIdsOf(es[..n])[local];
        assert IsLastUnder(es, local, i);
      }
    }
  }

  lemma ResolvedStandsFor(es: seq<EntityRecord>, diagram: string, local: string)
    ensures StandsFor(Resolve(FullIdsOf(es), diagram, local), local, diagram, es)
  {
    LastIsFound(es, local);
  }

  /** A row that names both ends and a type. */
  predicate IsJoin(kc: Item) {
    kc.Item? && kc.connType != "" && FirstSaid([kc.source, kc.sourceId]) != "" && FirstSaid([kc.target, kc.targetId]) != ""
  }

  /** The record such a row is to become: from the entity it names as source to the one it names as target. */
  ghost predicate IsConnectionOf(kc: Item, c: ConnectionRecord, diag: DiagramRecord, es: seq<EntityRecord>) {
    && kc.Item?
    && var a, b := FirstSaid([kc.source, kc.sourceId]), FirstSaid([kc.target, kc.targetId]);
    && StandsFor(c.source, a, diag.artifactId, es) && StandsFor(c.target, b, diag.artifactId, es)
    && c.connType == kc.connType && c.version == diag.version && c.status == diag.status
    && c.artifactId == diag.artifactId + ['#'] + "conn" + ['/'] + FirstSaid([kc.id, a + [':'] + kc.connType + [':'] + b])
  }

  lemma RowIsConnected(kc: Item, diag: DiagramRecord, es: seq<EntityRecord>)
    ensures Reader(diag, FullIdsOf(es))(kc).Some? <==> IsJoin(kc)
    ensures IsJoin(kc) ==> IsConnectionOf(kc, Reader(diag, FullIdsOf(es))(kc).value, diag, es)
  {
    if kc.Item? {
      var a, b := SourceOf(kc), TargetOf(kc);
      FirstOfTwo(kc.source, kc.sourceId);
      FirstOfTwo(kc.target, kc.targetId);
      FirstOfTwo(kc.id, a + [':'] + kc.connType + [':'] + b);
      ResolvedStandsFor(es, diag.artifactId, a);
      ResolvedStandsFor(es, diag.artifactId, b);
    }
  }

  ghost function Connects(diag: DiagramRecord, es: seq<EntityRecord>): (Item, ConnectionRecord) -> bool {
    (kc: Item, c: ConnectionRecord) => IsConnectionOf(kc, c, diag, es)
  }

  lemma OneRowIsConnected(kc: Item, diag: DiagramRecord, es: seq<EntityRecord>)
    ensures Selects([kc], IsJoin, Connects(diag, es), Optionally(Reader(diag, FullIdsOf(es))(kc)))
  {
    RowIsConnected(kc, diag, es);
    SelectsOne(kc, IsJoin, Connects(diag, es), Optionally(Reader(diag, FullIdsOf(es))(kc)));
  }

  lemma {:induction false} RowsAreConnected(rows: seq<Item>, diag: DiagramRecord, es: seq<EntityRecord>)
    ensures Selects(rows, IsJoin, Connects(diag, es), ConnectionRecords(rows, Reader(diag, FullIdsOf(es))))
    decreases |rows|
  {
    var rel, read := Connects(diag, es), Reader(diag, FullIdsOf(es));
    if rows == [] {
      SelectsNothing(IsJoin, rel);
    } else {
      var init, last := rows[..|rows| - 1], rows[|rows| - 1];
      RowsAreConnected(init, diag, es);
      OneRowIsConnected(last, diag, es);
      SelectsAppend(init, [last], IsJoin, rel, ConnectionRecords(init, read), Optionally(read(last)));
      assert rows == init + [last];
    }
  }

  /** An item among the entities that joins two of them and has no local id. */
  predicate IsEdge(row: Row) { IsJoin(row.1) && FirstSaid([row.1.id, row.1.nodeId]) == "" }

  ghost function ConnectsRows(diag: DiagramRecord, es: seq<EntityRecord>): (Row, ConnectionRecord) -> bool {
    (row: Row, c: ConnectionRecord) => IsConnectionOf(row.1, c, diag, es)
  }

  lemma ItemIsConnected(entityType: string, item: Item, diag: DiagramRecord, es: seq<EntityRecord>)
    ensures ItemConnection(item, Reader(diag, FullIdsOf(es))).Some? <==> IsEdge((entityType, item))
    ensures IsEdge((entityType, item)) ==> IsConnectionOf(item, ItemConnection(item, Reader(diag, FullIdsOf(es))).value, diag, es)
  {
    RowIsConnected(item, diag, es);
    if item.Item? {
      FirstOfTwo(item.id, item.nodeId);
      FirstOfTwo(item.source, item.sourceId);
      FirstOfTwo(item.target, item.targetId);
    }
  }

  lemma OneItemIsConnected(entityType: string, item: Item, diag: DiagramRecord, es: seq<EntityRecord>)
    ensures Selects([(entityType, item)], IsEdge, ConnectsRows(diag, es), Optionally(ItemConnection(item, Reader(diag, FullIdsOf(es)))))
  {
    ItemIsConnected(entityType, item, diag, es);
    SelectsOne((entityType, item), IsEdge, ConnectsRows(diag, es), Optionally(ItemConnection(item, Reader(diag, FullIdsOf(es)))));
  }

  lemma {:induction false} ItemsAreConnected(entityType: string, items: seq<Item>, diag: DiagramRecord, es: seq<EntityRecord>)
    ensures Selects(RowsUnder(entityType, items), IsEdge, ConnectsRows(diag, es), ItemConnections(items, Reader(diag, FullIdsOf(es))))
    decreases |items|
  {
    var rel, read := ConnectsRows(diag, es), Reader(diag, FullIdsOf(es));
    if items == [] {
      assert RowsUnder(entityType, items) == [];
      SelectsNothing(IsEdge, rel);
    } else {
      var init, last := items[..|items| - 1], items[|items| - 1];
      ItemsAreConnected(entityType, init, diag, es);
      OneItemIsConnected(entityType, last, diag, es);
      SelectsAppend(RowsUnder(entityType, init), [(entityType, last)], IsEdge, rel, ItemConnections(init, read),
                    Optionally(ItemConnection(last, read)));
      RowsSnoc(entityType, items);
    }
  }

  lemma {:induction false} GroupsAreConnected(groups: seq<Group>, diag: DiagramRecord, es: seq<EntityRecord>)
    ensures Selects(AllRows(groups), IsEdge, ConnectsRows(diag, es), GroupConnections(groups, Reader(diag, FullIdsOf(es))))
    decreases |groups|
  {
    var rel, read := ConnectsRows(diag, es), Reader(diag, FullIdsOf(es));
    if groups == [] {
      SelectsNothing(IsEdge, rel);
    } else {
      var init, g := groups[..|groups| - 1], groups[|groups| - 1];
      GroupsAreConnected(init, diag, es);
      ItemsAreConnected(g.entityType, Listed(g), diag, es);
      assert RowsOf(g) == RowsUnder(g.entityType, Listed(g));
      SelectsAppend(AllRows(init), RowsOf(g), IsEdge, rel, GroupConnections(init, read), ItemConnections(Listed(g), read));
    }
  }

  /** The connections are the rows that join two ends, in order, and behind them the items that do, each
      recorded from the entity it names as source to the one it names as target. */
  lemma ConnectionsAreTheJoins(diag: DiagramRecord, workspace: set<string>)
    returns (own: seq<ConnectionRecord>, listed: seq<ConnectionRecord>)
    ensures var es := Extracted(diag, workspace);
            && ExtractedConnections(diag, workspace) == own + listed
            && Selects(diag.connections, IsJoin, Connects(diag, es), own)
            && Selects(AllRows(diag.groups), IsEdge, ConnectsRows(diag, es), listed)
  {
    var es := Extracted(diag, workspace);
    own := ConnectionRecords(diag.connections, Reader(diag, FullIdsOf(es)));
    listed := GroupConnections(diag.groups, Reader(diag, FullIdsOf(es)));
    RowsAreConnected(diag.connections, diag, es);
    GroupsAreConnected(diag.groups, diag, es);
  }

  /** So for each such row there is such a record. */
  lemma EachRowIsConnected(diag: DiagramRecord, workspace: set<string>, kc: Item) returns (c: ConnectionRecord)
    requires kc in diag.connections && IsJoin(kc)
    ensures c in ExtractedConnections(diag, workspace) && IsConnectionOf(kc, c, diag, Extracted(diag, workspace))
  {
    var es := Extracted(diag, workspace);
    var own, listed := ConnectionsAreTheJoins(diag, workspace);
    SelectsEach(diag.connections, IsJoin, Connects(diag, es), own);
    var k :| 0 <= k < |diag.connections| && diag.connections[k] == kc;
    assert IsUsed(diag.connections[k], Connects(diag, es), own);
    var i :| 0 <= i < |own| && Connects(diag, es)(kc, own[i]);
    c := own[i];
    assert c in own + listed;
  }

  /** Where a connection can be stated: a row of its own, or an item among the entities. */
  predicate IsStated(diag: DiagramRecord, kc: Item) {
    IsJoin(kc) && (kc in diag.connections
                   || exists row :: row in AllRows(diag.groups) && row.1 == kc && FirstSaid([kc.id, kc.nodeId]) == "")
  }

  /** And there is no record but of such a row or item. */
  lemma EachConnectionIsStated(diag: DiagramRecord, workspace: set<string>, c: ConnectionRecord) returns (kc: Item)
    requires c in ExtractedConnections(diag, workspace)
    ensures IsStated(diag, kc) && IsConnectionOf(kc, c, diag, Extracted(diag, workspace))
  {
    var es := Extracted(diag, workspace);
    var own, listed := ConnectionsAreTheJoins(diag, workspace);
    if c in own {
      SelectsEach(diag.connections, IsJoin, Connects(diag, es), own);
      var k :| 0 <= k < |diag.connections| && IsJoin(diag.connections[k]) && Connects(diag, es)(diag.connections[k], c);
      kc := diag.connections[k];
    } else {
      var rows := AllRows(diag.groups);
      SelectsEach(rows, IsEdge, ConnectsRows(diag, es), listed);
      assert c in listed;
      var k :| 0 <= k < |rows| && IsEdge(rows[k]) && ConnectsRows(diag, es)(rows[k], c);
      kc := rows[k].1;
      assert rows[k] in rows;
    }
  }
}
