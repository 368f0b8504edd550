/** The catalog's state, what a stored catalog must satisfy, and what CREATE and DROP do to it. */
module CatalogSteps {
  import opened PageIds
  import opened Bytes
  import opened Values
  import opened Schemas
  import opened CatalogStates
  import opened InternalNames
  import opened CatalogLoader
  import opened CatalogEdits
  import opened CatalogTrees
  import PagedBTree

  datatype CatalogState = CatalogState(nextTable: Id, nextColumn: Id, nextIndex: Id, tables: TableMap,
                                       schemas: map<Id, Schema>, idByName: map<Bytes, Id>)

  /** Every id in use is below the next one of its kind. */
  ghost predicate NextIdsFree(s: CatalogState) {
    && s.nextTable >= 0 && s.nextColumn >= 0 && s.nextIndex >= 0
    && forall t :: t in s.tables ==> t < s.nextTable && IdsBelow(s.tables[t], s.nextColumn, s.nextIndex)
  }

  ghost predicate IdsBelow(info: TableInfo, nextColumn: Id, nextIndex: Id) {
    && (forall i :: 0 <= i < |info.columns| ==> info.columns[i].id < nextColumn)
    && (forall i :: 0 <= i < |info.indexes| ==> info.indexes[i].id < nextIndex)
  }

  /** Names under the reserved prefix are the ones that CREATE TABLE gives. */
  ghost predicate NamesInternal(ts: TableMap) {
    forall t, i :: t in ts && 0 <= i < |ts[t].indexes| && HasReservedPrefix(ts[t].indexes[i].name) ==>
      InternallyNamed(ts[t].indexes[i])
  }

  ghost predicate InternallyNamed(x: IndexDescriptor) {
    && x.table >= 0 && x.column >= 0
    && (x.name == PrimaryIndexName(x.table) || x.name == UniqueIndexName(x.table, x.column))
  }

  /** What the catalog keeps beside the tables goes with them. */
  ghost predicate Consistent(s: CatalogState) {
    SchemasIndexed(s.tables, s.schemas) && NamesIndexed(s.tables, s.idByName) && NextIdsFree(s) &&
      NamesInternal(s.tables)
  }

  /** The rows describe the state, and the state is one that the catalog's own operations can produce. */
  ghost predicate StateOk(s: CatalogState, m: Metadata) {
    Accepts(m, s.tables) && Consistent(s) && TreesOk(s.tables, m)
  }

  lemma AcceptedRoots(m: Metadata, ts: TableMap)
    requires Accepts(m, ts)
    ensures RootsWithin(ts, m.pageCount)
  {
    forall t, i | t in ts && 0 <= i < |ts[t].indexes| ensures ts[t].indexes[i].root < m.pageCount {
      assert TableFits(t, ts[t], m.pageCount) && IndexFits(t, ts[t], ts[t].indexes[i], m.pageCount);
    }
  }

  lemma SomePage(s: CatalogState, m: Metadata)
    requires StateOk(s, m)
    ensures m.pageCount > 1
  {
    assert SystemTableFits(s.tables, 1, m.roots);
    assert TableFits(1, s.tables[1], m.pageCount);
  }

  // ---- CREATE TABLE ------------------------------------------------------------------------

  ghost predicate ColumnsOfSpecs(t: Id, first: Id, specs: seq<ColumnSpec>, cs: seq<ColumnDescriptor>) {
    |cs| == |specs| && forall i :: 0 <= i < |cs| ==> cs[i] == ColumnDescriptor(first + i, t, specs[i], i)
  }

  ghost predicate InternalIndex(t: nat, id: Id, cs: seq<ColumnDescriptor>, x: IndexDescriptor, pageCount: nat) {
    x.id == id && x.table == t && x.unique && x.internal && RootOk(x.root, pageCount) && HasColumn(cs, x.column)
  }

  ghost predicate UniqueIndex(t: nat, cs: seq<ColumnDescriptor>, x: IndexDescriptor) {
    && !x.primary && x.column >= 0 && x.name == UniqueIndexName(t, x.column)
    && exists c :: 0 <= c < |cs| && cs[c].id == x.column && cs[c].spec.unique && !cs[c].spec.primaryKey
  }

  ghost predicate IndexedBy(xs: seq<IndexDescriptor>, column: Id) {
    exists i :: 0 <= i < |xs| && xs[i].column == column
  }

  /** xs are a primary index on the primary key, then one internal unique index for each other unique
      column in order, with consecutive ids. */
  ghost predicate InternalIndexes(t: nat, root: PageId, first: Id, cs: seq<ColumnDescriptor>, xs: seq<IndexDescriptor>,
                                  pageCount: nat) {
    SomeIndexes(t, root, first, cs, xs, pageCount, |cs|)
  }

  /** The same with the unique columns among the first n only. */
  ghost predicate SomeIndexes(t: nat, root: PageId, first: Id, cs: seq<ColumnDescriptor>, xs: seq<IndexDescriptor>,
                              pageCount: nat, n: nat) {
    && |xs| >= 1 && n <= |cs|
    && (forall i :: 0 <= i < |xs| ==> InternalIndex(t, first + i, cs, xs[i], pageCount))
    && xs[0].primary && xs[0].root == root && xs[0].name == PrimaryIndexName(t)
    && (forall c :: 0 <= c < |cs| && cs[c].spec.primaryKey ==> xs[0].column == cs[c].id)
    && (forall i :: 0 < i < |xs| ==> UniqueIndex(t, cs, xs[i]))
    && (forall i, j :: 0 < i < j < |xs| ==> xs[i].column < xs[j].column)
    && (forall i, c :: 0 < i < |xs| && n <= c < |cs| ==> xs[i].column < cs[c].id)
    && (forall c :: 0 <= c < n && cs[c].spec.unique && !cs[c].spec.primaryKey ==> IndexedBy(xs, cs[c].id))
  }

  lemma FirstIndex(t: nat, root: PageId, first: Id, schema: Schema, cs: seq<ColumnDescriptor>, firstColumn: Id,
                   xs: seq<IndexDescriptor>, pageCount: nat)
    requires schema.LaidOut() && ColumnsOfSpecs(t, firstColumn, schema.specs, cs) && RootOk(root, pageCount)
    requires xs == [IndexDescriptor(first, t, PrimaryIndexName(t), root, true, true, true, cs[schema.primaryKey].id)]
    ensures SomeIndexes(t, root, first, cs, xs, pageCount, 0)
  {
    assert HasColumn(cs, cs[schema.primaryKey].id);
  }

  lemma NextIndex(t: nat, root: PageId, first: Id, cs: seq<ColumnDescriptor>, firstColumn: Id, specs: seq<ColumnSpec>,
                  xs: seq<IndexDescriptor>, before: nat, pageCount: nat, c: nat, x: IndexDescriptor)
    requires SomeIndexes(t, root, first, cs, xs, before, c) && c < |cs| && before <= pageCount &&
      RootOk(x.root, pageCount)
    requires ColumnsOfSpecs(t, firstColumn, specs, cs) && firstColumn >= 0 && !cs[c].spec.primaryKey &&
      cs[c].spec.unique
    requires x == IndexDescriptor(first + |xs|, t, UniqueIndexName(t, cs[c].id), x.root, true, false, true, cs[c].id)
    ensures SomeIndexes(t, root, first, cs, xs + [x], pageCount, c + 1)
  {
    var ys := xs + [x];
    assert HasColumn(cs, x.column) && UniqueIndex(t, cs, x);
    forall i | 0 <= i < |ys|
      ensures InternalIndex(t, first + i, cs, ys[i], pageCount)
    {
      assert i < |xs| ==> InternalIndex(t, first + i, cs, xs[i], before);
    }
    forall i | 0 < i < |ys|
      ensures UniqueIndex(t, cs, ys[i])
    {
      assert i < |xs| ==> UniqueIndex(t, cs, xs[i]);
    }
    OneMoreIndexed(cs, xs, c, x);
    hide InternalIndex, UniqueIndex, IndexedBy;
    assert cs[c].id == x.column && forall d :: c < d < |cs| ==> x.column < cs[d].id;
  }

  lemma OneMoreIndexed(cs: seq<ColumnDescriptor>, xs: seq<IndexDescriptor>, c: nat, x: IndexDescriptor)
    requires c < |cs| && x.column == cs[c].id
    requires forall d :: 0 <= d < c && cs[d].spec.unique && !cs[d].spec.primaryKey ==> IndexedBy(xs, cs[d].id)
    ensures forall d :: 0 <= d < c + 1 && cs[d].spec.unique && !cs[d].spec.primaryKey ==> IndexedBy(xs + [x], cs[d].id)
  {
    var ys := xs + [x];
    forall d | 0 <= d < c + 1 && cs[d].spec.unique && !cs[d].spec.primaryKey
      ensures IndexedBy(ys, cs[d].id)
    {
      if d < c {
        assert IndexedBy(xs, cs[d].id);
        var i :| 0 <= i < |xs| && xs[i].column == cs[d].id;
        assert ys[i].column == cs[d].id;
      } else {
        assert ys[|xs|].column == cs[d].id;
      }
    }
  }

  lemma SkipColumn(t: nat, root: PageId, first: Id, cs: seq<ColumnDescriptor>, xs: seq<IndexDescriptor>, pageCount: nat,
                   c: nat)
    requires SomeIndexes(t, root, first, cs, xs, pageCount, c) && c < |cs| &&
      !(!cs[c].spec.primaryKey && cs[c].spec.unique)
    ensures SomeIndexes(t, root, first, cs, xs, pageCount, c + 1)
  {
  }

  lemma NewIndexSized(t: nat, schema: Schema, firstColumn: Id, cs: seq<ColumnDescriptor>, c: nat, x: IndexDescriptor)
    requires schema.LaidOut() && ColumnsOfSpecs(t, firstColumn, schema.specs, cs) && c < |cs|
    requires x.column == cs[c].id && x.unique && cs[c].spec.unique && CanBeDescribed(cs[c].spec)
    ensures IndexSized(cs, x, TreeSizes(SizeOf(cs[c]), SizeOf(cs[schema.primaryKey])))
    ensures ColumnIndexable(cs, x.column)
  {
  }

  /** The trees that CREATE TABLE made. */
  lemma NewTableTrees(s: CatalogState, name: Bytes, schema: Schema, info: TableInfo, pageCount: nat,
                      trees: map<PageId, TreeSizes>)
    requires NewTable(s, name, schema, info, pageCount) && schema.LaidOut() && info.descriptor.root in trees
    requires trees[info.descriptor.root] ==
      TreeSizes(FixedSize(schema.columns[schema.primaryKey].logicalType), schema.rowSize)
    requires IndexTreesOk(info.columns, info.indexes, trees)
    ensures TableTreesOk(info, trees)
  {
    assert SpecsOf(info.columns) == schema.specs;
    hide IndexTreesOk, InternalIndexes;
  }

  /** A column has one position, and so has the primary key. */
  lemma OneSize(s: CatalogState, m: Metadata, t: Id, column: Id, unique: bool, at: nat, key: nat)
    requires StateOk(s, m) && t in s.tables
    requires var cs := s.tables[t].columns;
      at < |cs| && cs[at].id == column && key < |cs| && cs[key].spec.primaryKey
    ensures var cs := s.tables[t].columns;
      IndexSizesFit(cs, column, unique, IndexSizes(SizeOf(cs[at]), SizeOf(cs[key]), unique))
  {
    var cs := s.tables[t].columns;
    assert TableFits(t, s.tables[t], m.pageCount);
    forall c | 0 <= c < |cs| && cs[c].id == column ensures c == at {
      assert ColumnStored(m, cs[c]) && ColumnStored(m, cs[at]);
      assert ColumnFits(t, cs[c], c) && ColumnFits(t, cs[at], at);
    }
    forall k | 0 <= k < |cs| && cs[k].spec.primaryKey ensures k == key {
      var p: nat :| OnlyPrimaryKey(SpecsOf(cs), p);
      assert SpecsOf(cs)[k].primaryKey && SpecsOf(cs)[key].primaryKey;
    }
  }

  lemma HasPrimaryKey(s: CatalogState, m: Metadata, t: Id)
    requires StateOk(s, m) && t in s.tables
    ensures exists k :: 0 <= k < |s.tables[t].columns| && s.tables[t].columns[k].spec.primaryKey
  {
    var cs := s.tables[t].columns;
    assert TableFits(t, s.tables[t], m.pageCount);
    var p: nat :| OnlyPrimaryKey(SpecsOf(cs), p);
    assert SpecsOf(cs)[p].primaryKey && cs[p].spec.primaryKey;
  }

  /** The new table: the columns of the schema with consecutive ids, and its internal indexes. */
  ghost predicate NewTable(s: CatalogState, name: Bytes, schema: Schema, info: TableInfo, pageCount: nat) {
    && s.nextTable >= 0 && info.descriptor.id == s.nextTable && info.descriptor.name == name &&
       RootOk(info.descriptor.root, pageCount)
    && ColumnsOfSpecs(s.nextTable, s.nextColumn, schema.specs, info.columns)
    && InternalIndexes(s.nextTable, info.descriptor.root, s.nextIndex, info.columns, info.indexes, pageCount)
  }

  function StateWithTable(s: CatalogState, name: Bytes, schema: Schema, info: TableInfo): CatalogState {
    CatalogState(s.nextTable + 1, s.nextColumn + |info.columns|, s.nextIndex + |info.indexes|,
                 s.tables[s.nextTable := info], s.schemas[s.nextTable := schema], s.idByName[name := s.nextTable])
  }

  lemma NewTableFits(s: CatalogState, name: Bytes, schema: Schema, info: TableInfo, pageCount: nat)
    requires NewTable(s, name, schema, info, pageCount) && NextIdsFree(s) && name != [] && schema.LaidOut()
    requires forall i :: 0 <= i < |schema.specs| ==> CanBeDescribed(schema.specs[i])
    ensures TableFits(s.nextTable, info, pageCount)
  {
    var t: nat := s.nextTable;
    assert SpecsOf(info.columns) == schema.specs;
    assert ColumnsFit(t, info.columns);
    forall i | 0 <= i < |info.indexes|
      ensures IndexFits(t, info, info.indexes[i], pageCount)
    {
      assert InternalIndex(t, s.nextIndex + i, info.columns, info.indexes[i], pageCount);
      assert i > 0 ==> UniqueIndex(t, info.columns, info.indexes[i]);
      Reserved(t, if info.indexes[i].column >= 0 then info.indexes[i].column else 0);
    }
    assert Ascending(info.indexes) by {
      assert forall i :: 0 <= i < |info.indexes| ==>
        InternalIndex(t, s.nextIndex + i, info.columns, info.indexes[i], pageCount);
    }
    assert PrimaryIndexIs(info, 0) by {
      assert forall i :: 0 < i < |info.indexes| ==> UniqueIndex(t, info.columns, info.indexes[i]);
    }
  }

  /** No index in use has one of the new table's index names. */
  lemma NewNamesFresh(s: CatalogState, m: Metadata, name: Bytes, schema: Schema, info: TableInfo, pageCount: nat)
    requires StateOk(s, m) && NewTable(s, name, schema, info, pageCount)
    ensures NamesFresh(s.tables, info.indexes)
  {
    var t: nat := s.nextTable;
    var xs := info.indexes;
    assert forall i :: 0 < i < |xs| ==> UniqueIndex(t, info.columns, xs[i]);
    forall u, i, j | u in s.tables && 0 <= i < |s.tables[u].indexes| && 0 <= j < |xs|
      ensures s.tables[u].indexes[i].name != xs[j].name
    {
      var y := s.tables[u].indexes[i];
      assert u < s.nextTable;
      assert TableFits(u, s.tables[u], m.pageCount) && IndexFits(u, s.tables[u], y, m.pageCount);
      if y.name == xs[j].name {
        Reserved(t, if j == 0 then 0 else xs[j].column);
        assert InternallyNamed(y);
        OtherTablesName(y, t, if j == 0 then 0 else xs[j].column);
      }
    }
    forall i, j | 0 <= i < j < |xs|
      ensures xs[i].name != xs[j].name
    {
      if i == 0 {
        KindsApart(t, t, xs[j].column);
      } else if xs[i].name == xs[j].name {
        UniqueNamesApart(t, xs[i].column, t, xs[j].column);
      }
    }
  }

  lemma OtherTablesName(y: IndexDescriptor, t: nat, c: nat)
    requires InternallyNamed(y) && y.table != t
    ensures y.name != PrimaryIndexName(t) && y.name != UniqueIndexName(t, c)
  {
    KindsApart(t, y.table, y.column);
    KindsApart(y.table, t, c);
    if y.name == PrimaryIndexName(y.table) && y.name == PrimaryIndexName(t) {
      PrimaryNamesApart(y.table, t);
    }
    if y.name == UniqueIndexName(y.table, y.column) && y.name == UniqueIndexName(t, c) {
      UniqueNamesApart(y.table, y.column, t, c);
    }
  }

  /** Storing the new table's rows makes the rows describe the state with the new table. */
  lemma TableCreated(s: CatalogState, m: Metadata, n: Metadata, name: Bytes, schema: Schema, info: TableInfo)
    requires StateOk(s, m) && NewTable(s, name, schema, info, n.pageCount) && TableRowsAdded(m, n, s.nextTable, info)
    requires name != [] && name !in s.idByName && schema.LaidOut()
    requires forall i :: 0 <= i < |schema.specs| ==> CanBeDescribed(schema.specs[i])
    requires TreesKept(m, n) && TableTreesOk(info, n.trees) && RootsFresh(info.indexes, m.pageCount)
    ensures StateOk(StateWithTable(s, name, schema, info), n)
  {
    NewTableFits(s, name, schema, info, n.pageCount);
    NewNamesFresh(s, m, name, schema, info, n.pageCount);
    NewTableConsistent(s, name, schema, info, n.pageCount);
    TableAccepted(s, m, n, name, schema, info);
    AcceptedRoots(m, s.tables);
    hide Accepts, TableTreesOk, RootsFresh, RootsWithin, TreesKept, TreesOk, NewTable;
    TableTreesAdded(m, n, s.tables, s.nextTable, info);
  }

  lemma TableAccepted(s: CatalogState, m: Metadata, n: Metadata, name: Bytes, schema: Schema, info: TableInfo)
    requires StateOk(s, m) && NewTable(s, name, schema, info, n.pageCount) && TableRowsAdded(m, n, s.nextTable, info)
    requires name !in s.idByName && TableFits(s.nextTable, info, n.pageCount) && NamesFresh(s.tables, info.indexes)
    ensures Accepts(n, s.tables[s.nextTable := info])
  {
    assert forall u :: u in s.tables ==> s.tables[u].descriptor.name in s.idByName;
    hide Accepts, TableRowsAdded, TableFits, NamesFresh;
    TableAdded(m, n, s.tables, s.nextTable, info);
  }

  lemma NewTableConsistent(s: CatalogState, name: Bytes, schema: Schema, info: TableInfo, pageCount: nat)
    requires Consistent(s) && NewTable(s, name, schema, info, pageCount) && name !in s.idByName && schema.LaidOut()
    ensures Consistent(StateWithTable(s, name, schema, info))
  {
    var next := StateWithTable(s, name, schema, info);
    assert SpecsOf(info.columns) == schema.specs;
    NewTableIds(s, name, schema, info, pageCount);
    NewTableNames(s, name, schema, info, pageCount);
    NewTableIndexed(s, name, schema, info);
  }

  lemma NewTableIndexed(s: CatalogState, name: Bytes, schema: Schema, info: TableInfo)
    requires SchemasIndexed(s.tables, s.schemas) && NamesIndexed(s.tables, s.idByName) && name !in s.idByName &&
      s.nextTable !in s.tables
    requires SchemaOf(schema, info.columns) && info.descriptor.name == name
    ensures
      var next := StateWithTable(s, name, schema, info);
      SchemasIndexed(next.tables, next.schemas) && NamesIndexed(next.tables, next.idByName)
  {
    hide SchemaOf;
    assert forall u :: u in s.tables ==> s.tables[u].descriptor.name in s.idByName;
  }

  lemma NewTableIds(s: CatalogState, name: Bytes, schema: Schema, info: TableInfo, pageCount: nat)
    requires NextIdsFree(s) && NewTable(s, name, schema, info, pageCount)
    ensures NextIdsFree(StateWithTable(s, name, schema, info))
  {
    var next := StateWithTable(s, name, schema, info);
    forall t | t in next.tables
      ensures t < next.nextTable && IdsBelow(next.tables[t], next.nextColumn, next.nextIndex)
    {
      if t == s.nextTable {
        assert forall i :: 0 <= i < |info.indexes| ==>
          InternalIndex(t, s.nextIndex + i, info.columns, info.indexes[i], pageCount);
      } else {
        assert IdsBelow(s.tables[t], s.nextColumn, s.nextIndex);
      }
    }
  }

  lemma NewTableNames(s: CatalogState, name: Bytes, schema: Schema, info: TableInfo, pageCount: nat)
    requires NamesInternal(s.tables) && NextIdsFree(s) && NewTable(s, name, schema, info, pageCount)
    ensures NamesInternal(s.tables[s.nextTable := info])
  {
    forall i | 0 <= i < |info.indexes|
      ensures InternallyNamed(info.indexes[i])
    {
      assert InternalIndex(s.nextTable, s.nextIndex + i, info.columns, info.indexes[i], pageCount);
      assert i > 0 ==> UniqueIndex(s.nextTable, info.columns, info.indexes[i]);
      assert HasColumn(info.columns, info.indexes[i].column);
    }
  }

  lemma OneMoreColumn(m: Metadata, before: Metadata, after: Metadata, cs: seq<ColumnDescriptor>, i: nat)
    requires i < |cs| && ColumnsAdded(m, before, cs[..i]) && cs[i].id !in before.columns
    requires after.columns == before.columns[cs[i].id := RowOfColumn(cs[i])]
    ensures ColumnsAdded(m, after, cs[..i + 1])
  {
    var more := cs[..i + 1];
    forall j | 0 <= j < |more|
      ensures ColumnStored(after, more[j])
    {
      assert j < i ==> ColumnStored(before, cs[..i][j]);
    }
    forall k | k in after.columns && k !in m.columns
      ensures HasColumn(cs[..i + 1], k)
    {
      if k == cs[i].id {
        assert cs[..i + 1][i].id == k;
      } else {
        assert HasColumn(cs[..i], k);
        var j :| 0 <= j < i && cs[..i][j].id == k;
        assert cs[..i + 1][j].id == k;
      }
    }
  }

  lemma OneMoreIndex(m: Metadata, before: Metadata, after: Metadata, xs: seq<IndexDescriptor>, i: nat)
    requires i < |xs| && IndexesAdded(m, before, xs[..i]) && IndexRowsAdded(before, after, xs[i])
    ensures IndexesAdded(m, after, xs[..i + 1])
  {
    var more := xs[..i + 1];
    forall j | 0 <= j < |more|
      ensures IndexStored(after, more[j])
    {
      assert j < i ==> IndexStored(before, xs[..i][j]);
    }
    forall k | (k in after.indexes && k !in m.indexes) || (k in after.indexColumns && k !in m.indexColumns)
      ensures HasIndex(xs[..i + 1], k)
    {
      if k == xs[i].id {
        assert xs[..i + 1][i].id == k;
      } else {
        assert HasIndex(xs[..i], k);
        var j :| 0 <= j < i && xs[..i][j].id == k;
        assert xs[..i + 1][j].id == k;
      }
    }
  }

  /** Pages allocated meanwhile do not matter to the new table. */
  lemma NewTableLater(s: CatalogState, name: Bytes, schema: Schema, info: TableInfo, before: nat, after: nat)
    requires NewTable(s, name, schema, info, before) && before <= after
    ensures NewTable(s, name, schema, info, after)
  {
    forall i | 0 <= i < |info.indexes|
      ensures InternalIndex(s.nextTable, s.nextIndex + i, info.columns, info.indexes[i], after)
    {
      assert InternalIndex(s.nextTable, s.nextIndex + i, info.columns, info.indexes[i], before);
    }
  }

  lemma RowsAddedSince(m: Metadata, before: Metadata, after: Metadata, t: Id, info: TableInfo)
    requires before == m.(pageCount := before.pageCount, trees := before.trees) && m.pageCount <= before.pageCount
    requires TableRowsAdded(before, after, t, info)
    ensures TableRowsAdded(m, after, t, info)
  {
  }

  // ---- When CREATE TABLE is refused ----------------------------------------------------------

  /** The ids of the columns and indexes are not in use. */
  ghost predicate IdsUnused(m: Metadata, t: Id, info: TableInfo) {
    t !in m.tables && ColumnsUnused(m, info.columns) && IndexesUnused(m, info.indexes)
  }

  ghost predicate ColumnsUnused(m: Metadata, cs: seq<ColumnDescriptor>) {
    && (forall i :: 0 <= i < |cs| ==> cs[i].id !in m.columns)
    && forall i, j :: 0 <= i < j < |cs| ==> cs[i].id != cs[j].id
  }

  ghost predicate IndexesUnused(m: Metadata, xs: seq<IndexDescriptor>) {
    && (forall i :: 0 <= i < |xs| ==> xs[i].id !in m.indexes && xs[i].id !in m.indexColumns)
    && forall i, j :: 0 <= i < j < |xs| ==> xs[i].id != xs[j].id
  }

  /** Ids that are in use are below the next ones. */
  lemma IdsInUse(s: CatalogState, m: Metadata)
    requires StateOk(s, m)
    ensures s.nextTable !in m.tables && (forall k :: k in m.columns ==> k < s.nextColumn)
    ensures forall k :: k in m.indexes || k in m.indexColumns ==> k < s.nextIndex
  {
    assert s.nextTable !in s.tables;
    forall k | k in m.columns ensures k < s.nextColumn {
      ColumnIdInUse(s, m, k);
    }
    forall k | k in m.indexes ensures k < s.nextIndex {
      IndexIdInUse(s, m, k);
    }
    hide Consistent, TreesOk;
  }

  lemma ColumnIdInUse(s: CatalogState, m: Metadata, k: Id)
    requires StateOk(s, m) && k in m.columns
    ensures k < s.nextColumn
  {
    assert ColumnOwned(m.columns[k], s.tables, k);
    assert IdsBelow(s.tables[m.columns[k].table], s.nextColumn, s.nextIndex);
  }

  lemma IndexIdInUse(s: CatalogState, m: Metadata, k: Id)
    requires StateOk(s, m) && k in m.indexes
    ensures k < s.nextIndex
  {
    assert IndexOwned(m.indexes[k], s.tables, k);
    assert IdsBelow(s.tables[m.indexes[k].table], s.nextColumn, s.nextIndex);
  }

  lemma NewIdsUnused(s: CatalogState, m: Metadata, n: Metadata, name: Bytes, schema: Schema, info: TableInfo,
                     pageCount: nat)
    requires StateOk(s, m) && NewTable(s, name, schema, info, pageCount)
    requires n == m.(pageCount := n.pageCount, trees := n.trees)
    ensures IdsUnused(n, s.nextTable, info)
  {
    IdsInUse(s, m);
    hide StateOk;
    assert forall i :: 0 <= i < |info.indexes| ==>
      InternalIndex(s.nextTable, s.nextIndex + i, info.columns, info.indexes[i], pageCount);
  }

  ghost predicate NamesStorable(info: TableInfo) {
    && Storable(info.descriptor.name) && (forall i :: 0 <= i < |info.columns| ==> Storable(info.columns[i].spec.name))
    && forall i :: 0 <= i < |info.indexes| ==> Storable(info.indexes[i].name)
  }

  predicate OnlyUnique(spec: ColumnSpec) {
    spec.unique && !spec.primaryKey
  }

  /** Pages can hold the table's entries, and those of an index on each unique column. */
  predicate LayoutsOk(schema: Schema)
    requires schema.primaryKey < |schema.columns|
  {
    PagedBTree.ValidateLayout(KeySizeOf(schema), schema.rowSize).Ok? && UniqueLayoutsOk(schema)
  }

  predicate UniqueLayoutsOk(schema: Schema)
    requires schema.primaryKey < |schema.columns|
  {
    forall i :: 0 <= i < |schema.specs| && OnlyUnique(schema.specs[i]) ==> UniqueLayoutOk(schema, schema.specs[i])
  }

  predicate UniqueLayoutOk(schema: Schema, spec: ColumnSpec)
    requires schema.primaryKey < |schema.columns|
  {
    PagedBTree.ValidateLayout(FixedSize(spec.column.logicalType), KeySizeOf(schema)).Ok?
  }

  function KeySizeOf(schema: Schema): nat
    requires schema.primaryKey < |schema.columns|
  {
    FixedSize(schema.columns[schema.primaryKey].logicalType)
  }

  /** The names that CREATE TABLE stores can be stored. */
  ghost predicate NewNamesStorable(s: CatalogState, name: Bytes, schema: Schema)
    requires s.nextTable >= 0 && s.nextColumn >= 0
  {
    && Storable(name) && Storable(PrimaryIndexName(s.nextTable))
    && (forall i :: 0 <= i < |schema.specs| ==> Storable(schema.specs[i].name))
    && forall i :: 0 <= i < |schema.specs| && OnlyUnique(schema.specs[i]) ==>
         Storable(UniqueIndexName(s.nextTable, s.nextColumn + i))
  }

  /** What CREATE TABLE asks of a table beyond the checks on its name. */
  ghost predicate Admitted(s: CatalogState, name: Bytes, schema: Schema)
    requires schema.primaryKey < |schema.columns| && s.nextTable >= 0 && s.nextColumn >= 0
  {
    && (forall i :: 0 <= i < |schema.specs| ==> CanBeDescribed(schema.specs[i])) && LayoutsOk(schema)
    && NewNamesStorable(s, name, schema)
  }

  lemma NamesAreNew(s: CatalogState, name: Bytes, schema: Schema, info: TableInfo, pageCount: nat)
    requires NewTable(s, name, schema, info, pageCount) && s.nextColumn >= 0 && schema.LaidOut()
    ensures NamesStorable(info) <==> NewNamesStorable(s, name, schema)
  {
    hide Storable, PrimaryIndexName, UniqueIndexName, InternalIndex, UniqueIndex, IndexedBy;
    var cs, xs, t: nat := info.columns, info.indexes, s.nextTable;
    assert forall i :: 0 <= i < |cs| ==> cs[i].spec == schema.specs[i];
    if NamesStorable(info) {
      forall c | 0 <= c < |cs| && OnlyUnique(schema.specs[c])
        ensures Storable(UniqueIndexName(t, s.nextColumn + c))
      {
        UniqueIndexOf(t, s, schema, info, pageCount, c);
      }
    }
    if NewNamesStorable(s, name, schema) {
      forall i | 0 < i < |xs|
        ensures Storable(xs[i].name)
      {
        UniqueIndexAt(t, s, schema, info, pageCount, i);
      }
    }
  }

  lemma UniqueIndexAt(t: nat, s: CatalogState, schema: Schema, info: TableInfo, pageCount: nat, i: nat)
    requires ColumnsOfSpecs(t, s.nextColumn, schema.specs, info.columns) && s.nextColumn >= 0
    requires InternalIndexes(t, info.descriptor.root, s.nextIndex, info.columns, info.indexes, pageCount)
    requires 0 < i < |info.indexes|
    ensures exists c ::
      0 <= c < |schema.specs| && OnlyUnique(schema.specs[c]) &&
      info.indexes[i].name == UniqueIndexName(t, s.nextColumn + c)
  {
    assert UniqueIndex(t, info.columns, info.indexes[i]);
    var c :| 0 <= c < |info.columns| && info.columns[c].id == info.indexes[i].column &&
      info.columns[c].spec.unique && !info.columns[c].spec.primaryKey;
    assert OnlyUnique(schema.specs[c]);
  }

  lemma UniqueIndexOf(t: nat, s: CatalogState, schema: Schema, info: TableInfo, pageCount: nat, c: nat)
    requires ColumnsOfSpecs(t, s.nextColumn, schema.specs, info.columns) && s.nextColumn >= 0 && schema.LaidOut()
    requires InternalIndexes(t, info.descriptor.root, s.nextIndex, info.columns, info.indexes, pageCount)
    requires c < |info.columns| && OnlyUnique(schema.specs[c])
    ensures exists i :: 0 < i < |info.indexes| && info.indexes[i].name == UniqueIndexName(t, s.nextColumn + c)
  {
    var cs, xs := info.columns, info.indexes;
    assert cs[c].spec == schema.specs[c] && cs[schema.primaryKey].spec == schema.specs[schema.primaryKey];
    assert IndexedBy(xs, cs[c].id);
    var i :| 0 <= i < |xs| && xs[i].column == cs[c].id;
    assert xs[0].column == cs[schema.primaryKey].id;
    assert UniqueIndex(t, cs, xs[i]);
  }

  /** Making the trees, and then storing the rows. */
  lemma TableBuilt(s: CatalogState, m: Metadata, before: Metadata, after: Metadata, name: Bytes, schema: Schema,
                   info: TableInfo)
    requires StateOk(s, m) && NewTable(s, name, schema, info, before.pageCount) && schema.LaidOut()
    requires before == m.(pageCount := before.pageCount, trees := before.trees) && TreesKept(m, before)
    requires info.descriptor.root in before.trees && before.trees[info.descriptor.root] ==
      TreeSizes(FixedSize(schema.columns[schema.primaryKey].logicalType), schema.rowSize)
    requires IndexTreesOk(info.columns, info.indexes, before.trees) && RootsFresh(info.indexes, m.pageCount)
    requires TableRowsAdded(before, after, s.nextTable, info) && after.trees == before.trees
    requires name != [] && name !in s.idByName
    requires forall i :: 0 <= i < |schema.specs| ==> CanBeDescribed(schema.specs[i])
    ensures NewTable(s, name, schema, info, after.pageCount) && StateOk(StateWithTable(s, name, schema, info), after)
  {
    hide StateOk, IndexTreesOk, RootsFresh, TreesKept, StateWithTable, NewTable, TableTreesOk;
    assert before.pageCount <= after.pageCount;
    KeptSince(m, before, after);
    RowsAddedSince(m, before, after, s.nextTable, info);
    hide TableRowsAdded;
    NewTableLater(s, name, schema, info, before.pageCount, after.pageCount);
    NewTableTrees(s, name, schema, info, after.pageCount, after.trees);
    TableCreated(s, m, after, name, schema, info);
  }

  lemma TreesBelow(s: CatalogState, m: Metadata)
    requires StateOk(s, m)
    ensures TreesWithin(m)
    ensures s.nextTable >= 0 && s.nextColumn >= 0
  {
  }

  // ---- DROP TABLE --------------------------------------------------------------------------

  function StateWithoutTable(s: CatalogState, t: Id): CatalogState
    requires t in s.tables
  {
    s.(tables := s.tables - {t}, schemas := s.schemas - {t}, idByName := s.idByName - {s.tables[t].descriptor.name})
  }

  lemma TableDropped(s: CatalogState, m: Metadata, n: Metadata, t: Id)
    requires StateOk(s, m) && t in s.tables && !IsSystemTable(t) && TableRowsRemoved(m, n, t)
    ensures StateOk(StateWithoutTable(s, t), n)
  {
    hide Accepts, Consistent, TreesOk, TreesKept;
    TableRemoved(m, n, s.tables, t);
    WithoutTableConsistent(s, t);
    SameTrees(m, n, s.tables);
    TableTreesRemoved(m, n, s.tables, t);
  }

  lemma WithoutTableConsistent(s: CatalogState, t: Id)
    requires Consistent(s) && t in s.tables
    ensures Consistent(StateWithoutTable(s, t))
  {
    hide SchemaOf, IdsBelow, InternallyNamed, HasReservedPrefix;
    var next := StateWithoutTable(s, t);
    assert NamesIndexed(next.tables, next.idByName);
  }

  ghost predicate ColumnsErased(m: Metadata, n: Metadata, cs: seq<ColumnDescriptor>) {
    && n == m.(columns := n.columns)
    && (forall k :: k in n.columns <==> k in m.columns && !HasColumn(cs, k))
    && (forall k :: k in n.columns ==> n.columns[k] == m.columns[k])
  }

  ghost predicate IndexesErased(m: Metadata, n: Metadata, xs: seq<IndexDescriptor>) {
    && n == m.(indexes := n.indexes, indexColumns := n.indexColumns)
    && (forall k :: k in n.indexes <==> k in m.indexes && !HasIndex(xs, k))
    && (forall k :: k in n.indexes ==> n.indexes[k] == m.indexes[k])
    && (forall k :: k in n.indexColumns <==> k in m.indexColumns && !HasIndex(xs, k))
    && (forall k :: k in n.indexColumns ==> n.indexColumns[k] == m.indexColumns[k])
  }

  lemma OneLessColumn(m: Metadata, before: Metadata, after: Metadata, cs: seq<ColumnDescriptor>, i: nat)
    requires i < |cs| && ColumnsErased(m, before, cs[..i]) && after == before.(columns := before.columns - {cs[i].id})
    ensures ColumnsErased(m, after, cs[..i + 1])
  {
    var more := cs[..i + 1];
    forall k
      ensures HasColumn(more, k) <==> HasColumn(cs[..i], k) || k == cs[i].id
    {
      if j :| 0 <= j < i && cs[..i][j].id == k {
        assert more[j].id == k;
      }
      if k == cs[i].id {
        assert more[i].id == k;
      }
      if j :| 0 <= j < |more| && more[j].id == k {
        assert j < i ==> cs[..i][j].id == k;
      }
    }
  }

  lemma OneLessIndex(m: Metadata, before: Metadata, after: Metadata, xs: seq<IndexDescriptor>, i: nat)
    requires i < |xs| && IndexesErased(m, before, xs[..i]) && IndexRowsRemoved(before, after, xs[i].id) &&
      after.pageCount == before.pageCount
    ensures IndexesErased(m, after, xs[..i + 1])
  {
    var more := xs[..i + 1];
    forall k
      ensures HasIndex(more, k) <==> HasIndex(xs[..i], k) || k == xs[i].id
    {
      if j :| 0 <= j < i && xs[..i][j].id == k {
        assert more[j].id == k;
      }
      if k == xs[i].id {
        assert more[i].id == k;
      }
      if j :| 0 <= j < |more| && more[j].id == k {
        assert j < i ==> xs[..i][j].id == k;
      }
    }
  }

  /** Erasing the rows of a table's descriptors leaves no row that names the table. */
  lemma TableRowsGone(m: Metadata, n1: Metadata, n2: Metadata, n: Metadata, ts: TableMap, t: Id)
    requires Accepts(m, ts) && t in ts && IndexesErased(m, n1, ts[t].indexes) && ColumnsErased(n1, n2, ts[t].columns)
    requires n == n2.(tables := m.tables - {t})
    ensures TableRowsRemoved(m, n, t)
  {
    assert TableFits(t, ts[t], m.pageCount);
    forall k | k in m.columns
      ensures HasColumn(ts[t].columns, k) <==> m.columns[k].table == t
    {
      ColumnOfTable(m, ts, t, k);
    }
    forall k | k in m.indexes
      ensures HasIndex(ts[t].indexes, k) <==> m.indexes[k].table == t
    {
      IndexOfTable(m, ts, t, k);
    }
  }

  lemma ColumnOfTable(m: Metadata, ts: TableMap, t: Id, k: Id)
    requires Accepts(m, ts) && t in ts && k in m.columns
    ensures HasColumn(ts[t].columns, k) <==> m.columns[k].table == t
  {
    assert ColumnOwned(m.columns[k], ts, k) && TableFits(t, ts[t], m.pageCount);
    if HasColumn(ts[t].columns, k) {
      var i :| 0 <= i < |ts[t].columns| && ts[t].columns[i].id == k;
      assert ColumnStored(m, ts[t].columns[i]) && ColumnFits(t, ts[t].columns[i], i);
    }
  }

  lemma IndexOfTable(m: Metadata, ts: TableMap, t: Id, k: Id)
    requires Accepts(m, ts) && t in ts && k in m.indexes
    ensures HasIndex(ts[t].indexes, k) <==> m.indexes[k].table == t
  {
    assert IndexOwned(m.indexes[k], ts, k) && TableFits(t, ts[t], m.pageCount);
    if HasIndex(ts[t].indexes, k) {
      var i :| 0 <= i < |ts[t].indexes| && ts[t].indexes[i].id == k;
      assert IndexStored(m, ts[t].indexes[i]) && IndexFits(t, ts[t], ts[t].indexes[i], m.pageCount);
    }
  }

  ghost predicate ColumnsThere(m: Metadata, cs: seq<ColumnDescriptor>) {
    && (forall i :: 0 <= i < |cs| ==> cs[i].id in m.columns)
    && forall i, j :: 0 <= i < j < |cs| ==> cs[i].id != cs[j].id
  }

  ghost predicate IndexesThere(m: Metadata, xs: seq<IndexDescriptor>) {
    && (forall i :: 0 <= i < |xs| ==> xs[i].id in m.indexes && xs[i].id in m.indexColumns)
    && forall i, j :: 0 <= i < j < |xs| ==> xs[i].id != xs[j].id
  }

  /** The rows of a table's descriptors are there, one for each. */
  lemma RowsThere(s: CatalogState, m: Metadata, t: Id)
    requires StateOk(s, m) && t in s.tables
    ensures t in m.tables && ColumnsThere(m, s.tables[t].columns) && IndexesThere(m, s.tables[t].indexes)
  {
    TableDescribed(s, m, t);
    hide StateOk, Describes;
    ColumnRowsThere(m, s.tables, t);
    IndexRowsThere(m, s.tables, t);
  }

  lemma TableDescribed(s: CatalogState, m: Metadata, t: Id)
    requires StateOk(s, m) && t in s.tables
    ensures Describes(m, s.tables) && TableFits(t, s.tables[t], m.pageCount) && t in m.tables
  {
  }

  lemma IndexRowsThere(m: Metadata, ts: TableMap, t: Id)
    requires Describes(m, ts) && t in ts && Ascending(ts[t].indexes)
    ensures IndexesThere(m, ts[t].indexes)
  {
    hide ColumnStored, ColumnOwned, IndexOwned;
    assert forall i :: 0 <= i < |ts[t].indexes| ==> IndexStored(m, ts[t].indexes[i]);
  }

  lemma ColumnRowsThere(m: Metadata, ts: TableMap, t: Id)
    requires Describes(m, ts) && t in ts && ColumnsFit(t, ts[t].columns)
    ensures ColumnsThere(m, ts[t].columns)
  {
    var cs := ts[t].columns;
    hide IndexStored, ColumnOwned, IndexOwned;
    assert forall i :: 0 <= i < |cs| ==> ColumnStored(m, cs[i]) && ColumnFits(t, cs[i], i);
  }

  lemma TableGone(s: CatalogState, m: Metadata, n1: Metadata, n2: Metadata, n: Metadata, t: Id)
    requires StateOk(s, m) && t in s.tables && !IsSystemTable(t)
    requires IndexesErased(m, n1, s.tables[t].indexes) && ColumnsErased(n1, n2, s.tables[t].columns)
    requires n == n2.(tables := n2.tables - {t})
    ensures StateOk(StateWithoutTable(s, t), n)
  {
    TableRowsGone(m, n1, n2, n, s.tables, t);
    hide StateOk, TableRowsRemoved;
    TableDropped(s, m, n, t);
  }

  // ---- CREATE INDEX ------------------------------------------------------------------------

  function StateWithIndex(s: CatalogState, x: IndexDescriptor): CatalogState
    requires x.table in s.tables
  {
    s.(nextIndex := s.nextIndex + 1, tables := s.tables[x.table := WithIndex(s.tables[x.table], x)])
  }

  ghost predicate NewIndex(s: CatalogState, x: IndexDescriptor, pageCount: nat) {
    && x.id == s.nextIndex && x.table in s.tables && !IsSystemTable(x.table) && !x.primary && !x.internal
    && x.name != [] && !HasReservedPrefix(x.name) && RootOk(x.root, pageCount) &&
       HasColumn(s.tables[x.table].columns, x.column)
  }

  ghost predicate NameUnused(ts: TableMap, name: Bytes) {
    forall t, i :: t in ts && 0 <= i < |ts[t].indexes| ==> ts[t].indexes[i].name != name
  }

  lemma IndexCreated(s: CatalogState, m: Metadata, n: Metadata, x: IndexDescriptor)
    requires StateOk(s, m) && NewIndex(s, x, n.pageCount) && IndexRowsAdded(m, n, x) && NameUnused(s.tables, x.name)
    requires TreesKept(m, n) && IndexTreeOk(s.tables[x.table].columns, x, n.trees) && x.root >= m.pageCount
    ensures StateOk(StateWithIndex(s, x), n)
  {
    IndexAccepted(s, m, n, x);
    NewIndexConsistent(s, x);
    AcceptedRoots(m, s.tables);
    hide Accepts, RootsWithin, TreesKept, TreesOk, IndexTreeOk;
    IndexTreeAdded(m, n, s.tables, x.table, WithIndex(s.tables[x.table], x), x);
  }

  /** Making the tree, and then storing the rows. */
  lemma IndexBuilt(s: CatalogState, m: Metadata, before: Metadata, after: Metadata, x: IndexDescriptor,
                   sizes: TreeSizes)
    requires StateOk(s, m) && NewIndex(s, x, after.pageCount) && NameUnused(s.tables, x.name)
    requires x.root == m.pageCount &&
      before == m.(pageCount := m.pageCount + 1, trees := m.trees[x.root := sizes])
    requires IndexSizesFit(s.tables[x.table].columns, x.column, x.unique, sizes)
    requires ColumnIndexable(s.tables[x.table].columns, x.column) && LayoutOk(sizes)
    requires IndexRowsAdded(before, after, x) && after.trees == before.trees
    ensures StateOk(StateWithIndex(s, x), after)
  {
    hide StateOk, IndexSizesFit, ColumnIndexable, LayoutOk, NameUnused, StateWithIndex;
    TreesBelow(s, m);
    assert IndexRowsAdded(m, after, x);
    hide IndexRowsAdded;
    IndexCreated(s, m, after, x);
  }

  lemma IndexAccepted(s: CatalogState, m: Metadata, n: Metadata, x: IndexDescriptor)
    requires StateOk(s, m) && NewIndex(s, x, n.pageCount) && IndexRowsAdded(m, n, x) && NameUnused(s.tables, x.name)
    ensures Accepts(n, StateWithIndex(s, x).tables)
  {
    var t := x.table;
    assert TableFits(t, s.tables[t], m.pageCount);
    assert IdsBelow(s.tables[t], s.nextColumn, s.nextIndex);
    assert NamesFresh(s.tables, [x]);
    hide Accepts, IndexRowsAdded, NamesFresh;
    IndexAdded(m, n, s.tables, t, x);
  }

  lemma NewIndexConsistent(s: CatalogState, x: IndexDescriptor)
    requires Consistent(s) && x.table in s.tables && x.id == s.nextIndex && !HasReservedPrefix(x.name)
    ensures Consistent(StateWithIndex(s, x))
  {
    hide SchemaOf, HasReservedPrefix, NamesInternal, NamesIndexed;
    var next := StateWithIndex(s, x);
    forall u | u in next.tables
      ensures u < next.nextTable && IdsBelow(next.tables[u], next.nextColumn, next.nextIndex)
    {
      assert IdsBelow(s.tables[u], s.nextColumn, s.nextIndex);
    }
    NewIndexName(s.tables, x);
    NamesKept(s.tables, next.tables, s.idByName);
  }

  lemma NewIndexName(ts: TableMap, x: IndexDescriptor)
    requires NamesInternal(ts) && x.table in ts && !HasReservedPrefix(x.name)
    ensures NamesInternal(ts[x.table := WithIndex(ts[x.table], x)])
  {
    hide HasReservedPrefix, InternallyNamed;
  }

  // ---- DROP INDEX --------------------------------------------------------------------------

  function StateWithoutIndex(s: CatalogState, t: Id, i: nat): CatalogState
    requires t in s.tables && i < |s.tables[t].indexes|
  {
    s.(tables := s.tables[t := WithoutIndex(s.tables[t], i)])
  }

  lemma IndexDropped(s: CatalogState, m: Metadata, n: Metadata, t: Id, i: nat)
    requires StateOk(s, m) && t in s.tables && i < |s.tables[t].indexes| && !s.tables[t].indexes[i].primary
    requires IndexRowsRemoved(m, n, s.tables[t].indexes[i].id)
    ensures StateOk(StateWithoutIndex(s, t, i), n)
  {
    hide Accepts, Consistent, TreesOk, TreesKept;
    IndexRemoved(m, n, s.tables, t, i);
    WithoutIndexConsistent(s, t, i);
    SameTrees(m, n, s.tables);
    IndexTreeRemoved(m, n, s.tables, t, WithoutIndex(s.tables[t], i), i);
  }

  lemma WithoutIndexConsistent(s: CatalogState, t: Id, i: nat)
    requires Consistent(s) && t in s.tables && i < |s.tables[t].indexes|
    ensures Consistent(StateWithoutIndex(s, t, i))
  {
    var next := StateWithoutIndex(s, t, i);
    hide SchemaOf, HasReservedPrefix, InternallyNamed;
    forall u, j | u in next.tables && 0 <= j < |next.tables[u].indexes|
      ensures next.tables[u].indexes[j] == s.tables[u].indexes[if u == t && j >= i then j + 1 else j]
    {
    }
    forall u | u in next.tables
      ensures IdsBelow(next.tables[u], next.nextColumn, next.nextIndex)
    {
      assert IdsBelow(s.tables[u], s.nextColumn, s.nextIndex);
    }
    NamesKept(s.tables, next.tables, s.idByName);
  }

  /** What the catalog keeps beside the tables is given by them. */
  lemma SameIndexing(ts: TableMap, a: map<Id, Schema>, b: map<Id, Schema>, m: map<Bytes, Id>, n: map<Bytes, Id>)
    requires SchemasIndexed(ts, a) && SchemasIndexed(ts, b) && NamesIndexed(ts, m) && NamesIndexed(ts, n)
    ensures a == b && m == n
  {
    forall t | t in ts
      ensures a[t] == b[t]
    {
      LayoutUnique(a[t], b[t]);
    }
    forall t
      ensures t in a.Keys <==> t in b.Keys
    {
      assert (t in a <==> t in ts) && (t in b <==> t in ts);
    }
    assert a.Keys == b.Keys;
    assert forall t :: t in a ==> t in ts;
    assert a == b;
    NamesWithin(ts, m, n);
    NamesWithin(ts, n, m);
    assert m.Keys == n.Keys;
  }

  lemma NamesWithin(ts: TableMap, m: map<Bytes, Id>, n: map<Bytes, Id>)
    requires NamesIndexed(ts, m) && NamesIndexed(ts, n)
    ensures forall k :: k in m ==> k in n && n[k] == m[k]
  {
    forall k | k in m
      ensures k in n && n[k] == m[k]
    {
      var t := m[k];
      assert t in ts && ts[t].descriptor.name in n;
    }
  }

  lemma NameFound(s: CatalogState, m: Metadata, name: Bytes)
    requires StateOk(s, m) && name in s.idByName
    ensures s.idByName[name] in s.tables
  {
  }

  lemma NextIdsPositive(s: CatalogState, m: Metadata)
    requires StateOk(s, m)
    ensures s.nextTable >= 1 && s.nextColumn >= 1 && s.nextIndex >= 1
  {
    assert SystemTableFits(s.tables, 1, m.roots);
    var info := s.tables[1];
    assert TableFits(1, info, m.pageCount) && IdsBelow(info, s.nextColumn, s.nextIndex);
    assert |SpecsOf(info.columns)| == 3 && ColumnFits(1, info.columns[0], 0);
    var p :| PrimaryIndexIs(info, p);
    assert IndexFits(1, info, info.indexes[p], m.pageCount);
  }
}
