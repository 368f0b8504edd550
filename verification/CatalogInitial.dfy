/** The catalog of a new database: the four system tables describe themselves. */
module CatalogInitial {
  import opened PageIds
  import opened Bytes
  import opened Values
  import opened Schemas
  import Tables
  import opened CatalogStates
  import opened InternalNames
  import opened CatalogLoader
  import opened CatalogTrees
  import opened CatalogSteps

  /** The id of a system table's first column, and the one after its last. */
  function FirstColumn(t: Id): Id {
    if t == 1 then 1 else if t == 2 then 4 else if t == 3 then 13 else if t == 4 then 20 else 23
  }

  function InitialColumn(t: Id, i: nat): ColumnDescriptor
    requires IsSystemTable(t) && i < |SystemSpecs(t)|
  {
    ColumnDescriptor(FirstColumn(t) + i, t, SystemSpecs(t)[i], i)
  }

  function InitialIndex(roots: SystemRoots, t: Id): IndexDescriptor
    requires IsSystemTable(t)
  {
    IndexDescriptor(t, t, PrimaryIndexName(t), SystemRoot(roots, t), true, true, true, FirstColumn(t))
  }

  function InitialTable(roots: SystemRoots, t: Id): (info: TableInfo)
    requires IsSystemTable(t)
    ensures |info.columns| == |SystemSpecs(t)| == FirstColumn(t + 1) - FirstColumn(t)
    ensures forall i :: 0 <= i < |info.columns| ==> info.columns[i] == InitialColumn(t, i)
  {
    TableInfo(TableDescriptor(t, SystemName(t), SystemRoot(roots, t)),
              seq(|SystemSpecs(t)|, i requires 0 <= i < |SystemSpecs(t)| => InitialColumn(t, i)),
              [InitialIndex(roots, t)])
  }

  function InitialTables(roots: SystemRoots): (ts: TableMap)
    ensures forall t :: t in ts <==> IsSystemTable(t)
    ensures forall t :: t in ts ==> ts[t] == InitialTable(roots, t)
  {
    map[1 := InitialTable(roots, 1), 2 := InitialTable(roots, 2), 3 := InitialTable(roots, 3),
        4 := InitialTable(roots, 4)]
  }

  function TableOfColumn(k: Id): (t: Id)
    ensures 1 <= k < 23 ==> IsSystemTable(t) && FirstColumn(t) <= k < FirstColumn(t + 1)
  {
    if k < 4 then 1 else if k < 13 then 2 else if k < 20 then 3 else 4
  }

  /** The trees that CatalogInitializer makes. */
  function InitialTrees(roots: SystemRoots): map<PageId, TreeSizes> {
    map[roots.tables := SystemSizes(1), roots.columns := SystemSizes(2), roots.indexes := SystemSizes(3),
        roots.indexColumns := SystemSizes(4)]
  }

  function SystemSizes(t: Id): TreeSizes
    requires IsSystemTable(t)
  {
    TreeSizes(FixedSize(SystemSpecs(t)[0].column.logicalType), RowSize(ColumnsOf(SystemSpecs(t))))
  }

  /** The rows that CatalogInitializer stores. */
  function InitialRows(roots: SystemRoots, pageCount: nat): Metadata {
    var ts := InitialTables(roots);
    Metadata(map t | 1 <= t < 5 :: RowOfTable(InitialTable(roots, t).descriptor),
             map k | 1 <= k < 23 :: RowOfColumn(InitialColumn(TableOfColumn(k), k - FirstColumn(TableOfColumn(k)))),
             map t | 1 <= t < 5 :: RowOfIndex(InitialIndex(roots, t)),
             map t | 1 <= t < 5 :: IndexColumnRow(t, FirstColumn(t), 0),
             pageCount, roots, InitialTrees(roots))
  }

  lemma SystemNamesDistinct(t: Id)
    requires IsSystemTable(t)
    ensures NamesDistinct(SystemSpecs(t))
  {
    var specs := SystemSpecs(t);
    forall i, j | 0 <= i < j < |specs|
      ensures specs[i].name != specs[j].name
    {
      SystemNameTag(t, i);
      SystemNameTag(t, j);
    }
  }

  /** Length, first and third character tell the columns of a system table apart. */
  function Tag(name: Bytes): (int, int, int)
    requires |name| > 2
  {
    (|name|, name[0], name[2])
  }

  function SystemTag(t: Id, i: nat): (int, int, int)
    requires IsSystemTable(t) && i < |SystemSpecs(t)|
  {
    if t == 1 then
      (if i == 0 then (8, 't' as int, 'b' as int) else if i == 1 then (4, 'n' as int, 'm' as int)
       else (12, 'r' as int, 'o' as int))
    else if t == 2 then
      (if i == 0 then (9, 'c' as int, 'l' as int) else if i == 1 then (8, 't' as int, 'b' as int)
       else if i == 2 then (4, 'n' as int, 'm' as int)
       else if i == 3 then (9, 't' as int, 'p' as int) else if i == 4 then (13, 't' as int, 'p' as int)
       else if i == 5 then (7, 'o' as int, 'd' as int)
       else if i == 6 then (8, 'n' as int, 'l' as int) else if i == 7 then (11, 'p' as int, 'i' as int)
       else (6, 'u' as int, 'i' as int))
    else if t == 3 then
      (if i == 0 then (8, 'i' as int, 'd' as int) else if i == 1 then (8, 't' as int, 'b' as int)
       else if i == 2 then (4, 'n' as int, 'm' as int)
       else if i == 3 then (12, 'r' as int, 'o' as int) else if i == 4 then (6, 'u' as int, 'i' as int)
       else if i == 5 then (7, 'p' as int, 'i' as int)
       else (8, 'i' as int, 't' as int))
    else
      (if i == 0 then (8, 'i' as int, 'd' as int) else if i == 1 then (9, 'c' as int, 'l' as int)
       else (7, 'o' as int, 'd' as int))
  }

  lemma SystemNameTag(t: Id, i: nat)
    requires IsSystemTable(t) && i < |SystemSpecs(t)|
    ensures |SystemSpecs(t)[i].name| > 2 && Tag(SystemSpecs(t)[i].name) == SystemTag(t, i)
  {
    if t == 1 {
      TablesTag(i);
    } else if t == 2 {
      ColumnsTag(i);
    } else if t == 3 {
      IndexesTag(i);
    } else {
      IndexColumnsTag(i);
    }
  }

  lemma TablesTag(i: nat)
    requires i < |SystemSpecs(1)|
    ensures |SystemSpecs(1)[i].name| > 2 && Tag(SystemSpecs(1)[i].name) == SystemTag(1, i)
  {
    hide Ascii;
  }

  lemma ColumnsTag(i: nat)
    requires i < |SystemSpecs(2)|
    ensures |SystemSpecs(2)[i].name| > 2 && Tag(SystemSpecs(2)[i].name) == SystemTag(2, i)
  {
    hide Ascii;
  }

  lemma IndexesTag(i: nat)
    requires i < |SystemSpecs(3)|
    ensures |SystemSpecs(3)[i].name| > 2 && Tag(SystemSpecs(3)[i].name) == SystemTag(3, i)
  {
    hide Ascii;
  }

  lemma IndexColumnsTag(i: nat)
    requires i < |SystemSpecs(4)|
    ensures |SystemSpecs(4)[i].name| > 2 && Tag(SystemSpecs(4)[i].name) == SystemTag(4, i)
  {
    hide Ascii;
  }

  predicate RootsOk(roots: SystemRoots, pageCount: nat) {
    RootOk(roots.tables, pageCount) && RootOk(roots.columns, pageCount) && RootOk(roots.indexes, pageCount) &&
      RootOk(roots.indexColumns, pageCount)
  }

  lemma InitialColumnsFit(roots: SystemRoots, t: Id)
    requires IsSystemTable(t)
    ensures ColumnsFit(t, InitialTable(roots, t).columns) && SchemaFits(InitialTable(roots, t).columns)
  {
    var cs := InitialTable(roots, t).columns;
    forall i | 0 <= i < |cs|
      ensures ColumnFits(t, cs[i], i)
    {
      SystemNameTag(t, i);
      SystemSpecFits(t, i);
    }
    assert SpecsOf(cs) == SystemSpecs(t);
    SystemNamesDistinct(t);
    SystemKey(t);
  }

  lemma SystemSpecFits(t: Id, i: nat)
    requires IsSystemTable(t) && i < |SystemSpecs(t)| && SystemSpecs(t)[i].name != []
    ensures CanBeDescribed(SystemSpecs(t)[i])
  {
  }

  lemma SystemKey(t: Id)
    requires IsSystemTable(t)
    ensures OnlyPrimaryKey(SystemSpecs(t), 0)
  {
  }

  lemma InitialTableFits(roots: SystemRoots, pageCount: nat, t: Id)
    requires RootsOk(roots, pageCount) && IsSystemTable(t)
    ensures TableFits(t, InitialTable(roots, t), pageCount) && SystemTableFits(InitialTables(roots), t, roots)
  {
    var info := InitialTable(roots, t);
    InitialColumnsFit(roots, t);
    SystemKey(t);
    assert info.columns[0].id == FirstColumn(t) && HasColumn(info.columns, FirstColumn(t));
    Reserved(t, 0);
    assert forall c :: 0 <= c < |info.columns| ==> info.columns[c].spec == SystemSpecs(t)[c];
    hide SystemSpecs;
    assert PrimaryIndexIs(info, 0);
    assert SpecsOf(info.columns) == SystemSpecs(t);
  }

  lemma InitialColumnStored(roots: SystemRoots, pageCount: nat, t: Id, i: nat)
    requires IsSystemTable(t) && i < |InitialTable(roots, t).columns|
    ensures ColumnStored(InitialRows(roots, pageCount), InitialTable(roots, t).columns[i])
  {
    hide SystemSpecs, InitialTables, InitialTrees, InitialIndex, SystemName, RowOfColumn, RowOfTable;
    assert TableOfColumn(FirstColumn(t) + i) == t;
  }

  lemma InitialColumnOwned(roots: SystemRoots, pageCount: nat, k: Id)
    requires 1 <= k < 23
    ensures ColumnOwned(InitialRows(roots, pageCount).columns[k], InitialTables(roots), k)
  {
    hide SystemSpecs;
    var t := TableOfColumn(k);
    assert t in InitialTables(roots) && InitialTables(roots)[t] == InitialTable(roots, t);
    assert InitialTable(roots, t).columns[k - FirstColumn(t)] == InitialColumn(t, k - FirstColumn(t));
  }

  lemma InitialIndexStored(roots: SystemRoots, pageCount: nat, t: Id)
    requires IsSystemTable(t)
    ensures IndexStored(InitialRows(roots, pageCount), InitialIndex(roots, t)) &&
      InitialTable(roots, t).indexes == [InitialIndex(roots, t)]
    ensures HasIndex(InitialTable(roots, t).indexes, t)
  {
    hide SystemSpecs;
    assert InitialTable(roots, t).indexes[0].id == t;
  }

  lemma InitialDescribed(roots: SystemRoots, pageCount: nat)
    ensures Describes(InitialRows(roots, pageCount), InitialTables(roots))
  {
    hide InitialRows, InitialTables, InitialTable, InitialIndex, ColumnStored, ColumnOwned, IndexStored, IndexOwned;
    InitialTablesStored(roots, pageCount);
    InitialColumnsStored(roots, pageCount);
    InitialIndexesStored(roots, pageCount);
  }

  lemma InitialTablesStored(roots: SystemRoots, pageCount: nat)
    ensures var m, ts := InitialRows(roots, pageCount), InitialTables(roots);
      && (forall t :: t in m.tables <==> t in ts)
      && (forall t :: t in ts ==> m.tables[t] == RowOfTable(ts[t].descriptor))
  {
    hide SystemSpecs, InitialTrees, InitialColumn, InitialIndex, SystemName, TableOfColumn;
  }

  lemma InitialColumnsStored(roots: SystemRoots, pageCount: nat)
    ensures var m, ts := InitialRows(roots, pageCount), InitialTables(roots);
      && (forall t, i :: t in ts && 0 <= i < |ts[t].columns| ==> ColumnStored(m, ts[t].columns[i]))
      && (forall k :: k in m.columns ==> ColumnOwned(m.columns[k], ts, k))
  {
    hide SystemSpecs, InitialTables, InitialTable, InitialColumn, ColumnStored, ColumnOwned, InitialTrees;
    var m, ts := InitialRows(roots, pageCount), InitialTables(roots);
    forall t, i | t in ts && 0 <= i < |ts[t].columns|
      ensures ColumnStored(m, ts[t].columns[i])
    {
      InitialColumnStored(roots, pageCount, t, i);
    }
    forall k | k in m.columns
      ensures ColumnOwned(m.columns[k], ts, k)
    {
      InitialColumnOwned(roots, pageCount, k);
    }
  }

  lemma InitialIndexesStored(roots: SystemRoots, pageCount: nat)
    ensures var m, ts := InitialRows(roots, pageCount), InitialTables(roots);
      && (forall t, i :: t in ts && 0 <= i < |ts[t].indexes| ==> IndexStored(m, ts[t].indexes[i]))
      && (forall k :: k in m.indexes ==> IndexOwned(m.indexes[k], ts, k))
      && (forall k :: k in m.indexColumns ==> k in m.indexes)
  {
    hide SystemSpecs, InitialTable, InitialColumn, IndexStored, HasIndex, TableOfColumn, InitialTrees, SystemName;
    hide InitialTables;
    var m, ts := InitialRows(roots, pageCount), InitialTables(roots);
    forall t | t in ts
      ensures IndexStored(m, InitialIndex(roots, t)) && ts[t].indexes == [InitialIndex(roots, t)] &&
        HasIndex(ts[t].indexes, t)
    {
      InitialIndexStored(roots, pageCount, t);
    }
  }

  lemma InitialNamesDistinct(roots: SystemRoots)
    ensures TableNamesDistinct(InitialTables(roots)) && IndexNamesDistinct(InitialTables(roots))
  {
    var ts := InitialTables(roots);
    SystemNamesApart();
    forall t, i, u, j | t in ts && 0 <= i < |ts[t].indexes| && u in ts && 0 <= j < |ts[u].indexes| &&
      ts[t].indexes[i].name == ts[u].indexes[j].name
      ensures t == u && i == j
    {
      PrimaryNamesApart(t, u);
    }
  }

  /** The rows of a new database are accepted, and give the system tables. */
  lemma InitialAccepted(roots: SystemRoots, pageCount: nat)
    requires RootsOk(roots, pageCount)
    ensures Accepts(InitialRows(roots, pageCount), InitialTables(roots))
    ensures NamesInternal(InitialTables(roots))
  {
    hide TableFits, SystemTableFits, Describes, TableNamesDistinct, IndexNamesDistinct, InitialTable, InternallyNamed;
    hide HasReservedPrefix, InitialTrees, SystemSpecs, InitialColumn, InitialIndex, SystemName;
    var ts := InitialTables(roots);
    forall t | IsSystemTable(t)
      ensures TableFits(t, ts[t], pageCount) && SystemTableFits(ts, t, roots)
    {
      InitialTableFits(roots, pageCount, t);
    }
    InitialDescribed(roots, pageCount);
    InitialNamesDistinct(roots);
    forall t, i | t in ts && 0 <= i < |ts[t].indexes|
      ensures InternallyNamed(ts[t].indexes[i])
    {
      InitialIndexStored(roots, pageCount, t);
      InitialInternallyNamed(roots, t);
    }
  }

  lemma InitialInternallyNamed(roots: SystemRoots, t: Id)
    requires IsSystemTable(t)
    ensures InternallyNamed(InitialIndex(roots, t))
  {
  }

  function LayoutOf(specs: seq<ColumnSpec>): (schema: Schema) {
    var columns := ColumnsOf(specs);
    Schema(specs, columns, seq(|specs|, i requires 0 <= i < |specs| => OffsetOf(columns, i)), 0, RowSize(columns),
           NullBitmapSize(|specs|))
  }

  lemma SystemNamesApart()
    ensures forall t, u :: IsSystemTable(t) && IsSystemTable(u) && SystemName(t) == SystemName(u) ==> t == u
  {
    assert |SystemName(1)| == 12 && |SystemName(2)| == |SystemName(3)| == 13 && |SystemName(4)| == 19;
    assert SystemName(2)[6] != SystemName(3)[6];
  }

  function InitialState(roots: SystemRoots): CatalogState {
    CatalogState(5, 23, 5, InitialTables(roots), map t | 1 <= t < 5 :: LayoutOf(SystemSpecs(t)),
                 map[SystemName(1) := 1, SystemName(2) := 2, SystemName(3) := 3, SystemName(4) := 4])
  }

  lemma InitialSchema(roots: SystemRoots, t: Id)
    requires IsSystemTable(t)
    ensures SchemaOf(LayoutOf(SystemSpecs(t)), InitialTable(roots, t).columns) &&
      IdsBelow(InitialTable(roots, t), 23, 5)
    ensures InitialTable(roots, t).descriptor.name == SystemName(t)
  {
    SystemNamesDistinct(t);
    SystemKey(t);
    assert SpecsOf(InitialTable(roots, t).columns) == SystemSpecs(t);
    hide SystemSpecs;
  }

  /** create_new gives each of the four trees a page of its own. */
  predicate RootsDiffer(roots: SystemRoots) {
    && roots.tables != roots.columns && roots.tables != roots.indexes && roots.tables != roots.indexColumns
    && roots.columns != roots.indexes && roots.columns != roots.indexColumns && roots.indexes != roots.indexColumns
  }

  lemma InitialTreesOk(roots: SystemRoots, pageCount: nat)
    requires RootsOk(roots, pageCount) && RootsDiffer(roots)
    ensures TreesOk(InitialTables(roots), InitialRows(roots, pageCount))
  {
    hide TableTreesOk, SystemSpecs, InitialTable, InitialIndex, SystemSizes, TreesWithin;
    var ts, m := InitialTables(roots), InitialRows(roots, pageCount);
    forall t | t in ts ensures TableTreesOk(ts[t], m.trees) && ts[t].indexes == [InitialIndex(roots, t)] {
      InitialTableTrees(roots, t);
    }
    forall t | t in ts ensures InitialIndex(roots, t).root == SystemRoot(roots, t) {
      InitialTableTrees(roots, t);
    }
    InitialTreesBelow(roots, pageCount);
    assert RootsApart(ts);
  }

  lemma InitialTreesBelow(roots: SystemRoots, pageCount: nat)
    requires RootsOk(roots, pageCount)
    ensures TreesWithin(InitialRows(roots, pageCount))
  {
    hide SystemSizes, LayoutOk;
    SystemLayoutOk(1);
    SystemLayoutOk(2);
    SystemLayoutOk(3);
    SystemLayoutOk(4);
    assert InitialRows(roots, pageCount).trees == InitialTrees(roots);
  }

  /** A page can hold the row of a system table: no column of it is longer than a name. */
  lemma SystemLayoutOk(t: Id)
    requires IsSystemTable(t)
    ensures LayoutOk(SystemSizes(t))
  {
    var columns := ColumnsOf(SystemSpecs(t));
    TotalSizeAtMost(columns);
    assert columns[..|columns|] == columns;
  }

  lemma {:induction false} TotalSizeAtMost(columns: seq<Tables.Column>)
    requires forall i :: 0 <= i < |columns| ==> FixedSize(columns[i].logicalType) <= NAME_CAPACITY
    ensures TotalSize(columns) <= |columns| * NAME_CAPACITY
  {
    if columns != [] {
      TotalSizeAtMost(columns[..|columns| - 1]);
    }
  }

  lemma InitialTableTrees(roots: SystemRoots, t: Id)
    requires IsSystemTable(t) && RootsDiffer(roots)
    ensures TableTreesOk(InitialTable(roots, t), InitialTrees(roots))
    ensures InitialTable(roots, t).indexes == [InitialIndex(roots, t)]
    ensures InitialIndex(roots, t).root == SystemRoot(roots, t)
  {
    var info := InitialTable(roots, t);
    InitialTreeSizes(roots, t);
    SystemKey(t);
    assert SpecsOf(info.columns) == SystemSpecs(t);
    hide SystemSpecs, InitialTrees;
  }

  lemma InitialTreeSizes(roots: SystemRoots, t: Id)
    requires IsSystemTable(t) && RootsDiffer(roots)
    ensures SystemRoot(roots, t) in InitialTrees(roots) && InitialTrees(roots)[SystemRoot(roots, t)] == SystemSizes(t)
  {
    hide SystemSizes;
  }

  /** So a catalog can be opened on a new database. */
  lemma InitialStateOk(roots: SystemRoots, pageCount: nat)
    requires RootsOk(roots, pageCount) && RootsDiffer(roots)
    ensures StateOk(InitialState(roots), InitialRows(roots, pageCount))
  {
    InitialTreesOk(roots, pageCount);
    hide TreesOk;
    hide Accepts, InitialRows, InitialTables, NamesInternal, NamesIndexed, SchemasIndexed, NextIdsFree;
    InitialAccepted(roots, pageCount);
    InitialNamesIndexed(roots);
    InitialSchemasIndexed(roots);
  }

  lemma InitialNamesIndexed(roots: SystemRoots)
    ensures NamesIndexed(InitialTables(roots), InitialState(roots).idByName)
  {
    hide SystemSpecs, SystemName, LayoutOf;
    SystemNamesApart();
  }

  lemma InitialSchemasIndexed(roots: SystemRoots)
    ensures SchemasIndexed(InitialTables(roots), InitialState(roots).schemas) && NextIdsFree(InitialState(roots))
  {
    hide SystemSpecs, SystemName, LayoutOf, SchemaOf, IdsBelow, InitialTable;
    forall t | IsSystemTable(t)
      ensures SchemaOf(LayoutOf(SystemSpecs(t)), InitialTable(roots, t).columns) &&
        IdsBelow(InitialTable(roots, t), 23, 5)
    {
      InitialSchema(roots, t);
    }
  }
}
