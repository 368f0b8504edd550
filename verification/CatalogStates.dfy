/** What a catalog knows in memory, the rows of the four system tables, and when the rows describe the
    tables. The system tables are B+ trees keyed by object id, so they are finite maps from ids to rows. */
module CatalogStates {
  import opened PageIds
  import opened Bytes
  import opened Status
  import opened Values
  import Tables
  import opened Schemas

  type Id = int

  const INVALID_TABLE_ID: Id := -1

  datatype TableDescriptor = TableDescriptor(id: Id, name: Bytes, root: PageId)

  datatype ColumnDescriptor = ColumnDescriptor(id: Id, table: Id, spec: ColumnSpec, ordinal: int)

  datatype IndexDescriptor =
    IndexDescriptor(id: Id, table: Id, name: Bytes, root: PageId, unique: bool, primary: bool, internal: bool,
                    column: Id)

  datatype TableInfo = TableInfo(descriptor: TableDescriptor, columns: seq<ColumnDescriptor>,
                                 indexes: seq<IndexDescriptor>)

  type TableMap = map<Id, TableInfo>

  // ---- Rows of the system tables -----------------------------------------------------------

  datatype TableRow = TableRow(id: Id, name: Bytes, root: PageId)

  datatype ColumnRow = ColumnRow(id: Id, table: Id, name: Bytes, kind: int, capacity: Option<int>, ordinal: int,
                                 nullable: bool, primaryKey: bool, unique: bool)

  datatype IndexRow = IndexRow(id: Id, table: Id, name: Bytes, root: PageId, unique: bool, primary: bool,
                               internal: bool)

  datatype IndexColumnRow = IndexColumnRow(index: Id, column: Id, ordinal: int)

  /** The roots that the database header records for the four trees. */
  datatype SystemRoots = SystemRoots(tables: PageId, columns: PageId, indexes: PageId, indexColumns: PageId)

  /** The sizes of keys and values that a tree was made with. Its pages record them. */
  datatype TreeSizes = TreeSizes(keySize: nat, valueSize: nat)

  /** The four trees, the page count, the recorded roots, and the trees that were made, by root. */
  datatype Metadata = Metadata(tables: map<Id, TableRow>, columns: map<Id, ColumnRow>, indexes: map<Id, IndexRow>,
                               indexColumns: map<Id, IndexColumnRow>, pageCount: nat, roots: SystemRoots,
                               trees: map<PageId, TreeSizes>)

  const TABLES_ID: Id := 1
  const COLUMNS_ID: Id := 2
  const INDEXES_ID: Id := 3
  const INDEX_COLUMNS_ID: Id := 4

  predicate IsSystemTable(t: Id) {
    t == TABLES_ID || t == COLUMNS_ID || t == INDEXES_ID || t == INDEX_COLUMNS_ID
  }

  // ---- Types as rows -----------------------------------------------------------------------

  function EncodeKind(t: LogicalType): int {
    match t
    case Int8 => 1
    case Int16 => 2
    case Int32 => 3
    case Int64 => 4
    case Float64 => 5
    case String(_) => 6
    case Boolean => 7
  }

  function CapacityOf(t: LogicalType): Option<int> {
    if t.String? then Some(t.capacity) else None
  }

  /** LogicalTypeCodec::decode, after the loader's checks that neither number is negative. */
  function DecodeType(kind: int, capacity: Option<int>): (r: Result<LogicalType>)
    ensures r.Ok? ==>
      EncodeKind(r.value) == kind && CapacityOf(r.value) == capacity && (r.value.String? ==> r.value.capacity > 0)
  {
    if kind == 6 then
      if capacity.None? || capacity.value <= 0 then Err(InvalidArgument) else Ok(String(capacity.value))
    else if capacity.Some? then Err(InvalidArgument)
    else if kind == 1 then Ok(Int8)
    else if kind == 2 then Ok(Int16)
    else if kind == 3 then Ok(Int32)
    else if kind == 4 then Ok(Int64)
    else if kind == 5 then Ok(Float64)
    else if kind == 7 then Ok(Boolean)
    else Err(InvalidArgument)
  }

  /** Types survive being stored. */
  lemma TypeRoundTrip(t: LogicalType)
    requires t.String? ==> t.capacity > 0
    ensures DecodeType(EncodeKind(t), CapacityOf(t)) == Ok(t)
  {
  }

  function RowOfTable(d: TableDescriptor): TableRow {
    TableRow(d.id, d.name, d.root)
  }

  function RowOfColumn(c: ColumnDescriptor): ColumnRow {
    ColumnRow(c.id, c.table, c.spec.name, EncodeKind(c.spec.column.logicalType), CapacityOf(c.spec.column.logicalType),
              c.ordinal, c.spec.column.nullable, c.spec.primaryKey, c.spec.unique)
  }

  function RowOfIndex(x: IndexDescriptor): IndexRow {
    IndexRow(x.id, x.table, x.name, x.root, x.unique, x.primary, x.internal)
  }

  lemma ColumnRowInjective(a: ColumnDescriptor, b: ColumnDescriptor)
    requires RowOfColumn(a) == RowOfColumn(b)
    ensures a == b
  {
    var s, t := a.spec.column.logicalType, b.spec.column.logicalType;
    assert EncodeKind(s) == EncodeKind(t) && CapacityOf(s) == CapacityOf(t);
    assert s == t by {
      if s.String? {
        assert CapacityOf(s) == Some(s.capacity);
      }
    }
  }

  // ---- Rows that describe tables -----------------------------------------------------------

  /** The rows are those of the tables in ts and no others. */
  ghost predicate Describes(m: Metadata, ts: TableMap) {
    && (forall t :: t in m.tables <==> t in ts)
    && (forall t :: t in ts ==> m.tables[t] == RowOfTable(ts[t].descriptor))
    && (forall t, i :: t in ts && 0 <= i < |ts[t].columns| ==> ColumnStored(m, ts[t].columns[i]))
    && (forall k :: k in m.columns ==> ColumnOwned(m.columns[k], ts, k))
    && (forall t, i :: t in ts && 0 <= i < |ts[t].indexes| ==> IndexStored(m, ts[t].indexes[i]))
    && (forall k :: k in m.indexes ==> IndexOwned(m.indexes[k], ts, k))
    && (forall k :: k in m.indexColumns ==> k in m.indexes)
  }

  ghost predicate ColumnStored(m: Metadata, c: ColumnDescriptor) {
    c.id in m.columns && m.columns[c.id] == RowOfColumn(c)
  }

  ghost predicate ColumnOwned(row: ColumnRow, ts: TableMap, k: Id) {
    row.table in ts && 0 <= row.ordinal < |ts[row.table].columns| && ts[row.table].columns[row.ordinal].id == k
  }

  ghost predicate IndexStored(m: Metadata, x: IndexDescriptor) {
    && x.id in m.indexes && m.indexes[x.id] == RowOfIndex(x)
    && x.id in m.indexColumns && m.indexColumns[x.id] == IndexColumnRow(x.id, x.column, 0)
  }

  ghost predicate IndexOwned(row: IndexRow, ts: TableMap, k: Id) {
    row.table in ts && HasIndex(ts[row.table].indexes, k)
  }

  ghost predicate HasIndex(xs: seq<IndexDescriptor>, k: Id) {
    exists i :: 0 <= i < |xs| && xs[i].id == k
  }

  ghost predicate HasColumn(cs: seq<ColumnDescriptor>, k: Id) {
    exists i :: 0 <= i < |cs| && cs[i].id == k
  }

  // ---- Tables a loader accepts -------------------------------------------------------------

  /** RowCodec::encode refuses names that are too long or hold a NUL character. */
  predicate Storable(name: Bytes) {
    |name| <= NAME_CAPACITY && NulFree(name)
  }

  /** The checks of ColumnDescriptor::create. */
  predicate CanBeDescribed(spec: ColumnSpec) {
    CanBeColumn(spec) && (spec.primaryKey ==> spec.unique)
  }

  predicate RootOk(root: PageId, pageCount: nat) {
    0 < root < pageCount
  }

  function SpecsOf(cs: seq<ColumnDescriptor>): (specs: seq<ColumnSpec>)
    ensures |specs| == |cs| && forall i :: 0 <= i < |cs| ==> specs[i] == cs[i].spec
  {
    seq(|cs|, i requires 0 <= i < |cs| => cs[i].spec)
  }

  ghost predicate ColumnsFit(t: Id, cs: seq<ColumnDescriptor>) {
    forall i :: 0 <= i < |cs| ==> ColumnFits(t, cs[i], i)
  }

  ghost predicate ColumnFits(t: Id, c: ColumnDescriptor, i: int) {
    c.table == t && c.id >= 0 && c.ordinal == i && CanBeDescribed(c.spec)
  }

  ghost predicate IndexesFit(t: Id, info: TableInfo, pageCount: nat) {
    && (forall i :: 0 <= i < |info.indexes| ==> IndexFits(t, info, info.indexes[i], pageCount))
    && Ascending(info.indexes)
  }

  ghost predicate Ascending(xs: seq<IndexDescriptor>) {
    forall i, j :: 0 <= i < j < |xs| ==> xs[i].id < xs[j].id
  }

  ghost predicate IndexFits(t: Id, info: TableInfo, x: IndexDescriptor, pageCount: nat) {
    && x.table == t && x.id >= 0 && x.name != [] && RootOk(x.root, pageCount)
    && (x.primary ==> x.unique && x.internal) && HasColumn(info.columns, x.column)
  }

  /** Index p is the one primary index; it is on the primary key and shares the table's root. */
  ghost predicate PrimaryIndexIs(info: TableInfo, p: int) {
    && 0 <= p < |info.indexes|
    && (forall i :: 0 <= i < |info.indexes| ==> (info.indexes[i].primary <==> i == p))
    && info.indexes[p].root == info.descriptor.root
    && forall c :: 0 <= c < |info.columns| && info.columns[c].spec.primaryKey ==>
       info.indexes[p].column == info.columns[c].id
  }

  ghost predicate TableFits(t: Id, info: TableInfo, pageCount: nat) {
    && t >= 0 && info.descriptor.id == t && info.descriptor.name != [] && RootOk(info.descriptor.root, pageCount)
    && ColumnsFit(t, info.columns) && IndexesFit(t, info, pageCount)
    && SchemaFits(info.columns)
    && exists p :: PrimaryIndexIs(info, p)
  }

  /** Schema::create accepts the columns. */
  ghost predicate SchemaFits(cs: seq<ColumnDescriptor>) {
    NamesDistinct(SpecsOf(cs)) && exists k: nat :: OnlyPrimaryKey(SpecsOf(cs), k)
  }

  ghost predicate TableNamesDistinct(ts: TableMap) {
    forall t, u :: t in ts && u in ts && ts[t].descriptor.name == ts[u].descriptor.name ==> t == u
  }

  ghost predicate IndexNamesDistinct(ts: TableMap) {
    forall t, i, u, j :: t in ts && 0 <= i < |ts[t].indexes| && u in ts && 0 <= j < |ts[u].indexes| ==>
      (ts[t].indexes[i].name == ts[u].indexes[j].name ==> t == u && i == j)
  }

  /** System table t has its fixed name, columns, primary index id, and the root that the header records. */
  ghost predicate SystemTableFits(ts: TableMap, t: Id, roots: SystemRoots) {
    && t in ts && IsSystemTable(t)
    && ts[t].descriptor.name == SystemName(t) && ts[t].descriptor.root == SystemRoot(roots, t)
    && SpecsOf(ts[t].columns) == SystemSpecs(t)
    && forall i :: 0 <= i < |ts[t].indexes| && ts[t].indexes[i].primary ==> ts[t].indexes[i].id == t
  }

  /** Everything the loader insists on. */
  ghost predicate Loadable(ts: TableMap, pageCount: nat, roots: SystemRoots) {
    && (forall t :: t in ts ==> TableFits(t, ts[t], pageCount))
    && TableNamesDistinct(ts) && IndexNamesDistinct(ts)
    && (forall t :: IsSystemTable(t) ==> SystemTableFits(ts, t, roots))
  }

  // ---- System tables -----------------------------------------------------------------------

  const NAME_CAPACITY := 256

  function Ascii(s: string): (r: Bytes)
    ensures |r| == |s| && forall i :: 0 <= i < |s| ==> r[i] == s[i] as int % 256
  {
    seq(|s|, i requires 0 <= i < |s| => s[i] as int % 256)
  }

  function SystemRoot(roots: SystemRoots, t: Id): PageId
    requires IsSystemTable(t)
  {
    if t == 1 then roots.tables else if t == 2 then roots.columns else if t == 3 then roots.indexes
      else roots.indexColumns
  }

  function SystemName(t: Id): Bytes
    requires IsSystemTable(t)
  {
    if t == 1 then Ascii("dandb_tables")
    else if t == 2 then Ascii("dandb_columns")
    else if t == 3 then Ascii("dandb_indexes")
    else Ascii("dandb_index_columns")
  }

  function Plain(name: string, t: LogicalType): ColumnSpec
  {
    ColumnSpec(Ascii(name), Tables.Column(t, false), false, false)
  }

  function KeyColumn(name: string): ColumnSpec
  {
    ColumnSpec(Ascii(name), Tables.Column(Int64, false), true, true)
  }

  function SystemSpecs(t: Id): seq<ColumnSpec>
    requires IsSystemTable(t)
  {
    var nameType := String(NAME_CAPACITY);
    if t == 1 then
      [KeyColumn("table_id"), Plain("name", nameType).(unique := true), Plain("root_page_id", Int64)]
    else if t == 2 then
      [KeyColumn("column_id"), Plain("table_id", Int64), Plain("name", nameType), Plain("type_kind", Int8),
       ColumnSpec(Ascii("type_capacity"), Tables.Column(Int64, true), false, false), Plain("ordinal", Int64),
       Plain("nullable", Boolean), Plain("primary_key", Boolean), Plain("unique", Boolean)]
    else if t == 3 then
      [KeyColumn("index_id"), Plain("table_id", Int64), Plain("name", nameType), Plain("root_page_id", Int64),
       Plain("unique", Boolean), Plain("primary", Boolean), Plain("internal", Boolean)]
    else
      [KeyColumn("index_id"), Plain("column_id", Int64), Plain("ordinal", Int64)]
  }

  // ---- One set of rows describes one set of tables -----------------------------------------

  lemma DescribedOnce(m: Metadata, a: TableMap, b: TableMap)
    requires Describes(m, a) && Describes(m, b)
    requires Loadable(a, m.pageCount, m.roots) && Loadable(b, m.pageCount, m.roots)
    ensures a == b
  {
    forall t | t in a
      ensures t in b && a[t] == b[t]
    {
      assert t in m.tables;
      SameColumns(m, a, b, t);
      SameColumns(m, b, a, t);
      SameIndexes(m, a, b, t);
    }
    forall t
      ensures t in a.Keys <==> t in b.Keys
    {
      assert t in m.tables <==> t in a;
      assert t in m.tables <==> t in b;
    }
    assert a.Keys == b.Keys;
  }

  lemma SameColumns(m: Metadata, a: TableMap, b: TableMap, t: Id)
    requires Describes(m, a) && Describes(m, b) && t in a && t in b
    requires Loadable(a, m.pageCount, m.roots) && Loadable(b, m.pageCount, m.roots)
    ensures |a[t].columns| <= |b[t].columns| && a[t].columns == b[t].columns[..|a[t].columns|]
  {
    var n := |a[t].columns|;
    if n > 0 {
      SameColumn(m, a, b, t, n - 1);
      forall i | 0 <= i < n
        ensures b[t].columns[i] == a[t].columns[i]
      {
        SameColumn(m, a, b, t, i);
      }
    }
  }

  lemma SameColumn(m: Metadata, a: TableMap, b: TableMap, t: Id, i: nat)
    requires Describes(m, a) && Describes(m, b) && t in a && t in b && i < |a[t].columns|
    requires Loadable(a, m.pageCount, m.roots) && Loadable(b, m.pageCount, m.roots)
    ensures i < |b[t].columns| && b[t].columns[i] == a[t].columns[i]
  {
    var c := a[t].columns[i];
    assert TableFits(t, a[t], m.pageCount);
    assert ColumnStored(m, c) && ColumnFits(t, c, i);
    assert ColumnOwned(m.columns[c.id], b, c.id);
    assert ColumnStored(m, b[t].columns[i]);
    ColumnRowInjective(c, b[t].columns[i]);
  }

  lemma SameIndexes(m: Metadata, a: TableMap, b: TableMap, t: Id)
    requires Describes(m, a) && Describes(m, b) && t in a && t in b
    requires Loadable(a, m.pageCount, m.roots) && Loadable(b, m.pageCount, m.roots)
    ensures a[t].indexes == b[t].indexes
  {
    IndexIn(m, a, b, t);
    IndexIn(m, b, a, t);
    assert TableFits(t, a[t], m.pageCount) && TableFits(t, b[t], m.pageCount);
    AscendingUnique(a[t].indexes, b[t].indexes);
  }

  lemma IndexIn(m: Metadata, a: TableMap, b: TableMap, t: Id)
    requires Describes(m, a) && Describes(m, b) && t in a && t in b
    requires Loadable(a, m.pageCount, m.roots) && Loadable(b, m.pageCount, m.roots)
    ensures forall x :: x in a[t].indexes ==> x in b[t].indexes
  {
    assert TableFits(t, a[t], m.pageCount) && TableFits(t, b[t], m.pageCount);
    forall x | x in a[t].indexes
      ensures x in b[t].indexes
    {
      var i :| 0 <= i < |a[t].indexes| && a[t].indexes[i] == x;
      assert IndexStored(m, a[t].indexes[i]) && IndexFits(t, a[t], x, m.pageCount);
      assert IndexOwned(m.indexes[x.id], b, x.id);
      var j :| 0 <= j < |b[t].indexes| && b[t].indexes[j].id == x.id;
      assert IndexStored(m, b[t].indexes[j]);
      assert b[t].indexes[j] == x;
    }
  }

  /** Strictly ascending lists with the same elements are equal. */
  lemma {:induction false} AscendingUnique(xs: seq<IndexDescriptor>, ys: seq<IndexDescriptor>)
    requires Ascending(xs) && Ascending(ys)
    requires (forall x :: x in xs ==> x in ys) && (forall y :: y in ys ==> y in xs)
    ensures xs == ys
  {
    assert xs != [] ==> xs[0] in ys;
    assert ys != [] ==> ys[0] in xs;
    if xs != [] {
      var i :| 0 <= i < |ys| && ys[i] == xs[0];
      var j :| 0 <= j < |xs| && xs[j] == ys[0];
      assert xs[0] == ys[0];
      forall x | x in xs[1..]
        ensures x in ys[1..]
      {
        assert x in ys && x != ys[0];
      }
      forall y | y in ys[1..]
        ensures y in xs[1..]
      {
        assert y in xs && y != xs[0];
      }
      AscendingUnique(xs[1..], ys[1..]);
    }
  }
}
