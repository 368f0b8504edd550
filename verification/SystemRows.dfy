/** The system tables as their B+ trees store them, and what reading them back gives. */
module SystemRows {
  import opened PageIds
  import opened Bytes
  import opened Status
  import opened Values
  import opened Schemas
  import opened CatalogStates
  import CatalogInitial
  import Keys
  import Tables
  import RowCodec

  type Row = Tables.Row

  /** An entry of a system table's tree. */
  datatype Cell = Cell(key: Bytes, value: Bytes)

  datatype SystemCells = SystemCells(tables: seq<Cell>, columns: seq<Cell>, indexes: seq<Cell>, indexColumns: seq<Cell>,
                                     pageCount: nat, roots: SystemRoots, trees: map<PageId, TreeSizes>)

  // ---- Rows as values ------------------------------------------------------------------------

  function TableValues(row: TableRow): Row {
    [Integer(row.id), Text(row.name), Integer(row.root)]
  }

  function ColumnValues(row: ColumnRow): Row {
    [Integer(row.id), Integer(row.table), Text(row.name), Integer(row.kind),
     if row.capacity.Some? then Integer(row.capacity.value) else Null,
     Integer(row.ordinal), Truth(row.nullable), Truth(row.primaryKey), Truth(row.unique)]
  }

  function IndexValues(row: IndexRow): Row {
    [Integer(row.id), Integer(row.table), Text(row.name), Integer(row.root), Truth(row.unique), Truth(row.primary),
     Truth(row.internal)]
  }

  function IndexColumnValues(row: IndexColumnRow): Row {
    [Integer(row.index), Integer(row.column), Integer(row.ordinal)]
  }

  /** What a system table holds, as values by object id. */
  function ValuesOf(m: Metadata, t: Id): map<Id, Row>
    requires IsSystemTable(t)
  {
    if t == TABLES_ID then map k | k in m.tables :: TableValues(m.tables[k])
    else if t == COLUMNS_ID then map k | k in m.columns :: ColumnValues(m.columns[k])
    else if t == INDEXES_ID then map k | k in m.indexes :: IndexValues(m.indexes[k])
    else map k | k in m.indexColumns :: IndexColumnValues(m.indexColumns[k])
  }

  function CellsOf(s: SystemCells, t: Id): seq<Cell>
    requires IsSystemTable(t)
  {
    if t == TABLES_ID then s.tables else if t == COLUMNS_ID then s.columns else if t == INDEXES_ID then s.indexes
    else s.indexColumns
  }

  // ---- Rows as bytes -------------------------------------------------------------------------

  /** The cell holds the row with id k: k is what the row says and the key under which it is stored. */
  ghost predicate Holds(t: Id, cell: Cell, k: Id, row: Row)
    requires IsSystemTable(t)
  {
    && RowCodec.RowFits(ColumnsOf(SystemSpecs(t)), row) && RowCodec.Encodes(ColumnsOf(SystemSpecs(t)), row, cell.value)
    && row[0] == Integer(k) && Keys.Encode(row[0], Int64) == Ok(cell.key)
  }

  ghost predicate Among(t: Id, cell: Cell, rows: map<Id, Row>)
    requires IsSystemTable(t)
  {
    exists k :: k in rows && Holds(t, cell, k, rows[k])
  }

  ghost predicate Somewhere(t: Id, cells: seq<Cell>, k: Id, row: Row)
    requires IsSystemTable(t)
  {
    exists i :: 0 <= i < |cells| && Holds(t, cells[i], k, row)
  }

  /** The cells hold the rows and nothing else, each under its id. */
  ghost predicate Stores(t: Id, cells: seq<Cell>, rows: map<Id, Row>)
    requires IsSystemTable(t)
  {
    && (forall i :: 0 <= i < |cells| ==> Among(t, cells[i], rows))
    && (forall k :: k in rows ==> Somewhere(t, cells, k, rows[k]))
    && (forall i, j :: 0 <= i < j < |cells| ==> cells[i].key != cells[j].key)
  }

  ghost predicate StoresMetadata(s: SystemCells, m: Metadata) {
    && s.pageCount == m.pageCount && s.roots == m.roots && s.trees == m.trees
    && forall t :: IsSystemTable(t) ==> Stores(t, CellsOf(s, t), ValuesOf(m, t))
  }

  /** A cell holds one row. */
  lemma HeldOnce(t: Id, cell: Cell, k: Id, row: Row, l: Id, other: Row)
    requires IsSystemTable(t) && Holds(t, cell, k, row) && Holds(t, cell, l, other)
    ensures k == l && row == other
  {
    RowCodec.OneRow(ColumnsOf(SystemSpecs(t)), row, other, cell.value);
  }

  /** Different ids have different keys. */
  lemma KeysApart(t: Id, a: Cell, b: Cell, k: Id, row: Row, l: Id, other: Row)
    requires IsSystemTable(t) && Holds(t, a, k, row) && Holds(t, b, l, other)
    ensures a.key == b.key <==> k == l
  {
    assert Tables.ColumnOk(ColumnsOf(SystemSpecs(t))[0], row[0]) &&
      Tables.ColumnOk(ColumnsOf(SystemSpecs(t))[0], other[0]);
    Keys.EncodeOrder(row[0], other[0], Int64);
  }

  /** The cells of a system table store one set of rows. */
  lemma StoredOnce(t: Id, cells: seq<Cell>, a: map<Id, Row>, b: map<Id, Row>)
    requires IsSystemTable(t) && Stores(t, cells, a) && Stores(t, cells, b)
    ensures a == b
  {
    hide Stores;
    forall k ensures (k in a ==> k in b && a[k] == b[k]) && (k in b ==> k in a) {
      if k in a {
        StoredBoth(t, cells, a, b, k);
      }
      if k in b {
        StoredBoth(t, cells, b, a, k);
      }
    }
    assert a.Keys == b.Keys;
  }

  lemma StoredBoth(t: Id, cells: seq<Cell>, a: map<Id, Row>, b: map<Id, Row>, k: Id)
    requires IsSystemTable(t) && Stores(t, cells, a) && Stores(t, cells, b) && k in a
    ensures k in b && a[k] == b[k]
  {
    hide Holds;
    assert Somewhere(t, cells, k, a[k]);
    var i :| 0 <= i < |cells| && Holds(t, cells[i], k, a[k]);
    assert Among(t, cells[i], b);
    var l :| l in b && Holds(t, cells[i], l, b[l]);
    HeldOnce(t, cells[i], k, a[k], l, b[l]);
  }

  // ---- Reading -------------------------------------------------------------------------------

  /** The scan of one system table: each row decodes, lies under its own key, and has an id that no other
      has. */
  method ReadCells(t: Id, cells: seq<Cell>) returns (r: Result<map<Id, Row>>)
    requires IsSystemTable(t)
    ensures r.Ok? ==> Stores(t, cells, r.value)
    ensures r.Err? ==> r.code == Corruption && forall rows :: !Stores(t, cells, rows)
  {
    var schema := SystemSchema(t);
    var rows: map<Id, Row> := map[];
    for i := 0 to |cells|
      invariant Stores(t, cells[..i], rows)
    {
      hide Holds;
      var held, row := ReadCell(t, schema, cells[i]);
      if held.None? {
        return Err(Corruption);
      }
      var k := held.value;
      if k in rows {
        NoSecond(t, cells, i, rows, k, row);
        return Err(Corruption);
      }
      StoresMore(t, cells, i, rows, k, row);
      rows := rows[k := row];
    }
    assert cells[..|cells|] == cells;
    r := Ok(rows);
  }

  method SystemSchema(t: Id) returns (schema: Schema)
    requires IsSystemTable(t)
    ensures schema.specs == SystemSpecs(t) && schema.LaidOut()
  {
    CatalogInitial.SystemNamesDistinct(t);
    assert OnlyPrimaryKey(SystemSpecs(t), 0);
    var created := Create(SystemSpecs(t));
    schema := created.value;
  }

  method ReadCell(t: Id, schema: Schema, cell: Cell) returns (held: Option<Id>, row: Row)
    requires IsSystemTable(t) && schema.specs == SystemSpecs(t) && schema.LaidOut()
    ensures held.Some? ==> Holds(t, cell, held.value, row)
    ensures held.None? ==> forall k, other :: !Holds(t, cell, k, other)
  {
    row := [];
    var decoded := RowCodec.Decode(schema, cell.value);
    if decoded.Err? {
      return None, row;
    }
    row := decoded.value;
    assert Tables.ColumnOk(schema.columns[0], row[0]);
    if Keys.Encode(row[0], Int64) != Ok(cell.key) {
      forall k, other ensures !Holds(t, cell, k, other) {
        if Holds(t, cell, k, other) {
          RowCodec.OneRow(schema.columns, row, other, cell.value);
        }
      }
      return None, row;
    }
    held := Some(row[0].i);
  }

  lemma StoresMore(t: Id, cells: seq<Cell>, n: nat, rows: map<Id, Row>, k: Id, row: Row)
    requires IsSystemTable(t) && n < |cells| && Stores(t, cells[..n], rows) && Holds(t, cells[n], k, row) && k !in rows
    ensures Stores(t, cells[..n + 1], rows[k := row])
  {
    hide Holds, Among, Somewhere;
    var more, all := cells[..n + 1], rows[k := row];
    forall i | 0 <= i < |more|
      ensures Among(t, more[i], all) && (i < n ==> more[i].key != more[n].key)
    {
      if i < n {
        assert more[i] == cells[..n][i];
        AmongMore(t, more[i], rows, k, row, cells[n]);
      } else {
        InMap(t, more[i], all, k);
      }
    }
    forall l | l in all ensures Somewhere(t, more, l, all[l]) {
      if l == k {
        InCells(t, more, n, k, row);
      } else {
        SomewhereMore(t, cells, n, l, rows[l]);
      }
    }
    assert forall i :: 0 <= i < n ==> more[i] == cells[..n][i];
  }

  lemma InMap(t: Id, cell: Cell, rows: map<Id, Row>, k: Id)
    requires IsSystemTable(t) && k in rows && Holds(t, cell, k, rows[k])
    ensures Among(t, cell, rows)
  {
  }

  lemma InCells(t: Id, cells: seq<Cell>, i: nat, k: Id, row: Row)
    requires IsSystemTable(t) && i < |cells| && Holds(t, cells[i], k, row)
    ensures Somewhere(t, cells, k, row)
  {
  }

  lemma AmongMore(t: Id, cell: Cell, rows: map<Id, Row>, k: Id, row: Row, last: Cell)
    requires IsSystemTable(t) && Among(t, cell, rows) && k !in rows && Holds(t, last, k, row)
    ensures Among(t, cell, rows[k := row]) && cell.key != last.key
  {
    hide Holds;
    var l :| l in rows && Holds(t, cell, l, rows[l]);
    InMap(t, cell, rows[k := row], l);
    KeysApart(t, cell, last, l, rows[l], k, row);
  }

  lemma SomewhereMore(t: Id, cells: seq<Cell>, n: nat, k: Id, row: Row)
    requires IsSystemTable(t) && n < |cells| && Somewhere(t, cells[..n], k, row)
    ensures Somewhere(t, cells[..n + 1], k, row)
  {
    hide Holds;
    var i :| 0 <= i < n && Holds(t, cells[..n][i], k, row);
    InCells(t, cells[..n + 1], i, k, row);
  }

  lemma NoSecond(t: Id, cells: seq<Cell>, n: nat, rows: map<Id, Row>, k: Id, row: Row)
    requires IsSystemTable(t) && n < |cells| && Stores(t, cells[..n], rows) && Holds(t, cells[n], k, row) && k in rows
    ensures forall others :: !Stores(t, cells, others)
  {
    hide Holds, Among;
    assert Somewhere(t, cells[..n], k, rows[k]);
    var i :| 0 <= i < n && Holds(t, cells[..n][i], k, rows[k]);
    KeysApart(t, cells[i], cells[n], k, rows[k], k, row);
  }

  // ---- The catalog's rows ----------------------------------------------------------------------

  function TableRowOf(row: Row): TableRow
    requires RowCodec.RowFits(ColumnsOf(SystemSpecs(TABLES_ID)), row)
  {
    Typed(TABLES_ID, row);
    TableRow(row[0].i, row[1].s, row[2].i)
  }

  function ColumnRowOf(row: Row): ColumnRow
    requires RowCodec.RowFits(ColumnsOf(SystemSpecs(COLUMNS_ID)), row)
  {
    Typed(COLUMNS_ID, row);
    ColumnRow(row[0].i, row[1].i, row[2].s, row[3].i, if row[4] == Null then None else Some(row[4].i), row[5].i,
              row[6].b, row[7].b, row[8].b)
  }

  function IndexRowOf(row: Row): IndexRow
    requires RowCodec.RowFits(ColumnsOf(SystemSpecs(INDEXES_ID)), row)
  {
    Typed(INDEXES_ID, row);
    IndexRow(row[0].i, row[1].i, row[2].s, row[3].i, row[4].b, row[5].b, row[6].b)
  }

  function IndexColumnRowOf(row: Row): IndexColumnRow
    requires RowCodec.RowFits(ColumnsOf(SystemSpecs(INDEX_COLUMNS_ID)), row)
  {
    Typed(INDEX_COLUMNS_ID, row);
    IndexColumnRow(row[0].i, row[1].i, row[2].i)
  }

  /** The values of a row have the kinds that its columns' types have. */
  predicate KindFits(v: Value, c: Tables.Column) {
    if v == Null then c.nullable
    else match c.logicalType
      case String(_) => v.Text?
      case Boolean => v.Truth?
      case Float64 => v.Float?
      case _ => v.Integer?
  }

  lemma Typed(t: Id, row: Row)
    requires IsSystemTable(t) && RowCodec.RowFits(ColumnsOf(SystemSpecs(t)), row)
    ensures |row| == |SystemSpecs(t)| && forall i :: 0 <= i < |row| ==> KindFits(row[i], SystemSpecs(t)[i].column)
  {
    forall i | 0 <= i < |row| ensures KindFits(row[i], SystemSpecs(t)[i].column) {
      assert Tables.ColumnOk(ColumnsOf(SystemSpecs(t))[i], row[i]);
    }
  }

  lemma StoredFit(t: Id, cells: seq<Cell>, rows: map<Id, Row>)
    requires IsSystemTable(t) && Stores(t, cells, rows)
    ensures AllFit(t, rows)
  {
    hide Among, RowCodec.RowFits;
    forall k | k in rows ensures RowCodec.RowFits(ColumnsOf(SystemSpecs(t)), rows[k]) {
      assert Somewhere(t, cells, k, rows[k]);
    }
  }

  // Values and rows of the catalog are the same thing.

  lemma TableValuesBack(row: Row)
    requires RowCodec.RowFits(ColumnsOf(SystemSpecs(TABLES_ID)), row)
    ensures TableValues(TableRowOf(row)) == row
  {
    Typed(TABLES_ID, row);
    hide RowCodec.RowFits;
  }

  lemma ColumnValuesBack(row: Row)
    requires RowCodec.RowFits(ColumnsOf(SystemSpecs(COLUMNS_ID)), row)
    ensures ColumnValues(ColumnRowOf(row)) == row
  {
    Typed(COLUMNS_ID, row);
    hide RowCodec.RowFits;
  }

  lemma IndexValuesBack(row: Row)
    requires RowCodec.RowFits(ColumnsOf(SystemSpecs(INDEXES_ID)), row)
    ensures IndexValues(IndexRowOf(row)) == row
  {
    Typed(INDEXES_ID, row);
    hide RowCodec.RowFits;
  }

  lemma IndexColumnValuesBack(row: Row)
    requires RowCodec.RowFits(ColumnsOf(SystemSpecs(INDEX_COLUMNS_ID)), row)
    ensures IndexColumnValues(IndexColumnRowOf(row)) == row
  {
    Typed(INDEX_COLUMNS_ID, row);
    hide RowCodec.RowFits;
  }

  /** The catalog's rows, from the cells of the four trees. */
  method ReadMetadata(s: SystemCells) returns (r: Result<Metadata>)
    ensures r.Ok? ==> StoresMetadata(s, r.value)
    ensures r.Err? ==> r.code == Corruption && forall m :: !StoresMetadata(s, m)
  {
    hide Stores, RowCodec.RowFits;
    var tables := ReadCells(TABLES_ID, s.tables);
    if tables.Err? {
      NotStored(s, TABLES_ID);
      return Err(Corruption);
    }
    var columns := ReadCells(COLUMNS_ID, s.columns);
    if columns.Err? {
      NotStored(s, COLUMNS_ID);
      return Err(Corruption);
    }
    var indexColumns := ReadCells(INDEX_COLUMNS_ID, s.indexColumns);
    if indexColumns.Err? {
      NotStored(s, INDEX_COLUMNS_ID);
      return Err(Corruption);
    }
    var indexes := ReadCells(INDEXES_ID, s.indexes);
    if indexes.Err? {
      NotStored(s, INDEXES_ID);
      return Err(Corruption);
    }
    StoredFit(TABLES_ID, s.tables, tables.value);
    StoredFit(COLUMNS_ID, s.columns, columns.value);
    StoredFit(INDEXES_ID, s.indexes, indexes.value);
    StoredFit(INDEX_COLUMNS_ID, s.indexColumns, indexColumns.value);
    var m := MetadataOf(tables.value, columns.value, indexes.value, indexColumns.value, s);
    ValuesOfMetadata(m, tables.value, columns.value, indexes.value, indexColumns.value, s);
    r := Ok(m);
  }

  lemma NotStored(s: SystemCells, t: Id)
    requires IsSystemTable(t) && forall rows :: !Stores(t, CellsOf(s, t), rows)
    ensures forall m :: !StoresMetadata(s, m)
  {
    hide Stores;
    forall m ensures !StoresMetadata(s, m) {
      assert !Stores(t, CellsOf(s, t), ValuesOf(m, t));
    }
  }

  ghost predicate AllFit(t: Id, rows: map<Id, Row>)
    requires IsSystemTable(t)
  {
    forall k :: k in rows ==> RowCodec.RowFits(ColumnsOf(SystemSpecs(t)), rows[k])
  }

  function MetadataOf(tables: map<Id, Row>, columns: map<Id, Row>, indexes: map<Id, Row>, indexColumns: map<Id, Row>,
                      s: SystemCells): Metadata
    requires AllFit(TABLES_ID, tables) && AllFit(COLUMNS_ID, columns) && AllFit(INDEXES_ID, indexes) &&
      AllFit(INDEX_COLUMNS_ID, indexColumns)
  {
    Metadata(map k | k in tables :: TableRowOf(tables[k]), map k | k in columns :: ColumnRowOf(columns[k]),
             map k | k in indexes :: IndexRowOf(indexes[k]),
             map k | k in indexColumns :: IndexColumnRowOf(indexColumns[k]), s.pageCount, s.roots, s.trees)
  }

  lemma ValuesOfMetadata(m: Metadata, tables: map<Id, Row>, columns: map<Id, Row>, indexes: map<Id, Row>,
                         indexColumns: map<Id, Row>, s: SystemCells)
    requires AllFit(TABLES_ID, tables) && AllFit(COLUMNS_ID, columns) && AllFit(INDEXES_ID, indexes) &&
      AllFit(INDEX_COLUMNS_ID, indexColumns)
    requires m == MetadataOf(tables, columns, indexes, indexColumns, s)
    ensures ValuesOf(m, TABLES_ID) == tables && ValuesOf(m, COLUMNS_ID) == columns
    ensures ValuesOf(m, INDEXES_ID) == indexes && ValuesOf(m, INDEX_COLUMNS_ID) == indexColumns
  {
    hide TableValues, ColumnValues, IndexValues, IndexColumnValues, RowCodec.RowFits;
    hide TableRowOf, ColumnRowOf, IndexRowOf, IndexColumnRowOf;
    forall k | k in tables ensures TableValues(TableRowOf(tables[k])) == tables[k] {
      TableValuesBack(tables[k]);
    }
    forall k | k in columns ensures ColumnValues(ColumnRowOf(columns[k])) == columns[k] {
      ColumnValuesBack(columns[k]);
    }
    forall k | k in indexes ensures IndexValues(IndexRowOf(indexes[k])) == indexes[k] {
      IndexValuesBack(indexes[k]);
    }
    forall k | k in indexColumns ensures IndexColumnValues(IndexColumnRowOf(indexColumns[k])) == indexColumns[k] {
      IndexColumnValuesBack(indexColumns[k]);
    }
  }

  /** The trees hold one set of catalog rows. */
  lemma MetadataOnce(s: SystemCells, a: Metadata, b: Metadata)
    requires StoresMetadata(s, a) && StoresMetadata(s, b)
    ensures a == b
  {
    hide Stores;
    forall t | IsSystemTable(t) ensures ValuesOf(a, t) == ValuesOf(b, t) {
      StoredOnce(t, CellsOf(s, t), ValuesOf(a, t), ValuesOf(b, t));
    }
    SameValues(a, b);
  }

  lemma SameValues(a: Metadata, b: Metadata)
    requires forall t :: IsSystemTable(t) ==> ValuesOf(a, t) == ValuesOf(b, t)
    ensures a.tables == b.tables && a.columns == b.columns && a.indexes == b.indexes && a.indexColumns == b.indexColumns
  {
    var tables, columns := ValuesOf(a, TABLES_ID), ValuesOf(a, COLUMNS_ID);
    var indexes, indexColumns := ValuesOf(a, INDEXES_ID), ValuesOf(a, INDEX_COLUMNS_ID);
    assert tables == ValuesOf(b, TABLES_ID) && columns == ValuesOf(b, COLUMNS_ID);
    assert indexes == ValuesOf(b, INDEXES_ID) && indexColumns == ValuesOf(b, INDEX_COLUMNS_ID);
    forall k ensures (k in a.tables <==> k in b.tables) && (k in a.tables ==> a.tables[k] == b.tables[k]) {
      assert k in a.tables <==> k in tables;
    }
    forall k ensures (k in a.columns <==> k in b.columns) && (k in a.columns ==> a.columns[k] == b.columns[k]) {
      assert k in a.columns <==> k in columns;
    }
    forall k ensures (k in a.indexes <==> k in b.indexes) && (k in a.indexes ==> a.indexes[k] == b.indexes[k]) {
      assert k in a.indexes <==> k in indexes;
    }
    forall k
      ensures (k in a.indexColumns <==> k in b.indexColumns) &&
        (k in a.indexColumns ==> a.indexColumns[k] == b.indexColumns[k])
    {
      assert k in a.indexColumns <==> k in indexColumns;
    }
  }
}
