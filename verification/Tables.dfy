/** Tables, rows and secondary indexes as finite maps, which is what the B+ trees that hold them are. */
module Tables {
  import opened Bytes
  import BTreeShape
  import opened Values
  import opened Keys

  type Key = BTreeShape.Key

  type Row = seq<Value>

  datatype Column = Column(logicalType: LogicalType, nullable: bool)

  /** What the statements need of a schema: column types, and which column is the primary key. */
  datatype TableSchema = TableSchema(columns: seq<Column>, primaryKey: nat)
  {
    predicate Valid() {
      primaryKey < |columns| && !columns[primaryKey].nullable && CanBeIndexed(columns[primaryKey].logicalType)
    }
  }

  datatype IndexDescriptor = IndexDescriptor(primary: bool, column: nat, unique: bool)

  /** create_index accepts NOT NULL columns of an indexable type. */
  predicate CanIndex(schema: TableSchema, index: IndexDescriptor) {
    index.column < |schema.columns| && !schema.columns[index.column].nullable &&
      CanBeIndexed(schema.columns[index.column].logicalType)
  }

  /** validate_row_against_schema. */
  predicate RowOk(schema: TableSchema, row: Row) {
    |row| == |schema.columns| && forall i :: 0 <= i < |row| ==> ColumnOk(schema.columns[i], row[i])
  }

  predicate ColumnOk(column: Column, v: Value) {
    IsA(v, column.logicalType) && (v == Null ==> column.nullable) && (v.Text? ==> NulFree(v.s))
  }

  // ---- Keys of a row -----------------------------------------------------------------------

  function ColumnKey(schema: TableSchema, column: nat, row: Row): (k: nat)
    requires RowOk(schema, row) && column < |schema.columns|
    requires !schema.columns[column].nullable && CanBeIndexed(schema.columns[column].logicalType)
  {
    assert ColumnOk(schema.columns[column], row[column]);
    KeyNumber(row[column], schema.columns[column].logicalType)
  }

  function RowKey(schema: TableSchema, row: Row): (k: nat)
    requires schema.Valid() && RowOk(schema, row)
  {
    ColumnKey(schema, schema.primaryKey, row)
  }

  /** The number of possible primary keys: the unit in which the indexed column counts in a key that has
      the primary key appended. */
  function KeySpan(schema: TableSchema): (n: nat)
    requires schema.Valid()
    ensures n >= 1
  {
    Radix(FixedSize(schema.columns[schema.primaryKey].logicalType))
  }

  /** The key of a row's index entry: the encoded column, followed by the primary key if not unique. */
  function IndexKey(schema: TableSchema, index: IndexDescriptor, row: Row): (k: nat)
    requires schema.Valid() && CanIndex(schema, index) && RowOk(schema, row)
  {
    var c := ColumnKey(schema, index.column, row);
    if index.unique then c else Composite(c, KeySpan(schema), RowKey(schema, row))
  }

  /** The number of a key that has a primary key, one of span, appended. */
  function Composite(c: nat, span: nat, primaryKey: nat): (k: nat)
    ensures k == c * span + primaryKey
  {
    c * span + primaryKey
  }

  /** That is the number of the concatenated byte strings. */
  lemma IndexKeyIsConcat(schema: TableSchema, index: IndexDescriptor, row: Row)
    requires schema.Valid() && CanIndex(schema, index) && RowOk(schema, row)
    ensures
      var pk, c := schema.columns[schema.primaryKey], schema.columns[index.column];
      && IsKey(row[schema.primaryKey], pk.logicalType) && IsKey(row[index.column], c.logicalType)
      && IndexKey(schema, index, row) ==
         (if index.unique then Number(Encode(row[index.column], c.logicalType).value)
          else Number(Encode(row[index.column], c.logicalType).value +
                      Encode(row[schema.primaryKey], pk.logicalType).value))
  {
    assert ColumnOk(schema.columns[schema.primaryKey], row[schema.primaryKey]);
    assert ColumnOk(schema.columns[index.column], row[index.column]);
    NumberOfConcat(Encode(row[index.column], schema.columns[index.column].logicalType).value,
                   Encode(row[schema.primaryKey], schema.columns[schema.primaryKey].logicalType).value);
  }

  lemma RowKeyBound(schema: TableSchema, row: Row)
    requires schema.Valid() && RowOk(schema, row)
    ensures RowKey(schema, row) < KeySpan(schema)
  {
    assert ColumnOk(schema.columns[schema.primaryKey], row[schema.primaryKey]);
    var v, t := row[schema.primaryKey], schema.columns[schema.primaryKey].logicalType;
    KeyNumberOrder(v, v, t);
  }

  /** Two rows have the same column key exactly when they have the same value there. */
  lemma ColumnKeyInjective(schema: TableSchema, column: nat, a: Row, b: Row)
    requires RowOk(schema, a) && RowOk(schema, b) && column < |schema.columns|
    requires !schema.columns[column].nullable && CanBeIndexed(schema.columns[column].logicalType)
    ensures ColumnKey(schema, column, a) == ColumnKey(schema, column, b) <==> a[column] == b[column]
  {
    assert ColumnOk(schema.columns[column], a[column]) && ColumnOk(schema.columns[column], b[column]);
    KeyNumberOrder(a[column], b[column], schema.columns[column].logicalType);
  }

  /** Dividing out the primary key. */
  lemma SplitKey(c: nat, p: nat, d: nat, q: nat, span: nat)
    requires p < span && q < span
    ensures c * span + p < d * span + q <==> c < d || (c == d && p < q)
    ensures c * span + p == d * span + q <==> c == d && p == q
  {
    if c < d {
      assert (c + 1) * span <= d * span;
    } else if d < c {
      assert (d + 1) * span <= c * span;
    }
  }

  // ---- Tables and their indexes ------------------------------------------------------------

  /** Rows by the number of their primary key. */
  type Table = map<Key, Row>

  ghost predicate TableOk(schema: TableSchema, table: Table)
    requires schema.Valid()
  {
    forall k :: k in table ==> RowOk(schema, table[k]) && RowKey(schema, table[k]) == k
  }

  /** The index holds exactly one entry per row, under the row's index key, giving the row's primary key. */
  ghost predicate Agrees(schema: TableSchema, index: IndexDescriptor, table: Table, content: map<Key, Key>)
    requires schema.Valid() && TableOk(schema, table) && CanIndex(schema, index)
  {
    && (forall k :: k in table ==> EntryFor(schema, index, table[k], k, content))
    && (forall x :: x in content ==> content[x] in table && IndexKey(schema, index, table[content[x]]) == x)
  }

  ghost predicate EntryFor(schema: TableSchema, index: IndexDescriptor, row: Row, k: Key, content: map<Key, Key>)
    requires schema.Valid() && CanIndex(schema, index) && RowOk(schema, row)
  {
    var x := IndexKey(schema, index, row);
    x in content && content[x] == k
  }

  /** No two rows share a value in the column. */
  ghost predicate UniqueOn(table: Table, column: nat) {
    forall k, l :: k in table && l in table && k != l && column < |table[k]| && column < |table[l]| ==>
      table[k][column] != table[l][column]
  }

  /** A unique index that agrees with its table makes the column unique. */
  lemma AgreeingIsUnique(schema: TableSchema, index: IndexDescriptor, table: Table, content: map<Key, Key>)
    requires schema.Valid() && TableOk(schema, table) && CanIndex(schema, index)
    requires Agrees(schema, index, table, content) && index.unique
    ensures UniqueOn(table, index.column)
  {
    forall k, l | k in table && l in table && k != l && index.column < |table[k]| && index.column < |table[l]|
      ensures table[k][index.column] != table[l][index.column]
    {
      assert EntryFor(schema, index, table[k], k, content) && EntryFor(schema, index, table[l], l, content);
      ColumnKeyInjective(schema, index.column, table[k], table[l]);
    }
  }

  /** Two rows of a table have the same index key only if the index is unique and they share the value. */
  lemma IndexKeyCollision(schema: TableSchema, index: IndexDescriptor, a: Row, b: Row)
    requires schema.Valid() && CanIndex(schema, index) && RowOk(schema, a) && RowOk(schema, b)
    requires RowKey(schema, a) != RowKey(schema, b)
    ensures IndexKey(schema, index, a) == IndexKey(schema, index, b) <==>
      index.unique && a[index.column] == b[index.column]
  {
    ColumnKeyInjective(schema, index.column, a, b);
    RowKeyBound(schema, a);
    RowKeyBound(schema, b);
    SplitKey(ColumnKey(schema, index.column, a), RowKey(schema, a), ColumnKey(schema, index.column, b),
             RowKey(schema, b), KeySpan(schema));
  }
}
