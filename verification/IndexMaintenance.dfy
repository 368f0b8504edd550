/** How one row's change carries over to an index that agrees with the table. */
module IndexMaintenance {
  import opened Tables

  /** What the trees of one table hold: the rows, and per index its entries. */
  datatype Data = Data(table: Table, trees: seq<map<Key, Key>>)

  /** Every secondary index agrees with the table. (The primary index is the table's own tree.) */
  ghost predicate DataOk(schema: TableSchema, indexes: seq<IndexDescriptor>, data: Data) {
    && schema.Valid() && TableOk(schema, data.table) && |data.trees| == |indexes|
    && forall i :: 0 <= i < |indexes| ==> TreeOk(schema, indexes[i], data.table, data.trees[i])
  }

  ghost predicate TreeOk(schema: TableSchema, index: IndexDescriptor, table: Table, content: map<Key, Key>)
    requires schema.Valid() && TableOk(schema, table)
  {
    index.primary || (CanIndex(schema, index) && Agrees(schema, index, table, content))
  }

  // ---- One row more ------------------------------------------------------------------------

  /** An index key that is taken belongs to another row with the same value, under a unique index. */
  lemma TakenBy(schema: TableSchema, index: IndexDescriptor, table: Table, content: map<Key, Key>, row: Row)
    requires schema.Valid() && TableOk(schema, table) && CanIndex(schema, index) &&
      Agrees(schema, index, table, content)
    requires RowOk(schema, row) && RowKey(schema, row) !in table
    ensures IndexKey(schema, index, row) in content <==> index.unique && ValueTaken(table, index.column, row)
  {
    var x := IndexKey(schema, index, row);
    if x in content {
      var k := content[x];
      assert k in table && IndexKey(schema, index, table[k]) == x && RowKey(schema, table[k]) == k;
      IndexKeyCollision(schema, index, table[k], row);
    }
    if index.unique && ValueTaken(table, index.column, row) {
      var k :| k in table && index.column < |table[k]| && index.column < |row| &&
        table[k][index.column] == row[index.column];
      assert RowKey(schema, table[k]) == k && EntryFor(schema, index, table[k], k, content);
      IndexKeyCollision(schema, index, table[k], row);
    }
  }

  ghost predicate ValueTaken(table: Table, column: nat, row: Row) {
    exists k :: k in table && column < |table[k]| && column < |row| && table[k][column] == row[column]
  }

  lemma AgreesInsert(schema: TableSchema, index: IndexDescriptor, table: Table, content: map<Key, Key>, row: Row)
    requires schema.Valid() && TableOk(schema, table) && CanIndex(schema, index) &&
      Agrees(schema, index, table, content)
    requires RowOk(schema, row) && RowKey(schema, row) !in table && IndexKey(schema, index, row) !in content
    ensures TableOk(schema, table[RowKey(schema, row) := row])
    ensures Agrees(schema, index, table[RowKey(schema, row) := row],
                   content[IndexKey(schema, index, row) := RowKey(schema, row)])
  {
    var k, x := RowKey(schema, row), IndexKey(schema, index, row);
    forall l | l in table ensures EntryFor(schema, index, table[l], l, content[x := k]) {
      assert EntryFor(schema, index, table[l], l, content);
    }
  }

  // ---- One row less ------------------------------------------------------------------------

  lemma AgreesErase(schema: TableSchema, index: IndexDescriptor, table: Table, content: map<Key, Key>, k: Key)
    requires schema.Valid() && TableOk(schema, table) && CanIndex(schema, index) &&
      Agrees(schema, index, table, content)
    requires k in table
    ensures TableOk(schema, table - {k}) && IndexKey(schema, index, table[k]) in content
    ensures Agrees(schema, index, table - {k}, content - {IndexKey(schema, index, table[k])})
  {
    var x := IndexKey(schema, index, table[k]);
    assert EntryFor(schema, index, table[k], k, content);
    forall l | l in table && l != k ensures EntryFor(schema, index, table[l], l, content - {x}) {
      assert EntryFor(schema, index, table[l], l, content);
    }
  }

  // ---- One row changed ---------------------------------------------------------------------

  /** Changing a row without moving its index key. */
  lemma AgreesSameKey(schema: TableSchema, index: IndexDescriptor, table: Table, content: map<Key, Key>, k: Key,
                      row: Row)
    requires schema.Valid() && TableOk(schema, table) && CanIndex(schema, index) &&
      Agrees(schema, index, table, content)
    requires k in table && RowOk(schema, row) && RowKey(schema, row) == k
    requires IndexKey(schema, index, row) == IndexKey(schema, index, table[k])
    ensures TableOk(schema, table[k := row]) && Agrees(schema, index, table[k := row], content)
  {
    var after := table[k := row];
    forall l | l in after ensures EntryFor(schema, index, after[l], l, content) {
      assert EntryFor(schema, index, table[l], l, content);
    }
  }

  /** Moving a row's index key: the old entry goes, the new one comes. */
  lemma AgreesMoved(schema: TableSchema, index: IndexDescriptor, table: Table, content: map<Key, Key>, k: Key, row: Row)
    requires schema.Valid() && TableOk(schema, table) && CanIndex(schema, index) &&
      Agrees(schema, index, table, content)
    requires k in table && RowOk(schema, row) && RowKey(schema, row) == k
    requires IndexKey(schema, index, row) !in content - {IndexKey(schema, index, table[k])}
    ensures IndexKey(schema, index, table[k]) in content && TableOk(schema, table[k := row])
    ensures Agrees(schema, index, table[k := row],
                   (content - {IndexKey(schema, index, table[k])})[IndexKey(schema, index, row) := k])
  {
    AgreesErase(schema, index, table, content, k);
    AgreesInsert(schema, index, table - {k}, content - {IndexKey(schema, index, table[k])}, row);
    assert (table - {k})[k := row] == table[k := row];
  }
}
