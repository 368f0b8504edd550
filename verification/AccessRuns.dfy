/** Following the chosen access path over the B+ trees of a table. */
module AccessRuns {
  import opened Bytes
  import opened Status
  import opened BTreeShape
  import opened BTreeEntries
  import opened BTreeScan
  import opened PagedBTree
  import opened Keys
  import opened AccessPaths
  import opened AccessCursors
  import opened IndexMaintenance
  import opened StatementEffects
  import opened Plans
  import Tables
  import Values

  /** The size of the table's primary keys. */
  function RowKeySize(schema: Tables.TableSchema): nat
    requires schema.Valid()
  {
    Values.FixedSize(schema.columns[schema.primaryKey].logicalType)
  }

  /** The tree holds the index: its keys are as long as the encoded column and, if not unique, the primary
      key; its values are primary keys. */
  ghost predicate IndexStored(schema: Tables.TableSchema, index: Tables.IndexDescriptor, content: map<Key, Key>,
                              tree: BTree)
    requires schema.Valid() && Tables.CanIndex(schema, index)
    reads tree, tree.store
  {
    && tree.Valid() && HoldsIndex(Entries(tree.tree), content)
    && tree.keySize ==
      Values.FixedSize(schema.columns[index.column].logicalType) + (if index.unique then 0 else RowKeySize(schema))
    && tree.valueSize == RowKeySize(schema)
    && forall x :: x in Entries(tree.tree) ==> |x.value| == RowKeySize(schema)
  }

  /** The trees of a table hold its rows and its secondary indexes. */
  ghost predicate Stored(schema: Tables.TableSchema, indexes: seq<Tables.IndexDescriptor>, data: Data, table: BTree,
                         trees: seq<BTree>)
    requires DataOk(schema, indexes, data)
    reads table, table.store, trees, set t | t in trees :: t.store
  {
    && table.Valid() && table.keySize == RowKeySize(schema) && Holds(Entries(table.tree), data.table) &&
       |trees| == |indexes|
    && forall i :: 0 <= i < |indexes| && !indexes[i].primary ==> SecondaryStored(schema, indexes, data, trees, i)
  }

  ghost predicate SecondaryStored(schema: Tables.TableSchema, indexes: seq<Tables.IndexDescriptor>, data: Data,
                                  trees: seq<BTree>, i: nat)
    requires DataOk(schema, indexes, data) && i < |indexes| && i < |trees|
    reads trees, set t | t in trees :: t.store
  {
    TreeOk(schema, indexes[i], data.table, data.trees[i]) &&
      (!indexes[i].primary ==> IndexStored(schema, indexes[i], data.trees[i], trees[i]))
  }

  /** What the index trees list, in key order. */
  ghost function Listings(trees: seq<BTree>): (xss: seq<seq<Entry>>)
    reads trees
    ensures |xss| == |trees| && forall i :: 0 <= i < |trees| ==> xss[i] == Entries(trees[i].tree)
  {
    if trees == [] then [] else [Entries(trees[0].tree)] + Listings(trees[1..])
  }

  /** The entries are the table tree's, under the given keys. */
  ghost predicate RowsAt(rows: seq<Entry>, order: seq<Key>, table: BTree)
    reads table
  {
    && KeysOf(rows) == order
    && forall i :: 0 <= i < |rows| ==> rows[i].key in table.Contents() && rows[i].value == table.Contents()[rows[i].key]
  }

  /** The access path of a statement, from plan_access_path to the last entry. It gives the rows that the
      statement needs to see, each once, with what the table holds for them. A literal without a key is an
      error, but only if the path needs the key. */
  method RunPath(schema: Tables.TableSchema, indexes: seq<Tables.IndexDescriptor>, table: BTree, trees: seq<BTree>,
                 state: PredicateState, ghost data: Data) returns (r: Result<seq<Entry>>)
    requires DataOk(schema, indexes, data) && Stored(schema, indexes, data, table, trees) && Resolved(schema, state)
    ensures r.Err? <==> Unkeyed(schema, indexes, state)
    ensures r.Err? ==> r.code == InvalidArgument
    ensures r.Ok? ==> RowsAt(r.value, KeysOf(r.value), table) && Visits(schema, data.table, state, KeysOf(r.value))
    ensures r.Ok? && state.Comparison? && HasTree(schema, indexes, state.column) ==>
      forall e :: e in r.value ==> e.key in data.table && Chosen(schema, data.table[e.key], state)
  {
    hide Visits, HasTree, Usable, Tables.CanIndex, BTree.Valid;
    PlannedPath(schema, indexes, data, state);
    var path := PlanAccessPath(schema, indexes, state);
    ghost var xss := Listings(trees);
    ghost var order;
    match path {
      case FullTableScan =>
        var rows := RunFullScan(table);
        r, order := Ok(rows), KeysOf(rows);
      case PrimaryKeyRange =>
        r, order := RunPrimaryRange(schema, table, state);
      case SecondaryIndexRange(i) =>
        r, order := RunSecondaryRange(schema, indexes, table, trees, i, state, data);
    }
    if r.Ok? {
      PlannedRows(schema, indexes, data, table, trees, state, order);
      assert RowsAt(r.value, order, table);
      forall e | e in r.value ensures e.key in order {
        var i :| 0 <= i < |r.value| && r.value[i] == e;
        assert KeysOf(r.value)[i] == e.key;
      }
    }
  }

  lemma PlannedRows(schema: Tables.TableSchema, indexes: seq<Tables.IndexDescriptor>, data: Data, table: BTree,
                    trees: seq<BTree>,
                    state: PredicateState, order: seq<Key>)
    requires DataOk(schema, indexes, data) && Stored(schema, indexes, data, table, trees) && Resolved(schema, state)
    requires var path := PlanAccessPath(schema, indexes, state);
      && (path.FullTableScan? || (LiteralHasKey(state) && Usable(schema, state))) &&
         (path.SecondaryIndexRange? ==> path.index < |indexes|)
      && order == OrderOf(schema, indexes, path, state, Entries(table.tree), Listings(trees))
    ensures Visits(schema, data.table, state, order)
    ensures !PlanAccessPath(schema, indexes, state).FullTableScan? ==>
      forall k :: k in order ==> k in data.table && Chosen(schema, data.table[k], state)
  {
    hide OrderOf, BTree.Valid;
    var xss := Listings(trees);
    forall i | 0 <= i < |indexes| && !indexes[i].primary ensures HoldsIndex(xss[i], data.trees[i]) {
      assert SecondaryStored(schema, indexes, data, trees, i);
    }
    PlannedVisits(schema, indexes, data, state, Entries(table.tree), xss);
  }

  /** The table tree from its first entry on. */
  method RunFullScan(table: BTree) returns (rows: seq<Entry>)
    requires table.Valid()
    ensures rows == Entries(table.tree) && RowsAt(rows, KeysOf(rows), table)
  {
    var cursor := table.ScanRange(None, None);
    BetweenAll(Entries(table.tree));
    rows := cursor.value.Consume();
    EntriesInTable(rows, table);
  }

  lemma {:induction false} BetweenAll(es: seq<Entry>)
    ensures Between(es, None, None) == es
  {
    if es != [] {
      BetweenAll(es[1..]);
    }
  }

  /** Entries that the table tree lists are what it holds under their keys. */
  lemma EntriesInTable(rows: seq<Entry>, table: BTree)
    requires table.Valid() && forall e :: e in rows ==> e in Entries(table.tree)
    ensures RowsAt(rows, KeysOf(rows), table)
  {
    forall i | 0 <= i < |rows|
      ensures rows[i].key in table.Contents() && rows[i].value == table.Contents()[rows[i].key]
    {
      assert rows[i] in Entries(table.tree);
      var j :| 0 <= j < |Entries(table.tree)| && Entries(table.tree)[j] == rows[i];
      MapOfAt(Entries(table.tree), j);
    }
  }

  method RunPrimaryRange(schema: Tables.TableSchema, table: BTree, state: PredicateState)
      returns (r: Result<seq<Entry>>, ghost order: seq<Key>)
    requires schema.Valid() && table.Valid() && table.keySize == RowKeySize(schema)
    requires Resolved(schema, state) && state.Comparison? && state.column == schema.primaryKey
    ensures r.Ok? <==> LiteralHasKey(state)
    ensures r.Err? ==> r.code == InvalidArgument
    ensures r.Ok? ==> Usable(schema, state) && RowsAt(r.value, order, table)
    ensures r.Ok? ==> order == KeysOf(Scanned(Entries(table.tree), PrimaryRanges(schema, state)))
  {
    order := [];
    var key := Encode(state.value, schema.columns[state.column].logicalType);
    if key.Err? {
      return Err(key.code), order;
    }
    var cursors := OpenTableCursors(table, state.op, key.value);
    var rows := ConsumeTableCursors(cursors.value, table.store);
    order := KeysOf(rows);
    ScannedInside(Entries(table.tree), PrimaryRanges(schema, state));
    EntriesInTable(rows, table);
    r := Ok(rows);
  }

  lemma {:induction false} ScannedInside(es: seq<Entry>, ranges: seq<Range>)
    ensures forall e :: e in Scanned(es, ranges) ==> e in es
  {
    if ranges != [] {
      ScannedInside(es, ranges[1..]);
      forall e | e in Between(es, ranges[0].lo, ranges[0].hi) ensures e in es {
        BetweenMembers(es, ranges[0].lo, ranges[0].hi, e);
      }
    }
  }

  method RunSecondaryRange(schema: Tables.TableSchema, indexes: seq<Tables.IndexDescriptor>, table: BTree,
                           trees: seq<BTree>, i: nat,
                           state: PredicateState, ghost data: Data)
    returns (r: Result<seq<Entry>>, ghost order: seq<Key>)
    requires DataOk(schema, indexes, data) && Stored(schema, indexes, data, table, trees) && Resolved(schema, state)
    requires state.Comparison? && i < |indexes| && IndexedBy(indexes[i], state.column)
    ensures r.Ok? <==> LiteralHasKey(state)
    ensures r.Err? ==> r.code == InvalidArgument
    ensures r.Ok? ==> Usable(schema, state) && RowsAt(r.value, order, table)
    ensures r.Ok? ==> order == TargetsOf(Scanned(Entries(trees[i].tree), SecondaryRanges(schema, indexes[i], state)))
  {
    order := [];
    assert SecondaryStored(schema, indexes, data, trees, i);
    var key := Encode(state.value, schema.columns[state.column].logicalType);
    if key.Err? {
      return Err(key.code), order;
    }
    var tree := trees[i];
    var cursors := OpenSecondaryIndexCursors(tree, state.op, key.value);
    ghost var xs := Scanned(Entries(tree.tree), SecondaryRanges(schema, indexes[i], state));
    assert Radix(0) == 1;
    LeadToRows(schema, indexes[i], data.table, data.trees[i], table, tree, SecondaryRanges(schema, indexes[i], state));
    r := ConsumeSecondaryIndexCursors(cursors.value, tree.store, table);
    order := TargetsOf(xs);
    assert KeysOf(r.value) == order;
  }

  /** The entries of an index that agrees with its table lead to rows. */
  lemma LeadToRows(schema: Tables.TableSchema, index: Tables.IndexDescriptor, rows: Tables.Table,
                   content: map<Key, Key>,
                   table: BTree, tree: BTree, ranges: seq<Range>)
    requires schema.Valid() && Tables.TableOk(schema, rows) && Tables.CanIndex(schema, index) &&
      Tables.Agrees(schema, index, rows, content)
    requires table.keySize == RowKeySize(schema) && Holds(Entries(table.tree), rows) &&
      IndexStored(schema, index, content, tree)
    ensures forall x :: x in Scanned(Entries(tree.tree), ranges) ==> LeadsToRow(x, table)
  {
    ScannedInside(Entries(tree.tree), ranges);
    forall x | x in Scanned(Entries(tree.tree), ranges) ensures LeadsToRow(x, table) {
      var k := Number(x.value);
      assert x in Entries(tree.tree) && k in rows;
      var e :| e in Entries(table.tree) && e.key == k;
      MapOfKeys(Entries(table.tree), k);
    }
  }
}
