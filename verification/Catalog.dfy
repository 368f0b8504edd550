/** The catalog: creating and dropping tables and indexes in the system tables and in memory, inside the
    caller's transaction or in one of its own. */
module Catalogs {
  import opened PageIds
  import opened Bytes
  import opened Status
  import opened Values
  import opened Schemas
  import opened Transactions
  import PagerViews
  import PagedBTree
  import TreeCalls
  import opened CatalogStates
  import opened InternalNames
  import opened CatalogLoader
  import opened CatalogEdits
  import opened CatalogTrees
  import opened CatalogSteps

  class Catalog {
    const pager: PagerSession<Metadata>
    var committed: CatalogState
    var staged: Option<CatalogState>

    /** What lookups see: the running transaction's changes, if it made any. */
    function Visible(): CatalogState
      reads this
    {
      if staged.Some? then staged.value else committed
    }

    /** At every statement boundary outside a failed or unresolved transaction, the rows of the system
        tables describe the visible state; and the committed rows always describe the committed state. */
    ghost predicate Valid()
      reads this, pager
    {
      && StateOk(committed, pager.saved)
      && (pager.status == PagerViews.Inactive ==> pager.now == pager.saved && staged.None?)
      && (pager.status == PagerViews.Active ==> StateOk(Visible(), pager.now))
    }

    constructor (pager: PagerSession<Metadata>, state: CatalogState)
      requires pager.status == PagerViews.Inactive && pager.now == pager.saved && StateOk(state, pager.saved)
      ensures Valid() && this.pager == pager && committed == state && staged == None
    {
      this.pager, committed, staged := pager, state, None;
    }

    // ---- The trees of the system tables ------------------------------------------------------

    /** The page count after a call that may have allocated pages. */
    method Grown() returns (pageCount: nat)
      ensures pageCount >= pager.now.pageCount
    {
      var more: int := *;
      pageCount := pager.now.pageCount + if more > 0 then more else 0;
    }

    /** BTree::create_new. */
    method NewTree(keySize: nat, valueSize: nat) returns (r: Result<PageId>)
      requires pager.now.pageCount > 0
      modifies pager`now
      ensures r.Ok? ==>
        r.value == old(pager.now.pageCount) && RootOk(r.value, pager.now.pageCount) &&
        pager.now == old(pager.now).(pageCount := r.value + 1,
                                     trees := old(pager.now.trees)[r.value := TreeSizes(keySize, valueSize)])
      ensures r.Ok? && old(TreesWithin(pager.now)) ==> TreesWithin(pager.now)
      ensures r.Err? ==> unchanged(pager)
      ensures if PagedBTree.ValidateLayout(keySize, valueSize).Err? then r == Err(InvalidArgument)
        else r.Ok? || r == Err(IoError)
    {
      if PagedBTree.ValidateLayout(keySize, valueSize).Err? {
        return Err(InvalidArgument);
      }
      var available: bool := *;
      if !available {
        return Err(IoError);
      }
      r := Ok(pager.now.pageCount);
      pager.now := pager.now.(pageCount := pager.now.pageCount + 1,
                              trees := pager.now.trees[pager.now.pageCount := TreeSizes(keySize, valueSize)]);
    }

    method InsertTableRow(d: TableDescriptor) returns (r: Outcome)
      modifies pager`now
      ensures r.Done? ==> d.id !in old(pager.now.tables) && pager.now.pageCount >= old(pager.now.pageCount)
      ensures r.Done? ==>
        pager.now ==
          old(pager.now).(tables := old(pager.now.tables)[d.id := RowOfTable(d)], pageCount := pager.now.pageCount)
      ensures r.Done? ==> Storable(d.name)
      ensures r.Failed? ==>
        r.code == IoError || (r.code == InvalidArgument && !Storable(d.name)) ||
        (r.code == ConstraintViolation && d.id in old(pager.now.tables))
    {
      if !Storable(d.name) {
        return Failed(InvalidArgument);
      }
      var tree; var pageCount := Grown();
      r, tree := TreeCalls.Insert(pager.now.tables, d.id, RowOfTable(d));
      pager.now := pager.now.(tables := tree, pageCount := pageCount);
    }

    method InsertColumnRow(c: ColumnDescriptor) returns (r: Outcome)
      modifies pager`now
      ensures r.Done? ==> c.id !in old(pager.now.columns) && pager.now.pageCount >= old(pager.now.pageCount)
      ensures r.Done? ==>
        pager.now ==
          old(pager.now).(columns := old(pager.now.columns)[c.id := RowOfColumn(c)], pageCount := pager.now.pageCount)
      ensures r.Done? ==> Storable(c.spec.name)
      ensures r.Failed? ==>
        r.code == IoError || (r.code == InvalidArgument && !Storable(c.spec.name)) ||
        (r.code == ConstraintViolation && c.id in old(pager.now.columns))
    {
      if !Storable(c.spec.name) {
        return Failed(InvalidArgument);
      }
      var tree; var pageCount := Grown();
      r, tree := TreeCalls.Insert(pager.now.columns, c.id, RowOfColumn(c));
      pager.now := pager.now.(columns := tree, pageCount := pageCount);
    }

    /** The index's row and its link to the indexed column. */
    method InsertIndexRows(x: IndexDescriptor) returns (r: Outcome)
      modifies pager`now
      ensures r.Done? ==> IndexRowsAdded(old(pager.now), pager.now, x) && pager.now.trees == old(pager.now.trees)
      ensures r.Done? ==> Storable(x.name)
      ensures r.Failed? ==>
        r.code == IoError || (r.code == InvalidArgument && !Storable(x.name)) ||
        (r.code == ConstraintViolation && (x.id in old(pager.now.indexes) || x.id in old(pager.now.indexColumns)))
    {
      if !Storable(x.name) {
        return Failed(InvalidArgument);
      }
      var tree; var pageCount := Grown();
      r, tree := TreeCalls.Insert(pager.now.indexes, x.id, RowOfIndex(x));
      pager.now := pager.now.(indexes := tree, pageCount := pageCount);
      if r.Failed? {
        return;
      }
      var links; pageCount := Grown();
      r, links := TreeCalls.Insert(pager.now.indexColumns, x.id, IndexColumnRow(x.id, x.column, 0));
      pager.now := pager.now.(indexColumns := links, pageCount := pageCount);
    }

    /** The link first, then the index's row. */
    method EraseIndexRows(k: Id) returns (r: Outcome)
      modifies pager`now
      ensures r.Done? ==>
        IndexRowsRemoved(old(pager.now), pager.now, k) && pager.now.pageCount == old(pager.now.pageCount)
      ensures r.Failed? ==>
        r.code == IoError ||
        (r.code == NotFound && (k !in old(pager.now.indexes) || k !in old(pager.now.indexColumns)))
    {
      var links;
      r, links := TreeCalls.Erase(pager.now.indexColumns, k);
      pager.now := pager.now.(indexColumns := links);
      if r.Failed? {
        return;
      }
      var tree;
      r, tree := TreeCalls.Erase(pager.now.indexes, k);
      pager.now := pager.now.(indexes := tree);
    }

    // ---- How an operation ends ---------------------------------------------------------------

    /** What a failed operation leaves; a statement that fails inside a transaction then fails it. */
    twostate predicate GaveUp()
      reads this, pager
    {
      && committed == old(committed) && staged == old(staged) && pager.saved == old(pager.saved)
      && (old(pager.status) == PagerViews.Active ==> pager.status == PagerViews.Active)
      && (pager.status == PagerViews.Inactive ==> pager.now == old(pager.now))
    }

    /** Begins a transaction unless one is running. */
    method EnterTransaction() returns (ownsTransaction: bool)
      requires Valid() && pager.Accepting()
      modifies pager`status
      ensures ownsTransaction == (old(pager.status) == PagerViews.Inactive) && pager.status == PagerViews.Active
      ensures StateOk(committed, pager.saved) && StateOk(Visible(), pager.now)
      ensures ownsTransaction ==> staged.None? && pager.now == pager.saved
    {
      ownsTransaction := pager.status == PagerViews.Inactive;
      if ownsTransaction {
        pager.Begin();
      }
    }

    /** Ends an operation that would leave the state next. */
    method Settle(work: Outcome, next: CatalogState, ownsTransaction: bool) returns (r: Outcome)
      requires pager.status == PagerViews.Active && StateOk(committed, pager.saved) &&
        (ownsTransaction ==> staged.None?)
      requires work.Done? ==> StateOk(next, pager.now)
      modifies this, pager
      ensures r.Done? ==> work.Done? && Valid() && Visible() == next && pager.now == old(pager.now)
      ensures r.Done? ==> pager.status == if ownsTransaction then PagerViews.Inactive else PagerViews.Active
      ensures r.Done? && !ownsTransaction ==> committed == old(committed) && pager.saved == old(pager.saved)
      ensures r.Failed? ==> committed == old(committed) && staged == old(staged) && pager.saved == old(pager.saved)
      ensures r.Failed? && !ownsTransaction ==> pager.status == PagerViews.Active
      ensures r.Failed? && pager.status == PagerViews.Inactive ==> pager.now == pager.saved
      ensures r.Failed? ==> r == work || StorageFailure(r.code)
    {
      r := pager.Finish(work, ownsTransaction);
      if r.Done? && ownsTransaction {
        committed := next;
      } else if r.Done? {
        staged := Some(next);
      }
    }

    // ---- Transactions ------------------------------------------------------------------------

    method ExecuteBegin() returns (r: Outcome)
      requires Valid()
      modifies pager`status
      ensures Valid() && r.Done? == (old(pager.status) == PagerViews.Inactive)
      ensures r.Done? ==> pager.status == PagerViews.Active
      ensures r.Failed? ==> r.code == TransactionError
    {
      if pager.status != PagerViews.Inactive {
        r := Failed(TransactionError);
        pager.Conclude(r);
        return;
      }
      pager.Begin();
      r := Done;
    }

    /** COMMIT, and then on_transaction_committed. */
    method ExecuteCommit() returns (r: Outcome)
      requires Valid()
      modifies this, pager
      ensures Valid()
      ensures r.Done? ==>
        old(pager.status) == PagerViews.Active && pager.status == PagerViews.Inactive && Visible() == old(Visible())
      ensures r.Failed? ==> committed == old(committed) && pager.saved == old(pager.saved)
      ensures r.Failed? ==>
        r.code == TransactionError || (r.code == IoError && pager.status == PagerViews.Unresolved)
    {
      if pager.status != PagerViews.Active {
        return Failed(TransactionError);
      }
      r := pager.Commit();
      pager.Conclude(r);
      if r.Done? {
        r := OnTransactionCommitted();
      }
    }

    method OnTransactionCommitted() returns (r: Outcome)
      modifies this
      ensures r == if pager.status != PagerViews.Inactive then Failed(TransactionError) else Done
      ensures r.Done? ==> committed == old(Visible()) && staged.None?
      ensures r.Failed? ==> unchanged(this)
    {
      if pager.status != PagerViews.Inactive {
        return Failed(TransactionError);
      }
      if staged.Some? {
        committed, staged := staged.value, None;
      }
      r := Done;
    }

    /** ROLLBACK, and then on_transaction_rolled_back: the state at BEGIN. */
    method ExecuteRollback() returns (r: Outcome)
      requires Valid()
      modifies this, pager
      ensures Valid() && committed == old(committed) && pager.saved == old(pager.saved)
      ensures r.Done? ==> pager.status == PagerViews.Inactive && Visible() == old(committed)
      ensures r == Failed(TransactionError) <==>
        old(pager.status) == PagerViews.Inactive || old(pager.status) == PagerViews.Unresolved
      ensures r.Failed? ==> r.code == TransactionError || r.code == InternalError
    {
      if pager.status == PagerViews.Inactive || pager.status == PagerViews.Unresolved {
        return Failed(TransactionError);
      }
      r := pager.Rollback();
      pager.Conclude(r);
      if r.Done? {
        r := OnTransactionRolledBack();
      }
    }

    method OnTransactionRolledBack() returns (r: Outcome)
      modifies this`staged
      ensures r == if pager.status != PagerViews.Inactive then Failed(TransactionError) else Done
      ensures staged == if r.Done? then None else old(staged)
    {
      if pager.status != PagerViews.Inactive {
        return Failed(TransactionError);
      }
      staged := None;
      r := Done;
    }

    // ---- CREATE TABLE ------------------------------------------------------------------------

    predicate CanCreateTable(name: Bytes, schema: Schema)
      reads this
    {
      && name != [] && |name| <= NAME_CAPACITY && name !in Visible().idByName && !HasReservedPrefix(name)
      && forall i :: 0 <= i < |schema.specs| ==> |schema.specs[i].name| <= NAME_CAPACITY
    }

    method CheckNewTable(name: Bytes, schema: Schema) returns (r: Outcome)
      ensures r.Done? <==> CanCreateTable(name, schema)
      ensures r == Failed(AlreadyExists) <==> name != [] && |name| <= NAME_CAPACITY && name in Visible().idByName
      ensures r.Failed? ==> r.code == AlreadyExists || r.code == InvalidArgument
    {
      if name == [] || |name| > NAME_CAPACITY {
        return Failed(InvalidArgument);
      }
      if name in Visible().idByName {
        return Failed(AlreadyExists);
      }
      if HasReservedPrefix(name) {
        return Failed(InvalidArgument);
      }
      for i := 0 to |schema.specs|
        invariant forall j :: 0 <= j < i ==> |schema.specs[j].name| <= NAME_CAPACITY
      {
        if |schema.specs[i].name| > NAME_CAPACITY {
          return Failed(InvalidArgument);
        }
      }
      r := Done;
    }

    /** ColumnDescriptor::create for every column; a primary key must also be unique. */
    method DescribeColumns(t: Id, first: Id, specs: seq<ColumnSpec>) returns (r: Result<seq<ColumnDescriptor>>)
      requires forall i :: 0 <= i < |specs| ==> CanBeColumn(specs[i])
      ensures r.Ok? <==> forall i :: 0 <= i < |specs| ==> CanBeDescribed(specs[i])
      ensures r.Ok? ==> ColumnsOfSpecs(t, first, specs, r.value)
      ensures r.Err? ==> r.code == InvalidArgument
    {
      var cs: seq<ColumnDescriptor> := [];
      for i := 0 to |specs|
        invariant |cs| == i
        invariant forall j :: 0 <= j < i ==>
          CanBeDescribed(specs[j]) && cs[j] == ColumnDescriptor(first + j, t, specs[j], j)
      {
        if !CanBeDescribed(specs[i]) {
          return Err(InvalidArgument);
        }
        cs := cs + [ColumnDescriptor(first + i, t, specs[i], i)];
      }
      r := Ok(cs);
    }

    /** A tree and an internal index for each unique column but the primary key. */
    method CreateInternalIndexes(t: nat, root: PageId, first: Id, schema: Schema, cs: seq<ColumnDescriptor>,
                                 firstColumn: Id)
      returns (r: Result<seq<IndexDescriptor>>)
      requires schema.LaidOut() && ColumnsOfSpecs(t, firstColumn, schema.specs, cs) && firstColumn >= 0
      requires forall i :: 0 <= i < |schema.specs| ==> CanBeDescribed(schema.specs[i])
      requires RootOk(root, pager.now.pageCount) && TreesWithin(pager.now)
      modifies pager`now
      ensures pager.now == old(pager.now).(pageCount := pager.now.pageCount, trees := pager.now.trees) &&
        TreesKept(old(pager.now), pager.now)
      ensures r.Ok? ==> InternalIndexes(t, root, first, cs, r.value, pager.now.pageCount)
      ensures r.Ok? ==> IndexTreesOk(cs, r.value, pager.now.trees) && RootsFresh(r.value, root)
      ensures if UniqueLayoutsOk(schema) then r.Ok? || r == Err(IoError)
        else r == Err(IoError) || r == Err(InvalidArgument)
    {
      hide SomeIndexes, IndexTreesOk, RootsBelow, RootsFresh, IndexSized;
      var key := schema.columns[schema.primaryKey];
      var xs := [IndexDescriptor(first, t, PrimaryIndexName(t), root, true, true, true, cs[schema.primaryKey].id)];
      FirstIndex(t, root, first, schema, cs, firstColumn, xs, pager.now.pageCount);
      FirstTree(cs, xs[0], pager.now.pageCount, pager.now.trees);
      for c := 0 to |cs|
        invariant pager.now == old(pager.now).(pageCount := pager.now.pageCount, trees := pager.now.trees) &&
          TreesKept(old(pager.now), pager.now)
        invariant IndexTreesOk(cs, xs, pager.now.trees) && RootsFresh(xs, root) && RootsBelow(xs, pager.now.pageCount)
        invariant SomeIndexes(t, root, first, cs, xs, pager.now.pageCount, c)
        invariant forall d :: 0 <= d < c && OnlyUnique(schema.specs[d]) ==> UniqueLayoutOk(schema, schema.specs[d])
      {
        ghost var before, trees := pager.now.pageCount, pager.now.trees;
        if !cs[c].spec.primaryKey && cs[c].spec.unique {
          var tree := NewTree(FixedSize(cs[c].spec.column.logicalType), FixedSize(key.logicalType));
          if tree.Err? {
            return Err(tree.code);
          }
          var x := IndexDescriptor(first + |xs|, t, UniqueIndexName(t, cs[c].id), tree.value, true, false, true,
                                   cs[c].id);
          NextIndex(t, root, first, cs, firstColumn, schema.specs, xs, before, pager.now.pageCount, c, x);
          NewIndexSized(t, schema, firstColumn, cs, c, x);
          OneMoreTree(cs, xs, x, root, before, trees,
                      TreeSizes(FixedSize(cs[c].spec.column.logicalType), FixedSize(key.logicalType)));
          xs := xs + [x];
        } else {
          SkipColumn(t, root, first, cs, xs, before, c);
        }
      }
      r := Ok(xs);
    }

    /** Stores the rows of a table: its own, its columns', and its indexes'. */
    method StoreTable(t: Id, info: TableInfo) returns (r: Outcome)
      requires info.descriptor.id == t
      modifies pager`now
      ensures r.Done? ==> TableRowsAdded(old(pager.now), pager.now, t, info) && pager.now.trees == old(pager.now.trees)
      ensures r.Done? ==> NamesStorable(info)
      ensures r.Failed? && IdsUnused(old(pager.now), t, info) ==>
        r.code == IoError || (r.code == InvalidArgument && !NamesStorable(info))
    {
      ghost var m := pager.now;
      r := InsertTableRow(info.descriptor);
      if r.Failed? {
        return;
      }
      r := StoreColumns(info.columns);
      if r.Failed? {
        return;
      }
      r := StoreIndexes(info.indexes);
    }

    method StoreColumns(cs: seq<ColumnDescriptor>) returns (r: Outcome)
      modifies pager`now
      ensures r.Done? ==> ColumnsAdded(old(pager.now), pager.now, cs) && pager.now.pageCount >= old(pager.now.pageCount)
      ensures r.Done? ==> pager.now == old(pager.now).(columns := pager.now.columns, pageCount := pager.now.pageCount)
      ensures r.Done? ==> forall i :: 0 <= i < |cs| ==> Storable(cs[i].spec.name)
      ensures r.Failed? && ColumnsUnused(old(pager.now), cs) ==>
        r.code == IoError || (r.code == InvalidArgument && exists i :: 0 <= i < |cs| && !Storable(cs[i].spec.name))
    {
      for i := 0 to |cs|
        invariant ColumnsAdded(old(pager.now), pager.now, cs[..i]) && pager.now.pageCount >= old(pager.now.pageCount)
        invariant pager.now == old(pager.now).(columns := pager.now.columns, pageCount := pager.now.pageCount)
        invariant forall j :: 0 <= j < i ==> Storable(cs[j].spec.name)
      {
        ghost var before := pager.now;
        r := InsertColumnRow(cs[i]);
        if r.Failed? {
          return;
        }
        OneMoreColumn(old(pager.now), before, pager.now, cs, i);
      }
      assert cs[..|cs|] == cs;
      r := Done;
    }

    method StoreIndexes(xs: seq<IndexDescriptor>) returns (r: Outcome)
      modifies pager`now
      ensures r.Done? ==> IndexesAdded(old(pager.now), pager.now, xs) && pager.now.pageCount >= old(pager.now.pageCount)
      ensures r.Done? ==>
        pager.now == old(pager.now).(indexes := pager.now.indexes, indexColumns := pager.now.indexColumns,
                                     pageCount := pager.now.pageCount)
      ensures r.Done? ==> forall i :: 0 <= i < |xs| ==> Storable(xs[i].name)
      ensures r.Failed? && IndexesUnused(old(pager.now), xs) ==>
        r.code == IoError || (r.code == InvalidArgument && exists i :: 0 <= i < |xs| && !Storable(xs[i].name))
    {
      for i := 0 to |xs|
        invariant IndexesAdded(old(pager.now), pager.now, xs[..i]) && pager.now.pageCount >= old(pager.now.pageCount)
        invariant pager.now == old(pager.now).(indexes := pager.now.indexes, indexColumns := pager.now.indexColumns,
                                               pageCount := pager.now.pageCount)
        invariant forall j :: 0 <= j < i ==> Storable(xs[j].name)
      {
        ghost var before := pager.now;
        r := InsertIndexRows(xs[i]);
        if r.Failed? {
          return;
        }
        OneMoreIndex(old(pager.now), before, pager.now, xs, i);
      }
      assert xs[..|xs|] == xs;
      r := Done;
    }

    /** The work of create_table in a running transaction. */
    method BuildTable(name: Bytes, schema: Schema) returns (r: Outcome, next: CatalogState, ghost info: TableInfo)
      requires StateOk(Visible(), pager.now) && CanCreateTable(name, schema)
      requires schema.LaidOut() && forall i :: 0 <= i < |schema.specs| ==> CanBeColumn(schema.specs[i])
      modifies pager`now
      ensures r.Done? ==>
        NewTable(Visible(), name, schema, info, pager.now.pageCount) &&
        next == StateWithTable(Visible(), name, schema, info)
      ensures r.Done? ==> StateOk(next, pager.now) && Admitted(Visible(), name, schema)
      ensures r.Failed? ==> r.code == IoError || (r.code == InvalidArgument && !Admitted(Visible(), name, schema))
    {
      hide TreesWithin, UniqueLayoutsOk, NewNamesStorable, NamesStorable, IdsUnused;
      hide StateOk, StateWithTable, TreesKept, IndexTreesOk, RootsFresh, TableRowsAdded, InternalIndexes;
      var state := Visible();
      next := state;
      info := TableInfo(TableDescriptor(0, [], 0), [], []);
      ghost var m := pager.now;
      SomePage(state, m);
      TreesBelow(state, m);
      var t: nat := state.nextTable;
      var columns := DescribeColumns(t, state.nextColumn, schema.specs);
      if columns.Err? {
        r := Failed(columns.code);
        return;
      }
      var root := NewTree(FixedSize(schema.columns[schema.primaryKey].logicalType), schema.rowSize);
      if root.Err? {
        r := Failed(root.code);
        return;
      }
      ghost var made := pager.now;
      var indexes := CreateInternalIndexes(t, root.value, state.nextIndex, schema, columns.value, state.nextColumn);
      if indexes.Err? {
        r := Failed(indexes.code);
        return;
      }
      var described := TableInfo(TableDescriptor(t, name, root.value), columns.value, indexes.value);
      ghost var before := pager.now;
      TreeMade(m, made, before, made.trees[root.value]);
      assert NewTable(state, name, schema, described, before.pageCount);
      NamesAreNew(state, name, schema, described, before.pageCount);
      NewIdsUnused(state, m, before, name, schema, described, before.pageCount);
      r := StoreTable(t, described);
      info := described;
      next := StateWithTable(state, name, schema, described);
      if r.Done? {
        TableBuilt(state, m, before, pager.now, name, schema, described);
      }
    }

    /** create_table. Success adds exactly the table: its columns under new ids, a primary index, and one
        internal index for each other unique column. */
    method CreateTable(name: Bytes, schema: Schema) returns (r: Outcome, ghost info: TableInfo)
      requires Valid() && pager.Accepting()
      requires schema.LaidOut() && forall i :: 0 <= i < |schema.specs| ==> CanBeColumn(schema.specs[i])
      modifies this, pager
      ensures r.Done? ==> Valid() && pager.status == old(pager.status) && old(CanCreateTable(name, schema))
      ensures r.Done? ==> NewTable(old(Visible()), name, schema, info, pager.now.pageCount)
      ensures r.Done? ==> Visible() == StateWithTable(old(Visible()), name, schema, info)
      ensures r.Done? && old(pager.status) == PagerViews.Active ==>
        committed == old(committed) && pager.saved == old(pager.saved)
      ensures r.Done? ==> old(Admitted(Visible(), name, schema))
      ensures r.Failed? ==> GaveUp()
      ensures r == Failed(AlreadyExists) <==>
        old(name != [] && |name| <= NAME_CAPACITY && name in Visible().idByName)
      ensures r.Failed? ==>
        r.code == AlreadyExists || StorageFailure(r.code) ||
        (r.code == InvalidArgument && !old(CanCreateTable(name, schema) && Admitted(Visible(), name, schema)))
    {
      hide StateOk, NewTable, StateWithTable, CanCreateTable, Admitted;
      info := TableInfo(TableDescriptor(0, [], 0), [], []);
      r := CheckNewTable(name, schema);
      if r.Failed? {
        return;
      }
      var ownsTransaction := EnterTransaction();
      var next;
      r, next, info := BuildTable(name, schema);
      r := Settle(r, next, ownsTransaction);
    }

    // ---- DROP TABLE --------------------------------------------------------------------------

    method EraseColumns(cs: seq<ColumnDescriptor>) returns (r: Outcome)
      modifies pager`now
      ensures r.Done? ==> ColumnsErased(old(pager.now), pager.now, cs)
      ensures r.Failed? && old(ColumnsThere(pager.now, cs)) ==> r.code == IoError
    {
      for i := 0 to |cs|
        invariant ColumnsErased(old(pager.now), pager.now, cs[..i])
      {
        ghost var before := pager.now;
        var tree;
        r, tree := TreeCalls.Erase(pager.now.columns, cs[i].id);
        pager.now := pager.now.(columns := tree);
        if r.Failed? {
          return;
        }
        OneLessColumn(old(pager.now), before, pager.now, cs, i);
      }
      assert cs[..|cs|] == cs;
      r := Done;
    }

    method EraseIndexes(xs: seq<IndexDescriptor>) returns (r: Outcome)
      modifies pager`now
      ensures r.Done? ==> IndexesErased(old(pager.now), pager.now, xs)
      ensures r.Failed? && old(IndexesThere(pager.now, xs)) ==> r.code == IoError
    {
      for i := 0 to |xs|
        invariant IndexesErased(old(pager.now), pager.now, xs[..i])
      {
        ghost var before := pager.now;
        r := EraseIndexRows(xs[i].id);
        if r.Failed? {
          return;
        }
        OneLessIndex(old(pager.now), before, pager.now, xs, i);
      }
      assert xs[..|xs|] == xs;
      r := Done;
    }

    method RemoveTable(t: Id) returns (r: Outcome)
      requires StateOk(Visible(), pager.now) && t in Visible().tables && !IsSystemTable(t)
      modifies pager`now
      ensures r.Done? ==> StateOk(StateWithoutTable(Visible(), t), pager.now)
      ensures r.Failed? ==> r.code == IoError
    {
      hide StateOk, StateWithoutTable, ColumnsErased;
      RowsThere(Visible(), pager.now, t);
      ghost var m := pager.now;
      var info := Visible().tables[t];
      r := EraseIndexes(info.indexes);
      if r.Failed? {
        return;
      }
      ghost var n1 := pager.now;
      r := EraseColumns(info.columns);
      if r.Failed? {
        return;
      }
      ghost var n2 := pager.now;
      var tree;
      r, tree := TreeCalls.Erase(pager.now.tables, t);
      pager.now := pager.now.(tables := tree);
      if r.Done? {
        TableGone(Visible(), m, n1, n2, pager.now, t);
      }
    }

    /** drop_table. Success removes exactly the table. */
    method DropTable(name: Bytes) returns (r: Outcome)
      requires Valid() && pager.Accepting()
      modifies this, pager
      ensures r.Done? ==> Valid() && pager.status == old(pager.status)
      ensures r.Done? ==> name in old(Visible()).idByName && old(Visible()).idByName[name] in old(Visible()).tables
      ensures r.Done? ==> Visible() == StateWithoutTable(old(Visible()), old(Visible()).idByName[name])
      ensures r.Done? && old(pager.status) == PagerViews.Active ==>
        committed == old(committed) && pager.saved == old(pager.saved)
      ensures name !in old(Visible()).idByName ==> unchanged(this) && unchanged(pager)
      ensures r.Failed? ==> GaveUp()
      ensures r == Failed(NotFound) <==> name !in old(Visible()).idByName
      ensures r == Failed(InvalidArgument) <==>
        name in old(Visible()).idByName && IsSystemTable(old(Visible()).idByName[name])
      ensures r.Failed? ==> r.code == NotFound || r.code == InvalidArgument || StorageFailure(r.code)
    {
      hide StateOk, StateWithoutTable;
      var state := Visible();
      if name !in state.idByName {
        return Failed(NotFound);
      }
      NameFound(state, pager.now, name);
      var t := state.idByName[name];
      if IsSystemTable(t) {
        return Failed(InvalidArgument);
      }
      var ownsTransaction := EnterTransaction();
      r := RemoveTable(t);
      r := Settle(r, StateWithoutTable(state, t), ownsTransaction);
    }

    // ---- CREATE INDEX ------------------------------------------------------------------------

    ghost predicate NameUsed(name: Bytes)
      reads this
    {
      !NameUnused(Visible().tables, name)
    }

    /** find_index: the table and position of the index with the given name. */
    method FindIndex(name: Bytes) returns (r: Option<(Id, nat)>)
      ensures r.None? <==> NameUnused(Visible().tables, name)
      ensures r.Some? ==> r.value.0 in Visible().tables && r.value.1 < |Visible().tables[r.value.0].indexes|
      ensures r.Some? ==> Visible().tables[r.value.0].indexes[r.value.1].name == name
    {
      var tables := Visible().tables;
      var ids := ScanIds(tables);
      for k := 0 to |ids|
        invariant forall t, i :: t in ids[..k] && t in tables && 0 <= i < |tables[t].indexes| ==>
          tables[t].indexes[i].name != name
      {
        var t := ids[k];
        assert t in ids;
        for i := 0 to |tables[t].indexes|
          invariant forall j :: 0 <= j < i ==> tables[t].indexes[j].name != name
        {
          if tables[t].indexes[i].name == name {
            return Some((t, i));
          }
        }
      }
      assert ids[..|ids|] == ids;
      r := None;
    }

    /** The position of the column with the given id, and of the primary key. */
    method FindColumn(cs: seq<ColumnDescriptor>, column: Id) returns (at: Option<nat>, key: Option<nat>)
      ensures at.Some? <==> HasColumn(cs, column)
      ensures at.Some? ==> at.value < |cs| && cs[at.value].id == column
      ensures key.Some? ==> key.value < |cs| && cs[key.value].spec.primaryKey
      ensures key.None? ==> forall i :: 0 <= i < |cs| ==> !cs[i].spec.primaryKey
    {
      at, key := None, None;
      for i := 0 to |cs|
        invariant at.Some? <==> exists j :: 0 <= j < i && cs[j].id == column
        invariant at.Some? ==> at.value < i && cs[at.value].id == column
        invariant key.Some? ==> key.value < i && cs[key.value].spec.primaryKey
        invariant key.None? ==> forall j :: 0 <= j < i ==> !cs[j].spec.primaryKey
      {
        if cs[i].id == column {
          at := Some(i);
        }
        if cs[i].spec.primaryKey {
          key := Some(i);
        }
      }
    }

    predicate AlreadyIndexed(xs: seq<IndexDescriptor>, column: Id) {
      exists i :: 0 <= i < |xs| && xs[i].column == column
    }

    /** What create_index asks of its arguments before it looks for the name. */
    ghost predicate IndexNamed(t: Id, name: Bytes, column: Id)
      reads this
    {
      && t != INVALID_TABLE_ID && t in Visible().tables && !IsSystemTable(t) &&
         HasColumn(Visible().tables[t].columns, column)
      && name != [] && |name| <= NAME_CAPACITY && !HasReservedPrefix(name)
    }

    ghost predicate CanCreateIndex(t: Id, name: Bytes, column: Id)
      reads this
    {
      && IndexNamed(t, name, column) && NameUnused(Visible().tables, name)
      && !AlreadyIndexed(Visible().tables[t].indexes, column) &&
         ColumnIndexable(Visible().tables[t].columns, column)
    }

    /** The same, and the name can be stored and pages can hold the entries. */
    ghost predicate IndexAdmitted(t: Id, name: Bytes, column: Id, unique: bool)
      reads this
    {
      && CanCreateIndex(t, name, column) && Storable(name)
      && IndexLayoutOk(Visible().tables[t].columns, column, unique)
    }

    /** The checks of create_index, and the sizes of the new tree's keys and values. */
    method CheckNewIndex(t: Id, name: Bytes, column: Id, unique: bool) returns (r: Result<TreeSizes>)
      requires StateOk(Visible(), pager.now)
      ensures r.Ok? <==> CanCreateIndex(t, name, column)
      ensures r.Ok? ==> IndexSizesFit(Visible().tables[t].columns, column, unique, r.value)
      ensures r == Err(NotFound) <==> t != INVALID_TABLE_ID && t !in Visible().tables
      ensures r == Err(AlreadyExists) <==> IndexNamed(t, name, column) && NameUsed(name)
      ensures r.Err? ==> r.code == NotFound || r.code == AlreadyExists || r.code == InvalidArgument
    {
      hide StateOk, NameUnused, HasReservedPrefix, IndexSizesFit;
      var state := Visible();
      if t == INVALID_TABLE_ID {
        return Err(InvalidArgument);
      }
      if t !in state.tables {
        return Err(NotFound);
      }
      var info := state.tables[t];
      if IsSystemTable(t) {
        return Err(InvalidArgument);
      }
      var at, key := FindColumn(info.columns, column);
      if at.None? {
        return Err(InvalidArgument);
      }
      HasPrimaryKey(state, pager.now, t);
      if key.None? {
        return Err(InternalError);
      }
      if name == [] || |name| > NAME_CAPACITY || HasReservedPrefix(name) {
        return Err(InvalidArgument);
      }
      var other := FindIndex(name);
      if other.Some? {
        return Err(AlreadyExists);
      }
      if AlreadyIndexed(info.indexes, column) || !ColumnIndexable(info.columns, column) {
        return Err(InvalidArgument);
      }
      OneSize(state, pager.now, t, column, unique, at.value, key.value);
      var columnSize, keySize := SizeOf(info.columns[at.value]), SizeOf(info.columns[key.value]);
      r := Ok(TreeSizes(if unique then columnSize else columnSize + keySize, keySize));
    }

    method BuildIndex(t: Id, name: Bytes, column: Id, unique: bool, sizes: TreeSizes)
      returns (r: Outcome, x: IndexDescriptor)
      requires StateOk(Visible(), pager.now) && t in Visible().tables && !IsSystemTable(t) &&
        HasColumn(Visible().tables[t].columns, column)
      requires name != [] && !HasReservedPrefix(name) && NameUnused(Visible().tables, name)
      requires IndexSizesFit(Visible().tables[t].columns, column, unique, sizes) &&
        ColumnIndexable(Visible().tables[t].columns, column)
      modifies pager`now
      ensures x == IndexDescriptor(Visible().nextIndex, t, name, x.root, unique, false, false, column)
      ensures r.Done? ==> StateOk(StateWithIndex(Visible(), x), pager.now)
      ensures r.Done? ==> Storable(name) && LayoutOk(sizes)
      ensures r.Failed? ==> r.code == IoError || (r.code == InvalidArgument && !(Storable(name) && LayoutOk(sizes)))
    {
      hide StateOk, StateWithIndex, HasReservedPrefix, NameUnused, IndexSizesFit;
      var state := Visible();
      ghost var m := pager.now;
      SomePage(state, m);
      TreesBelow(state, m);
      IdsInUse(state, m);
      x := IndexDescriptor(state.nextIndex, t, name, HEADER_PAGE_ID, unique, false, false, column);
      var root := NewTree(sizes.keySize, sizes.valueSize);
      if root.Err? {
        r := Failed(root.code);
        return;
      }
      ghost var before := pager.now;
      x := IndexDescriptor(state.nextIndex, t, name, root.value, unique, false, false, column);
      r := InsertIndexRows(x);
      if r.Done? {
        IndexBuilt(state, m, before, pager.now, x, sizes);
      }
    }

    /** create_index, which adds exactly the index, last in its table's list. */
    method CreateIndex(t: Id, name: Bytes, column: Id, unique: bool) returns (r: Outcome, x: IndexDescriptor)
      requires Valid() && pager.Accepting()
      modifies this, pager
      ensures r.Done? ==>
        Valid() && pager.status == old(pager.status) && t in old(Visible()).tables &&
        old(NameUnused(Visible().tables, name))
      ensures r.Done? ==> x == IndexDescriptor(old(Visible()).nextIndex, t, name, x.root, unique, false, false, column)
      ensures r.Done? ==> Visible() == StateWithIndex(old(Visible()), x)
      ensures r.Done? && old(pager.status) == PagerViews.Active ==>
        committed == old(committed) && pager.saved == old(pager.saved)
      ensures r.Done? ==> old(IndexAdmitted(t, name, column, unique))
      ensures t !in old(Visible()).tables ==> r.Failed? && unchanged(this) && unchanged(pager)
      ensures r.Failed? ==> GaveUp()
      ensures r == Failed(NotFound) <==> t != INVALID_TABLE_ID && t !in old(Visible()).tables
      ensures r == Failed(AlreadyExists) <==> old(IndexNamed(t, name, column) && NameUsed(name))
      ensures r.Failed? ==>
        r.code == NotFound || r.code == AlreadyExists || StorageFailure(r.code) ||
        (r.code == InvalidArgument && !old(IndexAdmitted(t, name, column, unique)))
    {
      x := IndexDescriptor(0, t, name, HEADER_PAGE_ID, unique, false, false, column);
      hide StateOk;
      var sizes := CheckNewIndex(t, name, column, unique);
      if sizes.Err? {
        r := Failed(sizes.code);
        return;
      }
      var state := Visible();
      HasPrimaryKey(state, pager.now, t);
      OneLayout(state.tables[t].columns, column, unique, sizes.value);
      var ownsTransaction := EnterTransaction();
      r, x := BuildIndex(t, name, column, unique, sizes.value);
      r := Settle(r, StateWithIndex(state, x), ownsTransaction);
    }

    // ---- DROP INDEX --------------------------------------------------------------------------

    method RemoveIndex(t: Id, i: nat) returns (r: Outcome)
      requires StateOk(Visible(), pager.now) && t in Visible().tables && i < |Visible().tables[t].indexes|
      requires !Visible().tables[t].indexes[i].internal
      modifies pager`now
      ensures r.Done? ==> StateOk(StateWithoutIndex(Visible(), t, i), pager.now)
      ensures r.Failed? ==> r.code == IoError
    {
      RowsThere(Visible(), pager.now, t);
      ghost var m := pager.now;
      var state := Visible();
      assert TableFits(t, state.tables[t], m.pageCount) &&
        IndexFits(t, state.tables[t], state.tables[t].indexes[i], m.pageCount);
      hide StateOk;
      r := EraseIndexRows(state.tables[t].indexes[i].id);
      if r.Done? {
        IndexDropped(state, m, pager.now, t, i);
      }
    }

    /** drop_index, which removes exactly the index; internal ones stay. */
    method DropIndex(name: Bytes) returns (r: Outcome, ghost t: Id, ghost i: nat)
      requires Valid() && pager.Accepting()
      modifies this, pager
      ensures r.Done? ==> Valid() && pager.status == old(pager.status)
      ensures r.Done? ==> t in old(Visible()).tables && i < |old(Visible()).tables[t].indexes|
      ensures r.Done? ==>
        old(Visible()).tables[t].indexes[i].name == name && !old(Visible()).tables[t].indexes[i].internal
      ensures r.Done? ==> Visible() == StateWithoutIndex(old(Visible()), t, i)
      ensures r.Done? && old(pager.status) == PagerViews.Active ==>
        committed == old(committed) && pager.saved == old(pager.saved)
      ensures old(NameUnused(Visible().tables, name)) ==> unchanged(this) && unchanged(pager)
      ensures r.Failed? ==> GaveUp()
      ensures r == Failed(NotFound) <==> old(NameUnused(Visible().tables, name))
      ensures r == Failed(InvalidArgument) ==>
        t in old(Visible()).tables && i < |old(Visible()).tables[t].indexes| &&
        old(Visible()).tables[t].indexes[i].name == name && old(Visible()).tables[t].indexes[i].internal
      ensures r.Failed? ==> r.code == NotFound || r.code == InvalidArgument || StorageFailure(r.code)
    {
      hide StateOk;
      var found := FindIndex(name);
      t, i := 0, 0;
      if found.None? {
        r := Failed(NotFound);
        return;
      }
      t, i := found.value.0, found.value.1;
      var state := Visible();
      if state.tables[found.value.0].indexes[found.value.1].internal {
        r := Failed(InvalidArgument);
        return;
      }
      var ownsTransaction := EnterTransaction();
      r := RemoveIndex(found.value.0, found.value.1);
      r := Settle(r, StateWithoutIndex(state, found.value.0, found.value.1), ownsTransaction);
    }

    // ---- Statements --------------------------------------------------------------------------

    /** What a failed statement leaves: the state before it, or a transaction that accepts nothing but
        ROLLBACK (or nothing at all, when unresolved); the committed state stays. */
    twostate predicate Harmless()
      reads this, pager
    {
      && committed == old(committed) && staged == old(staged) && pager.saved == old(pager.saved)
      && (old(pager.status) != PagerViews.Inactive ==> pager.status != PagerViews.Active)
      && (pager.status == PagerViews.Inactive || pager.status == PagerViews.Active ==>
          pager.now == old(pager.now) && pager.status == old(pager.status))
    }

    method ExecuteCreateTable(name: Bytes, schema: Schema) returns (r: Outcome, ghost info: TableInfo)
      requires Valid() && schema.LaidOut() && forall i :: 0 <= i < |schema.specs| ==> CanBeColumn(schema.specs[i])
      modifies this, pager
      ensures Valid()
      ensures r.Done? ==> old(pager.Accepting()) && NewTable(old(Visible()), name, schema, info, pager.now.pageCount)
      ensures r.Done? ==> Visible() == StateWithTable(old(Visible()), name, schema, info)
      ensures r == Failed(AlreadyExists) <==>
        old(pager.Accepting()) && name != [] && |name| <= NAME_CAPACITY && name in old(Visible()).idByName
      ensures r.Done? ==> old(CanCreateTable(name, schema) && Admitted(Visible(), name, schema))
      ensures r == Failed(InvalidArgument) ==>
        old(pager.Accepting()) && !old(CanCreateTable(name, schema) && Admitted(Visible(), name, schema))
      ensures r.Failed? ==> r.code == AlreadyExists || r.code == InvalidArgument || StorageFailure(r.code)
      ensures r.Failed? ==> Harmless()
    {
      info := TableInfo(TableDescriptor(0, [], 0), [], []);
      hide StateOk, NewTable, CanCreateTable, Admitted;
      if !pager.Accepting() {
        return Failed(TransactionError), info;
      }
      r, info := CreateTable(name, schema);
      pager.Conclude(r);
    }

    method ExecuteDropTable(name: Bytes) returns (r: Outcome)
      requires Valid()
      modifies this, pager
      ensures Valid()
      ensures r.Done? ==>
        old(pager.Accepting()) && name in old(Visible()).idByName &&
        old(Visible()).idByName[name] in old(Visible()).tables
      ensures r.Done? ==> Visible() == StateWithoutTable(old(Visible()), old(Visible()).idByName[name])
      ensures r == Failed(NotFound) <==> old(pager.Accepting()) && name !in old(Visible()).idByName
      ensures r == Failed(InvalidArgument) <==>
        old(pager.Accepting()) && name in old(Visible()).idByName &&
        IsSystemTable(old(Visible()).idByName[name])
      ensures r.Failed? ==> r.code == NotFound || r.code == InvalidArgument || StorageFailure(r.code)
      ensures r.Failed? ==> Harmless()
    {
      hide StateOk;
      if !pager.Accepting() {
        return Failed(TransactionError);
      }
      r := DropTable(name);
      pager.Conclude(r);
    }

    method ExecuteCreateIndex(t: Id, name: Bytes, column: Id, unique: bool) returns (r: Outcome, x: IndexDescriptor)
      requires Valid()
      modifies this, pager
      ensures Valid()
      ensures r.Done? ==>
        old(pager.Accepting()) && t in old(Visible()).tables && x.table == t && x.name == name && x.column == column &&
        x.unique == unique
      ensures r.Done? ==> Visible() == StateWithIndex(old(Visible()), x)
      ensures r.Done? ==> old(IndexAdmitted(t, name, column, unique))
      ensures r == Failed(NotFound) <==>
        old(pager.Accepting()) && t != INVALID_TABLE_ID && t !in old(Visible()).tables
      ensures r == Failed(AlreadyExists) <==> old(pager.Accepting() && IndexNamed(t, name, column) && NameUsed(name))
      ensures r == Failed(InvalidArgument) ==> old(pager.Accepting() && !IndexAdmitted(t, name, column, unique))
      ensures r.Failed? ==>
        r.code == NotFound || r.code == AlreadyExists || r.code == InvalidArgument || StorageFailure(r.code)
      ensures r.Failed? ==> Harmless()
    {
      x := IndexDescriptor(0, t, name, HEADER_PAGE_ID, unique, false, false, column);
      hide StateOk;
      if !pager.Accepting() {
        return Failed(TransactionError), x;
      }
      r, x := CreateIndex(t, name, column, unique);
      pager.Conclude(r);
    }

    method ExecuteDropIndex(name: Bytes) returns (r: Outcome, ghost t: Id, ghost i: nat)
      requires Valid()
      modifies this, pager
      ensures Valid()
      ensures r.Done? ==> old(pager.Accepting()) && t in old(Visible()).tables && i < |old(Visible()).tables[t].indexes|
      ensures r.Done? ==>
        old(Visible()).tables[t].indexes[i].name == name && Visible() == StateWithoutIndex(old(Visible()), t, i)
      ensures r == Failed(NotFound) <==> old(pager.Accepting()) && old(NameUnused(Visible().tables, name))
      ensures r == Failed(InvalidArgument) ==>
        t in old(Visible()).tables && i < |old(Visible()).tables[t].indexes| &&
        old(Visible()).tables[t].indexes[i].name == name && old(Visible()).tables[t].indexes[i].internal
      ensures r.Failed? ==> r.code == NotFound || r.code == InvalidArgument || StorageFailure(r.code)
      ensures r.Failed? ==> Harmless()
    {
      hide StateOk, StateWithoutIndex, NameUnused;
      t, i := 0, 0;
      if !pager.Accepting() {
        return Failed(TransactionError), t, i;
      }
      r, t, i := DropIndex(name);
      pager.Conclude(r);
    }
  }

  // ---- Opening a stored catalog --------------------------------------------------------------

  /** The constructor's scan for the largest ids in use. */
  method NextIds(tables: TableMap) returns (table: Id, column: Id, index: Id)
    ensures table >= 1 && column >= 1 && index >= 1
    ensures forall t :: t in tables ==> t < table && IdsBelow(tables[t], column, index)
    ensures table > 1 ==> table - 1 in tables
    ensures column > 1 ==> exists t :: t in tables && HasColumn(tables[t].columns, column - 1)
    ensures index > 1 ==> exists t :: t in tables && HasIndex(tables[t].indexes, index - 1)
  {
    var ids := ScanIds(tables);
    table, column, index := 0, 0, 0;
    for k := 0 to |ids|
      invariant table >= 0 && column >= 0 && index >= 0
      invariant forall t :: t in ids[..k] && t in tables ==> t <= table && IdsBelow(tables[t], column + 1, index + 1)
      invariant table > 0 ==> table in tables
      invariant column > 0 ==> exists t :: t in tables && HasColumn(tables[t].columns, column)
      invariant index > 0 ==> exists t :: t in tables && HasIndex(tables[t].indexes, index)
    {
      var t := ids[k];
      assert t in ids;
      if t > table {
        table := t;
      }
      var cs, xs := tables[t].columns, tables[t].indexes;
      ghost var columnBefore, indexBefore := column, index;
      for i := 0 to |cs|
        invariant column >= columnBefore
        invariant forall j :: 0 <= j < i ==> cs[j].id <= column
        invariant column > 0 ==> exists u :: u in tables && HasColumn(tables[u].columns, column)
      {
        if cs[i].id > column {
          column := cs[i].id;
          assert HasColumn(tables[t].columns, column);
        }
      }
      for i := 0 to |xs|
        invariant index >= indexBefore
        invariant forall j :: 0 <= j < i ==> xs[j].id <= index
        invariant index > 0 ==> exists u :: u in tables && HasIndex(tables[u].indexes, index)
      {
        if xs[i].id > index {
          index := xs[i].id;
          assert HasIndex(tables[t].indexes, index);
        }
      }
      forall u | u in ids[..k + 1] && u in tables
        ensures u <= table && IdsBelow(tables[u], column + 1, index + 1)
      {
        if u != t {
          assert u in ids[..k] && IdsBelow(tables[u], columnBefore + 1, indexBefore + 1);
        }
      }
    }
    assert ids[..|ids|] == ids;
    table, column, index := table + 1, column + 1, index + 1;
  }

  /** Catalog::load. Rows that describe a state the catalog produced give that state back: the same tables,
      schemas, index lists and names. Only the next ids may be smaller, when the largest were dropped. */
  method LoadCatalog(m: Metadata, ghost s: CatalogState) returns (r: Result<CatalogState>)
    ensures r.Err? ==> r.code == Corruption && forall ts :: !Accepts(m, ts)
    ensures r.Ok? ==> Accepts(m, r.value.tables)
    ensures StateOk(s, m) ==> r.Ok? && StateOk(r.value, m)
    ensures StateOk(s, m) ==>
      r.value.tables == s.tables && r.value.schemas == s.schemas && r.value.idByName == s.idByName
    ensures StateOk(s, m) ==>
      r.value.nextTable <= s.nextTable && r.value.nextColumn <= s.nextColumn && r.value.nextIndex <= s.nextIndex
  {
    var loaded := Load(m);
    if loaded.Err? {
      return Err(Corruption);
    }
    var table, column, index := NextIds(loaded.value.tables);
    r := Ok(CatalogState(table, column, index, loaded.value.tables, loaded.value.schemas, loaded.value.idByName));
    if StateOk(s, m) {
      NextIdsPositive(s, m);
      DescribedOnce(m, loaded.value.tables, s.tables);
      NextIdsSmaller(s, loaded.value.tables, table, column, index);
      SameIndexing(s.tables, loaded.value.schemas, s.schemas, loaded.value.idByName, s.idByName);
    }
  }

  lemma NextIdsSmaller(s: CatalogState, tables: TableMap, table: Id, column: Id, index: Id)
    requires NextIdsFree(s) && s.nextTable >= 1 && s.nextColumn >= 1 && s.nextIndex >= 1 && tables == s.tables
    requires table > 1 ==> table - 1 in tables
    requires column > 1 ==> exists t :: t in tables && HasColumn(tables[t].columns, column - 1)
    requires index > 1 ==> exists t :: t in tables && HasIndex(tables[t].indexes, index - 1)
    ensures table <= s.nextTable && column <= s.nextColumn && index <= s.nextIndex
  {
    if column > 1 {
      var t :| t in tables && HasColumn(tables[t].columns, column - 1);
      assert IdsBelow(s.tables[t], s.nextColumn, s.nextIndex);
    }
    if index > 1 {
      var t :| t in tables && HasIndex(tables[t].indexes, index - 1);
      assert IdsBelow(s.tables[t], s.nextColumn, s.nextIndex);
    }
  }
}
