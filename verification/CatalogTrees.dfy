/** The trees behind a catalog's tables and indexes: each has a root of its own, made for keys and values of the
    right sizes. */
module CatalogTrees {
  import opened PageIds
  import opened Values
  import opened Schemas
  import opened CatalogStates
  import PagedBTree

  /** The tree of a table holds rows under primary keys. */
  ghost predicate TableSized(cs: seq<ColumnDescriptor>, s: TreeSizes) {
    && s.valueSize == RowSize(ColumnsOf(SpecsOf(cs)))
    && forall k :: 0 <= k < |cs| && cs[k].spec.primaryKey ==> s.keySize == SizeOf(cs[k])
  }

  /** The tree of an index holds primary keys under keys of the indexed column, which have the primary key
      appended unless the index is unique. */
  ghost predicate IndexSized(cs: seq<ColumnDescriptor>, x: IndexDescriptor, s: TreeSizes) {
    IndexSizesFit(cs, x.column, x.unique, s)
  }

  ghost predicate IndexSizesFit(cs: seq<ColumnDescriptor>, column: Id, unique: bool, s: TreeSizes) {
    forall k, c :: 0 <= k < |cs| && 0 <= c < |cs| && cs[k].spec.primaryKey && cs[c].id == column ==>
      s == IndexSizes(SizeOf(cs[c]), SizeOf(cs[k]), unique)
  }

  /** Pages can hold the entries of an index on the column. */
  ghost predicate IndexLayoutOk(cs: seq<ColumnDescriptor>, column: Id, unique: bool) {
    forall k, c :: 0 <= k < |cs| && 0 <= c < |cs| && cs[k].spec.primaryKey && cs[c].id == column ==>
      LayoutOk(IndexSizes(SizeOf(cs[c]), SizeOf(cs[k]), unique))
  }

  predicate LayoutOk(s: TreeSizes) {
    PagedBTree.ValidateLayout(s.keySize, s.valueSize).Ok?
  }

  lemma OneLayout(cs: seq<ColumnDescriptor>, column: Id, unique: bool, s: TreeSizes)
    requires IndexSizesFit(cs, column, unique, s) && HasColumn(cs, column)
    requires exists k :: 0 <= k < |cs| && cs[k].spec.primaryKey
    ensures IndexLayoutOk(cs, column, unique) <==> LayoutOk(s)
  {
    var k :| 0 <= k < |cs| && cs[k].spec.primaryKey;
    var c :| 0 <= c < |cs| && cs[c].id == column;
    assert s == IndexSizes(SizeOf(cs[c]), SizeOf(cs[k]), unique);
  }

  function SizeOf(c: ColumnDescriptor): nat {
    FixedSize(c.spec.column.logicalType)
  }

  function IndexSizes(columnSize: nat, keySize: nat, unique: bool): (s: TreeSizes)
    ensures s == TreeSizes(columnSize + (if unique then 0 else keySize), keySize)
  {
    TreeSizes(if unique then columnSize else columnSize + keySize, keySize)
  }

  ghost predicate IndexTreeOk(cs: seq<ColumnDescriptor>, x: IndexDescriptor, trees: map<PageId, TreeSizes>) {
    x.primary || (x.root in trees && IndexSized(cs, x, trees[x.root]) && ColumnIndexable(cs, x.column))
  }

  /** Columns that can have an index: those that are NOT NULL and have keys. */
  predicate ColumnIndexable(cs: seq<ColumnDescriptor>, column: Id) {
    forall i :: 0 <= i < |cs| && cs[i].id == column ==>
      CanBeIndexed(cs[i].spec.column.logicalType) && !cs[i].spec.column.nullable
  }

  ghost predicate IndexTreesOk(cs: seq<ColumnDescriptor>, xs: seq<IndexDescriptor>, trees: map<PageId, TreeSizes>) {
    forall i :: 0 <= i < |xs| ==> IndexTreeOk(cs, xs[i], trees)
  }

  ghost predicate TableTreesOk(info: TableInfo, trees: map<PageId, TreeSizes>) {
    && info.descriptor.root in trees && TableSized(info.columns, trees[info.descriptor.root])
    && IndexTreesOk(info.columns, info.indexes, trees)
  }

  /** No two indexes have one root. The primary index of a table has the table's. */
  ghost predicate RootsApart(ts: TableMap) {
    forall t, i, u, j :: t in ts && 0 <= i < |ts[t].indexes| && u in ts && 0 <= j < |ts[u].indexes| ==>
      ts[t].indexes[i].root == ts[u].indexes[j].root ==> t == u && i == j
  }

  ghost predicate TreesOk(ts: TableMap, m: Metadata) {
    (forall t :: t in ts ==> TableTreesOk(ts[t], m.trees)) && RootsApart(ts) && TreesWithin(m)
  }

  /** Trees are within the pages, and pages can hold their entries. */
  ghost predicate TreesWithin(m: Metadata) {
    forall r :: r in m.trees ==> r < m.pageCount && LayoutOk(m.trees[r])
  }

  // ---- What keeps it -------------------------------------------------------------------------

  /** The trees of m are there in n, which is in order. */
  ghost predicate TreesKept(m: Metadata, n: Metadata) {
    && (forall r :: r in m.trees ==> r in n.trees && n.trees[r] == m.trees[r])
    && TreesWithin(n) && m.pageCount <= n.pageCount
  }

  /** A tree made on a new page, and what comes after. */
  lemma TreeMade(m: Metadata, made: Metadata, n: Metadata, s: TreeSizes)
    requires made == m.(pageCount := m.pageCount + 1, trees := m.trees[m.pageCount := s]) && TreesKept(made, n)
    requires TreesWithin(m)
    ensures TreesKept(m, n) && m.pageCount < n.pageCount && m.pageCount in n.trees && n.trees[m.pageCount] == s
  {
  }

  lemma SameTrees(m: Metadata, n: Metadata, ts: TableMap)
    requires TreesOk(ts, m) && n.trees == m.trees && n.pageCount >= m.pageCount
    ensures TreesKept(m, n)
  {
  }

  /** More pages without trees. */
  lemma KeptSince(m: Metadata, before: Metadata, after: Metadata)
    requires TreesKept(m, before) && before.pageCount <= after.pageCount && after.trees == before.trees
    ensures TreesKept(m, after) && m.pageCount <= before.pageCount
  {
  }

  lemma KeptTable(m: Metadata, n: Metadata, info: TableInfo)
    requires TableTreesOk(info, m.trees) && TreesKept(m, n)
    ensures TableTreesOk(info, n.trees)
  {
    hide TableSized, IndexSized, ColumnIndexable;
    forall i | 0 <= i < |info.indexes| ensures IndexTreeOk(info.columns, info.indexes[i], n.trees) {
      assert IndexTreeOk(info.columns, info.indexes[i], m.trees);
    }
  }

  ghost predicate RootsWithin(ts: TableMap, pageCount: nat) {
    forall t, i :: t in ts && 0 <= i < |ts[t].indexes| ==> ts[t].indexes[i].root < pageCount
  }

  ghost predicate RootsFresh(xs: seq<IndexDescriptor>, pageCount: nat) {
    && (forall i :: 0 <= i < |xs| ==> xs[i].root >= pageCount)
    && forall i, j :: 0 <= i < j < |xs| ==> xs[i].root != xs[j].root
  }

  ghost predicate RootsBelow(xs: seq<IndexDescriptor>, pageCount: nat) {
    forall i :: 0 <= i < |xs| ==> xs[i].root < pageCount
  }

  /** The primary index has the table's tree. */
  lemma FirstTree(cs: seq<ColumnDescriptor>, x: IndexDescriptor, pageCount: nat, trees: map<PageId, TreeSizes>)
    requires x.primary && 0 <= x.root < pageCount
    ensures IndexTreesOk(cs, [x], trees) && RootsFresh([x], x.root) && RootsBelow([x], pageCount)
  {
  }

  /** One more index on a tree of its own. */
  lemma OneMoreTree(cs: seq<ColumnDescriptor>, xs: seq<IndexDescriptor>, x: IndexDescriptor, least: nat, root: nat,
                    trees: map<PageId, TreeSizes>, s: TreeSizes)
    requires IndexTreesOk(cs, xs, trees) && RootsFresh(xs, least) && RootsBelow(xs, root)
    requires x.root == root >= least && IndexSized(cs, x, s) && ColumnIndexable(cs, x.column)
    ensures IndexTreesOk(cs, xs + [x], trees[root := s]) && RootsFresh(xs + [x], least) &&
      RootsBelow(xs + [x], root + 1)
  {
    hide IndexSized, ColumnIndexable;
    var ys := xs + [x];
    forall i | 0 <= i < |ys| ensures IndexTreeOk(cs, ys[i], trees[root := s]) {
      assert i < |xs| ==> IndexTreeOk(cs, xs[i], trees);
    }
  }

  /** A table with new trees. */
  lemma TableTreesAdded(m: Metadata, n: Metadata, ts: TableMap, t: Id, info: TableInfo)
    requires TreesOk(ts, m) && TreesKept(m, n) && RootsWithin(ts, m.pageCount)
    requires TableTreesOk(info, n.trees) && RootsFresh(info.indexes, m.pageCount)
    ensures TreesOk(ts[t := info], n)
  {
    hide TableTreesOk;
    var us := ts[t := info];
    forall u | u in us ensures TableTreesOk(us[u], n.trees) {
      if u != t {
        KeptTable(m, n, ts[u]);
      }
    }
  }

  /** An index with a new tree. */
  lemma IndexTreeAdded(m: Metadata, n: Metadata, ts: TableMap, t: Id, info: TableInfo, x: IndexDescriptor)
    requires TreesOk(ts, m) && TreesKept(m, n) && RootsWithin(ts, m.pageCount) && t in ts
    requires info == ts[t].(indexes := ts[t].indexes + [x])
    requires IndexTreeOk(ts[t].columns, x, n.trees) && x.root >= m.pageCount
    ensures TreesOk(ts[t := info], n)
  {
    var us := ts[t := info];
    forall u | u in us ensures TableTreesOk(us[u], n.trees) {
      KeptTable(m, n, ts[u]);
      hide TableSized, IndexSized, IndexTreeOk;
      assert u == t ==> TableTreesOk(info, n.trees);
    }
    hide TableTreesOk;
  }

  /** Fewer tables. */
  lemma TableTreesRemoved(m: Metadata, n: Metadata, ts: TableMap, t: Id)
    requires TreesOk(ts, m) && TreesKept(m, n)
    ensures TreesOk(ts - {t}, n)
  {
    hide TableTreesOk;
    var us := ts - {t};
    forall u | u in us ensures TableTreesOk(us[u], n.trees) {
      KeptTable(m, n, ts[u]);
    }
  }

  /** Fewer indexes. */
  lemma IndexTreeRemoved(m: Metadata, n: Metadata, ts: TableMap, t: Id, info: TableInfo, i: nat)
    requires TreesOk(ts, m) && TreesKept(m, n) && t in ts && i < |ts[t].indexes|
    requires info == ts[t].(indexes := ts[t].indexes[..i] + ts[t].indexes[i + 1..])
    ensures TreesOk(ts[t := info], n)
  {
    var us := ts[t := info];
    forall u, j | u in us && 0 <= j < |us[u].indexes|
      ensures us[u].indexes[j] == ts[u].indexes[if u == t && j >= i then j + 1 else j]
    {
    }
    forall u | u in us ensures TableTreesOk(us[u], n.trees) {
      KeptTable(m, n, ts[u]);
      hide TableSized, IndexSized, IndexTreeOk;
      assert forall j :: 0 <= j < |us[u].indexes| ==> us[u].indexes[j] in ts[u].indexes;
    }
    hide TableTreesOk;
  }
}
