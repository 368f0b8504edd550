/** How adding and removing tables and indexes, with their rows, keeps the rows describing the tables. */
module CatalogEdits {
  import opened CatalogStates
  import opened CatalogLoader

  // ---- Rows of some columns and indexes ----------------------------------------------------

  /** n holds the rows of m and those of cs. */
  ghost predicate ColumnsAdded(m: Metadata, n: Metadata, cs: seq<ColumnDescriptor>) {
    && (forall k :: k in m.columns ==> k in n.columns && n.columns[k] == m.columns[k])
    && (forall i :: 0 <= i < |cs| ==> ColumnStored(n, cs[i]))
    && (forall k :: k in n.columns ==> k in m.columns || HasColumn(cs, k))
  }

  /** n holds the rows of m and those of xs, in both index tables. */
  ghost predicate IndexesAdded(m: Metadata, n: Metadata, xs: seq<IndexDescriptor>) {
    && (forall k :: k in m.indexes ==> k in n.indexes && n.indexes[k] == m.indexes[k])
    && (forall k :: k in m.indexColumns ==> k in n.indexColumns && n.indexColumns[k] == m.indexColumns[k])
    && (forall i :: 0 <= i < |xs| ==> IndexStored(n, xs[i]))
    && (forall k :: k in n.indexes ==> k in m.indexes || HasIndex(xs, k))
    && (forall k :: k in n.indexColumns ==> k in m.indexColumns || HasIndex(xs, k))
  }

  ghost predicate SameBase(m: Metadata, n: Metadata) {
    n.roots == m.roots && n.pageCount >= m.pageCount
  }

  /** n is m with the rows of table t, described by info, added. */
  ghost predicate TableRowsAdded(m: Metadata, n: Metadata, t: Id, info: TableInfo) {
    && SameBase(m, n) && t !in m.tables && n.tables == m.tables[t := RowOfTable(info.descriptor)]
    && ColumnsAdded(m, n, info.columns) && IndexesAdded(m, n, info.indexes)
  }

  ghost predicate NamesFresh(ts: TableMap, xs: seq<IndexDescriptor>) {
    && (forall t, i, j :: t in ts && 0 <= i < |ts[t].indexes| && 0 <= j < |xs| ==> ts[t].indexes[i].name != xs[j].name)
    && (forall i, j :: 0 <= i < j < |xs| ==> xs[i].name != xs[j].name)
  }

  /** Changing one table. */
  lemma Parts(m: Metadata, ts: TableMap, t: Id)
    requires Accepts(m, ts)
    ensures Describes(m, ts) && TableNamesDistinct(ts) && IndexNamesDistinct(ts)
    ensures t in ts ==> TableFits(t, ts[t], m.pageCount)
    ensures IsSystemTable(t) ==> SystemTableFits(ts, t, m.roots)
  {
  }

  lemma OneTableChanged(m: Metadata, n: Metadata, ts: TableMap, us: TableMap, t: Id)
    requires Accepts(m, ts) && SameBase(m, n) && Describes(n, us) && TableNamesDistinct(us) && IndexNamesDistinct(us)
    requires forall u :: u != t ==> (u in us <==> u in ts)
    requires forall u :: u != t && u in us ==> us[u] == ts[u]
    requires t in us ==> TableFits(t, us[t], n.pageCount)
    requires IsSystemTable(t) ==> SystemTableFits(us, t, n.roots)
    ensures Accepts(n, us)
  {
    hide Describes, TableNamesDistinct, IndexNamesDistinct;
    forall u | u in us
      ensures TableFits(u, us[u], n.pageCount)
    {
      if u != t {
        assert TableFits(u, ts[u], m.pageCount);
        MorePages(u, ts[u], m.pageCount, n.pageCount);
      }
    }
    forall s | IsSystemTable(s)
      ensures SystemTableFits(us, s, n.roots)
    {
      assert SystemTableFits(ts, s, m.roots);
    }
  }

  // ---- CREATE TABLE ------------------------------------------------------------------------

  lemma TableAdded(m: Metadata, n: Metadata, ts: TableMap, t: Id, info: TableInfo)
    requires Accepts(m, ts) && TableRowsAdded(m, n, t, info) && TableFits(t, info, n.pageCount)
    requires forall u :: u in ts ==> ts[u].descriptor.name != info.descriptor.name
    requires NamesFresh(ts, info.indexes)
    ensures Accepts(n, ts[t := info])
  {
    assert t !in ts;
    assert !IsSystemTable(t) by {
      assert IsSystemTable(t) ==> SystemTableFits(ts, t, m.roots);
    }
    AddedDescribed(m, n, ts, t, info);
    AddedNames(ts, t, info);
    OneTableChanged(m, n, ts, ts[t := info], t);
  }

  lemma AddedNames(ts: TableMap, t: Id, info: TableInfo)
    requires TableNamesDistinct(ts) && IndexNamesDistinct(ts) && t !in ts
    requires forall u :: u in ts ==> ts[u].descriptor.name != info.descriptor.name
    requires NamesFresh(ts, info.indexes)
    ensures TableNamesDistinct(ts[t := info]) && IndexNamesDistinct(ts[t := info])
  {
    var us := ts[t := info];
    forall u, i, v, j | u in us && 0 <= i < |us[u].indexes| && v in us && 0 <= j < |us[v].indexes| &&
      us[u].indexes[i].name == us[v].indexes[j].name
      ensures u == v && i == j
    {
    }
  }

  lemma MorePages(t: Id, info: TableInfo, before: nat, after: nat)
    requires TableFits(t, info, before) && before <= after
    ensures TableFits(t, info, after)
  {
    forall i | 0 <= i < |info.indexes|
      ensures IndexFits(t, info, info.indexes[i], after)
    {
      assert IndexFits(t, info, info.indexes[i], before);
    }
  }

  lemma AddedDescribed(m: Metadata, n: Metadata, ts: TableMap, t: Id, info: TableInfo)
    requires Describes(m, ts) && TableRowsAdded(m, n, t, info) && ColumnsFit(t, info.columns)
    requires forall i :: 0 <= i < |info.indexes| ==> info.indexes[i].table == t
    requires info.descriptor.id == t
    ensures Describes(n, ts[t := info])
  {
    var us := ts[t := info];
    forall u, i | u in us && 0 <= i < |us[u].columns|
      ensures ColumnStored(n, us[u].columns[i])
    {
      if u != t {
        assert ColumnStored(m, ts[u].columns[i]);
      }
    }
    forall k | k in n.columns
      ensures ColumnOwned(n.columns[k], us, k)
    {
      AddedColumnOwned(m, n, ts, t, info, k);
    }
    forall u, i | u in us && 0 <= i < |us[u].indexes|
      ensures IndexStored(n, us[u].indexes[i])
    {
      if u != t {
        assert IndexStored(m, ts[u].indexes[i]);
      }
    }
    forall k | k in n.indexes
      ensures IndexOwned(n.indexes[k], us, k)
    {
      AddedIndexOwned(m, n, ts, t, info, k);
    }
    forall k | k in n.indexColumns
      ensures k in n.indexes
    {
      if k !in m.indexColumns {
        assert HasIndex(info.indexes, k);
        var i :| 0 <= i < |info.indexes| && info.indexes[i].id == k;
        assert IndexStored(n, info.indexes[i]);
      }
    }
  }

  lemma AddedColumnOwned(m: Metadata, n: Metadata, ts: TableMap, t: Id, info: TableInfo, k: Id)
    requires Describes(m, ts) && TableRowsAdded(m, n, t, info) && ColumnsFit(t, info.columns) && k in n.columns
    ensures ColumnOwned(n.columns[k], ts[t := info], k)
  {
    if k in m.columns {
      assert ColumnOwned(m.columns[k], ts, k);
      assert m.columns[k].table in m.tables;
    } else {
      assert HasColumn(info.columns, k);
      var i :| 0 <= i < |info.columns| && info.columns[i].id == k;
      assert ColumnStored(n, info.columns[i]) && ColumnFits(t, info.columns[i], i);
    }
  }

  lemma AddedIndexOwned(m: Metadata, n: Metadata, ts: TableMap, t: Id, info: TableInfo, k: Id)
    requires Describes(m, ts) && TableRowsAdded(m, n, t, info) && k in n.indexes
    requires forall i :: 0 <= i < |info.indexes| ==> info.indexes[i].table == t
    ensures IndexOwned(n.indexes[k], ts[t := info], k)
  {
    if k in m.indexes {
      assert IndexOwned(m.indexes[k], ts, k);
      assert m.indexes[k].table in m.tables;
    } else {
      assert HasIndex(info.indexes, k);
      var i :| 0 <= i < |info.indexes| && info.indexes[i].id == k;
      assert IndexStored(n, info.indexes[i]);
    }
  }

  // ---- DROP TABLE --------------------------------------------------------------------------

  /** n is m without the rows of table t. */
  ghost predicate TableRowsRemoved(m: Metadata, n: Metadata, t: Id) {
    && SameBase(m, n) && n.trees == m.trees && n.tables == m.tables - {t}
    && (forall k :: k in n.columns <==> k in m.columns && m.columns[k].table != t)
    && (forall k :: k in n.columns ==> n.columns[k] == m.columns[k])
    && (forall k :: k in n.indexes <==> k in m.indexes && m.indexes[k].table != t)
    && (forall k :: k in n.indexes ==> n.indexes[k] == m.indexes[k])
    && (forall k :: k in n.indexColumns <==> k in m.indexColumns && k in n.indexes)
    && (forall k :: k in n.indexColumns ==> n.indexColumns[k] == m.indexColumns[k])
  }

  lemma TableRemoved(m: Metadata, n: Metadata, ts: TableMap, t: Id)
    requires Accepts(m, ts) && TableRowsRemoved(m, n, t) && t in ts && !IsSystemTable(t)
    ensures Accepts(n, ts - {t})
  {
    RemovedDescribed(m, n, ts, t);
    OneTableChanged(m, n, ts, ts - {t}, t);
  }

  lemma RemovedDescribed(m: Metadata, n: Metadata, ts: TableMap, t: Id)
    requires Accepts(m, ts) && TableRowsRemoved(m, n, t) && t in ts
    ensures Describes(n, ts - {t})
  {
    hide Loadable;
    var us := ts - {t};
    forall u | u in us
      ensures forall i :: 0 <= i < |us[u].columns| ==> ColumnStored(n, us[u].columns[i])
      ensures forall i :: 0 <= i < |us[u].indexes| ==> IndexStored(n, us[u].indexes[i])
    {
      RemovedStored(m, n, ts, t, u);
    }
    forall k | k in n.columns
      ensures ColumnOwned(n.columns[k], us, k)
    {
      assert ColumnOwned(m.columns[k], ts, k);
    }
    forall k | k in n.indexes
      ensures IndexOwned(n.indexes[k], us, k)
    {
      assert IndexOwned(m.indexes[k], ts, k);
    }
  }

  lemma RemovedStored(m: Metadata, n: Metadata, ts: TableMap, t: Id, u: Id)
    requires Accepts(m, ts) && TableRowsRemoved(m, n, t) && u in ts && u != t
    ensures forall i :: 0 <= i < |ts[u].columns| ==> ColumnStored(n, ts[u].columns[i])
    ensures forall i :: 0 <= i < |ts[u].indexes| ==> IndexStored(n, ts[u].indexes[i])
  {
    assert TableFits(u, ts[u], m.pageCount);
    forall i | 0 <= i < |ts[u].columns|
      ensures ColumnStored(n, ts[u].columns[i])
    {
      assert ColumnStored(m, ts[u].columns[i]) && ColumnFits(u, ts[u].columns[i], i);
    }
    forall i | 0 <= i < |ts[u].indexes|
      ensures IndexStored(n, ts[u].indexes[i])
    {
      assert IndexStored(m, ts[u].indexes[i]) && IndexFits(u, ts[u], ts[u].indexes[i], m.pageCount);
    }
  }

  // ---- CREATE INDEX ------------------------------------------------------------------------

  /** n is m with the two rows of index x added. */
  ghost predicate IndexRowsAdded(m: Metadata, n: Metadata, x: IndexDescriptor) {
    && SameBase(m, n) && n.tables == m.tables && n.columns == m.columns && x.id !in m.indexes && x.id !in m.indexColumns
    && n.indexes == m.indexes[x.id := RowOfIndex(x)] &&
       n.indexColumns == m.indexColumns[x.id := IndexColumnRow(x.id, x.column, 0)]
  }

  function WithIndex(info: TableInfo, x: IndexDescriptor): TableInfo {
    info.(indexes := info.indexes + [x])
  }

  lemma IndexAdded(m: Metadata, n: Metadata, ts: TableMap, t: Id, x: IndexDescriptor)
    requires Accepts(m, ts) && t in ts && !IsSystemTable(t) && IndexRowsAdded(m, n, x)
    requires IndexFits(t, ts[t], x, n.pageCount) && !x.primary
    requires forall i :: 0 <= i < |ts[t].indexes| ==> ts[t].indexes[i].id < x.id
    requires NamesFresh(ts, [x])
    ensures Accepts(n, ts[t := WithIndex(ts[t], x)])
  {
    hide Accepts, TableFits, Describes, IndexNamesDistinct, TableNamesDistinct, SystemTableFits, NamesFresh;
    Parts(m, ts, t);
    MorePages(t, ts[t], m.pageCount, n.pageCount);
    IndexedTableFits(t, ts[t], x, n.pageCount);
    IndexAddedDescribed(m, n, ts, t, x);
    IndexAddedNames(ts, t, x);
    OneTableChanged(m, n, ts, ts[t := WithIndex(ts[t], x)], t);
  }

  lemma IndexAddedNames(ts: TableMap, t: Id, x: IndexDescriptor)
    requires IndexNamesDistinct(ts) && NamesFresh(ts, [x]) && t in ts
    ensures IndexNamesDistinct(ts[t := WithIndex(ts[t], x)]) &&
      (TableNamesDistinct(ts) ==> TableNamesDistinct(ts[t := WithIndex(ts[t], x)]))
  {
    var us := ts[t := WithIndex(ts[t], x)];
    forall u, i, v, j | u in us && 0 <= i < |us[u].indexes| && v in us && 0 <= j < |us[v].indexes| &&
      us[u].indexes[i].name == us[v].indexes[j].name
      ensures u == v && i == j
    {
      assert [x][0] == x;
      assert i < |ts[u].indexes| ==> us[u].indexes[i] == ts[u].indexes[i] && ts[u].indexes[i].name != x.name;
      assert j < |ts[v].indexes| ==> us[v].indexes[j] == ts[v].indexes[j] && ts[v].indexes[j].name != x.name;
    }
  }

  lemma IndexedTableFits(t: Id, info: TableInfo, x: IndexDescriptor, pageCount: nat)
    requires TableFits(t, info, pageCount) && IndexFits(t, info, x, pageCount) && !x.primary
    requires forall i :: 0 <= i < |info.indexes| ==> info.indexes[i].id < x.id
    ensures TableFits(t, WithIndex(info, x), pageCount)
  {
    var more := WithIndex(info, x);
    var p :| PrimaryIndexIs(info, p);
    assert PrimaryIndexIs(more, p);
    forall i | 0 <= i < |more.indexes|
      ensures IndexFits(t, more, more.indexes[i], pageCount)
    {
      if i < |info.indexes| {
        assert IndexFits(t, info, info.indexes[i], pageCount);
      }
    }
  }

  lemma IndexAddedDescribed(m: Metadata, n: Metadata, ts: TableMap, t: Id, x: IndexDescriptor)
    requires Describes(m, ts) && t in ts && IndexRowsAdded(m, n, x) && x.table == t
    ensures Describes(n, ts[t := WithIndex(ts[t], x)])
  {
    var us := ts[t := WithIndex(ts[t], x)];
    forall u, i | u in us && 0 <= i < |us[u].columns|
      ensures ColumnStored(n, us[u].columns[i])
    {
      assert ColumnStored(m, ts[u].columns[i]);
    }
    forall u, i | u in us && 0 <= i < |us[u].indexes|
      ensures IndexStored(n, us[u].indexes[i])
    {
      if i < |ts[u].indexes| {
        assert IndexStored(m, ts[u].indexes[i]);
      }
    }
    forall k | k in n.columns
      ensures ColumnOwned(n.columns[k], us, k)
    {
      assert ColumnOwned(m.columns[k], ts, k);
    }
    forall k | k in n.indexes
      ensures IndexOwned(n.indexes[k], us, k)
    {
      if k == x.id {
        assert us[t].indexes[|us[t].indexes| - 1].id == k;
      } else {
        assert IndexOwned(m.indexes[k], ts, k);
        var u := m.indexes[k].table;
        var i :| 0 <= i < |ts[u].indexes| && ts[u].indexes[i].id == k;
        assert us[u].indexes[i].id == k;
      }
    }
  }

  // ---- DROP INDEX --------------------------------------------------------------------------

  /** n is m without the two rows of index k. */
  ghost predicate IndexRowsRemoved(m: Metadata, n: Metadata, k: Id) {
    && SameBase(m, n) && n.trees == m.trees && n.tables == m.tables && n.columns == m.columns
    && n.indexes == m.indexes - {k} && n.indexColumns == m.indexColumns - {k}
  }

  function WithoutIndex(info: TableInfo, i: nat): TableInfo
    requires i < |info.indexes|
  {
    info.(indexes := info.indexes[..i] + info.indexes[i + 1..])
  }

  lemma IndexRemoved(m: Metadata, n: Metadata, ts: TableMap, t: Id, i: nat)
    requires Accepts(m, ts) && t in ts && i < |ts[t].indexes| && !ts[t].indexes[i].primary
    requires IndexRowsRemoved(m, n, ts[t].indexes[i].id)
    ensures Accepts(n, ts[t := WithoutIndex(ts[t], i)])
  {
    hide Accepts, TableFits, Describes, IndexNamesDistinct, TableNamesDistinct, SystemTableFits;
    Parts(m, ts, t);
    MorePages(t, ts[t], m.pageCount, n.pageCount);
    UnindexedTableFits(t, ts[t], i, n.pageCount);
    IndexRemovedDescribed(m, n, ts, t, i);
    IndexRemovedNames(ts, t, i);
    UnindexedSystemFits(ts, t, i, m.roots);
    OneTableChanged(m, n, ts, ts[t := WithoutIndex(ts[t], i)], t);
  }

  lemma IndexRemovedNames(ts: TableMap, t: Id, i: nat)
    requires IndexNamesDistinct(ts) && t in ts && i < |ts[t].indexes|
    ensures IndexNamesDistinct(ts[t := WithoutIndex(ts[t], i)]) &&
      (TableNamesDistinct(ts) ==> TableNamesDistinct(ts[t := WithoutIndex(ts[t], i)]))
  {
    var us := ts[t := WithoutIndex(ts[t], i)];
    forall u, a, v, b | u in us && 0 <= a < |us[u].indexes| && v in us && 0 <= b < |us[v].indexes| &&
      us[u].indexes[a].name == us[v].indexes[b].name
      ensures u == v && a == b
    {
      var x := if u == t && a >= i then a + 1 else a;
      var y := if v == t && b >= i then b + 1 else b;
      assert us[u].indexes[a] == ts[u].indexes[x] && us[v].indexes[b] == ts[v].indexes[y];
    }
  }

  lemma UnindexedTableFits(t: Id, info: TableInfo, i: nat, pageCount: nat)
    requires TableFits(t, info, pageCount) && i < |info.indexes| && !info.indexes[i].primary
    ensures TableFits(t, WithoutIndex(info, i), pageCount)
  {
    hide SchemaFits, ColumnsFit, PrimaryIndexIs;
    var less := WithoutIndex(info, i);
    var p :| PrimaryIndexIs(info, p);
    PrimaryShifts(info, i, p);
    forall j | 0 <= j < |less.indexes|
      ensures IndexFits(t, less, less.indexes[j], pageCount)
    {
      assert IndexFits(t, info, info.indexes[if j < i then j else j + 1], pageCount);
    }
  }

  lemma PrimaryShifts(info: TableInfo, i: nat, p: int)
    requires PrimaryIndexIs(info, p) && i < |info.indexes| && !info.indexes[i].primary
    ensures PrimaryIndexIs(WithoutIndex(info, i), if p < i then p else p - 1)
  {
    var less := WithoutIndex(info, i);
    var q := if p < i then p else p - 1;
    assert less.indexes[q] == info.indexes[p];
    forall j | 0 <= j < |less.indexes|
      ensures less.indexes[j].primary <==> j == q
    {
      assert less.indexes[j] == info.indexes[if j < i then j else j + 1];
    }
  }

  lemma UnindexedSystemFits(ts: TableMap, t: Id, i: nat, roots: SystemRoots)
    requires t in ts && i < |ts[t].indexes|
    ensures IsSystemTable(t) && SystemTableFits(ts, t, roots) ==>
      SystemTableFits(ts[t := WithoutIndex(ts[t], i)], t, roots)
  {
  }

  lemma IndexRemovedDescribed(m: Metadata, n: Metadata, ts: TableMap, t: Id, i: nat)
    requires Accepts(m, ts) && Describes(m, ts) && t in ts && i < |ts[t].indexes| &&
      IndexRowsRemoved(m, n, ts[t].indexes[i].id)
    ensures Describes(n, ts[t := WithoutIndex(ts[t], i)])
  {
    hide Accepts, IndexOwned;
    var us := ts[t := WithoutIndex(ts[t], i)];
    forall u, j | u in us && 0 <= j < |us[u].columns|
      ensures ColumnStored(n, us[u].columns[j])
    {
      assert ColumnStored(m, ts[u].columns[j]);
    }
    forall u, j | u in us && 0 <= j < |us[u].indexes|
      ensures IndexStored(n, us[u].indexes[j])
    {
      RemainingIndex(m, ts, t, i, u, if u == t && j >= i then j + 1 else j);
    }
    forall k | k in n.columns
      ensures ColumnOwned(n.columns[k], us, k)
    {
      assert ColumnOwned(m.columns[k], ts, k);
    }
    forall k | k in n.indexes
      ensures IndexOwned(n.indexes[k], us, k)
    {
      RemainingOwned(m, ts, t, i, k);
    }
  }

  lemma RemainingOwned(m: Metadata, ts: TableMap, t: Id, i: nat, k: Id)
    requires Describes(m, ts) && t in ts && i < |ts[t].indexes| && k in m.indexes && k != ts[t].indexes[i].id
    ensures IndexOwned(m.indexes[k], ts[t := WithoutIndex(ts[t], i)], k)
  {
    var us := ts[t := WithoutIndex(ts[t], i)];
    assert IndexOwned(m.indexes[k], ts, k);
    var u := m.indexes[k].table;
    var j :| 0 <= j < |ts[u].indexes| && ts[u].indexes[j].id == k;
    assert us[u].indexes[if u == t && j > i then j - 1 else j].id == k;
  }

  /** No other index has the id. */
  lemma RemainingIndex(m: Metadata, ts: TableMap, t: Id, i: nat, u: Id, j: nat)
    requires Accepts(m, ts) && t in ts && i < |ts[t].indexes| && u in ts && j < |ts[u].indexes| && (u != t || j != i)
    ensures IndexStored(m, ts[u].indexes[j]) && ts[u].indexes[j].id != ts[t].indexes[i].id
  {
    assert TableFits(t, ts[t], m.pageCount) && TableFits(u, ts[u], m.pageCount);
    assert IndexStored(m, ts[u].indexes[j]) && IndexStored(m, ts[t].indexes[i]);
    assert IndexFits(u, ts[u], ts[u].indexes[j], m.pageCount) && IndexFits(t, ts[t], ts[t].indexes[i], m.pageCount);
  }
}
