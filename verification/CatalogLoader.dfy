/** Rebuilding the catalog from the rows of the system tables, with every check the loader makes. */
module CatalogLoader {
  import opened Sets
  import opened Bytes
  import opened Status
  import opened Values
  import Tables
  import opened Schemas
  import opened CatalogStates

  datatype Loaded = Loaded(tables: TableMap, schemas: map<Id, Schema>, idByName: map<Bytes, Id>)

  /** The rows m describe the tables ts, and the loader insists on nothing more. */
  ghost predicate Accepts(m: Metadata, ts: TableMap) {
    Describes(m, ts) && Loadable(ts, m.pageCount, m.roots)
  }

  // ---- Scanning a system table -------------------------------------------------------------

  ghost predicate Increasing(ks: seq<Id>) {
    forall i, j :: 0 <= i < j < |ks| ==> ks[i] < ks[j]
  }

  lemma LeastExists(s: set<Id>)
    requires s != {}
    ensures exists k :: k in s && forall j :: j in s ==> k <= j
  {
    var x := Member(s);
    if s == {x} {
      assert forall j :: j in s ==> x <= j;
    } else {
      var rest := s - {x};
      assert s == rest + {x};
      LeastExists(rest);
      var k :| k in rest && forall j :: j in rest ==> k <= j;
      var least := if x <= k then x else k;
      assert forall j :: j in s ==> j == x || j in rest;
      assert least in s && forall j :: j in s ==> least <= j;
    }
  }

  /** A cursor over a system table visits its ids in ascending order. */
  method ScanIds<T>(rows: map<Id, T>) returns (ks: seq<Id>)
    ensures Increasing(ks) && forall k :: k in ks <==> k in rows
  {
    ks := [];
    var left := rows.Keys;
    while left != {}
      invariant left <= rows.Keys && Increasing(ks)
      invariant forall k :: k in ks <==> k in rows && k !in left
      invariant forall k, j :: k in ks && j in left ==> k < j
      decreases left
    {
      LeastExists(left);
      var k :| k in left && forall j :: j in left ==> k <= j;
      assert forall i :: 0 <= i < |ks| ==> ks[i] in ks;
      ks := ks + [k];
      left := left - {k};
    }
  }

  // ---- Tables ------------------------------------------------------------------------------

  predicate TableRowOk(m: Metadata, k: Id)
    requires k in m.tables
  {
    var row := m.tables[k];
    row.id == k && k >= 0 && RootOk(row.root, m.pageCount) && row.name != []
  }

  ghost predicate TableRowsOk(m: Metadata) {
    && (forall k :: k in m.tables ==> TableRowOk(m, k))
    && (forall k, l :: k in m.tables && l in m.tables && m.tables[k].name == m.tables[l].name ==> k == l)
    && (forall t :: IsSystemTable(t) ==> SystemRowOk(m, t))
  }

  predicate SystemRowOk(m: Metadata, t: Id)
    requires IsSystemTable(t)
  {
    t in m.tables && m.tables[t].name == SystemName(t) && m.tables[t].root == SystemRoot(m.roots, t)
  }

  function TableOfRow(row: TableRow): TableInfo {
    TableInfo(TableDescriptor(row.id, row.name, row.root), [], [])
  }

  ghost predicate NamesIndexed(tables: TableMap, idByName: map<Bytes, Id>) {
    && (forall t :: t in tables ==> tables[t].descriptor.name in idByName && idByName[tables[t].descriptor.name] == t)
    && (forall n :: n in idByName ==> idByName[n] in tables && tables[idByName[n]].descriptor.name == n)
  }

  method LoadTables(m: Metadata) returns (r: Result<Loaded>)
    ensures r.Ok? <==> TableRowsOk(m)
    ensures r.Ok? ==>
      (forall t :: t in r.value.tables <==> t in m.tables) && NamesIndexed(r.value.tables, r.value.idByName)
    ensures r.Ok? ==> forall t :: t in m.tables ==> r.value.tables[t] == TableOfRow(m.tables[t])
    ensures r.Err? ==> r.code == Corruption
  {
    var ks := ScanIds(m.tables);
    var tables: TableMap := map[];
    var idByName: map<Bytes, Id> := map[];
    for i := 0 to |ks|
      invariant forall t :: t in tables <==> t in ks[..i]
      invariant forall t :: t in tables ==> tables[t] == TableOfRow(m.tables[t]) && TableRowOk(m, t)
      invariant NamesIndexed(tables, idByName)
    {
      var k := ks[i];
      assert k in ks;
      var row := m.tables[k];
      if !TableRowOk(m, k) {
        return Err(Corruption);
      }
      if row.name in idByName {
        ghost var l := idByName[row.name];
        assert l in tables && l in ks[..i] && l in ks && m.tables[l].name == row.name;
        ghost var j :| 0 <= j < i && ks[j] == l;
        return Err(Corruption);
      }
      tables := tables[row.id := TableOfRow(row)];
      idByName := idByName[row.name := row.id];
    }
    if !(SystemRowOk(m, 1) && SystemRowOk(m, 2) && SystemRowOk(m, 3) && SystemRowOk(m, 4)) {
      return Err(Corruption);
    }
    r := Ok(Loaded(tables, map[], idByName));
    forall t
      ensures t in tables <==> t in m.tables
    {
      assert t in ks <==> t in m.tables;
    }
    forall k, l | k in m.tables && l in m.tables && m.tables[k].name == m.tables[l].name
      ensures k == l
    {
      assert k in tables && l in tables;
    }
  }

  // ---- Columns -----------------------------------------------------------------------------

  function SpecOfRow(row: ColumnRow, t: LogicalType): ColumnSpec {
    ColumnSpec(row.name, Tables.Column(t, row.nullable), row.primaryKey, row.unique)
  }

  predicate ColumnRowOk(m: Metadata, k: Id)
    requires k in m.columns
  {
    var row := m.columns[k];
    && row.id == k && k >= 0 && row.table >= 0 && row.ordinal >= 0 && row.kind >= 0 && row.table in m.tables
    && (row.capacity.Some? ==> row.capacity.value >= 0)
    && DecodeType(row.kind, row.capacity).Ok?
    && CanBeDescribed(SpecOfRow(row, DecodeType(row.kind, row.capacity).value))
  }

  ghost predicate ColumnRowsOk(m: Metadata) {
    forall k :: k in m.columns ==> ColumnRowOk(m, k)
  }

  function ColumnOfRow(row: ColumnRow): (c: ColumnDescriptor)
    requires DecodeType(row.kind, row.capacity).Ok?
    ensures RowOfColumn(c) == row
  {
    ColumnDescriptor(row.id, row.table, SpecOfRow(row, DecodeType(row.kind, row.capacity).value), row.ordinal)
  }

  /** cs are the columns of table t among the rows with ids ks, in the order of their ids. */
  ghost predicate Gathered(m: Metadata, ks: seq<Id>, t: Id, cs: seq<ColumnDescriptor>) {
    && (forall i :: 0 <= i < |cs| ==> Taken(m, ks, t, cs[i]))
    && (forall i, j :: 0 <= i < j < |cs| ==> cs[i].id < cs[j].id)
    && (forall k :: k in ks && k in m.columns && m.columns[k].table == t ==> HasColumn(cs, k))
  }

  ghost predicate Taken(m: Metadata, ks: seq<Id>, t: Id, c: ColumnDescriptor) {
    c.id in ks && ColumnStored(m, c) && c.table == t && CanBeDescribed(c.spec)
  }

  ghost predicate AllGathered(m: Metadata, ks: seq<Id>, tables: TableMap) {
    forall t :: t in tables ==> Gathered(m, ks, t, tables[t].columns)
  }

  lemma GatherOne(m: Metadata, ks: seq<Id>, i: nat, tables: TableMap, next: TableMap)
    requires Increasing(ks) && i < |ks| && ks[i] in m.columns && ColumnRowOk(m, ks[i]) &&
      m.columns[ks[i]].table in tables
    requires AllGathered(m, ks[..i], tables)
    requires
      var c := ColumnOfRow(m.columns[ks[i]]);
      next == tables[c.table := tables[c.table].(columns := tables[c.table].columns + [c])]
    ensures AllGathered(m, ks[..i + 1], next)
  {
    var c := ColumnOfRow(m.columns[ks[i]]);
    assert forall k :: k in ks[..i + 1] <==> k in ks[..i] || k == c.id;
    assert forall k :: k in ks[..i] ==> k < c.id;
    forall t | t in next
      ensures Gathered(m, ks[..i + 1], t, next[t].columns)
    {
      assert Gathered(m, ks[..i], t, tables[t].columns);
      GatherMore(m, ks[..i], ks[..i + 1], c, t, tables[t].columns);
    }
  }

  lemma GatherMore(m: Metadata, ks: seq<Id>, more: seq<Id>, c: ColumnDescriptor, t: Id, cs: seq<ColumnDescriptor>)
    requires Gathered(m, ks, t, cs) && ColumnStored(m, c) && CanBeDescribed(c.spec)
    requires forall k :: k in more <==> k in ks || k == c.id
    requires forall k :: k in ks ==> k < c.id
    ensures Gathered(m, more, t, if c.table == t then cs + [c] else cs)
  {
    var ds := if c.table == t then cs + [c] else cs;
    assert m.columns[c.id].table == c.table;
    hide ColumnStored, CanBeDescribed;
    forall x | 0 <= x < |ds|
      ensures Taken(m, more, t, ds[x])
    {
      assert x < |cs| ==> Taken(m, ks, t, cs[x]);
    }
    forall k | k in more && k in m.columns && m.columns[k].table == t
      ensures HasColumn(ds, k)
    {
      if k in ks {
        assert HasColumn(cs, k);
        var x :| 0 <= x < |cs| && cs[x].id == k;
        assert ds[x].id == k;
      } else {
        assert ds[|ds| - 1].id == k;
      }
    }
  }

  method LoadColumns(m: Metadata, tables0: TableMap) returns (r: Result<TableMap>, ghost ks: seq<Id>)
    requires forall t :: t in tables0 <==> t in m.tables
    requires forall t :: t in tables0 ==> tables0[t].columns == []
    ensures r.Ok? <==> ColumnRowsOk(m)
    ensures r.Ok? ==> r.value.Keys == tables0.Keys && AllGathered(m, ks, r.value) && forall k :: k in ks <==>
      k in m.columns
    ensures r.Ok? ==>
      forall t :: t in tables0 ==>
      r.value[t].descriptor == tables0[t].descriptor && r.value[t].indexes == tables0[t].indexes
    ensures r.Err? ==> r.code == Corruption
  {
    var ids := ScanIds(m.columns);
    ks := ids;
    var tables := tables0;
    for i := 0 to |ids|
      invariant tables.Keys == tables0.Keys && AllGathered(m, ids[..i], tables)
      invariant forall t :: t in tables ==>
        tables[t].descriptor == tables0[t].descriptor && tables[t].indexes == tables0[t].indexes
      invariant forall k :: k in ids[..i] ==> ColumnRowOk(m, k)
    {
      var k := ids[i];
      assert k in ids;
      if !ColumnRowOk(m, k) {
        return Err(Corruption), ks;
      }
      var c := ColumnOfRow(m.columns[k]);
      ghost var before := tables;
      tables := tables[c.table := tables[c.table].(columns := tables[c.table].columns + [c])];
      GatherOne(m, ids, i, before, tables);
    }
    assert ids[..|ids|] == ids;
    assert forall k :: k in m.columns ==> k in ids;
    r := Ok(tables);
  }

  // ---- Index columns -----------------------------------------------------------------------

  predicate IndexColumnRowOk(m: Metadata, k: Id)
    requires k in m.indexColumns
  {
    var row := m.indexColumns[k];
    row.index == k && k >= 0 && row.column >= 0 && row.ordinal == 0 && row.column in m.columns
  }

  ghost predicate IndexColumnRowsOk(m: Metadata) {
    forall k :: k in m.indexColumns ==> IndexColumnRowOk(m, k)
  }

  method LoadIndexColumns(m: Metadata) returns (r: Result<map<Id, Id>>)
    ensures r.Ok? <==> IndexColumnRowsOk(m)
    ensures r.Ok? ==> forall k :: k in r.value <==> k in m.indexColumns
    ensures r.Ok? ==> forall k :: k in r.value ==> r.value[k] == m.indexColumns[k].column
    ensures r.Err? ==> r.code == Corruption
  {
    var ids := ScanIds(m.indexColumns);
    var columnByIndex: map<Id, Id> := map[];
    for i := 0 to |ids|
      invariant forall k :: k in columnByIndex <==> k in ids[..i]
      invariant forall k :: k in columnByIndex ==>
        columnByIndex[k] == m.indexColumns[k].column && IndexColumnRowOk(m, k)
    {
      var k := ids[i];
      assert k in ids;
      if !IndexColumnRowOk(m, k) {
        return Err(Corruption);
      }
      columnByIndex := columnByIndex[k := m.indexColumns[k].column];
    }
    assert forall k :: k in m.indexColumns ==> k in ids;
    r := Ok(columnByIndex);
  }

  // ---- Indexes -----------------------------------------------------------------------------

  predicate IndexRowOk(m: Metadata, k: Id)
    requires k in m.indexes
  {
    var row := m.indexes[k];
    && row.id == k && k >= 0 && row.table >= 0 && RootOk(row.root, m.pageCount) && row.table in m.tables
    && k in m.indexColumns && m.indexColumns[k].column in m.columns &&
       m.columns[m.indexColumns[k].column].table == row.table
    && row.name != [] && (row.primary ==> row.unique && row.internal)
  }

  ghost predicate IndexRowsOk(m: Metadata) {
    && (forall k :: k in m.indexes ==> IndexRowOk(m, k))
    && (forall k, l :: k in m.indexes && l in m.indexes && m.indexes[k].name == m.indexes[l].name ==> k == l)
    && (forall k :: k in m.indexColumns ==> k in m.indexes)
  }

  function IndexOfRow(m: Metadata, k: Id): (x: IndexDescriptor)
    requires k in m.indexes && k in m.indexColumns
    ensures IndexRowOk(m, k) ==> x.id == k && RowOfIndex(x) == m.indexes[k]
  {
    var row := m.indexes[k];
    IndexDescriptor(row.id, row.table, row.name, row.root, row.unique, row.primary, row.internal,
                    m.indexColumns[k].column)
  }

  /** xs are the indexes of table t among the rows with ids ks, in the order of their ids. */
  ghost predicate IndexesGathered(m: Metadata, ks: seq<Id>, t: Id, xs: seq<IndexDescriptor>) {
    && (forall i :: 0 <= i < |xs| ==> IndexTaken(m, ks, t, xs[i]))
    && Ascending(xs)
    && (forall k :: k in ks && k in m.indexes && m.indexes[k].table == t ==> HasIndex(xs, k))
  }

  ghost predicate IndexTaken(m: Metadata, ks: seq<Id>, t: Id, x: IndexDescriptor) {
    x.id in ks && x.id in m.indexes && x.id in m.indexColumns && x.table == t && x == IndexOfRow(m, x.id) &&
      IndexRowOk(m, x.id)
  }

  ghost predicate AllIndexesGathered(m: Metadata, ks: seq<Id>, tables: TableMap) {
    forall t :: t in tables ==> IndexesGathered(m, ks, t, tables[t].indexes)
  }

  lemma GatherIndex(m: Metadata, ks: seq<Id>, more: seq<Id>, k: Id, t: Id, xs: seq<IndexDescriptor>)
    requires IndexesGathered(m, ks, t, xs) && k in m.indexes && k in m.indexColumns && IndexRowOk(m, k)
    requires forall j :: j in more <==> j in ks || j == k
    requires forall j :: j in ks ==> j < k
    ensures IndexesGathered(m, more, t, if m.indexes[k].table == t then xs + [IndexOfRow(m, k)] else xs)
  {
    var x := IndexOfRow(m, k);
    var ys := if m.indexes[k].table == t then xs + [x] else xs;
    assert x.id == k && x.table == m.indexes[k].table;
    forall i | 0 <= i < |ys|
      ensures IndexTaken(m, more, t, ys[i])
    {
      assert i < |xs| ==> IndexTaken(m, ks, t, xs[i]);
    }
    hide IndexRowOk, IndexOfRow;
    forall j | j in more && j in m.indexes && m.indexes[j].table == t
      ensures HasIndex(ys, j)
    {
      if j in ks {
        assert HasIndex(xs, j);
        var i :| 0 <= i < |xs| && xs[i].id == j;
        assert ys[i].id == j;
      } else {
        assert ys[|ys| - 1].id == j;
      }
    }
    forall i, j | 0 <= i < j < |ys|
      ensures ys[i].id < ys[j].id
    {
      assert IndexTaken(m, ks, t, xs[i]);
    }
  }

  lemma NextId(ks: seq<Id>, i: nat)
    requires Increasing(ks) && i < |ks|
    ensures forall j :: j in ks[..i] ==> j < ks[i]
    ensures forall j :: j in ks[..i + 1] <==> j in ks[..i] || j == ks[i]
    ensures ks[i] in ks
  {
  }

  lemma AllGatherIndex(m: Metadata, ks: seq<Id>, more: seq<Id>, k: Id, tables: TableMap, next: TableMap)
    requires AllIndexesGathered(m, ks, tables) && k in m.indexes && k in m.indexColumns && IndexRowOk(m, k) &&
      m.indexes[k].table in tables
    requires forall j :: j in more <==> j in ks || j == k
    requires forall j :: j in ks ==> j < k
    requires
      var x := IndexOfRow(m, k);
      next == tables[x.table := tables[x.table].(indexes := tables[x.table].indexes + [x])]
    ensures AllIndexesGathered(m, more, next)
  {
    forall t | t in next
      ensures IndexesGathered(m, more, t, next[t].indexes)
    {
      assert IndexesGathered(m, ks, t, tables[t].indexes);
      GatherIndex(m, ks, more, k, t, tables[t].indexes);
    }
  }

  /** The names of the rows ks, which are all different. */
  ghost predicate NamesSeen(m: Metadata, ks: seq<Id>, names: set<Bytes>) {
    && (forall k :: k in ks && k in m.indexes ==> m.indexes[k].name in names)
    && (forall n :: n in names ==> exists k :: k in ks && k in m.indexes && m.indexes[k].name == n)
    && (forall j, k :: j in ks && k in ks && j in m.indexes && k in m.indexes ==>
          m.indexes[j].name == m.indexes[k].name ==> j == k)
  }

  lemma NameTaken(m: Metadata, ks: seq<Id>, names: set<Bytes>, k: Id)
    requires NamesSeen(m, ks, names) && k in m.indexes && m.indexes[k].name in names && forall j :: j in ks ==> j < k
    ensures !IndexRowsOk(m)
  {
    var j :| j in ks && j in m.indexes && m.indexes[j].name == m.indexes[k].name;
  }

  lemma NameSeen(m: Metadata, ks: seq<Id>, more: seq<Id>, names: set<Bytes>, k: Id)
    requires NamesSeen(m, ks, names) && k in m.indexes && m.indexes[k].name !in names
    requires forall j :: j in more <==> j in ks || j == k
    ensures NamesSeen(m, more, names + {m.indexes[k].name})
  {
    forall n | n in names + {m.indexes[k].name}
      ensures exists j :: j in more && j in m.indexes && m.indexes[j].name == n
    {
      if n in names {
        var j :| j in ks && j in m.indexes && m.indexes[j].name == n;
        assert j in more;
      } else {
        assert k in more;
      }
    }
  }

  ghost predicate OnlyIndexesDiffer(a: TableMap, b: TableMap) {
    && (forall t :: t in a <==> t in b)
    && forall t :: t in a ==> b[t].descriptor == a[t].descriptor && b[t].columns == a[t].columns
  }

  /** The index-column mappings that no row of ks has used up. */
  ghost predicate Unclaimed(m: Metadata, ks: seq<Id>, columnByIndex: map<Id, Id>) {
    && (forall k :: k in columnByIndex <==> k in m.indexColumns && k !in ks)
    && forall k :: k in columnByIndex ==> columnByIndex[k] == m.indexColumns[k].column
  }

  /** What load_indexes has after the first i rows. */
  ghost predicate IndexProgress(m: Metadata, ks: seq<Id>, tables0: TableMap, tables: TableMap,
                                columnByIndex: map<Id, Id>, names: set<Bytes>) {
    && OnlyIndexesDiffer(tables0, tables) && AllIndexesGathered(m, ks, tables)
    && (forall k :: k in ks ==> k in m.indexes && IndexRowOk(m, k))
    && Unclaimed(m, ks, columnByIndex) && NamesSeen(m, ks, names)
  }

  /** One row; the caller's names and mappings go with the tables. */
  method LoadIndex(m: Metadata, ghost ks: seq<Id>, ghost more: seq<Id>, k: Id, ghost tables0: TableMap,
                   tables: TableMap,
                   columnByIndex: map<Id, Id>, names: set<Bytes>)
    returns (r: Result<(TableMap, map<Id, Id>, set<Bytes>)>)
    requires IndexProgress(m, ks, tables0, tables, columnByIndex, names) && k in m.indexes
    requires forall t :: t in tables0 <==> t in m.tables
    requires forall j :: j in more <==> j in ks || j == k
    requires forall j :: j in ks ==> j < k
    ensures r.Ok? ==> IndexProgress(m, more, tables0, r.value.0, r.value.1, r.value.2)
    ensures r.Err? ==> r.code == Corruption && !IndexRowsOk(m)
  {
    var row := m.indexes[k];
    if row.name in names {
      NameTaken(m, ks, names, k);
      return Err(Corruption);
    }
    if !IndexRowOk(m, k) {
      return Err(Corruption);
    }
    hide IndexRowsOk, AllIndexesGathered, NamesSeen;
    NameSeen(m, ks, more, names, k);
    var x := IndexDescriptor(row.id, row.table, row.name, row.root, row.unique, row.primary, row.internal,
                             columnByIndex[k]);
    var next := tables[x.table := tables[x.table].(indexes := tables[x.table].indexes + [x])];
    AllGatherIndex(m, ks, more, k, tables, next);
    r := Ok((next, columnByIndex - {k}, names + {row.name}));
  }

  method LoadIndexes(m: Metadata, tables0: TableMap, columnByIndex0: map<Id, Id>)
    returns (r: Result<TableMap>, ghost ks: seq<Id>)
    requires forall t :: t in tables0 <==> t in m.tables
    requires forall t :: t in tables0 ==> tables0[t].indexes == []
    requires Unclaimed(m, [], columnByIndex0)
    ensures r.Ok? <==> IndexRowsOk(m)
    ensures r.Ok? ==>
      OnlyIndexesDiffer(tables0, r.value) && AllIndexesGathered(m, ks, r.value) && forall k :: k in ks <==>
      k in m.indexes
    ensures r.Err? ==> r.code == Corruption
  {
    var ids := ScanIds(m.indexes);
    ks := ids;
    var tables, columnByIndex := tables0, columnByIndex0;
    var names: set<Bytes> := {};
    for i := 0 to |ids|
      invariant IndexProgress(m, ids[..i], tables0, tables, columnByIndex, names)
    {
      hide IndexProgress, IndexRowsOk;
      NextId(ids, i);
      var step := LoadIndex(m, ids[..i], ids[..i + 1], ids[i], tables0, tables, columnByIndex, names);
      if step.Err? {
        return Err(Corruption), ks;
      }
      tables, columnByIndex, names := step.value.0, step.value.1, step.value.2;
    }
    assert ids[..|ids|] == ids;
    assert forall k :: k in m.indexes ==> k in ids;
    if columnByIndex != map[] {
      ghost var k := Member(columnByIndex.Keys);
      return Err(Corruption), ks;
    }
    r := Ok(tables);
  }

  // ---- Schemas -----------------------------------------------------------------------------

  ghost predicate DistinctIds(cs: seq<ColumnDescriptor>) {
    forall i, j :: 0 <= i < j < |cs| ==> cs[i].id != cs[j].id
  }

  /** ds has the columns of cs, in some order. */
  ghost predicate Rearranged(cs: seq<ColumnDescriptor>, ds: seq<ColumnDescriptor>) {
    |ds| == |cs| && DistinctIds(ds) && forall c :: c in ds <==> c in cs
  }

  ghost predicate InOrder(cs: seq<ColumnDescriptor>) {
    forall i :: 0 <= i < |cs| ==> cs[i].ordinal == i
  }

  ghost predicate ByOrdinal(cs: seq<ColumnDescriptor>) {
    forall i, j :: 0 <= i < j < |cs| ==> cs[i].ordinal <= cs[j].ordinal
  }

  lemma InsertedByOrdinal(cs: seq<ColumnDescriptor>, ds: seq<ColumnDescriptor>, c: ColumnDescriptor, p: nat)
    requires Rearranged(cs, ds) && ByOrdinal(ds) && p <= |ds| && forall j :: 0 <= j < |cs| ==> cs[j].id != c.id
    requires p > 0 ==> ds[p - 1].ordinal <= c.ordinal
    requires forall j :: p <= j < |ds| ==> c.ordinal < ds[j].ordinal
    ensures Rearranged(cs + [c], ds[..p] + [c] + ds[p..]) && ByOrdinal(ds[..p] + [c] + ds[p..])
  {
    SameMembers(cs, ds, c, p);
    SpreadIds(cs, ds, c, p);
    SpreadOrder(ds, c, p);
    hide DistinctIds, ByOrdinal;
  }

  lemma SpreadIds(cs: seq<ColumnDescriptor>, ds: seq<ColumnDescriptor>, c: ColumnDescriptor, p: nat)
    requires Rearranged(cs, ds) && p <= |ds| && forall j :: 0 <= j < |cs| ==> cs[j].id != c.id
    ensures DistinctIds(ds[..p] + [c] + ds[p..])
  {
    assert forall j :: 0 <= j < |ds| ==> ds[j] in ds && ds[j] in cs;
    Spread(ds, c, p);
    var es := ds[..p] + [c] + ds[p..];
    forall i, j | 0 <= i < j < |es|
      ensures es[i].id != es[j].id
    {
    }
  }

  lemma SpreadOrder(ds: seq<ColumnDescriptor>, c: ColumnDescriptor, p: nat)
    requires ByOrdinal(ds) && p <= |ds| && (p > 0 ==> ds[p - 1].ordinal <= c.ordinal)
    requires forall j :: p <= j < |ds| ==> c.ordinal < ds[j].ordinal
    ensures ByOrdinal(ds[..p] + [c] + ds[p..])
  {
    Spread(ds, c, p);
    assert forall j :: 0 <= j < p ==> ds[j].ordinal <= c.ordinal;
  }

  lemma Spread(ds: seq<ColumnDescriptor>, c: ColumnDescriptor, p: nat)
    requires p <= |ds|
    ensures
      var es := ds[..p] + [c] + ds[p..];
      |es| == |ds| + 1 && forall j :: 0 <= j < |es| ==>
        es[j] == if j < p then ds[j] else if j == p then c else ds[j - 1]
  {
  }

  lemma SameMembers(cs: seq<ColumnDescriptor>, ds: seq<ColumnDescriptor>, c: ColumnDescriptor, p: nat)
    requires p <= |ds| && forall x :: x in ds <==> x in cs
    ensures forall x :: x in ds[..p] + [c] + ds[p..] <==> x in cs + [c]
  {
    forall x
      ensures x in ds[..p] + [c] + ds[p..] <==> x in cs + [c]
    {
      assert x in ds <==> x in ds[..p] || x in ds[p..] by {
        assert ds == ds[..p] + ds[p..];
      }
    }
  }

  /** std::sort, by insertion. */
  method SortByOrdinal(cs: seq<ColumnDescriptor>) returns (sorted: seq<ColumnDescriptor>)
    requires DistinctIds(cs)
    ensures Rearranged(cs, sorted) && ByOrdinal(sorted)
  {
    sorted := [];
    for i := 0 to |cs|
      invariant Rearranged(cs[..i], sorted) && ByOrdinal(sorted)
    {
      var c := cs[i];
      var p := |sorted|;
      while p > 0 && sorted[p - 1].ordinal > c.ordinal
        invariant 0 <= p <= |sorted|
        invariant forall j :: p <= j < |sorted| ==> c.ordinal < sorted[j].ordinal
      {
        p := p - 1;
      }
      assert p > 0 ==> sorted[p - 1].ordinal <= c.ordinal;
      InsertedByOrdinal(cs[..i], sorted, c, p);
      sorted := sorted[..p] + [c] + sorted[p..];
      assert cs[..i + 1] == cs[..i] + [c];
    }
    assert cs[..|cs|] == cs;
  }

  /** A sorted arrangement is the one whose ordinals count from zero, if there is one. */
  lemma InOrderUnique(cs: seq<ColumnDescriptor>, a: seq<ColumnDescriptor>, b: seq<ColumnDescriptor>)
    requires Rearranged(cs, a) && ByOrdinal(a) && Rearranged(cs, b) && InOrder(b)
    ensures a == b
  {
    forall i | 0 <= i < |a|
      ensures a[i] == b[i]
    {
      OrdinalIsIndex(cs, a, b, i);
      assert a[i] in b;
    }
  }

  lemma {:induction false} OrdinalIsIndex(cs: seq<ColumnDescriptor>, a: seq<ColumnDescriptor>, b: seq<ColumnDescriptor>,
                                          i: nat)
    requires Rearranged(cs, a) && ByOrdinal(a) && Rearranged(cs, b) && InOrder(b) && i < |a|
    ensures a[i].ordinal == i
  {
    forall j | 0 <= j < i
      ensures a[j].ordinal == j && a[j] == b[j]
    {
      OrdinalIsIndex(cs, a, b, j);
      assert a[j] in b;
    }
    assert a[i] in b && b[i] in a;
    var p :| 0 <= p < |b| && b[p] == a[i];
    var q :| 0 <= q < |a| && a[q] == b[i];
    assert q > i ==> a[i].ordinal <= a[q].ordinal;
  }

  ghost predicate PrimaryFits(t: Id, info: TableInfo) {
    && (exists p :: PrimaryIndexIs(info, p))
    && (IsSystemTable(t) ==> forall i :: 0 <= i < |info.indexes| && info.indexes[i].primary ==> info.indexes[i].id == t)
  }

  /** What resolve_schemas asks of table t with its columns in order. */
  ghost predicate Resolvable(t: Id, info: TableInfo) {
    InOrder(info.columns) && SchemaFits(info.columns) && PrimaryFits(t, info)
  }

  ghost predicate SchemaOf(schema: Schema, cs: seq<ColumnDescriptor>) {
    schema.LaidOut() && schema.specs == SpecsOf(cs)
  }

  method CheckOrdinals(cs: seq<ColumnDescriptor>) returns (ok: bool)
    ensures ok <==> InOrder(cs)
  {
    for i := 0 to |cs|
      invariant forall j :: 0 <= j < i ==> cs[j].ordinal == j
    {
      if cs[i].ordinal != i {
        return false;
      }
    }
    ok := true;
  }

  /** Exactly one primary index, on the primary key and with the table's root. */
  method CheckPrimary(t: Id, info: TableInfo, schema: Schema) returns (ok: bool)
    requires SchemaOf(schema, info.columns)
    ensures ok <==> PrimaryFits(t, info)
  {
    var primary := -1;
    var count := 0;
    for i := 0 to |info.indexes|
      invariant -1 <= primary < i && count >= 0 && (count == 0 <==> primary == -1)
      invariant count == 0 ==> forall j :: 0 <= j < i ==> !info.indexes[j].primary
      invariant primary >= 0 ==> info.indexes[primary].primary
      invariant count == 1 ==> forall j :: 0 <= j < i ==> (info.indexes[j].primary <==> j == primary)
      invariant count > 1 ==> exists j, k :: 0 <= j < k < i && info.indexes[j].primary && info.indexes[k].primary
    {
      if info.indexes[i].primary {
        primary, count := i, count + 1;
      }
    }
    ghost var pk := schema.primaryKey;
    assert info.columns[pk].spec == schema.specs[pk] && schema.specs[pk].primaryKey;
    assert forall c :: 0 <= c < |info.columns| && info.columns[c].spec.primaryKey ==>
      schema.specs[c].primaryKey && c == pk;
    if count != 1 || info.indexes[primary].column != info.columns[schema.primaryKey].id ||
      info.indexes[primary].root != info.descriptor.root {
      return false;
    }
    assert PrimaryIndexIs(info, primary);
    ok := !IsSystemTable(t) || info.indexes[primary].id == t;
  }

  method ResolveTable(t: Id, info: TableInfo) returns (r: Result<(TableInfo, Schema)>)
    requires DistinctIds(info.columns) && forall i :: 0 <= i < |info.columns| ==> CanBeColumn(info.columns[i].spec)
    ensures r.Ok? ==> Rearranged(info.columns, r.value.0.columns) && r.value.0 == info.(columns := r.value.0.columns)
    ensures r.Ok? ==> Resolvable(t, r.value.0) && SchemaOf(r.value.1, r.value.0.columns)
    ensures r.Err? ==>
      r.code == Corruption && forall cs :: Rearranged(info.columns, cs) ==> !Resolvable(t, info.(columns := cs))
  {
    var columns := SortByOrdinal(info.columns);
    forall cs | Rearranged(info.columns, cs) && InOrder(cs)
      ensures cs == columns
    {
      InOrderUnique(info.columns, columns, cs);
    }
    var inOrder := CheckOrdinals(columns);
    if !inOrder {
      return Err(Corruption);
    }
    var schema := Create(SpecsOf(columns));
    if schema.Err? {
      return Err(Corruption);
    }
    var resolved := info.(columns := columns);
    var primaryOk := CheckPrimary(t, resolved, schema.value);
    if !primaryOk {
      return Err(Corruption);
    }
    r := Ok((resolved, schema.value));
  }

  // ---- Loading -----------------------------------------------------------------------------

  /** What load_indexes hands to resolve_schemas: every row turned into a descriptor of its table. */
  ghost predicate Collected(m: Metadata, tables: TableMap) {
    && (forall t :: t in tables <==> t in m.tables)
    && forall t :: t in tables ==> TableCollected(m, t, tables[t])
  }

  ghost predicate TableCollected(m: Metadata, t: Id, info: TableInfo)
    requires t in m.tables
  {
    && RowOfTable(info.descriptor) == m.tables[t]
    && CollectedColumns(m, t, info.columns) && DistinctIds(info.columns)
    && CollectedIndexes(m, t, info.indexes)
  }

  ghost predicate CollectedColumns(m: Metadata, t: Id, cs: seq<ColumnDescriptor>) {
    && (forall c :: c in cs ==> ColumnStored(m, c) && c.table == t && CanBeDescribed(c.spec))
    && (forall k :: k in m.columns && m.columns[k].table == t ==> HasColumn(cs, k))
  }

  ghost predicate CollectedIndexes(m: Metadata, t: Id, xs: seq<IndexDescriptor>) {
    && (forall x :: x in xs ==>
        x.id in m.indexes && x.id in m.indexColumns && x.table == t && x == IndexOfRow(m, x.id) && IndexRowOk(m, x.id))
    && Ascending(xs)
    && (forall k :: k in m.indexes && m.indexes[k].table == t ==> HasIndex(xs, k))
  }

  lemma CollectedFromGathered(m: Metadata, cks: seq<Id>, iks: seq<Id>, t: Id, info: TableInfo)
    requires t in m.tables && RowOfTable(info.descriptor) == m.tables[t]
    requires (forall k :: k in cks <==> k in m.columns) && (forall k :: k in iks <==> k in m.indexes)
    requires Gathered(m, cks, t, info.columns) && IndexesGathered(m, iks, t, info.indexes)
    ensures TableCollected(m, t, info)
  {
    assert forall i :: 0 <= i < |info.columns| ==> Taken(m, cks, t, info.columns[i]);
    assert forall i :: 0 <= i < |info.indexes| ==> IndexTaken(m, iks, t, info.indexes[i]);
  }

  ghost predicate RowsOk(m: Metadata) {
    TableRowsOk(m) && ColumnRowsOk(m) && IndexColumnRowsOk(m) && IndexRowsOk(m)
  }

  /** Rows that describe acceptable tables pass the checks made row by row. */
  lemma AcceptedRows(m: Metadata, ts: TableMap)
    requires Accepts(m, ts)
    ensures RowsOk(m)
  {
    AcceptedTableRows(m, ts);
    forall k | k in m.columns
      ensures ColumnRowOk(m, k)
    {
      AcceptedColumn(m, ts, k);
    }
    forall k | k in m.indexes
      ensures IndexRowOk(m, k) && k in m.indexColumns && IndexColumnRowOk(m, k)
    {
      AcceptedIndex(m, ts, k);
    }
    AcceptedIndexNames(m, ts);
  }

  lemma AcceptedTableRows(m: Metadata, ts: TableMap)
    requires Accepts(m, ts)
    ensures TableRowsOk(m)
  {
    forall k | k in m.tables
      ensures TableRowOk(m, k)
    {
      assert TableFits(k, ts[k], m.pageCount);
    }
    forall t | IsSystemTable(t)
      ensures SystemRowOk(m, t)
    {
      assert SystemTableFits(ts, t, m.roots);
    }
    forall k, l | k in m.tables && l in m.tables && m.tables[k].name == m.tables[l].name
      ensures k == l
    {
      assert k in ts && l in ts;
    }
  }

  lemma AcceptedColumn(m: Metadata, ts: TableMap, k: Id)
    requires Accepts(m, ts) && k in m.columns
    ensures ColumnRowOk(m, k)
  {
    var row := m.columns[k];
    assert ColumnOwned(row, ts, k);
    var c := ts[row.table].columns[row.ordinal];
    assert ColumnStored(m, c);
    assert TableFits(row.table, ts[row.table], m.pageCount) && ColumnFits(row.table, c, row.ordinal);
    TypeRoundTrip(c.spec.column.logicalType);
    assert SpecOfRow(row, c.spec.column.logicalType) == c.spec;
  }

  lemma AcceptedIndex(m: Metadata, ts: TableMap, k: Id)
    requires Accepts(m, ts) && k in m.indexes
    ensures k in m.indexColumns && IndexRowOk(m, k) && IndexColumnRowOk(m, k)
  {
    var t := m.indexes[k].table;
    assert IndexOwned(m.indexes[k], ts, k);
    var i :| 0 <= i < |ts[t].indexes| && ts[t].indexes[i].id == k;
    var x := ts[t].indexes[i];
    assert IndexStored(m, x) && TableFits(t, ts[t], m.pageCount) && IndexFits(t, ts[t], x, m.pageCount);
    assert HasColumn(ts[t].columns, x.column);
    var j :| 0 <= j < |ts[t].columns| && ts[t].columns[j].id == x.column;
    assert ColumnStored(m, ts[t].columns[j]) && ColumnFits(t, ts[t].columns[j], j);
  }

  lemma AcceptedIndexNames(m: Metadata, ts: TableMap)
    requires Accepts(m, ts)
    ensures forall k, l :: k in m.indexes && l in m.indexes && m.indexes[k].name == m.indexes[l].name ==> k == l
  {
    forall k, l | k in m.indexes && l in m.indexes && m.indexes[k].name == m.indexes[l].name
      ensures k == l
    {
      var t, u := m.indexes[k].table, m.indexes[l].table;
      assert IndexOwned(m.indexes[k], ts, k) && IndexOwned(m.indexes[l], ts, l);
      var i :| 0 <= i < |ts[t].indexes| && ts[t].indexes[i].id == k;
      var j :| 0 <= j < |ts[u].indexes| && ts[u].indexes[j].id == l;
      assert IndexStored(m, ts[t].indexes[i]) && IndexStored(m, ts[u].indexes[j]);
    }
  }

  /** What is collected for a table is, up to the order of its columns, what any acceptable tables have. */
  lemma CollectedAgrees(m: Metadata, ts: TableMap, t: Id, info: TableInfo)
    requires Accepts(m, ts) && t in m.tables && TableCollected(m, t, info)
    ensures t in ts && Rearranged(info.columns, ts[t].columns) && ts[t] == info.(columns := ts[t].columns) &&
      Resolvable(t, ts[t])
    ensures IsSystemTable(t) ==> SpecsOf(ts[t].columns) == SystemSpecs(t)
  {
    assert t in ts && TableFits(t, ts[t], m.pageCount);
    assert IsSystemTable(t) ==> SystemTableFits(ts, t, m.roots);
    CollectedColumnsAgree(m, ts, t, info.columns);
    CollectedIndexesAgree(m, ts, t, info.indexes);
    assert forall i :: 0 <= i < |ts[t].columns| ==> ColumnFits(t, ts[t].columns[i], i);
  }

  lemma CollectedColumnsAgree(m: Metadata, ts: TableMap, t: Id, cs: seq<ColumnDescriptor>)
    requires Accepts(m, ts) && t in ts && CollectedColumns(m, t, cs) && DistinctIds(cs)
    ensures Rearranged(cs, ts[t].columns)
  {
    var ds := ts[t].columns;
    assert TableFits(t, ts[t], m.pageCount);
    forall c | c in cs
      ensures c in ds
    {
      assert ColumnStored(m, c) && ColumnOwned(m.columns[c.id], ts, c.id);
      var d := ds[m.columns[c.id].ordinal];
      assert ColumnStored(m, d);
      ColumnRowInjective(c, d);
    }
    forall i | 0 <= i < |ds|
      ensures ds[i] in cs
    {
      assert ColumnStored(m, ds[i]) && ColumnFits(t, ds[i], i);
      assert HasColumn(cs, ds[i].id);
      var j :| 0 <= j < |cs| && cs[j].id == ds[i].id;
      assert cs[j] in cs && ColumnStored(m, cs[j]);
      ColumnRowInjective(cs[j], ds[i]);
    }
    forall i, j | 0 <= i < j < |ds|
      ensures ds[i].id != ds[j].id
    {
      assert ColumnStored(m, ds[i]) && ColumnStored(m, ds[j]) && ColumnFits(t, ds[i], i) && ColumnFits(t, ds[j], j);
    }
    SameSize(cs, ds);
  }

  /** Lists without repetition that have the same elements have the same length. */
  lemma {:induction false} SameSize(cs: seq<ColumnDescriptor>, ds: seq<ColumnDescriptor>)
    requires DistinctIds(cs) && DistinctIds(ds) && forall c :: c in cs <==> c in ds
    ensures |cs| == |ds|
  {
    assert cs != [] ==> cs[0] in ds;
    assert ds != [] ==> ds[0] in cs;
    if cs != [] {
      var i :| 0 <= i < |ds| && ds[i] == cs[0];
      var rest := ds[..i] + ds[i + 1..];
      forall c
        ensures c in cs[1..] <==> c in rest
      {
        assert c in cs <==> c == cs[0] || c in cs[1..];
        assert c in ds <==> c in ds[..i] || c == ds[i] || c in ds[i + 1..] by {
          assert ds == ds[..i] + [ds[i]] + ds[i + 1..];
        }
      }
      SameSize(cs[1..], rest);
    }
  }

  lemma CollectedIndexesAgree(m: Metadata, ts: TableMap, t: Id, xs: seq<IndexDescriptor>)
    requires Accepts(m, ts) && t in ts && CollectedIndexes(m, t, xs)
    ensures xs == ts[t].indexes
  {
    var ys := ts[t].indexes;
    assert TableFits(t, ts[t], m.pageCount);
    forall x | x in xs
      ensures x in ys
    {
      assert IndexOwned(m.indexes[x.id], ts, x.id);
      var j :| 0 <= j < |ys| && ys[j].id == x.id;
      assert IndexStored(m, ys[j]);
      assert ys[j] == x;
    }
    forall i | 0 <= i < |ys|
      ensures ys[i] in xs
    {
      assert IndexStored(m, ys[i]) && IndexFits(t, ts[t], ys[i], m.pageCount);
      assert HasIndex(xs, ys[i].id);
      var j :| 0 <= j < |xs| && xs[j].id == ys[i].id;
      assert xs[j] in xs;
      assert xs[j] == ys[i];
    }
    AscendingUnique(xs, ys);
  }

  ghost predicate ResolvedFrom(t: Id, info: TableInfo, resolved: TableInfo) {
    Rearranged(info.columns, resolved.columns) && resolved == info.(columns := resolved.columns) &&
      Resolvable(t, resolved)
  }

  ghost predicate AllResolved(infos: TableMap, ts: TableMap) {
    (forall t :: t in ts <==> t in infos) && forall t :: t in ts ==> ResolvedFrom(t, infos[t], ts[t])
  }

  /** Tables collected from checked rows and resolved one by one are acceptable, and the rows describe them. */
  lemma ResolvedAccepted(m: Metadata, infos: TableMap, ts: TableMap)
    requires RowsOk(m) && Collected(m, infos) && AllResolved(infos, ts)
    requires Canonical(ts)
    ensures Accepts(m, ts)
  {
    hide Describes, IndexNamesDistinct, TableFits, SystemTableFits;
    forall t | t in ts
      ensures TableFits(t, ts[t], m.pageCount) && RowOfTable(ts[t].descriptor) == m.tables[t]
    {
      assert t in m.tables && ResolvedFrom(t, infos[t], ts[t]) && TableCollected(m, t, infos[t]);
      ResolvedTableFits(m, infos[t], t, ts[t]);
    }
    ResolvedDescribed(m, infos, ts);
    ResolvedIndexNames(m, infos, ts);
    ResolvedSystemTables(m, infos, ts);
    assert TableNamesDistinct(ts) by {
      assert forall t :: t in ts ==> t in m.tables && m.tables[t].name == ts[t].descriptor.name;
    }
  }

  lemma ResolvedIndexNames(m: Metadata, infos: TableMap, ts: TableMap)
    requires RowsOk(m) && Collected(m, infos) && AllResolved(infos, ts)
    ensures IndexNamesDistinct(ts)
  {
    forall t, i | t in ts && 0 <= i < |ts[t].indexes|
      ensures ts[t].indexes[i].id in m.indexes && m.indexes[ts[t].indexes[i].id] == RowOfIndex(ts[t].indexes[i])
    {
      ResolvedStored(m, infos, ts, t);
      assert IndexStored(m, ts[t].indexes[i]);
    }
    forall t, i, u, j | t in ts && 0 <= i < |ts[t].indexes| && u in ts && 0 <= j < |ts[u].indexes| &&
      ts[t].indexes[i].name == ts[u].indexes[j].name
      ensures t == u && i == j
    {
      var x, y := ts[t].indexes[i], ts[u].indexes[j];
      assert x.id == y.id;
      ResolvedStored(m, infos, ts, t);
      ResolvedStored(m, infos, ts, u);
    }
  }

  lemma ResolvedSystemTables(m: Metadata, infos: TableMap, ts: TableMap)
    requires RowsOk(m) && Collected(m, infos) && AllResolved(infos, ts)
    requires Canonical(ts)
    ensures forall t :: IsSystemTable(t) ==> SystemTableFits(ts, t, m.roots)
  {
    forall t | IsSystemTable(t)
      ensures SystemTableFits(ts, t, m.roots)
    {
      assert SystemRowOk(m, t);
      assert t in infos && TableCollected(m, t, infos[t]) && ResolvedFrom(t, infos[t], ts[t]);
    }
  }

  /** The rows of a resolved table. */
  lemma ResolvedStored(m: Metadata, infos: TableMap, ts: TableMap, t: Id)
    requires RowsOk(m) && Collected(m, infos) && AllResolved(infos, ts) && t in ts
    ensures t in m.tables && m.tables[t] == RowOfTable(ts[t].descriptor)
    ensures forall i :: 0 <= i < |ts[t].columns| ==> ColumnStored(m, ts[t].columns[i])
    ensures forall i :: 0 <= i < |ts[t].indexes| ==> IndexStored(m, ts[t].indexes[i]) && ts[t].indexes[i].table == t
    ensures Ascending(ts[t].indexes)
  {
    assert t in infos && TableCollected(m, t, infos[t]) && ResolvedFrom(t, infos[t], ts[t]);
    assert forall i :: 0 <= i < |ts[t].columns| ==> ts[t].columns[i] in infos[t].columns;
    forall i | 0 <= i < |ts[t].indexes|
      ensures IndexStored(m, ts[t].indexes[i]) && ts[t].indexes[i].table == t
    {
      assert ts[t].indexes[i] in infos[t].indexes;
      assert IndexColumnRowOk(m, ts[t].indexes[i].id);
    }
  }

  lemma ResolvedColumnOwned(m: Metadata, infos: TableMap, ts: TableMap, k: Id)
    requires RowsOk(m) && Collected(m, infos) && AllResolved(infos, ts) && k in m.columns
    ensures ColumnOwned(m.columns[k], ts, k)
  {
    var t := m.columns[k].table;
    assert ColumnRowOk(m, k);
    assert t in infos && TableCollected(m, t, infos[t]) && ResolvedFrom(t, infos[t], ts[t]);
    assert HasColumn(infos[t].columns, k);
    var j :| 0 <= j < |infos[t].columns| && infos[t].columns[j].id == k;
    assert infos[t].columns[j] in infos[t].columns;
    assert infos[t].columns[j] in ts[t].columns;
    var i :| 0 <= i < |ts[t].columns| && ts[t].columns[i] == infos[t].columns[j];
    assert ColumnStored(m, infos[t].columns[j]);
  }

  lemma ResolvedIndexOwned(m: Metadata, infos: TableMap, ts: TableMap, k: Id)
    requires RowsOk(m) && Collected(m, infos) && AllResolved(infos, ts) && k in m.indexes
    ensures IndexOwned(m.indexes[k], ts, k)
  {
    var t := m.indexes[k].table;
    assert IndexRowOk(m, k);
    assert t in infos && TableCollected(m, t, infos[t]) && ResolvedFrom(t, infos[t], ts[t]);
  }

  lemma ResolvedDescribed(m: Metadata, infos: TableMap, ts: TableMap)
    requires RowsOk(m) && Collected(m, infos) && AllResolved(infos, ts)
    ensures Describes(m, ts)
  {
    forall t | t in ts
      ensures m.tables[t] == RowOfTable(ts[t].descriptor)
      ensures forall i :: 0 <= i < |ts[t].columns| ==> ColumnStored(m, ts[t].columns[i])
      ensures forall i :: 0 <= i < |ts[t].indexes| ==> IndexStored(m, ts[t].indexes[i])
    {
      ResolvedStored(m, infos, ts, t);
    }
    forall k | k in m.columns
      ensures ColumnOwned(m.columns[k], ts, k)
    {
      ResolvedColumnOwned(m, infos, ts, k);
    }
    forall k | k in m.indexes
      ensures IndexOwned(m.indexes[k], ts, k)
    {
      ResolvedIndexOwned(m, infos, ts, k);
    }
  }

  lemma ResolvedTableFits(m: Metadata, info: TableInfo, t: Id, resolved: TableInfo)
    requires RowsOk(m) && t in m.tables && TableCollected(m, t, info)
    requires ResolvedFrom(t, info, resolved)
    ensures TableFits(t, resolved, m.pageCount)
  {
    assert TableRowOk(m, t);
    forall i | 0 <= i < |resolved.columns|
      ensures ColumnFits(t, resolved.columns[i], i)
    {
      assert resolved.columns[i] in info.columns;
      assert ColumnRowOk(m, resolved.columns[i].id);
    }
    forall i | 0 <= i < |resolved.indexes|
      ensures IndexFits(t, resolved, resolved.indexes[i], m.pageCount)
    {
      var x := resolved.indexes[i];
      assert x in info.indexes;
      assert HasColumn(info.columns, x.column);
      var j :| 0 <= j < |info.columns| && info.columns[j].id == x.column;
      assert info.columns[j] in resolved.columns;
      var k :| 0 <= k < |resolved.columns| && resolved.columns[k] == info.columns[j];
      assert HasColumn(resolved.columns, x.column);
    }
  }

  /** Every table's schema is the layout of its columns. */
  ghost predicate SchemasIndexed(tables: TableMap, schemas: map<Id, Schema>) {
    && (forall t :: t in schemas <==> t in tables)
    && forall t :: t in tables ==> SchemaOf(schemas[t], tables[t].columns)
  }

  ghost predicate Canonical(tables: TableMap) {
    forall t :: IsSystemTable(t) && t in tables ==> SpecsOf(tables[t].columns) == SystemSpecs(t)
  }

  method CheckSystemSchemas(tables: TableMap) returns (ok: bool)
    ensures ok <==> Canonical(tables)
  {
    for t := 1 to 5
      invariant forall u :: 1 <= u < t && u in tables ==> SpecsOf(tables[u].columns) == SystemSpecs(u)
    {
      if t in tables && SpecsOf(tables[t].columns) != SystemSpecs(t) {
        return false;
      }
    }
    ok := true;
  }

  /** What resolve_schemas has after the tables ks. */
  ghost predicate Resolving(infos: TableMap, ks: seq<Id>, tables: TableMap, schemas: map<Id, Schema>) {
    && (forall t :: t in tables <==> t in ks)
    && (forall t :: t in tables ==> t in infos && ResolvedFrom(t, infos[t], tables[t]))
    && SchemasIndexed(tables, schemas)
  }

  lemma ResolveOne(infos: TableMap, ks: seq<Id>, more: seq<Id>, t: Id, tables: TableMap, schemas: map<Id, Schema>,
                   info: TableInfo, schema: Schema)
    requires Resolving(infos, ks, tables, schemas) && t in infos && forall j :: j in more <==> j in ks || j == t
    requires ResolvedFrom(t, infos[t], info) && SchemaOf(schema, info.columns)
    ensures Resolving(infos, more, tables[t := info], schemas[t := schema])
  {
    hide ResolvedFrom, SchemaOf;
  }

  method ResolveAll(ghost m: Metadata, infos: TableMap) returns (r: Result<(TableMap, map<Id, Schema>)>)
    requires Collected(m, infos)
    ensures r.Ok? ==> AllResolved(infos, r.value.0) && SchemasIndexed(r.value.0, r.value.1)
    ensures r.Err? ==> r.code == Corruption && forall ts :: !Accepts(m, ts)
  {
    var ids := ScanIds(infos);
    var tables: TableMap := map[];
    var schemas: map<Id, Schema> := map[];
    for i := 0 to |ids|
      invariant Resolving(infos, ids[..i], tables, schemas)
    {
      hide Resolving, Accepts, TableCollected, Resolvable, SchemaOf;
      var t := ids[i];
      NextId(ids, i);
      assert t in infos && TableCollected(m, t, infos[t]);
      Describable(m, t, infos[t]);
      var resolved := ResolveTable(t, infos[t]);
      if resolved.Err? {
        NotResolvable(m, t, infos[t]);
        return Err(Corruption);
      }
      ResolveOne(infos, ids[..i], ids[..i + 1], t, tables, schemas, resolved.value.0, resolved.value.1);
      tables, schemas := tables[t := resolved.value.0], schemas[t := resolved.value.1];
    }
    hide ResolvedFrom, SchemasIndexed;
    assert ids[..|ids|] == ids && forall t :: t in infos ==> t in ids;
    r := Ok((tables, schemas));
  }

  method ResolveSchemas(ghost m: Metadata, infos: TableMap) returns (r: Result<(TableMap, map<Id, Schema>)>)
    requires RowsOk(m) && Collected(m, infos)
    ensures r.Ok? ==> Accepts(m, r.value.0) && AllResolved(infos, r.value.0) && SchemasIndexed(r.value.0, r.value.1)
    ensures r.Err? ==> r.code == Corruption && forall ts :: !Accepts(m, ts)
  {
    hide RowsOk, Collected, Accepts, AllResolved, SchemasIndexed, Canonical;
    r := ResolveAll(m, infos);
    if r.Err? {
      return;
    }
    var canonical := CheckSystemSchemas(r.value.0);
    if !canonical {
      NotCanonical(m, infos, r.value.0);
      return Err(Corruption);
    }
    ResolvedAccepted(m, infos, r.value.0);
  }

  lemma Describable(m: Metadata, t: Id, info: TableInfo)
    requires t in m.tables && TableCollected(m, t, info)
    ensures DistinctIds(info.columns) && forall i :: 0 <= i < |info.columns| ==> CanBeColumn(info.columns[i].spec)
  {
    assert forall i :: 0 <= i < |info.columns| ==> info.columns[i] in info.columns;
  }

  lemma NotResolvable(m: Metadata, t: Id, info: TableInfo)
    requires t in m.tables && TableCollected(m, t, info)
    requires forall cs :: Rearranged(info.columns, cs) ==> !Resolvable(t, info.(columns := cs))
    ensures forall ts :: !Accepts(m, ts)
  {
    forall ts: TableMap
      ensures !Accepts(m, ts)
    {
      if Accepts(m, ts) {
        CollectedAgrees(m, ts, t, info);
      }
    }
  }

  lemma NotCanonical(m: Metadata, infos: TableMap, tables: TableMap)
    requires Collected(m, infos) && AllResolved(infos, tables) && !Canonical(tables)
    ensures forall ts :: !Accepts(m, ts)
  {
    var t :| IsSystemTable(t) && t in tables && SpecsOf(tables[t].columns) != SystemSpecs(t);
    assert ResolvedFrom(t, infos[t], tables[t]) && TableCollected(m, t, infos[t]);
    forall ts: TableMap
      ensures !Accepts(m, ts)
    {
      if Accepts(m, ts) {
        CollectedAgrees(m, ts, t, infos[t]);
        InOrderUnique(infos[t].columns, tables[t].columns, ts[t].columns);
      }
    }
  }

  lemma RowsRejected(m: Metadata)
    requires !RowsOk(m)
    ensures forall ts :: !Accepts(m, ts)
  {
    forall ts: TableMap
      ensures !Accepts(m, ts)
    {
      if Accepts(m, ts) {
        AcceptedRows(m, ts);
      }
    }
  }

  ghost predicate SameDescriptors(a: TableMap, b: TableMap) {
    (forall t :: t in a <==> t in b) && forall t :: t in a ==> b[t].descriptor == a[t].descriptor
  }

  lemma NamesKept(a: TableMap, b: TableMap, idByName: map<Bytes, Id>)
    requires NamesIndexed(a, idByName) && SameDescriptors(a, b)
    ensures NamesIndexed(b, idByName)
  {
    forall n | n in idByName
      ensures idByName[n] in b && b[idByName[n]].descriptor.name == n
    {
      var t := idByName[n];
      assert t in a && t in b;
    }
  }

  /** load_tables, load_columns, load_index_columns and load_indexes. */
  method LoadRows(m: Metadata) returns (r: Result<Loaded>)
    ensures r.Ok? <==> RowsOk(m)
    ensures r.Ok? ==> Collected(m, r.value.tables) && NamesIndexed(r.value.tables, r.value.idByName)
    ensures r.Err? ==> r.code == Corruption
  {
    hide TableRowsOk, ColumnRowsOk, IndexColumnRowsOk, IndexRowsOk, NamesIndexed, Gathered, IndexesGathered;
    var loaded := LoadTables(m);
    if loaded.Err? {
      return Err(Corruption);
    }
    var tables0 := loaded.value.tables;
    var columns; ghost var cks;
    columns, cks := LoadColumns(m, tables0);
    if columns.Err? {
      return Err(Corruption);
    }
    var columnByIndex := LoadIndexColumns(m);
    if columnByIndex.Err? {
      return Err(Corruption);
    }
    var indexes; ghost var iks;
    indexes, iks := LoadIndexes(m, columns.value, columnByIndex.value);
    if indexes.Err? {
      return Err(Corruption);
    }
    assert SameDescriptors(tables0, indexes.value);
    NamesKept(tables0, indexes.value, loaded.value.idByName);
    AllCollected(m, cks, iks, tables0, columns.value, indexes.value);
    r := Ok(Loaded(indexes.value, map[], loaded.value.idByName));
  }

  lemma AllCollected(m: Metadata, cks: seq<Id>, iks: seq<Id>, tables0: TableMap, columns: TableMap, indexes: TableMap)
    requires forall t :: t in tables0 <==> t in m.tables
    requires forall t :: t in m.tables ==> tables0[t] == TableOfRow(m.tables[t])
    requires SameDescriptors(tables0, indexes) && OnlyIndexesDiffer(columns, indexes)
    requires (forall k :: k in cks <==> k in m.columns) && (forall k :: k in iks <==> k in m.indexes)
    requires AllGathered(m, cks, columns) && AllIndexesGathered(m, iks, indexes)
    ensures Collected(m, indexes)
  {
    forall t | t in indexes
      ensures t in m.tables && TableCollected(m, t, indexes[t])
    {
      assert Gathered(m, cks, t, columns[t].columns) && IndexesGathered(m, iks, t, indexes[t].indexes);
      CollectedFromGathered(m, cks, iks, t, indexes[t]);
    }
    forall t
      ensures t in indexes <==> t in m.tables
    {
      assert t in tables0 <==> t in indexes;
    }
  }

  /** CatalogLoader::load succeeds exactly when the rows describe acceptable tables, and gives those tables. */
  method Load(m: Metadata) returns (r: Result<Loaded>)
    ensures r.Ok? ==> Accepts(m, r.value.tables) && SchemasIndexed(r.value.tables, r.value.schemas)
    ensures r.Ok? ==> NamesIndexed(r.value.tables, r.value.idByName)
    ensures r.Err? ==> r.code == Corruption && forall ts :: !Accepts(m, ts)
  {
    hide RowsOk, Collected, Accepts, NamesIndexed, SchemasIndexed;
    var rows := LoadRows(m);
    if rows.Err? {
      RowsRejected(m);
      return Err(Corruption);
    }
    var resolved := ResolveSchemas(m, rows.value.tables);
    if resolved.Err? {
      return Err(Corruption);
    }
    assert SameDescriptors(rows.value.tables, resolved.value.0);
    NamesKept(rows.value.tables, resolved.value.0, rows.value.idByName);
    r := Ok(Loaded(resolved.value.0, resolved.value.1, rows.value.idByName));
  }

  /** Whatever acceptable tables the rows describe are the ones that loading gives. */
  lemma LoadGivesBack(m: Metadata, ts: TableMap, r: Result<Loaded>)
    requires Accepts(m, ts)
    requires r.Ok? ==> Accepts(m, r.value.tables)
    requires r.Err? ==> forall us :: !Accepts(m, us)
    ensures r.Ok? && r.value.tables == ts
  {
    DescribedOnce(m, ts, if r.Ok? then r.value.tables else ts);
  }
}
