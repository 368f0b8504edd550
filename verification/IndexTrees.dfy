/** The B+ trees that CREATE TABLE and CREATE INDEX make are the ones that the statements need: their keys
    are as long as encoded keys, their values as encoded rows and primary keys. */
module IndexTrees {
  import opened Bytes
  import opened BTreeStore
  import opened PagedBTree
  import opened Schemas
  import opened CatalogStates
  import opened CatalogLoader
  import opened CatalogTrees
  import opened CatalogSteps
  import BTreeEntries
  import BTreeShape
  import AccessPaths
  import AccessRuns
  import Keys
  import RowCodec
  import Tables

  /** What the statements need of the schema. */
  function RowsOf(schema: Schema): Tables.TableSchema {
    Tables.TableSchema(schema.columns, schema.primaryKey)
  }

  /** The same of an index on the column at position c. */
  function IndexOn(x: IndexDescriptor, c: nat): Tables.IndexDescriptor {
    Tables.IndexDescriptor(x.primary, c, x.unique)
  }

  /** Index i of table t is a secondary one, on the column at position c. */
  ghost predicate SecondaryIndex(s: CatalogState, t: Id, i: nat, c: nat) {
    && t in s.tables && i < |s.tables[t].indexes| && c < |s.tables[t].columns| && t in s.schemas
    && !s.tables[t].indexes[i].primary && s.tables[t].indexes[i].column == s.tables[t].columns[c].id
  }

  /** The bytes of a row's key: what indexed_key_bytes gives, and for an index that is not unique the primary
      key's behind it. */
  ghost function KeyBytes(schema: Tables.TableSchema, index: Tables.IndexDescriptor, row: Tables.Row): Bytes
    requires schema.Valid() && Tables.CanIndex(schema, index) && Tables.RowOk(schema, row)
  {
    Tables.IndexKeyIsConcat(schema, index, row);
    var column := Keys.Encode(row[index.column], schema.columns[index.column].logicalType).value;
    if index.unique then column else column + PrimaryKeyBytes(schema, index, row)
  }

  ghost function PrimaryKeyBytes(schema: Tables.TableSchema, index: Tables.IndexDescriptor, row: Tables.Row): Bytes
    requires schema.Valid() && Tables.CanIndex(schema, index) && Tables.RowOk(schema, row)
  {
    Tables.IndexKeyIsConcat(schema, index, row);
    Keys.Encode(row[schema.primaryKey], schema.columns[schema.primaryKey].logicalType).value
  }

  /** The schema of a table that the catalog describes can be used by statements. */
  lemma SchemaUsable(s: CatalogState, m: Metadata, t: Id)
    requires StateOk(s, m) && t in s.tables
    ensures t in s.schemas && s.schemas[t].LaidOut() && s.schemas[t].specs == SpecsOf(s.tables[t].columns)
    ensures RowsOf(s.schemas[t]).Valid() && s.schemas[t].specs[s.schemas[t].primaryKey].primaryKey
  {
    hide TreesOk;
    var schema, cs := s.schemas[t], s.tables[t].columns;
    assert SchemaOf(schema, cs) && TableFits(t, s.tables[t], m.pageCount);
    assert ColumnFits(t, cs[schema.primaryKey], schema.primaryKey);
  }

  /** The trees of its table and indexes. */
  lemma TreesRecorded(s: CatalogState, m: Metadata, t: Id)
    requires StateOk(s, m) && t in s.tables
    ensures TableTreesOk(s.tables[t], m.trees) && TreesWithin(m)
  {
  }

  /** The tree of a table has keys of the primary key's size and values of a row's. */
  lemma TableTreeSizes(s: CatalogState, m: Metadata, t: Id, row: Tables.Row, bytes: Bytes)
    requires StateOk(s, m) && t in s.tables
    ensures t in s.schemas && RowsOf(s.schemas[t]).Valid()
    ensures var root, schema := s.tables[t].descriptor.root, s.schemas[t];
      && root in m.trees && LayoutOk(m.trees[root])
      && m.trees[root].keySize == AccessRuns.RowKeySize(RowsOf(schema))
      && (RowCodec.RowFits(schema.columns, row) && RowCodec.Encodes(schema.columns, row, bytes) ==>
          |bytes| == m.trees[root].valueSize)
  {
    SchemaUsable(s, m, t);
    TreesRecorded(s, m, t);
    hide StateOk;
  }

  /** The tree of a secondary index, however it was made, has keys and values of the sizes recorded for it. */
  lemma IndexTreeSizes(s: CatalogState, m: Metadata, t: Id, i: nat, c: nat)
    requires StateOk(s, m) && SecondaryIndex(s, t, i, c)
    ensures var schema, x := RowsOf(s.schemas[t]), s.tables[t].indexes[i];
      && schema.Valid() && Tables.CanIndex(schema, IndexOn(x, c)) && x.root in m.trees && LayoutOk(m.trees[x.root])
      && m.trees[x.root] == IndexSizes(Values.FixedSize(schema.columns[c].logicalType),
                                       AccessRuns.RowKeySize(schema), x.unique)
  {
    SchemaUsable(s, m, t);
    TreesRecorded(s, m, t);
    hide StateOk, LayoutOk;
    var info, schema := s.tables[t], s.schemas[t];
    assert IndexTreeOk(info.columns, info.indexes[i], m.trees);
    assert info.columns[c].spec == schema.specs[c];
    assert info.columns[schema.primaryKey].spec == schema.specs[schema.primaryKey];
  }

  /** Those are the lengths of the keys and values that the statements put into it. */
  lemma KeysFitTree(s: CatalogState, m: Metadata, t: Id, i: nat, c: nat, row: Tables.Row)
    requires StateOk(s, m) && SecondaryIndex(s, t, i, c)
    requires Tables.RowOk(RowsOf(s.schemas[t]), row)
    ensures var schema, x := RowsOf(s.schemas[t]), s.tables[t].indexes[i];
      && schema.Valid() && Tables.CanIndex(schema, IndexOn(x, c)) && x.root in m.trees
      && |KeyBytes(schema, IndexOn(x, c), row)| == m.trees[x.root].keySize
      && |PrimaryKeyBytes(schema, IndexOn(x, c), row)| == m.trees[x.root].valueSize
      && Number(KeyBytes(schema, IndexOn(x, c), row)) == Tables.IndexKey(schema, IndexOn(x, c), row)
      && Number(PrimaryKeyBytes(schema, IndexOn(x, c), row)) == Tables.RowKey(schema, row)
  {
    IndexTreeSizes(s, m, t, i, c);
    Tables.IndexKeyIsConcat(RowsOf(s.schemas[t]), IndexOn(s.tables[t].indexes[i], c), row);
    hide StateOk, LayoutOk;
  }

  /** An empty tree of the sizes that CREATE TABLE or CREATE INDEX asked for is one that the statements can
      fill and follow. */
  method MakeIndexTree(store: PageStore, sizes: TreeSizes, ghost s: CatalogState, ghost m: Metadata, ghost t: Id,
                       ghost i: nat, ghost c: nat)
    returns (tree: BTree)
    requires store.Valid() && StateOk(s, m) && SecondaryIndex(s, t, i, c)
    requires s.tables[t].indexes[i].root in m.trees && sizes == m.trees[s.tables[t].indexes[i].root]
    modifies store
    ensures fresh(tree) && tree.store == store && tree.Contents() == map[]
    ensures RowsOf(s.schemas[t]).Valid() &&
      Tables.CanIndex(RowsOf(s.schemas[t]), IndexOn(s.tables[t].indexes[i], c)) &&
      AccessRuns.IndexStored(RowsOf(s.schemas[t]), IndexOn(s.tables[t].indexes[i], c), map[], tree)
  {
    IndexTreeSizes(s, m, t, i, c);
    hide StateOk;
    tree := new BTree(store, sizes.keySize, sizes.valueSize);
    EmptyHolds(tree);
  }

  lemma EmptyMap(es: seq<BTreeShape.Entry>)
    ensures BTreeEntries.MapOf(es) == map[] <==> es == []
  {
    if es != [] {
      assert es[|es| - 1].key in BTreeEntries.MapOf(es);
    }
  }

  lemma EmptyHolds(tree: BTree)
    requires tree.Valid() && tree.Contents() == map[]
    ensures BTreeShape.Entries(tree.tree) == [] && AccessPaths.HoldsIndex(BTreeShape.Entries(tree.tree), map[])
  {
    var es := BTreeShape.Entries(tree.tree);
    EmptyMap(es);
  }
}
