/** Row layouts: a null bitmap, then every column in its fixed range. */
module Schemas {
  import opened Bytes
  import opened Status
  import opened Values
  import opened Tables

  function NullBitmapSize(columns: nat): nat {
    (columns + 7) / 8
  }

  function TotalSize(columns: seq<Column>): nat {
    if columns == [] then 0 else TotalSize(columns[..|columns| - 1]) + FixedSize(columns[|columns| - 1].logicalType)
  }

  /** Where column i starts. */
  function OffsetOf(columns: seq<Column>, i: nat): nat
    requires i <= |columns|
  {
    NullBitmapSize(|columns|) + TotalSize(columns[..i])
  }

  function RowSize(columns: seq<Column>): nat {
    OffsetOf(columns, |columns|)
  }

  /** The range of column i ends where the next one starts. */
  lemma Adjacent(columns: seq<Column>, i: nat)
    requires i < |columns|
    ensures OffsetOf(columns, i + 1) == OffsetOf(columns, i) + FixedSize(columns[i].logicalType)
  {
    assert columns[..i + 1][..i] == columns[..i];
  }

  /** Columns' ranges lie in order inside the row, so no two share a byte. */
  lemma {:induction false} Ordered(columns: seq<Column>, i: nat, j: nat)
    requires i <= j <= |columns|
    ensures NullBitmapSize(|columns|) <= OffsetOf(columns, i) <= OffsetOf(columns, j) <= RowSize(columns)
    decreases |columns| - i
  {
    if i < |columns| {
      Adjacent(columns, i);
      Ordered(columns, i + 1, if j == i then i + 1 else j);
    }
  }

  /** Behind the null bitmap, every byte of the row belongs to a column. */
  lemma {:induction false} ColumnAt(columns: seq<Column>, p: nat, n: nat) returns (i: nat)
    requires n <= |columns| && NullBitmapSize(|columns|) <= p < OffsetOf(columns, n)
    ensures i < n && OffsetOf(columns, i) <= p < OffsetOf(columns, i + 1)
  {
    if n == 0 {
      assert false;
    } else if OffsetOf(columns, n - 1) <= p {
      i := n - 1;
    } else {
      i := ColumnAt(columns, p, n - 1);
    }
  }

  /** A column as declared. */
  datatype ColumnSpec = ColumnSpec(name: Bytes, column: Column, primaryKey: bool, unique: bool)

  /** The checks of Column::create and LogicalType::string. */
  predicate CanBeColumn(spec: ColumnSpec) {
    && spec.name != [] && (spec.column.logicalType.String? ==> spec.column.logicalType.capacity > 0)
    && (spec.primaryKey || spec.unique ==> !spec.column.nullable && CanBeIndexed(spec.column.logicalType))
  }

  datatype Schema = Schema(specs: seq<ColumnSpec>, columns: seq<Column>, offsets: seq<nat>, primaryKey: nat,
                           rowSize: nat, nullBitmapSize: nat)
  {
    /** The layout that create gives: the ranges follow each other behind the null bitmap. */
    ghost predicate LaidOut() {
      && columns == ColumnsOf(specs) && NamesDistinct(specs) && OnlyPrimaryKey(specs, primaryKey)
      && |offsets| == |columns| && nullBitmapSize == NullBitmapSize(|columns|) && rowSize == RowSize(columns)
      && forall i :: 0 <= i < |columns| ==> offsets[i] == OffsetOf(columns, i)
    }
  }

  /** A layout is given by the declared columns. */
  lemma LayoutUnique(a: Schema, b: Schema)
    requires a.LaidOut() && b.LaidOut() && a.specs == b.specs
    ensures a == b
  {
    assert a.specs[a.primaryKey].primaryKey && b.specs[b.primaryKey].primaryKey;
    assert a.offsets == b.offsets;
  }

  function ColumnsOf(specs: seq<ColumnSpec>): (columns: seq<Column>)
    ensures |columns| == |specs| && forall i :: 0 <= i < |specs| ==> columns[i] == specs[i].column
  {
    seq(|specs|, i requires 0 <= i < |specs| => specs[i].column)
  }

  ghost predicate NamesDistinct(specs: seq<ColumnSpec>) {
    forall i, j :: 0 <= i < j < |specs| ==> specs[i].name != specs[j].name
  }

  ghost predicate OnlyPrimaryKey(specs: seq<ColumnSpec>, k: nat) {
    k < |specs| && forall i :: 0 <= i < |specs| ==> (specs[i].primaryKey <==> i == k)
  }

  /** Schema::create: columns with different names, exactly one of them the primary key, laid out one
      after the other behind the null bitmap. */
  method Create(specs: seq<ColumnSpec>) returns (r: Result<Schema>)
    ensures r.Ok? <==> NamesDistinct(specs) && exists k: nat :: OnlyPrimaryKey(specs, k)
    ensures r.Err? ==> r.code == InvalidArgument
    ensures r.Ok? ==> r.value.specs == specs && r.value.LaidOut()
  {
    if |specs| == 0 {
      return Err(InvalidArgument);
    }
    var distinct := CheckNames(specs);
    if !distinct {
      return Err(InvalidArgument);
    }
    var key := FindPrimaryKey(specs);
    if key.None? {
      return Err(InvalidArgument);
    }
    var columns := ColumnsOf(specs);
    var rowSize := NullBitmapSize(|specs|);
    var offsets: seq<nat> := [];
    for i := 0 to |specs|
      invariant rowSize == OffsetOf(columns, i) && |offsets| == i
      invariant forall j :: 0 <= j < i ==> offsets[j] == OffsetOf(columns, j)
    {
      offsets := offsets + [rowSize];
      Adjacent(columns, i);
      rowSize := rowSize + FixedSize(columns[i].logicalType);
    }
    r := Ok(Schema(specs, columns, offsets, key.value, rowSize, NullBitmapSize(|specs|)));
  }

  method CheckNames(specs: seq<ColumnSpec>) returns (distinct: bool)
    ensures distinct == NamesDistinct(specs)
  {
    var seen: set<Bytes> := {};
    for i := 0 to |specs|
      invariant forall s :: s in seen <==> exists j :: 0 <= j < i && specs[j].name == s
      invariant NamesDistinct(specs[..i])
    {
      if specs[i].name in seen {
        return false;
      }
      seen := seen + {specs[i].name};
      assert forall j :: 0 <= j < i ==> specs[..i + 1][j] == specs[..i][j];
    }
    assert specs[..|specs|] == specs;
    distinct := true;
  }

  method FindPrimaryKey(specs: seq<ColumnSpec>) returns (r: Option<nat>)
    ensures r.Some? ==> OnlyPrimaryKey(specs, r.value)
    ensures r.None? ==> forall k: nat :: !OnlyPrimaryKey(specs, k)
  {
    r := None;
    for i := 0 to |specs|
      invariant r.None? ==> forall j :: 0 <= j < i ==> !specs[j].primaryKey
      invariant r.Some? ==> r.value < i && forall j :: 0 <= j < i ==> (specs[j].primaryKey <==> j == r.value)
    {
      if specs[i].primaryKey {
        if r.Some? {
          assert specs[r.value].primaryKey && specs[i].primaryKey;
          return None;
        }
        r := Some(i);
      }
    }
    assert forall k: nat :: OnlyPrimaryKey(specs, k) ==> specs[k].primaryKey;
  }
}
