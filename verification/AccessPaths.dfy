/** How a predicate is turned into key ranges, and why every plan visits exactly the rows that the
    predicate selects. */
module AccessPaths {
  import opened Status
  import opened BTreeShape
  import opened BTreeScan
  import Bytes
  import Values
  import Keys
  import Tables

  type Row = Tables.Row
  type Operator = Values.ComparisonOperator

  datatype PredicateState =
    | Absent
    | Impossible
    | NullTest(column: nat, op: Operator)
    | Comparison(column: nat, op: Operator, value: Values.Value)

  /** row_matches_predicate. */
  function RowMatches(row: Row, state: PredicateState): Result<bool>
    requires state.NullTest? || state.Comparison? ==> state.column < |row|
  {
    match state
    case Absent => Ok(true)
    case Impossible => Ok(false)
    case NullTest(column, op) =>
      Ok(if op == Values.IsNull then row[column] == Values.Null else row[column] != Values.Null)
    case Comparison(column, op, value) =>
      if row[column] == Values.Null then Ok(false)
      else
        match Values.CompareValues(row[column], value)
        case Err(code) => Err(code)
        case Ok(c) => Ok(Values.ComparisonMatches(c, op))
  }

  datatype AccessPath = FullTableScan | PrimaryKeyRange | SecondaryIndexRange(index: nat)

  /** The first secondary index on the column, from position i on. */
  function IndexOn(indexes: seq<Tables.IndexDescriptor>, column: nat, i: nat): (r: Option<nat>)
    requires i <= |indexes|
    ensures r.Some? ==> i <= r.value < |indexes| && !indexes[r.value].primary && indexes[r.value].column == column
    ensures r.None? ==> forall j :: i <= j < |indexes| ==> indexes[j].primary || indexes[j].column != column
    decreases |indexes| - i
  {
    if i == |indexes| then None
    else if !indexes[i].primary && indexes[i].column == column then Some(i)
    else IndexOn(indexes, column, i + 1)
  }

  function PlanAccessPath(schema: Tables.TableSchema, indexes: seq<Tables.IndexDescriptor>,
                          state: PredicateState): AccessPath {
    match state
    case Comparison(column, _, _) =>
      if column == schema.primaryKey then PrimaryKeyRange
      else
        (match IndexOn(indexes, column, 0)
         case Some(i) => SecondaryIndexRange(i)
         case None => FullTableScan)
    case _ => FullTableScan
  }

  // ---- Ranges ------------------------------------------------------------------------------

  datatype Range = Range(lo: Option<Key>, hi: Option<Key>)

  predicate IsComparison(op: Operator) {
    op != Values.IsNull && op != Values.IsNotNull
  }

  /** The ranges that open_cursors scans, given where the keys equal to the literal begin and where the
      greater ones begin, if there can be any. */
  function Ranges(op: Operator, key: Key, next: Option<Key>): seq<Range>
    requires IsComparison(op)
  {
    match op
    case Equal => [Range(Some(key), next)]
    case NotEqual => [Range(None, Some(key))] + if next.Some? then [Range(next, None)] else []
    case Less => [Range(None, Some(key))]
    case LessEqual => [Range(None, next)]
    case Greater => if next.None? then [] else [Range(next, None)]
    case _ => [Range(Some(key), None)]
  }

  /** What the cursors over the ranges list, one after the other. */
  ghost function Scanned(es: seq<Entry>, ranges: seq<Range>): seq<Entry> {
    if ranges == [] then [] else Between(es, ranges[0].lo, ranges[0].hi) + Scanned(es, ranges[1..])
  }

  /** Whether a key lies before, among or after the keys equal to the literal. */
  function Zone(k: Key, key: Key, next: Option<Key>): int {
    if k < key then -1 else if next.Some? && next.value <= k then 1 else 0
  }

  lemma ScannedOne(es: seq<Entry>, r: Range)
    ensures Scanned(es, [r]) == Between(es, r.lo, r.hi)
  {
    assert [r][1..] == [];
  }

  lemma ScannedTwo(es: seq<Entry>, r: Range, s: Range)
    ensures Scanned(es, [r, s]) == Between(es, r.lo, r.hi) + Between(es, s.lo, s.hi)
  {
    assert [r, s][1..] == [s];
    ScannedOne(es, s);
  }

  /** The ranges of an operator hold exactly the entries whose key lies in a matching zone, in key order
      and each once; NotEqual with its two cursors and the key without successor included. */
  lemma RangesExact(es: seq<Entry>, op: Operator, key: Key, next: Option<Key>)
    requires Sorted(es) && IsComparison(op) && (next.Some? ==> key < next.value)
    ensures Sorted(Scanned(es, Ranges(op, key, next)))
    ensures forall e :: e in Scanned(es, Ranges(op, key, next)) <==>
      e in es && Values.ComparisonMatches(Zone(e.key, key, next), op)
  {
    var rs := Ranges(op, key, next);
    if |rs| == 1 {
      ScannedOne(es, rs[0]);
      BetweenSorted(es, rs[0].lo, rs[0].hi);
      assert rs == [rs[0]];
      forall e ensures e in Scanned(es, rs) <==> e in es && InRange(e.key, rs[0].lo, rs[0].hi) {
        BetweenMembers(es, rs[0].lo, rs[0].hi, e);
      }
    } else if |rs| == 2 {
      assert rs == [rs[0], rs[1]];
      ScannedTwo(es, rs[0], rs[1]);
      TwoRanges(es, key, next.value);
      forall e ensures e in Scanned(es, rs) <==> e in es && (e.key < key || next.value <= e.key) {
        BetweenMembers(es, rs[0].lo, rs[0].hi, e);
        BetweenMembers(es, rs[1].lo, rs[1].hi, e);
      }
    }
  }

  lemma TwoRanges(es: seq<Entry>, key: Key, next: Key)
    requires Sorted(es) && key < next
    ensures Sorted(Between(es, None, Some(key)) + Between(es, Some(next), None))
  {
    var a, b := Between(es, None, Some(key)), Between(es, Some(next), None);
    BetweenSorted(es, None, Some(key));
    BetweenSorted(es, Some(next), None);
    forall i, j | 0 <= i < |a| && 0 <= j < |b| ensures a[i].key < b[j].key {
      BetweenMembers(es, None, Some(key), a[i]);
      BetweenMembers(es, Some(next), None, b[j]);
    }
    forall i, j | 0 <= i < j < |a + b| ensures (a + b)[i].key < (a + b)[j].key {
      if i < |a| && j >= |a| {
        assert (a + b)[i] == a[i] && (a + b)[j] == b[j - |a|];
      }
    }
  }

  // ---- The primary-key plan ----------------------------------------------------------------

  /** The literal can be compared with the column through its key. */
  ghost predicate Usable(schema: Tables.TableSchema, state: PredicateState) {
    && schema.Valid() && state.Comparison? && IsComparison(state.op) && state.column < |schema.columns|
    && !schema.columns[state.column].nullable
    && Values.IsKey(state.value, schema.columns[state.column].logicalType)
  }

  ghost predicate Matches(schema: Tables.TableSchema, row: Row, state: PredicateState)
    requires Usable(schema, state) && Tables.RowOk(schema, row)
  {
    RowMatches(row, state) == Ok(true)
  }

  ghost function LiteralKey(schema: Tables.TableSchema, state: PredicateState): nat
    requires Usable(schema, state)
  {
    Keys.KeyNumber(state.value, schema.columns[state.column].logicalType)
  }

  /** The number after k among those of the given width, if there is one. */
  function NextNumber(k: nat, width: nat): Option<Key> {
    if k + 1 < Keys.Radix(width) then Some(k + 1) else None
  }

  /** A row matches exactly when its column key lies in a matching zone. */
  lemma MatchesByKey(schema: Tables.TableSchema, row: Row, state: PredicateState)
    requires Usable(schema, state) && Tables.RowOk(schema, row)
    ensures var c, k := Tables.ColumnKey(schema, state.column, row), LiteralKey(schema, state);
      Matches(schema, row, state) <==>
        Values.ComparisonMatches(if c < k then -1 else if c > k then 1 else 0, state.op)
    ensures Tables.ColumnKey(schema, state.column, row) <
      Keys.Radix(Values.FixedSize(schema.columns[state.column].logicalType))
  {
    assert Tables.ColumnOk(schema.columns[state.column], row[state.column]);
    Keys.KeyNumberOrder(row[state.column], state.value, schema.columns[state.column].logicalType);
  }

  /** The table tree holds the rows: one entry per row, under its primary key. */
  ghost predicate Holds(es: seq<Entry>, table: Tables.Table) {
    Sorted(es) && forall k :: k in table <==> exists e :: e in es && e.key == k
  }

  /** A primary-key range visits exactly the rows that the predicate selects, each once. */
  lemma PrimaryPlanExact(schema: Tables.TableSchema, table: Tables.Table, es: seq<Entry>, state: PredicateState)
    requires Usable(schema, state) && Tables.TableOk(schema, table) && Holds(es, table) &&
      state.column == schema.primaryKey
    ensures var k := LiteralKey(schema, state);
      var visited :=
        Scanned(es, Ranges(state.op, k, NextNumber(k, Values.FixedSize(schema.columns[state.column].logicalType))));
      && Sorted(visited)
      && forall x :: (exists e :: e in visited && e.key == x) <==> x in table && Matches(schema, table[x], state)
  {
    var k := LiteralKey(schema, state);
    var next := NextNumber(k, Values.FixedSize(schema.columns[state.column].logicalType));
    var visited := Scanned(es, Ranges(state.op, k, next));
    RangesExact(es, state.op, k, next);
    forall x ensures (exists e :: e in visited && e.key == x) <==> x in table && Matches(schema, table[x], state) {
      if x in table {
        MatchesByKey(schema, table[x], state);
        assert Tables.RowKey(schema, table[x]) == x;
        assert Zone(x, k, next) == if x < k then -1 else if x > k then 1 else 0;
      }
    }
  }

  // ---- The secondary-index plan ------------------------------------------------------------

  /** How much one step of the indexed column moves an index key. */
  ghost function Span(schema: Tables.TableSchema, index: Tables.IndexDescriptor): nat
    requires schema.Valid()
  {
    if index.unique then 1 else Tables.KeySpan(schema)
  }

  ghost function NextPrefix(c: nat, width: nat, span: nat): Option<Key> {
    if c + 1 < Keys.Radix(width) then Some((c + 1) * span) else None
  }

  /** The index tree holds the index: one entry per index key, with the primary key as its value. */
  ghost predicate HoldsIndex(xs: seq<Entry>, content: map<Key, Key>) {
    && Sorted(xs) && (forall x :: x in xs ==> x.key in content && content[x.key] == Bytes.Number(x.value))
    && (forall k :: k in content ==> exists x :: x in xs && x.key == k)
  }

  lemma Scaled(a: nat, b: nat, span: nat)
    requires a <= b
    ensures a * span <= b * span && (a + 1) * span == a * span + span
  {
  }

  lemma ZoneOfIndexKey(c: nat, p: nat, d: nat, width: nat, span: nat)
    requires p < span && c < Keys.Radix(width) && d < Keys.Radix(width)
    ensures Zone(c * span + p, d * span, NextPrefix(d, width, span)) == if c < d then -1 else if c > d then 1 else 0
    ensures d * span < (d + 1) * span
  {
    var lo, hi, k := d * span, (d + 1) * span, c * span + p;
    Scaled(d, d, span);
    Scaled(c, c, span);
    if c < d {
      Scaled(c + 1, d, span);
      assert k < lo;
    } else if c > d {
      Scaled(d + 1, c, span);
      assert k >= hi;
    } else {
      assert lo <= k < hi;
    }
  }

  /** A secondary-index range leads to exactly the rows that the predicate selects, each once. */
  lemma SecondaryPlanExact(schema: Tables.TableSchema, index: Tables.IndexDescriptor, table: Tables.Table,
                           content: map<Key, Key>,
                           xs: seq<Entry>, state: PredicateState)
    requires Usable(schema, state) && Tables.TableOk(schema, table) && Tables.CanIndex(schema, index) &&
      state.column == index.column
    requires Tables.Agrees(schema, index, table, content) && HoldsIndex(xs, content)
    ensures var d, span := LiteralKey(schema, state), Span(schema, index);
      var visited :=
        Scanned(xs, Ranges(state.op, d * span,
                           NextPrefix(d, Values.FixedSize(schema.columns[state.column].logicalType), span)));
      && (forall i, j :: 0 <= i < j < |visited| ==> Bytes.Number(visited[i].value) != Bytes.Number(visited[j].value))
      && (forall k :: (exists x :: x in visited && Bytes.Number(x.value) == k) <==>
          k in table && Matches(schema, table[k], state))
  {
    hide Ranges, NextPrefix, Tables.IndexKey;

    var d, span, width := LiteralKey(schema, state), Span(schema, index),
      Values.FixedSize(schema.columns[state.column].logicalType);
    var next := NextPrefix(d, width, span);
    var visited := Scanned(xs, Ranges(state.op, d * span, next));
    Keys.KeyNumberOrder(state.value, state.value, schema.columns[state.column].logicalType);
    ZoneOfIndexKey(d, 0, d, width, span);
    RangesExact(xs, state.op, d * span, next);
    forall i, j | 0 <= i < j < |visited| ensures Bytes.Number(visited[i].value) != Bytes.Number(visited[j].value) {
      assert visited[i] in xs && visited[j] in xs;
    }
    forall k
      ensures (exists x :: x in visited && Bytes.Number(x.value) == k) <==>
        k in table && Matches(schema, table[k], state)
    {
      if k in table {
        var key := Tables.IndexKey(schema, index, table[k]);
        assert Tables.EntryFor(schema, index, table[k], k, content);
        var x :| x in xs && x.key == key;
        ZoneOfRow(schema, index, table[k], state);
        assert x in visited <==> Matches(schema, table[k], state);
      }
    }
  }

  lemma IndexKeyNumber(schema: Tables.TableSchema, index: Tables.IndexDescriptor, row: Row)
    requires schema.Valid() && Tables.RowOk(schema, row) && Tables.CanIndex(schema, index)
    ensures var p := if index.unique then 0 else Tables.RowKey(schema, row);
      p < Span(schema, index) &&
        Tables.IndexKey(schema, index, row) == Tables.ColumnKey(schema, index.column, row) * Span(schema, index) + p
  {
    Tables.RowKeyBound(schema, row);
    hide Tables.ColumnKey, Tables.RowKey;
  }

  lemma ZoneOfRow(schema: Tables.TableSchema, index: Tables.IndexDescriptor, row: Row, state: PredicateState)
    requires Usable(schema, state) && Tables.RowOk(schema, row) && Tables.CanIndex(schema, index) &&
      state.column == index.column
    ensures var d, span, width := LiteralKey(schema, state), Span(schema, index),
      Values.FixedSize(schema.columns[state.column].logicalType);
      Matches(schema, row, state) <==>
        Values.ComparisonMatches(Zone(Tables.IndexKey(schema, index, row), d * span, NextPrefix(d, width, span)),
                                 state.op)
  {
    var d, span, width := LiteralKey(schema, state), Span(schema, index),
      Values.FixedSize(schema.columns[state.column].logicalType);
    hide Tables.IndexKey, Tables.ColumnKey, Tables.RowKey, NextPrefix, Zone, Span;
    MatchesByKey(schema, row, state);
    Keys.KeyNumberOrder(state.value, state.value, schema.columns[state.column].logicalType);
    IndexKeyNumber(schema, index, row);
    var c, p := Tables.ColumnKey(schema, index.column, row), if index.unique then 0 else Tables.RowKey(schema, row);
    ZoneOfIndexKey(c, p, d, width, span);
  }
}
