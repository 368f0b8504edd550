/** Every plan for a predicate visits what a statement needs to visit. */
module Plans {
  import opened BTreeShape
  import opened AccessPaths
  import opened IndexMaintenance
  import opened StatementEffects
  import Bytes
  import Tables
  import Values

  /** The primary keys of table entries. */
  function KeysOf(es: seq<Entry>): (keys: seq<Key>)
    ensures |keys| == |es| && forall i :: 0 <= i < |es| ==> keys[i] == es[i].key
  {
    seq(|es|, i requires 0 <= i < |es| => es[i].key)
  }

  /** The primary keys that index entries lead to. */
  function TargetsOf(xs: seq<Entry>): (keys: seq<Key>)
    ensures |keys| == |xs| && forall i :: 0 <= i < |xs| ==> keys[i] == Bytes.Number(xs[i].value)
  {
    seq(|xs|, i requires 0 <= i < |xs| => Bytes.Number(xs[i].value))
  }

  lemma FullScanVisits(schema: Tables.TableSchema, table: Tables.Table, es: seq<Entry>, state: PredicateState)
    requires schema.Valid() && Tables.TableOk(schema, table) && Evaluable(schema, state) && Holds(es, table)
    ensures Visits(schema, table, state, KeysOf(es))
  {
    forall k ensures k in KeysOf(es) <==> k in table {
      InKeys(es, k);
    }
  }

  lemma PrimaryRangeVisits(schema: Tables.TableSchema, table: Tables.Table, es: seq<Entry>, state: PredicateState)
    requires Usable(schema, state) && Tables.TableOk(schema, table) && Holds(es, table) &&
      state.column == schema.primaryKey
    ensures var k := LiteralKey(schema, state);
      var width := Values.FixedSize(schema.columns[state.column].logicalType);
      var order := KeysOf(Scanned(es, Ranges(state.op, k, NextNumber(k, width))));
      && Visits(schema, table, state, order)
      && forall x :: x in order ==> Chosen(schema, table[x], state)
  {
    PrimaryPlanExact(schema, table, es, state);
    var k := LiteralKey(schema, state);
    var width := Values.FixedSize(schema.columns[state.column].logicalType);
    var visited := Scanned(es, Ranges(state.op, k, NextNumber(k, width)));
    var order := KeysOf(visited);
    forall x ensures x in order <==> x in table && Matches(schema, table[x], state) {
      InKeys(visited, x);
    }
  }

  lemma InKeys(es: seq<Entry>, k: Key)
    ensures k in KeysOf(es) <==> exists e :: e in es && e.key == k
  {
    var keys := KeysOf(es);
    if k in keys {
      var i :| 0 <= i < |keys| && keys[i] == k;
      assert es[i] in es && es[i].key == k;
    }
    if e :| e in es && e.key == k {
      var i :| 0 <= i < |es| && es[i] == e;
      assert keys[i] == k;
    }
  }

  lemma InTargets(xs: seq<Entry>, k: Key)
    ensures k in TargetsOf(xs) <==> exists x :: x in xs && Bytes.Number(x.value) == k
  {
    var keys := TargetsOf(xs);
    if k in keys {
      var i :| 0 <= i < |keys| && keys[i] == k;
      assert xs[i] in xs && Bytes.Number(xs[i].value) == k;
    }
    if x :| x in xs && Bytes.Number(x.value) == k {
      var i :| 0 <= i < |xs| && xs[i] == x;
      assert keys[i] == k;
    }
  }

  lemma SecondaryRangeVisits(schema: Tables.TableSchema, index: Tables.IndexDescriptor, table: Tables.Table,
                             content: map<Key, Key>,
                             xs: seq<Entry>, state: PredicateState)
    requires Usable(schema, state) && Tables.TableOk(schema, table) && Tables.CanIndex(schema, index) &&
      state.column == index.column
    requires Tables.Agrees(schema, index, table, content) && HoldsIndex(xs, content)
    ensures var d, span := LiteralKey(schema, state), Span(schema, index);
      var width := Values.FixedSize(schema.columns[state.column].logicalType);
      var order := TargetsOf(Scanned(xs, Ranges(state.op, d * span, NextPrefix(d, width, span))));
      && Visits(schema, table, state, order)
      && forall x :: x in order ==> Chosen(schema, table[x], state)
  {
    hide Ranges, NextPrefix;
    SecondaryPlanExact(schema, index, table, content, xs, state);
    var d, span := LiteralKey(schema, state), Span(schema, index);
    var width := Values.FixedSize(schema.columns[state.column].logicalType);
    var visited := Scanned(xs, Ranges(state.op, d * span, NextPrefix(d, width, span)));
    var order := TargetsOf(visited);
    forall k ensures k in order <==> k in table && Matches(schema, table[k], state) {
      InTargets(visited, k);
    }
  }

  // ---- The chosen plan -----------------------------------------------------------------------

  /** What resolve_predicate_state gives: a literal of the column's type, compared by an operator that
      compares. */
  ghost predicate Resolved(schema: Tables.TableSchema, state: PredicateState) {
    Evaluable(schema, state) && (state.Comparison? ==> IsComparison(state.op))
  }

  /** The literal has a key. Only a text with a NUL in it has none. */
  predicate LiteralHasKey(state: PredicateState) {
    state.Comparison? && state.value.Text? ==> Values.NulFree(state.value.s)
  }

  ghost function PrimaryRanges(schema: Tables.TableSchema, state: PredicateState): seq<Range>
    requires Usable(schema, state)
  {
    var k := LiteralKey(schema, state);
    Ranges(state.op, k, NextNumber(k, Values.FixedSize(schema.columns[state.column].logicalType)))
  }

  ghost function SecondaryRanges(schema: Tables.TableSchema, index: Tables.IndexDescriptor,
                                 state: PredicateState): seq<Range>
    requires Usable(schema, state)
  {
    var d, span := LiteralKey(schema, state), Span(schema, index);
    Ranges(state.op, d * span, NextPrefix(d, Values.FixedSize(schema.columns[state.column].logicalType), span))
  }

  /** The rows that a path visits, in order, when the table tree lists es and the index trees list xss. */
  ghost function OrderOf(schema: Tables.TableSchema, indexes: seq<Tables.IndexDescriptor>, path: AccessPath,
                         state: PredicateState,
                         es: seq<Entry>, xss: seq<seq<Entry>>): seq<Key>
    requires path.FullTableScan? || Usable(schema, state)
    requires path.SecondaryIndexRange? ==> path.index < |indexes| == |xss|
  {
    match path
    case FullTableScan => KeysOf(es)
    case PrimaryKeyRange => KeysOf(Scanned(es, PrimaryRanges(schema, state)))
    case SecondaryIndexRange(i) => TargetsOf(Scanned(xss[i], SecondaryRanges(schema, indexes[i], state)))
  }

  /** The path that is chosen ranges over the primary key or an index exactly when the predicate compares
      a column that has one, and can be followed exactly when the literal has a key. */
  lemma PlannedPath(schema: Tables.TableSchema, indexes: seq<Tables.IndexDescriptor>, data: Data, state: PredicateState)
    requires DataOk(schema, indexes, data) && Resolved(schema, state)
    ensures var path := PlanAccessPath(schema, indexes, state);
      && (path.FullTableScan? <==> !(state.Comparison? && HasTree(schema, indexes, state.column)))
      && (path.PrimaryKeyRange? <==> state.Comparison? && state.column == schema.primaryKey)
      && (path.SecondaryIndexRange? ==> path.index < |indexes| && IndexedBy(indexes[path.index], state.column))
      && (path.SecondaryIndexRange? ==> Tables.CanIndex(schema, indexes[path.index]))
      && (!path.FullTableScan? ==> (Usable(schema, state) <==> LiteralHasKey(state)))
  {
    var path := PlanAccessPath(schema, indexes, state);
    if path.SecondaryIndexRange? {
      assert TreeOk(schema, indexes[path.index], data.table, data.trees[path.index]);
      assert IndexedBy(indexes[path.index], state.column);
    }
  }

  ghost predicate HasTree(schema: Tables.TableSchema, indexes: seq<Tables.IndexDescriptor>, column: nat) {
    column == schema.primaryKey || exists i :: 0 <= i < |indexes| && IndexedBy(indexes[i], column)
  }

  /** The path needs a key for the literal, and there is none. */
  ghost predicate Unkeyed(schema: Tables.TableSchema, indexes: seq<Tables.IndexDescriptor>, state: PredicateState) {
    state.Comparison? && HasTree(schema, indexes, state.column) && !LiteralHasKey(state)
  }

  ghost predicate IndexedBy(index: Tables.IndexDescriptor, column: nat) {
    !index.primary && index.column == column
  }

  /** Whatever path is chosen visits what a statement needs to visit; one that uses a tree's order visits
      nothing else. */
  lemma PlannedVisits(schema: Tables.TableSchema, indexes: seq<Tables.IndexDescriptor>, data: Data,
                      state: PredicateState,
                      es: seq<Entry>, xss: seq<seq<Entry>>)
    requires DataOk(schema, indexes, data) && Resolved(schema, state) && |xss| == |indexes| && Holds(es, data.table)
    requires forall i :: 0 <= i < |indexes| && !indexes[i].primary ==> HoldsIndex(xss[i], data.trees[i])
    requires var path := PlanAccessPath(schema, indexes, state);
      path.FullTableScan? || LiteralHasKey(state)
    ensures var path := PlanAccessPath(schema, indexes, state);
      && (path.FullTableScan? || Usable(schema, state)) && (path.SecondaryIndexRange? ==> path.index < |indexes|)
      && var order := OrderOf(schema, indexes, path, state, es, xss);
         Visits(schema, data.table, state, order) &&
         (!path.FullTableScan? ==> forall k :: k in order ==> Chosen(schema, data.table[k], state))
  {
    var path := PlanAccessPath(schema, indexes, state);
    PlannedPath(schema, indexes, data, state);
    match path {
      case FullTableScan =>
        FullScanVisits(schema, data.table, es, state);
      case PrimaryKeyRange =>
        PrimaryRangeVisits(schema, data.table, es, state);
      case SecondaryIndexRange(i) =>
        assert TreeOk(schema, indexes[i], data.table, data.trees[i]);
        SecondaryRangeVisits(schema, indexes[i], data.table, data.trees[i], xss[i], state);
    }
  }
}
