/** The predicate of a statement, and the state in which its execution uses it. */
module Predicates {
  import opened Status
  import opened AccessPaths
  import opened StatementEffects
  import opened Plans
  import opened Literals
  import opened ValueOrders
  import Bytes
  import Tables
  import Values

  /** WHERE column op literal; a null test has no literal. */
  datatype Predicate = Predicate(column: nat, op: Operator, literal: Option<Literal>)

  /** Binding found the column. */
  predicate Bound(schema: Tables.TableSchema, p: Option<Predicate>) {
    p.Some? ==> p.value.column < |schema.columns|
  }

  function ResolvePredicateState(schema: Tables.TableSchema, p: Option<Predicate>): (r: Result<PredicateState>)
    requires Bound(schema, p)
    ensures r.Ok? ==> Resolved(schema, r.value)
    ensures r.Err? ==> r.code == InvalidArgument || r.code == InternalError
  {
    match p
    case None => Ok(Absent)
    case Some(Predicate(column, op, literal)) =>
      if !IsComparison(op) then Ok(NullTest(column, op))
      else if literal.None? then Err(InternalError)
      else if literal.value.NullLiteral? then Ok(Impossible)
      else
        match ConvertTo(literal.value, schema.columns[column].logicalType, schema.columns[column].nullable)
        case Ok(value) => Ok(Comparison(column, op, value))
        case Err(code) => Err(code)
  }

  /** What the predicate says of a row: nothing compares with NULL, neither a NULL in the row nor the
      literal. */
  ghost predicate Satisfies(row: Tables.Row, p: Option<Predicate>)
    requires p.Some? ==> p.value.column < |row|
  {
    match p
    case None => true
    case Some(Predicate(column, IsNull, _)) => row[column] == Values.Null
    case Some(Predicate(column, IsNotNull, _)) => row[column] != Values.Null
    case Some(Predicate(column, op, literal)) =>
      literal.Some? && SameKind(row[column], Written(literal.value)) &&
      Compares(row[column], op, Written(literal.value))
  }

  /** A predicate that resolves chooses the rows that satisfy it. It resolves unless the literal is not a
      value of the column's type, or there is none. */
  lemma ResolvedMeans(schema: Tables.TableSchema, p: Option<Predicate>, row: Tables.Row)
    requires Bound(schema, p) && Tables.RowOk(schema, row)
    ensures var state := ResolvePredicateState(schema, p);
      && (state.Ok? ==> (Chosen(schema, row, state.value) <==> Satisfies(row, p)))
      && (state.Err? <==> p.Some? && IsComparison(p.value.op) &&
                          (p.value.literal.None? ||
                           !Values.IsA(Written(p.value.literal.value), schema.columns[p.value.column].logicalType)))
  {
    if p.Some? {
      assert Tables.ColumnOk(schema.columns[p.value.column], row[p.value.column]);
      var state := ResolvePredicateState(schema, p);
      if state.Ok? && state.value.Comparison? && row[p.value.column] != Values.Null {
        MatchesTells(row[p.value.column], p.value.op, state.value.value, schema.columns[p.value.column].logicalType);
      }
    }
  }

  /** A table with a key column and a text column, an index on the text, and a predicate that compares the
      text with a single NUL. */
  const SAMPLE := Tables.TableSchema([Tables.Column(Values.Int8, false), Tables.Column(Values.String(1), false)], 0)
  const SAMPLE_INDEX := Tables.IndexDescriptor(false, 1, false)

  function NulPredicate(op: Operator): Predicate {
    Predicate(1, op, Some(StringLiteral([0])))
  }

  /** That predicate resolves. With the index it needs a key that the literal does not have, and is refused.
      Without the index the same statement compares: the NUL is below every text of one letter. */
  lemma IndexRefusesNul(op: Operator, row: Tables.Row, letter: Bytes.Byte)
    requires IsComparison(op) && letter > 0 && row == [Values.Integer(1), Values.Text([letter])]
    ensures Bound(SAMPLE, Some(NulPredicate(op))) && SAMPLE.Valid() && Tables.CanIndex(SAMPLE, SAMPLE_INDEX)
    ensures var state := ResolvePredicateState(SAMPLE, Some(NulPredicate(op)));
      && state.Ok? && Tables.RowOk(SAMPLE, row)
      && PlanAccessPath(SAMPLE, [SAMPLE_INDEX], state.value) == SecondaryIndexRange(0)
      && Unkeyed(SAMPLE, [SAMPLE_INDEX], state.value)
      && PlanAccessPath(SAMPLE, [], state.value) == FullTableScan && !Unkeyed(SAMPLE, [], state.value)
      && RowMatches(row, state.value) == Ok(op == Values.NotEqual || op == Values.Greater || op == Values.GreaterEqual)
  {
    assert IndexedBy([SAMPLE_INDEX][0], 1);
    var nul: Bytes.Bytes := [0];
    assert nul[0] == 0 && !Values.NulFree(nul);
  }

  // ---- What statements mean --------------------------------------------------------------------

  /** The table with the value in every row that satisfies the predicate. */
  ghost function Updated(schema: Tables.TableSchema, table: Tables.Table, p: Option<Predicate>, column: nat,
                         value: Values.Value): Tables.Table
    requires schema.Valid() && Tables.TableOk(schema, table) && Bound(schema, p) && column < |schema.columns|
  {
    map k | k in table :: if Satisfies(table[k], p) then table[k][column := value] else table[k]
  }

  /** The table without the rows that satisfy the predicate. */
  ghost function Remaining(schema: Tables.TableSchema, table: Tables.Table, p: Option<Predicate>): Tables.Table
    requires schema.Valid() && Tables.TableOk(schema, table) && Bound(schema, p)
  {
    map k | k in table && !Satisfies(table[k], p) :: table[k]
  }

  ghost predicate AnySatisfies(schema: Tables.TableSchema, table: Tables.Table, p: Option<Predicate>)
    requires schema.Valid() && Tables.TableOk(schema, table) && Bound(schema, p)
  {
    exists k :: k in table && Satisfies(table[k], p)
  }

  lemma AnyIsAny(schema: Tables.TableSchema, table: Tables.Table, p: Option<Predicate>)
    requires schema.Valid() && Tables.TableOk(schema, table) && Bound(schema, p)
    requires ResolvePredicateState(schema, p).Ok?
    ensures AnySatisfies(schema, table, p) <==> AnyChosen(schema, table, ResolvePredicateState(schema, p).value)
  {
    hide Satisfies, Chosen, ResolvePredicateState;
    forall k | k in table
      ensures Chosen(schema, table[k], ResolvePredicateState(schema, p).value) <==> Satisfies(table[k], p)
    {
      ResolvedMeans(schema, p, table[k]);
    }
  }

  lemma UpdatedIsAssigned(schema: Tables.TableSchema, table: Tables.Table, p: Option<Predicate>, column: nat,
                          value: Values.Value)
    requires schema.Valid() && Tables.TableOk(schema, table) && Bound(schema, p) && column < |schema.columns|
    requires ResolvePredicateState(schema, p).Ok?
    ensures Updated(schema, table, p, column, value) ==
      Assigned(schema, table, ResolvePredicateState(schema, p).value, column, value)
  {
    hide Satisfies, Chosen, ResolvePredicateState;
    var state := ResolvePredicateState(schema, p).value;
    forall k | k in table ensures Chosen(schema, table[k], state) <==> Satisfies(table[k], p) {
      ResolvedMeans(schema, p, table[k]);
    }
    var t, u := Updated(schema, table, p, column, value), Assigned(schema, table, state, column, value);
    forall k | k in table ensures t[k] == u[k] {
    }
    assert t.Keys == u.Keys;
  }

  lemma RemainingIsKept(schema: Tables.TableSchema, table: Tables.Table, p: Option<Predicate>)
    requires schema.Valid() && Tables.TableOk(schema, table) && Bound(schema, p)
    requires ResolvePredicateState(schema, p).Ok?
    ensures Remaining(schema, table, p) == Kept(schema, table, ResolvePredicateState(schema, p).value)
  {
    hide Satisfies, Chosen, ResolvePredicateState;
    var state := ResolvePredicateState(schema, p).value;
    forall k | k in table ensures Chosen(schema, table[k], state) <==> Satisfies(table[k], p) {
      ResolvedMeans(schema, p, table[k]);
    }
  }
}
