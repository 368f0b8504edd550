/** INSERT, UPDATE, DELETE, SELECT and CREATE INDEX on one table and its indexes, inside and outside
    transactions. Rows are found along the access path that is planned for the predicate, over B+ trees
    that hold the table and the indexes; their changes are made to the maps that those trees stand for. */
module Statements {
  import opened Sets
  import opened Status
  import opened Values
  import opened Tables
  import opened IndexMaintenance
  import opened AccessPaths
  import opened StatementEffects
  import opened Plans
  import opened Literals
  import opened Predicates
  import opened AccessRuns
  import BTreeShape
  import opened PagedBTree
  import PagerViews
  import opened Transactions
  import TreeCalls

  class Session {
    const schema: TableSchema
    const pager: PagerSession<State>

    /** At every statement boundary outside a failed or unresolved transaction all indexes agree. */
    ghost predicate Valid()
      reads this, pager
    {
      && StateOk(schema, pager.saved)
      && (pager.status == PagerViews.Inactive ==> pager.now == pager.saved)
      && (pager.status == PagerViews.Active ==> StateOk(schema, pager.now))
    }

    constructor (schema: TableSchema, indexes: seq<IndexDescriptor>)
      requires schema.Valid() && forall i :: 0 <= i < |indexes| ==> indexes[i].primary || CanIndex(schema, indexes[i])
      ensures Valid() && this.schema == schema && pager.status == PagerViews.Inactive && pager.now.indexes == indexes &&
        pager.now.data.table == map[]
    {
      this.schema := schema;
      pager := new PagerSession(State(indexes, Data(map[], seq(|indexes|, _ => map[]))));
    }

    method ExecuteBegin() returns (r: Outcome)
      requires Valid()
      modifies pager`status
      ensures Valid() && r.Done? == (old(pager.status) == PagerViews.Inactive)
      ensures r.Done? ==> pager.status == PagerViews.Active
      ensures r.Failed? ==> r.code == TransactionError && pager.Harmless()
    {
      if pager.status != PagerViews.Inactive {
        r := Failed(TransactionError);
        pager.Conclude(r);
        return;
      }
      pager.Begin();
      r := Done;
    }

    method ExecuteCommit() returns (r: Outcome)
      requires Valid()
      modifies pager`saved, pager`status
      ensures Valid() &&
        (r.Done? ==>
         old(pager.status) == PagerViews.Active && pager.status == PagerViews.Inactive && pager.saved == old(pager.now))
      ensures r.Failed? ==>
        pager.saved == old(pager.saved) && (old(pager.status) == PagerViews.Active ==> !pager.Accepting())
      ensures r.Failed? ==>
        r.code == TransactionError || (r.code == IoError && pager.status == PagerViews.Unresolved)
    {
      if pager.status != PagerViews.Active {
        return Failed(TransactionError);
      }
      r := pager.Commit();
      pager.Conclude(r);
    }

    /** The one statement that a failed transaction accepts. */
    method ExecuteRollback() returns (r: Outcome)
      requires Valid()
      modifies pager`now, pager`status
      ensures Valid() && pager.saved == old(pager.saved)
      ensures r.Done? ==>
        old(pager.status) in {PagerViews.Active, PagerViews.FailedTransaction} && pager.status == PagerViews.Inactive &&
        pager.now == pager.saved
      ensures r.Failed? ==> pager.now == old(pager.now)
      ensures r == Failed(TransactionError) <==>
        old(pager.status) == PagerViews.Inactive || old(pager.status) == PagerViews.Unresolved
      ensures r.Failed? ==> r.code == TransactionError || r.code == InternalError
      ensures r.Failed? ==>
        pager.status == if old(pager.status) == PagerViews.Active then PagerViews.FailedTransaction
        else old(pager.status)
    {
      if pager.status == PagerViews.Inactive || pager.status == PagerViews.Unresolved {
        return Failed(TransactionError);
      }
      r := pager.Rollback();
      pager.Conclude(r);
    }

    // ---- The trees ---------------------------------------------------------------------------

    /** insert into index tree i. Any failure but a present key may leave that tree in any state. */
    method InsertEntry(i: nat, x: Key, k: Key) returns (r: Outcome)
      requires i < |pager.now.data.trees|
      modifies pager`now
      ensures r.Done? ==> x !in old(pager.now.data.trees)[i]
      ensures r.Done? ==>
        var trees := old(pager.now.data.trees);
        pager.now == old(pager.now).(data := old(pager.now.data).(trees := trees[i := trees[i][x := k]]))
      ensures r.Failed? ==>
        r.code == IoError ||
        (r.code == ConstraintViolation && x in old(pager.now.data.trees)[i] && pager.now == old(pager.now))
    {
      var tree;
      r, tree := TreeCalls.Insert(pager.now.data.trees[i], x, k);
      pager.now := pager.now.(data := pager.now.data.(trees := pager.now.data.trees[i := tree]));
    }

    method EraseEntry(i: nat, x: Key) returns (r: Outcome)
      requires i < |pager.now.data.trees|
      modifies pager`now
      ensures r.Done? ==> x in old(pager.now.data.trees)[i]
      ensures r.Done? ==>
        var trees := old(pager.now.data.trees);
        pager.now == old(pager.now).(data := old(pager.now.data).(trees := trees[i := trees[i] - {x}]))
      ensures r.Failed? ==>
        r.code == IoError || (r.code == NotFound && x !in old(pager.now.data.trees)[i] && pager.now == old(pager.now))
    {
      var tree;
      r, tree := TreeCalls.Erase(pager.now.data.trees[i], x);
      pager.now := pager.now.(data := pager.now.data.(trees := pager.now.data.trees[i := tree]));
    }

    /** insert, and below it update_value and erase, in the table tree. */
    method InsertRow(k: Key, row: Tables.Row) returns (r: Outcome)
      modifies pager`now
      ensures r.Done? ==>
        k !in old(pager.now.data.table) &&
        pager.now == old(pager.now).(data := old(pager.now.data).(table := old(pager.now.data.table)[k := row]))
      ensures r.Failed? ==>
        r.code == IoError ||
        (r.code == ConstraintViolation && k in old(pager.now.data.table) && pager.now == old(pager.now))
    {
      var table;
      r, table := TreeCalls.Insert(pager.now.data.table, k, row);
      pager.now := pager.now.(data := pager.now.data.(table := table));
    }

    method UpdateRow(k: Key, row: Tables.Row) returns (r: Outcome)
      modifies pager`now
      ensures r.Done? ==>
        k in old(pager.now.data.table) &&
        pager.now == old(pager.now).(data := old(pager.now.data).(table := old(pager.now.data.table)[k := row]))
      ensures r.Failed? ==>
        r.code == IoError || (r.code == NotFound && k !in old(pager.now.data.table) && pager.now == old(pager.now))
    {
      var table;
      r, table := TreeCalls.Update(pager.now.data.table, k, row);
      pager.now := pager.now.(data := pager.now.data.(table := table));
    }

    method EraseRow(k: Key) returns (r: Outcome)
      modifies pager`now
      ensures r.Done? ==>
        k in old(pager.now.data.table) &&
        pager.now == old(pager.now).(data := old(pager.now.data).(table := old(pager.now.data.table) - {k}))
      ensures r.Failed? ==>
        r.code == IoError || (r.code == NotFound && k !in old(pager.now.data.table) && pager.now == old(pager.now))
    {
      var table;
      r, table := TreeCalls.Erase(pager.now.data.table, k);
      pager.now := pager.now.(data := pager.now.data.(table := table));
    }

    // ---- Finding rows ------------------------------------------------------------------------

    /** Whenever a statement may run, the trees hold the table and the indexes. */
    ghost predicate Holding(table: BTree, trees: seq<BTree>)
      reads this, pager, table, table.store, trees, set t | t in trees :: t.store
    {
      pager.Accepting() ==>
        StateOk(schema, pager.now) && Stored(schema, pager.now.indexes, pager.now.data, table, trees)
    }

    /** The predicate can be resolved, and its path followed. */
    ghost predicate Followed(indexes: seq<IndexDescriptor>, p: Option<Predicate>)
      requires Bound(schema, p)
    {
      var state := ResolvePredicateState(schema, p);
      state.Ok? && !Unkeyed(schema, indexes, state.value)
    }

    /** The rows along the planned path. Reading them may fail, and fails for a literal that has no key if
        the path needs one. */
    method FollowPath(table: BTree, trees: seq<BTree>, state: PredicateState) returns (path: Result<seq<Key>>)
      requires StateOk(schema, pager.now) && Stored(schema, pager.now.indexes, pager.now.data, table, trees)
      requires Resolved(schema, state)
      ensures path.Ok? ==>
        Visits(schema, pager.now.data.table, state, path.value) && !Unkeyed(schema, pager.now.indexes, state)
      ensures path.Err? ==>
        path.code == IoError || (path.code == InvalidArgument && Unkeyed(schema, pager.now.indexes, state))
    {
      hide Stored, Visits;
      var rows := RunPath(schema, pager.now.indexes, table, trees, state, pager.now.data);
      if rows.Err? {
        return Err(rows.code);
      }
      var readable: bool := *;
      path := if readable then Ok(KeysOf(rows.value)) else Err(IoError);
    }

    // ---- INSERT ------------------------------------------------------------------------------

    /** What INSERT makes of the literals: none if there are too few or too many, or one does not fit its
        column. */
    method ConvertRow(literals: seq<Literal>) returns (r: Result<Tables.Row>)
      ensures r.Ok? <==> |literals| == |schema.columns| && forall i :: 0 <= i < |literals| ==> Fits(literals, i)
      ensures r.Ok? ==> r.value == WrittenRow(literals)
      ensures r == Err(ConstraintViolation) <==> NullRefused(literals)
      ensures r.Err? ==> r.code == ConstraintViolation || r.code == InvalidArgument
    {
      if |literals| != |schema.columns| {
        return Err(InvalidArgument);
      }
      var row: Tables.Row := [];
      for i := 0 to |literals|
        invariant row == WrittenRow(literals[..i]) && forall j :: 0 <= j < i ==> Fits(literals, j)
      {
        var value := ConvertTo(literals[i], schema.columns[i].logicalType, schema.columns[i].nullable);
        if value.Err? {
          assert !Fits(literals, i);
          return Err(value.code);
        }
        row := row + [value.value];
      }
      assert literals[..|literals|] == literals;
      r := Ok(row);
    }

    ghost predicate Fits(literals: seq<Literal>, i: nat)
      requires i < |literals| == |schema.columns|
    {
      ConvertTo(literals[i], schema.columns[i].logicalType, schema.columns[i].nullable).Ok?
    }

    /** The first literal that does not fit is a NULL for a NOT NULL column. */
    ghost predicate NullRefused(literals: seq<Literal>) {
      && |literals| == |schema.columns|
      && exists i :: 0 <= i < |literals| && !Fits(literals, i) && literals[i].NullLiteral? &&
                     forall j :: 0 <= j < i ==> Fits(literals, j)
    }

    /** INSERT. It succeeds with every index kept, or reports a violated constraint exactly when a NULL is
        refused or there is a duplicate, or fails harmlessly. */
    method ExecuteInsert(literals: seq<Literal>) returns (r: Outcome)
      requires Valid()
      modifies pager
      ensures Valid()
      ensures r.Done? ==> var row := WrittenRow(literals);
        RowOk(schema, row) && !Collides(schema, old(pager.now), row) && StateOk(schema, pager.now) &&
        pager.now.data.table == old(pager.now.data.table)[RowKey(schema, row) := row]
      ensures r.Done? ==> pager.TookEffect() && pager.now.indexes == old(pager.now.indexes)
      ensures r == Failed(ConstraintViolation) ==> var row := WrittenRow(literals);
        NullRefused(literals) || (RowOk(schema, row) && Collides(schema, old(pager.now), row))
      ensures old(pager.Accepting()) && NullRefused(literals) ==> r == Failed(ConstraintViolation)
      ensures r == Failed(InvalidArgument) <==>
        old(pager.Accepting()) && !NullRefused(literals) && !RowOk(schema, WrittenRow(literals))
      ensures r.Failed? ==>
        r.code == ConstraintViolation || r.code == InvalidArgument || StorageFailure(r.code)
      ensures r.Failed? ==> pager.Harmless()
    {
      if !pager.Accepting() {
        return Failed(TransactionError);
      }
      var row := ConvertRow(literals);
      if row.Err? {
        r := Failed(row.code);
        pager.Conclude(r);
        return;
      }
      r := InsertConverted(row.value);
    }

    method InsertConverted(row: Tables.Row) returns (r: Outcome)
      requires Valid() && pager.Accepting()
      modifies pager
      ensures Valid()
      ensures r.Done? ==> RowOk(schema, row) && !Collides(schema, old(pager.now), row) && StateOk(schema, pager.now)
      ensures r.Done? ==> pager.TookEffect() && pager.now.indexes == old(pager.now.indexes)
      ensures r.Done? ==> pager.now.data.table == old(pager.now.data.table)[RowKey(schema, row) := row]
      ensures r == Failed(ConstraintViolation) ==> RowOk(schema, row) && Collides(schema, old(pager.now), row)
      ensures r == Failed(InvalidArgument) <==> !RowOk(schema, row)
      ensures r.Failed? ==>
        r.code == ConstraintViolation || r.code == InvalidArgument || StorageFailure(r.code)
      ensures r.Failed? ==> pager.Harmless()
    {
      if !RowOk(schema, row) {
        r := Failed(InvalidArgument);
        pager.Conclude(r);
        return;
      }
      var ownsTransaction := pager.status == PagerViews.Inactive;
      if ownsTransaction {
        pager.Begin();
      }
      r := InsertEverywhere(row);
      r := pager.Finish(r, ownsTransaction);
      pager.Conclude(r);
    }

    method InsertEverywhere(row: Tables.Row) returns (r: Outcome)
      requires StateOk(schema, pager.now) && RowOk(schema, row)
      modifies pager`now
      ensures r.Done? ==>
        StateOk(schema, pager.now) && !Collides(schema, old(pager.now), row) &&
        pager.now.indexes == old(pager.now.indexes)
      ensures r.Done? ==> pager.now.data.table == old(pager.now.data.table)[RowKey(schema, row) := row]
      ensures r == Failed(ConstraintViolation) ==> Collides(schema, old(pager.now), row)
      ensures r.Failed? ==> r.code == ConstraintViolation || r.code == IoError
    {
      var key := RowKey(schema, row);
      ghost var s := pager.now;
      r := InsertRow(key, row);
      if r.Failed? {
        return;
      }
      var indexes := pager.now.indexes;
      for i := 0 to |indexes|
        invariant pager.now.indexes == indexes && |pager.now.data.trees| == |indexes| &&
          pager.now.data.table == s.data.table[key := row]
        invariant TableOk(schema, pager.now.data.table)
        invariant forall j :: 0 <= j < i ==> TreeOk(schema, indexes[j], pager.now.data.table, pager.now.data.trees[j])
        invariant forall j :: i <= j < |indexes| ==> pager.now.data.trees[j] == s.data.trees[j]
        invariant forall j :: 0 <= j < i ==> !UniqueTaken(indexes[j], s.data.table, row)
      {
        if !indexes[i].primary {
          assert TreeOk(schema, indexes[i], s.data.table, s.data.trees[i]);
          TakenBy(schema, indexes[i], s.data.table, s.data.trees[i], row);
          r := InsertEntry(i, IndexKey(schema, indexes[i], row), key);
          if r.Failed? {
            assert r.code == ConstraintViolation ==> UniqueTaken(indexes[i], s.data.table, row);
            return;
          }
          AgreesInsert(schema, indexes[i], s.data.table, s.data.trees[i], row);
        }
      }
      r := Done;
    }

    // ---- UPDATE ------------------------------------------------------------------------------

    /** UPDATE of one column to a constant. It succeeds with exactly the rows changed that satisfy the
        predicate and every index kept. It reports a violated constraint exactly when a NULL is refused or
        the final table would hold two rows with the same value under a unique index, whatever the path to
        the rows and their order. A literal without a key fails it if the path needs the key. */
    method ExecuteUpdate(table: BTree, trees: seq<BTree>, column: nat, literal: Literal, condition: Option<Predicate>)
      returns (r: Outcome)
      requires Valid() && schema.Valid() && Holding(table, trees) && Bound(schema, condition) &&
        column < |schema.columns|
      modifies pager
      ensures Valid()
      ensures r.Done? ==>
        pager.TookEffect() && StateOk(schema, pager.now) && pager.now.indexes == old(pager.now.indexes)
      ensures r.Done? ==>
        pager.now.data.table == Updated(schema, old(pager.now.data.table), condition, column, Written(literal)) &&
        (UniquelyIndexed(pager.now.indexes, column) ==> UniqueOn(pager.now.data.table, column))
      ensures r == Failed(ConstraintViolation) ==>
        old(pager.Accepting()) &&
        ((literal.NullLiteral? && !schema.columns[column].nullable) ||
         (UniquelyIndexed(old(pager.now.indexes), column) &&
          !UniqueOn(Updated(schema, old(pager.now.data.table), condition, column, Written(literal)), column)))
      ensures r.Done? ==>
        ConvertTo(literal, schema.columns[column].logicalType, schema.columns[column].nullable).Ok? &&
        Followed(old(pager.now.indexes), condition)
      ensures old(pager.Accepting()) && literal.NullLiteral? && !schema.columns[column].nullable ==>
        r == Failed(ConstraintViolation)
      ensures r == Failed(InvalidArgument) ==>
        old(pager.Accepting()) && UpdateRefused(old(pager.now), column, literal, condition)
      ensures old(pager.Accepting()) && UpdateRefused(old(pager.now), column, literal, condition) ==>
        r.Failed? && r.code != ConstraintViolation
      ensures r.Failed? ==>
        r.code == ConstraintViolation || r.code == InvalidArgument || StorageFailure(r.code)
      ensures r.Failed? ==> pager.Harmless()
    {
      hide Stored, Updated, UniqueOn, AnySatisfies;
      if !pager.Accepting() {
        return Failed(TransactionError);
      }
      var value := ConvertTo(literal, schema.columns[column].logicalType, schema.columns[column].nullable);
      var state := ResolvePredicateState(schema, condition);
      if value.Err? || state.Err? {
        r := Failed(if value.Err? then value.code else state.code);
        pager.Conclude(r);
        return;
      }
      UpdatedIsAssigned(schema, pager.now.data.table, condition, column, value.value);
      AnyIsAny(schema, pager.now.data.table, condition);
      r := UpdateWhere(table, trees, column, value.value, state.value);
    }

    /** The literal is not a value of the column's type, or the predicate does not resolve or its path cannot
        be followed, or some row satisfies it and cannot take the value. */
    ghost predicate UpdateRefused(s: State, column: nat, literal: Literal, condition: Option<Predicate>)
      requires StateOk(schema, s) && Bound(schema, condition) && column < |schema.columns|
    {
      && !(literal.NullLiteral? && !schema.columns[column].nullable)
      && (|| !IsA(Written(literal), schema.columns[column].logicalType)
          || !Followed(s.indexes, condition)
          || (AnySatisfies(schema, s.data.table, condition) && !Assignable(schema, column, Written(literal))))
    }

    /** UPDATE once its literals are converted. */
    method UpdateWhere(table: BTree, trees: seq<BTree>, column: nat, value: Value, state: PredicateState)
      returns (r: Outcome)
      requires Valid() && pager.Accepting() && schema.Valid() && Holding(table, trees) && Resolved(schema, state) &&
        column < |schema.columns| && IsA(value, schema.columns[column].logicalType)
      modifies pager
      ensures Valid()
      ensures r.Done? ==>
        pager.TookEffect() && StateOk(schema, pager.now) && pager.now.indexes == old(pager.now.indexes)
      ensures r.Done? ==> pager.now.data.table == Assigned(schema, old(pager.now.data.table), state, column, value)
      ensures r.Done? ==> !UpdateClashes(schema, old(pager.now), state, column, value)
      ensures r == Failed(ConstraintViolation) ==> UpdateClashes(schema, old(pager.now), state, column, value)
      ensures r.Done? || r == Failed(ConstraintViolation) ==> !Unkeyed(schema, old(pager.now.indexes), state)
      ensures r.Done? || r == Failed(ConstraintViolation) ==>
        AnyChosen(schema, old(pager.now.data.table), state) ==> Assignable(schema, column, value)
      ensures r == Failed(InvalidArgument) ==>
        Unkeyed(schema, old(pager.now.indexes), state) ||
        (AnyChosen(schema, old(pager.now.data.table), state) && !Assignable(schema, column, value))
      ensures r.Failed? ==>
        r.code == ConstraintViolation || r.code == InvalidArgument || StorageFailure(r.code)
      ensures r.Failed? ==> pager.Harmless()
    {
      hide Stored, Assigned, UniqueOn, Visits;
      if state.Impossible? {
        NothingAssigned(schema, pager.now.data.table, state, column, value);
        UniqueUnderIndex(schema, pager.now, column);
        return Done;
      }
      var ownsTransaction := pager.status == PagerViews.Inactive;
      if ownsTransaction {
        pager.Begin();
      }
      var path := FollowPath(table, trees, state);
      if path.Ok? {
        r := UpdateAll(column, value, state, path.value);
      } else {
        r := Failed(path.code);
      }
      r := pager.Finish(r, ownsTransaction);
      pager.Conclude(r);
    }

    method UpdateAll(column: nat, value: Value, state: PredicateState, order: seq<Key>) returns (r: Outcome)
      requires StateOk(schema, pager.now) && Evaluable(schema, state) && column < |schema.columns| &&
        IsA(value, schema.columns[column].logicalType)
      requires Visits(schema, pager.now.data.table, state, order)
      modifies pager`now
      ensures r.Done? ==> StateOk(schema, pager.now) && pager.now.indexes == old(pager.now.indexes)
      ensures r.Done? ==> pager.now.data.table == Assigned(schema, old(pager.now.data.table), state, column, value)
      ensures r.Done? ==> !UpdateClashes(schema, old(pager.now), state, column, value)
      ensures r == Failed(ConstraintViolation) ==> UpdateClashes(schema, old(pager.now), state, column, value)
      ensures r.Done? || r == Failed(ConstraintViolation) ==>
        AnyChosen(schema, old(pager.now.data.table), state) ==> Assignable(schema, column, value)
      ensures r == Failed(InvalidArgument) ==>
        AnyChosen(schema, old(pager.now.data.table), state) && !Assignable(schema, column, value)
      ensures r.Failed? ==> r.code == ConstraintViolation || r.code == InvalidArgument || r.code == IoError
    {
      hide Visits, Assignable, Chosen, AnyChosen, NoneAmong, NoDuplicates, Assigned, AssignedSoFar;
      ghost var table, indexes := pager.now.data.table, pager.now.indexes;
      NothingVisited(schema, table, state, column, value);
      for i := 0 to |order|
        invariant StateOk(schema, pager.now) && pager.now.indexes == indexes
        invariant pager.now.data.table == AssignedSoFar(schema, table, state, column, value, order[..i])
        invariant !Assignable(schema, column, value) ==> NoneAmong(schema, table, state, order[..i])
      {
        var k := order[i];
        assert k in order && order[..i + 1] == order[..i] + [k];
        NotYetAssigned(schema, table, state, column, value, order, i);
        OneMoreAmong(schema, table, state, order, i, k);
        r := UpdateCandidate(k, pager.now.data.table[k], column, value, state);
        if r.Failed? {
          if r.code == ConstraintViolation {
            DuplicateStays(schema, table, state, column, value, order, i, k);
          }
          return;
        }
      }
      assert order[..|order|] == order;
      AllAssigned(schema, table, state, column, value, order);
      if !Assignable(schema, column, value) {
        NoneIsChosen(schema, table, state, order);
      }
      UniqueUnderIndex(schema, pager.now, column);
      r := Done;
    }

    /** process_update_candidate. */
    method UpdateCandidate(k: Key, row: Tables.Row, column: nat, value: Value, state: PredicateState)
      returns (r: Outcome)
      requires StateOk(schema, pager.now) && Evaluable(schema, state) && column < |schema.columns| &&
        IsA(value, schema.columns[column].logicalType)
      requires k in pager.now.data.table && row == pager.now.data.table[k]
      modifies pager`now
      ensures r.Done? ==> StateOk(schema, pager.now) && pager.now.indexes == old(pager.now.indexes)
      ensures r.Done? ==>
        var table := old(pager.now.data.table);
        pager.now.data.table == if Chosen(schema, row, state) then table[k := row[column := value]] else table
      ensures r == Failed(ConstraintViolation) ==>
        Chosen(schema, row, state) && UniquelyIndexed(old(pager.now.indexes), column)
      ensures r == Failed(ConstraintViolation) ==> InTheWay(old(pager.now.data.table), k, column, value)
      ensures Chosen(schema, row, state) ==> (r != Failed(InvalidArgument) <==> Assignable(schema, column, value))
      ensures !Chosen(schema, row, state) ==> r.Done?
      ensures r.Failed? ==> r.code == ConstraintViolation || r.code == InvalidArgument || r.code == IoError
    {
      OneValueOk(schema, row, column, value);
      EvaluableOk(schema, row, state);
      var matches := RowMatches(row, state);
      if !matches.value {
        return Done;
      }
      if column == schema.primaryKey {
        return Failed(InvalidArgument);
      }
      var newRow := row[column := value];
      if !RowOk(schema, newRow) {
        return Failed(InvalidArgument);
      }
      r := ReplaceRow(k, row, newRow, column);
    }

    /** Moves the row's entries in the affected indexes around the update of the row itself. */
    method ReplaceRow(k: Key, row: Tables.Row, newRow: Tables.Row, column: nat) returns (r: Outcome)
      requires StateOk(schema, pager.now) && k in pager.now.data.table && row == pager.now.data.table[k]
      requires RowOk(schema, newRow) && column < |row| && column != schema.primaryKey &&
        newRow == row[column := newRow[column]]
      modifies pager`now
      ensures r.Done? ==> StateOk(schema, pager.now) && pager.now.indexes == old(pager.now.indexes)
      ensures r.Done? ==> pager.now.data.table == old(pager.now.data.table)[k := newRow]
      ensures r == Failed(ConstraintViolation) ==> UniquelyIndexed(old(pager.now.indexes), column)
      ensures r == Failed(ConstraintViolation) ==> InTheWay(old(pager.now.data.table), k, column, newRow[column])
      ensures r.Failed? ==> r.code == ConstraintViolation || r.code == IoError
    {
      ghost var s := pager.now;
      SameRowKey(schema, row, newRow, column);
      r := EraseOldEntries(row, newRow, column);
      if r.Failed? {
        return;
      }
      r := UpdateRow(k, newRow);
      if r.Failed? {
        return;
      }
      r := InsertNewEntries(k, row, newRow, column, s);
    }

    method EraseOldEntries(row: Tables.Row, newRow: Tables.Row, column: nat) returns (r: Outcome)
      requires StateOk(schema, pager.now) && RowOk(schema, row) && RowOk(schema, newRow)
      requires RowKey(schema, row) in pager.now.data.table && pager.now.data.table[RowKey(schema, row)] == row
      modifies pager`now
      ensures r.Done? ==>
        pager.now.indexes == old(pager.now.indexes) && pager.now.data.table == old(pager.now.data.table) &&
        |pager.now.data.trees| == |pager.now.indexes|
      ensures r.Done? ==>
        forall j :: 0 <= j < |pager.now.indexes| ==>
          OldEntryGone(schema, pager.now.indexes[j], row, newRow, column, old(pager.now.data.trees)[j],
                       pager.now.data.trees[j])
      ensures r.Failed? ==> r.code == IoError
    {
      ghost var s := pager.now;
      for i := 0 to |pager.now.indexes|
        invariant pager.now.indexes == s.indexes && pager.now.data.table == s.data.table &&
          |pager.now.data.trees| == |s.indexes|
        invariant forall j :: 0 <= j < i ==>
          OldEntryGone(schema, s.indexes[j], row, newRow, column, s.data.trees[j], pager.now.data.trees[j])
        invariant forall j :: i <= j < |s.indexes| ==> pager.now.data.trees[j] == s.data.trees[j]
      {
        assert TreeOk(schema, s.indexes[i], s.data.table, s.data.trees[i]);
        if Moves(schema, pager.now.indexes[i], row, newRow, column) {
          assert EntryFor(schema, s.indexes[i], row, RowKey(schema, row), s.data.trees[i]);
          r := EraseEntry(i, IndexKey(schema, pager.now.indexes[i], row));
          if r.Failed? {
            return;
          }
        }
      }
      r := Done;
    }

    method InsertNewEntries(k: Key, row: Tables.Row, newRow: Tables.Row, column: nat, ghost s: State)
      returns (r: Outcome)
      requires StateOk(schema, s) && k in s.data.table && row == s.data.table[k] && RowOk(schema, newRow) &&
        RowKey(schema, newRow) == k
      requires column < |row| && column != schema.primaryKey && newRow == row[column := newRow[column]]
      requires pager.now.indexes == s.indexes && pager.now.data.table == s.data.table[k := newRow] &&
        |pager.now.data.trees| == |s.indexes|
      requires forall j :: 0 <= j < |s.indexes| ==>
        OldEntryGone(schema, s.indexes[j], row, newRow, column, s.data.trees[j], pager.now.data.trees[j])
      modifies pager`now
      ensures r.Done? ==>
        StateOk(schema, pager.now) && pager.now.indexes == s.indexes &&
        pager.now.data.table == s.data.table[k := newRow]
      ensures r == Failed(ConstraintViolation) ==> UniquelyIndexed(s.indexes, column)
      ensures r == Failed(ConstraintViolation) ==> InTheWay(s.data.table, k, column, newRow[column])
      ensures r.Failed? ==> r.code == ConstraintViolation || r.code == IoError
    {
      hide RowOk;
      ghost var table, trees := pager.now.data.table, pager.now.data.trees;
      assert TableOk(schema, table);
      for i := 0 to |pager.now.indexes|
        invariant pager.now.indexes == s.indexes && pager.now.data.table == table &&
          |pager.now.data.trees| == |s.indexes|
        invariant forall j :: 0 <= j < i ==> TreeOk(schema, s.indexes[j], table, pager.now.data.trees[j])
        invariant forall j :: i <= j < |s.indexes| ==> pager.now.data.trees[j] == trees[j]
      {
        assert TreeOk(schema, s.indexes[i], s.data.table, s.data.trees[i]);
        assert OldEntryGone(schema, s.indexes[i], row, newRow, column, s.data.trees[i], trees[i]);
        if Moves(schema, pager.now.indexes[i], row, newRow, column) {
          r := InsertEntry(i, IndexKey(schema, pager.now.indexes[i], newRow), k);
          if r.Failed? {
            if r.code == ConstraintViolation {
              MovedOntoDuplicate(schema, s.indexes[i], s.data.table, s.data.trees[i], k, newRow);
            }
            return;
          }
          AgreesMoved(schema, s.indexes[i], s.data.table, s.data.trees[i], k, newRow);
        } else if !pager.now.indexes[i].primary {
          NotMoved(schema, s.indexes[i], row, newRow, column);
          AgreesSameKey(schema, s.indexes[i], s.data.table, s.data.trees[i], k, newRow);
        }
      }
      r := Done;
    }

    // ---- DELETE ------------------------------------------------------------------------------

    /** DELETE: exactly the rows that satisfy the predicate disappear, from the table and from every
        index. */
    method ExecuteDelete(table: BTree, trees: seq<BTree>, condition: Option<Predicate>) returns (r: Outcome)
      requires Valid() && schema.Valid() && Holding(table, trees) && Bound(schema, condition)
      modifies pager
      ensures Valid()
      ensures r.Done? ==>
        pager.TookEffect() && StateOk(schema, pager.now) && pager.now.indexes == old(pager.now.indexes)
      ensures r.Done? ==> pager.now.data.table == Remaining(schema, old(pager.now.data.table), condition)
      ensures r.Done? ==> Followed(old(pager.now.indexes), condition)
      ensures r == Failed(InvalidArgument) ==>
        old(pager.Accepting()) && !Followed(old(pager.now.indexes), condition)
      ensures r.Failed? ==> pager.Harmless() && (r.code == InvalidArgument || StorageFailure(r.code))
    {
      hide Stored, Remaining;
      if !pager.Accepting() {
        return Failed(TransactionError);
      }
      var state := ResolvePredicateState(schema, condition);
      if state.Err? {
        r := Failed(state.code);
        pager.Conclude(r);
        return;
      }
      RemainingIsKept(schema, pager.now.data.table, condition);
      r := DeleteWhere(table, trees, state.value);
    }

    /** DELETE once its literal is converted. */
    method DeleteWhere(table: BTree, trees: seq<BTree>, state: PredicateState) returns (r: Outcome)
      requires Valid() && pager.Accepting() && schema.Valid() && Holding(table, trees) && Resolved(schema, state)
      modifies pager
      ensures Valid()
      ensures r.Done? ==>
        pager.TookEffect() && StateOk(schema, pager.now) && pager.now.indexes == old(pager.now.indexes)
      ensures r.Done? ==> pager.now.data.table == Kept(schema, old(pager.now.data.table), state)
      ensures r.Done? ==> !Unkeyed(schema, old(pager.now.indexes), state)
      ensures r == Failed(InvalidArgument) ==> Unkeyed(schema, old(pager.now.indexes), state)
      ensures r.Failed? ==> pager.Harmless() && (r.code == InvalidArgument || StorageFailure(r.code))
    {
      hide Stored, Kept, Visits;
      if state.Impossible? {
        NothingDeleted(schema, pager.now.data.table, state);
        return Done;
      }
      var ownsTransaction := pager.status == PagerViews.Inactive;
      if ownsTransaction {
        pager.Begin();
      }
      var path := FollowPath(table, trees, state);
      if path.Ok? {
        var pending := CollectChosen(state, path.value);
        r := DeletePending(state, pending);
      } else {
        r := Failed(path.code);
      }
      r := pager.Finish(r, ownsTransaction);
      pager.Conclude(r);
    }

    /** Collects the chosen rows before anything is deleted. */
    method CollectChosen(state: PredicateState, order: seq<Key>) returns (pending: seq<Key>)
      requires StateOk(schema, pager.now) && Evaluable(schema, state) &&
        Visits(schema, pager.now.data.table, state, order)
      ensures NoDuplicates(pending) && forall k :: k in pending <==>
        k in pager.now.data.table && Chosen(schema, pager.now.data.table[k], state)
    {
      pending := [];
      for i := 0 to |order|
        invariant NoDuplicates(pending) &&
          (forall k :: k in pending ==>
           k in order[..i] && k in pager.now.data.table && Chosen(schema, pager.now.data.table[k], state))
        invariant forall k ::
          k in order[..i] && k in pager.now.data.table && Chosen(schema, pager.now.data.table[k], state) ==>
          k in pending
      {
        var k := order[i];
        assert k in order && k !in order[..i] && order[..i + 1] == order[..i] + [k];
        EvaluableOk(schema, pager.now.data.table[k], state);
        if RowMatches(pager.now.data.table[k], state).value {
          pending := pending + [k];
        }
      }
      assert order[..|order|] == order;
    }

    method DeletePending(state: PredicateState, pending: seq<Key>) returns (r: Outcome)
      requires StateOk(schema, pager.now) && Evaluable(schema, state) && NoDuplicates(pending)
      requires forall k :: k in pending <==> k in pager.now.data.table && Chosen(schema, pager.now.data.table[k], state)
      modifies pager`now
      ensures r.Done? ==> StateOk(schema, pager.now) && pager.now.indexes == old(pager.now.indexes)
      ensures r.Done? ==> pager.now.data.table == Kept(schema, old(pager.now.data.table), state)
      ensures r.Failed? ==> r.code == IoError
    {
      ghost var table, indexes := pager.now.data.table, pager.now.indexes;
      for i := 0 to |pending|
        invariant StateOk(schema, pager.now) && pager.now.indexes == indexes
        invariant pager.now.data.table == WithoutAll(table, pending[..i])
      {
        var k := pending[i];
        assert k in pending && k !in pending[..i];
        WithoutOneMore(table, pending, i, k);
        r := DeleteRow(k, pager.now.data.table[k]);
        if r.Failed? {
          return;
        }
      }
      assert pending[..|pending|] == pending;
      AllDeleted(schema, table, state, pending);
      r := Done;
    }

    /** Erases a row's entry in every index and then the row. */
    method DeleteRow(k: Key, row: Tables.Row) returns (r: Outcome)
      requires StateOk(schema, pager.now) && k in pager.now.data.table && row == pager.now.data.table[k]
      modifies pager`now
      ensures r.Done? ==>
        StateOk(schema, pager.now) && pager.now.indexes == old(pager.now.indexes) &&
        pager.now.data.table == old(pager.now.data.table) - {k}
      ensures r.Failed? ==> r.code == IoError
    {
      ghost var s := pager.now;
      for i := 0 to |pager.now.indexes|
        invariant pager.now.indexes == s.indexes && pager.now.data.table == s.data.table &&
          |pager.now.data.trees| == |s.indexes|
        invariant TableOk(schema, s.data.table - {k})
        invariant forall j :: 0 <= j < i ==> TreeOk(schema, s.indexes[j], s.data.table - {k}, pager.now.data.trees[j])
        invariant forall j :: i <= j < |s.indexes| ==> pager.now.data.trees[j] == s.data.trees[j]
      {
        if !pager.now.indexes[i].primary {
          assert TreeOk(schema, s.indexes[i], s.data.table, s.data.trees[i]);
          AgreesErase(schema, s.indexes[i], s.data.table, s.data.trees[i], k);
          r := EraseEntry(i, IndexKey(schema, pager.now.indexes[i], row));
          if r.Failed? {
            return;
          }
        }
      }
      r := EraseRow(k);
    }

    // ---- CREATE INDEX ------------------------------------------------------------------------

    /** CREATE INDEX: once the catalog has accepted the index, fills a new tree from a scan of the table.
        It succeeds exactly when a unique index finds no value twice, and then the new index agrees.
        described is what the catalog made of the index. */
    method ExecuteCreateIndex(table: BTree, trees: seq<BTree>, index: IndexDescriptor, described: Outcome)
      returns (r: Outcome)
      requires Valid() && schema.Valid() && Holding(table, trees)
      requires if described.Done? then CanIndex(schema, index) && !index.primary
        else described.code != ConstraintViolation
      modifies pager
      ensures Valid()
      ensures r.Done? ==>
        described.Done? && pager.TookEffect() && StateOk(schema, pager.now) &&
        pager.now.indexes == old(pager.now.indexes) + [index]
      ensures r.Done? ==>
        pager.now.data.table == old(pager.now.data.table) &&
        (index.unique ==> UniqueOn(pager.now.data.table, index.column))
      ensures r == Failed(ConstraintViolation) ==>
        old(pager.Accepting()) && index.unique && !UniqueOn(old(pager.now.data.table), index.column)
      ensures r.Failed? ==>
        StorageFailure(r.code) || if described.Done? then r.code == ConstraintViolation else r == described
      ensures r.Failed? ==> pager.Harmless()
    {
      hide Visits, UniqueOn;
      if !pager.Accepting() {
        return Failed(TransactionError);
      }
      var ownsTransaction := pager.status == PagerViews.Inactive;
      if ownsTransaction {
        pager.Begin();
      }
      r := described;
      if described.Done? {
        var rows := RunFullScan(table);
        FullScanVisits(schema, pager.now.data.table, BTreeShape.Entries(table.tree), Absent);
        r := FillIndex(index, KeysOf(rows));
      }
      r := pager.Finish(r, ownsTransaction);
      pager.Conclude(r);
    }

    method FillIndex(index: IndexDescriptor, order: seq<Key>) returns (r: Outcome)
      requires StateOk(schema, pager.now) && CanIndex(schema, index) && !index.primary &&
        Visits(schema, pager.now.data.table, Absent, order)
      modifies pager`now
      ensures r.Done? ==>
        StateOk(schema, pager.now) && pager.now.indexes == old(pager.now.indexes) + [index] &&
        pager.now.data.table == old(pager.now.data.table)
      ensures r.Done? && index.unique ==> UniqueOn(pager.now.data.table, index.column)
      ensures r == Failed(ConstraintViolation) ==> index.unique && !UniqueOn(old(pager.now.data.table), index.column)
      ensures r.Failed? ==> r.code == ConstraintViolation || r.code == IoError
    {
      ghost var s := pager.now;
      var n := |pager.now.indexes|;
      pager.now := State(pager.now.indexes + [index], pager.now.data.(trees := pager.now.data.trees + [map[]]));
      for i := 0 to |order|
        invariant pager.now.indexes == s.indexes + [index] && pager.now.data.table == s.data.table
        invariant |pager.now.data.trees| == n + 1 && pager.now.data.trees[..n] == s.data.trees
        invariant Agrees(schema, index, Only(schema, s.data.table, order[..i]), pager.now.data.trees[n])
      {
        var k := order[i];
        assert k in order && k !in order[..i];
        ghost var part := Only(schema, s.data.table, order[..i]);
        OnlyOneMore(schema, s.data.table, order, i, k);
        TakenBy(schema, index, part, pager.now.data.trees[n], s.data.table[k]);
        AgreesInsertIfFree(schema, index, part, pager.now.data.trees[n], s.data.table[k]);
        r := InsertEntry(n, IndexKey(schema, index, pager.now.data.table[k]), k);
        if r.Failed? {
          if r.code == ConstraintViolation {
            TakenTwice(schema, s.data.table, index.column, order[..i], k);
          }
          return;
        }
      }
      assert order[..|order|] == order;
      OnlyAll(schema, s.data.table, order);
      assert forall j :: 0 <= j < n ==> pager.now.data.trees[j] == pager.now.data.trees[..n][j];
      if index.unique {
        AgreeingIsUnique(schema, index, s.data.table, pager.now.data.trees[n]);
      }
      r := Done;
    }

    // ---- SELECT ------------------------------------------------------------------------------

    /** The projected columns of a row. */
    function Projected(row: Tables.Row, projection: seq<nat>): (values: Tables.Row)
      requires forall j :: 0 <= j < |projection| ==> projection[j] < |row|
      ensures |values| == |projection| && forall j :: 0 <= j < |values| ==> values[j] == row[projection[j]]
    {
      seq(|projection|, j requires 0 <= j < |projection| => row[projection[j]])
    }

    /** The values are the projected columns of the row with key k. */
    ghost predicate SelectedFrom(values: Tables.Row, k: Key, projection: seq<nat>)
      reads this, pager
    {
      && k in pager.now.data.table && |values| == |projection|
      && forall j :: 0 <= j < |projection| ==>
           projection[j] < |pager.now.data.table[k]| && values[j] == pager.now.data.table[k][projection[j]]
    }

    /** SELECT: the projected values of each row that satisfies the predicate, once, and of no other. keys
        says which row is where. */
    method ExecuteSelect(table: BTree, trees: seq<BTree>, projection: seq<nat>, condition: Option<Predicate>)
      returns (r: Result<seq<Tables.Row>>, ghost keys: seq<Key>)
      requires Valid() && schema.Valid() && Holding(table, trees) && Bound(schema, condition)
      requires forall j :: 0 <= j < |projection| ==> projection[j] < |schema.columns|
      ensures r.Ok? ==> pager.Accepting() && Followed(pager.now.indexes, condition)
      ensures r == Err(TransactionError) <==> !pager.Accepting()
      ensures r == Err(InvalidArgument) ==> pager.Accepting() && !Followed(pager.now.indexes, condition)
      ensures r.Err? ==> r.code == InvalidArgument || StorageFailure(r.code)
      ensures r.Ok? ==>
        NoDuplicates(keys) && |r.value| == |keys| &&
        (forall k :: k in keys <==> k in pager.now.data.table && Satisfies(pager.now.data.table[k], condition)) &&
        (forall i :: 0 <= i < |keys| ==> SelectedFrom(r.value[i], keys[i], projection))
    {
      hide Stored, Satisfies;
      keys := [];
      if !pager.Accepting() {
        return Err(TransactionError), keys;
      }
      var state := ResolvePredicateState(schema, condition);
      if state.Err? {
        return Err(state.code), keys;
      }
      SatisfiedAreChosen(condition);
      if state.value.Impossible? {
        return Ok([]), keys;
      }
      var path := FollowPath(table, trees, state.value);
      if path.Err? {
        return Err(path.code), keys;
      }
      ChosenKeysExact(schema, pager.now.data.table, state.value, path.value);
      keys := ChosenKeys(schema, pager.now.data.table, state.value, path.value);
      var rows := SelectRows(projection, state.value, path.value);
      r := Ok(rows);
    }

    /** The projections of the chosen rows among those visited, in the order of the visit. */
    method SelectRows(projection: seq<nat>, state: PredicateState, order: seq<Key>) returns (rows: seq<Tables.Row>)
      requires StateOk(schema, pager.now) && Evaluable(schema, state) && forall k :: k in order ==>
        k in pager.now.data.table
      requires forall j :: 0 <= j < |projection| ==> projection[j] < |schema.columns|
      ensures var keys := ChosenKeys(schema, pager.now.data.table, state, order);
        |rows| == |keys| &&
        forall i :: 0 <= i < |keys| ==> SelectedFrom(rows[i], keys[i], projection)
    {
      hide ColumnOk, RowMatches;
      rows := [];
      for i := 0 to |order|
        invariant |rows| == |ChosenKeys(schema, pager.now.data.table, state, order[..i])|
        invariant forall j :: 0 <= j < |rows| ==>
          SelectedFrom(rows[j], ChosenKeys(schema, pager.now.data.table, state, order[..i])[j], projection)
      {
        var k := order[i];
        assert k in order && order[..i + 1][..i] == order[..i];
        EvaluableOk(schema, pager.now.data.table[k], state);
        if RowMatches(pager.now.data.table[k], state).value {
          rows := rows + [Projected(pager.now.data.table[k], projection)];
        }
      }
      assert order[..|order|] == order;
    }

    /** Among the rows of the table. */
    lemma SatisfiedAreChosen(condition: Option<Predicate>)
      requires StateOk(schema, pager.now) && Bound(schema, condition) && ResolvePredicateState(schema, condition).Ok?
      ensures forall k :: k in pager.now.data.table ==>
        (Chosen(schema, pager.now.data.table[k], ResolvePredicateState(schema, condition).value) <==>
         Satisfies(pager.now.data.table[k], condition))
    {
      forall k | k in pager.now.data.table
        ensures Chosen(schema, pager.now.data.table[k], ResolvePredicateState(schema, condition).value) <==>
          Satisfies(pager.now.data.table[k], condition)
      {
        ResolvedMeans(schema, condition, pager.now.data.table[k]);
      }
    }
  }
}
