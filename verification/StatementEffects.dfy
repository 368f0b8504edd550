/** What INSERT, UPDATE, DELETE, CREATE INDEX and SELECT mean for one table and its indexes. */
module StatementEffects {
  import opened Sets
  import opened Status
  import opened Values
  import opened Tables
  import opened IndexMaintenance
  import opened AccessPaths

  /** What a transaction sees of one table: the catalog's indexes, and the trees. */
  datatype State = State(indexes: seq<IndexDescriptor>, data: Data)

  ghost predicate StateOk(schema: TableSchema, s: State) {
    DataOk(schema, s.indexes, s.data)
  }

  /** The predicate can be evaluated on the table's rows. */
  predicate Evaluable(schema: TableSchema, state: PredicateState) {
    match state
    case NullTest(column, _) => column < |schema.columns|
    case Comparison(column, _, value) => column < |schema.columns| && value != Null &&
      IsA(value, schema.columns[column].logicalType)
    case _ => true
  }

  lemma EvaluableOk(schema: TableSchema, row: Tables.Row, state: PredicateState)
    requires Evaluable(schema, state) && RowOk(schema, row)
    ensures RowMatches(row, state).Ok?
  {
    if state.Comparison? {
      assert ColumnOk(schema.columns[state.column], row[state.column]);
    }
  }

  ghost predicate Chosen(schema: TableSchema, row: Tables.Row, state: PredicateState)
    requires Evaluable(schema, state) && RowOk(schema, row)
  {
    RowMatches(row, state) == Ok(true)
  }

  /** order is what an access path visits: rows of the table, none twice, every chosen one among them. */
  ghost predicate Visits(schema: TableSchema, table: Table, state: PredicateState, order: seq<Key>)
    requires schema.Valid() && TableOk(schema, table) && Evaluable(schema, state)
  {
    && NoDuplicates(order) && (forall k :: k in order ==> k in table)
    && forall k :: k in table && Chosen(schema, table[k], state) ==> k in order
  }

  /** A row that the insertion would collide with: the same primary key, or the same value in a column with
      a unique index. */
  ghost predicate Collides(schema: TableSchema, s: State, row: Tables.Row)
    requires schema.Valid() && RowOk(schema, row)
  {
    || RowKey(schema, row) in s.data.table
    || exists i :: 0 <= i < |s.indexes| && UniqueTaken(s.indexes[i], s.data.table, row)
  }

  ghost predicate UniqueTaken(index: IndexDescriptor, table: Table, row: Tables.Row) {
    !index.primary && index.unique && ValueTaken(table, index.column, row)
  }

  // ---- What UPDATE computes ------------------------------------------------------------------

  ghost predicate UniquelyIndexed(indexes: seq<IndexDescriptor>, column: nat) {
    exists i :: 0 <= i < |indexes| && UniqueIndexOn(indexes[i], column)
  }

  ghost predicate UniqueIndexOn(index: IndexDescriptor, column: nat) {
    !index.primary && index.unique && index.column == column
  }

  /** The table with the value assigned in every chosen row. */
  ghost function Assigned(schema: TableSchema, table: Table, state: PredicateState, column: nat, value: Value): Table
    requires schema.Valid() && TableOk(schema, table) && Evaluable(schema, state) && column < |schema.columns|
  {
    map k | k in table :: AssignedRow(schema, table[k], state, column, value)
  }

  ghost function AssignedRow(schema: TableSchema, row: Tables.Row, state: PredicateState, column: nat,
                             value: Value): Tables.Row
    requires Evaluable(schema, state) && RowOk(schema, row) && column < |schema.columns|
  {
    if Chosen(schema, row, state) then row[column := value] else row
  }

  ghost function AssignedSoFar(schema: TableSchema, table: Table, state: PredicateState, column: nat, value: Value,
                               order: seq<Key>): Table
    requires schema.Valid() && TableOk(schema, table) && Evaluable(schema, state) && column < |schema.columns|
  {
    map k | k in table :: if k in order then AssignedRow(schema, table[k], state, column, value) else table[k]
  }

  /** Some other row of the table holds the value. */
  ghost predicate InTheWay(table: Table, k: Key, column: nat, value: Value) {
    exists l :: l in table && l != k && column < |table[l]| && table[l][column] == value
  }

  /** The final table of an update would hold two rows with the same value under a unique index. */
  ghost predicate UpdateClashes(schema: TableSchema, s: State, state: PredicateState, column: nat, value: Value)
    requires StateOk(schema, s) && Evaluable(schema, state) && column < |schema.columns|
  {
    UniquelyIndexed(s.indexes, column) && !UniqueOn(Assigned(schema, s.data.table, state, column, value), column)
  }

  /** Rows may take the value: the column is not the primary key, and the value can be stored. */
  predicate Assignable(schema: TableSchema, column: nat, value: Value)
    requires column < |schema.columns|
  {
    column != schema.primaryKey && ColumnOk(schema.columns[column], value)
  }

  ghost predicate AnyChosen(schema: TableSchema, table: Table, state: PredicateState)
    requires schema.Valid() && TableOk(schema, table) && Evaluable(schema, state)
  {
    exists k :: k in table && Chosen(schema, table[k], state)
  }

  /** Among the rows visited so far. */
  ghost predicate NoneAmong(schema: TableSchema, table: Table, state: PredicateState, visited: seq<Key>)
    requires schema.Valid() && TableOk(schema, table) && Evaluable(schema, state)
  {
    forall k :: k in visited && k in table ==> !Chosen(schema, table[k], state)
  }

  lemma NothingVisited(schema: TableSchema, table: Table, state: PredicateState, column: nat, value: Value)
    requires schema.Valid() && TableOk(schema, table) && Evaluable(schema, state) && column < |schema.columns|
    ensures AssignedSoFar(schema, table, state, column, value, []) == table && NoneAmong(schema, table, state, [])
  {
  }

  lemma OneMoreAmong(schema: TableSchema, table: Table, state: PredicateState, order: seq<Key>, i: nat,
                     k: Key)
    requires schema.Valid() && TableOk(schema, table) && Evaluable(schema, state)
    requires i < |order| && order[i] == k && k in table
    ensures if Chosen(schema, table[k], state) then AnyChosen(schema, table, state)
      else NoneAmong(schema, table, state, order[..i]) ==> NoneAmong(schema, table, state, order[..i + 1])
  {
    assert order[..i + 1] == order[..i] + [k];
  }

  lemma NoneIsChosen(schema: TableSchema, table: Table, state: PredicateState, order: seq<Key>)
    requires schema.Valid() && TableOk(schema, table) && Evaluable(schema, state)
    requires Visits(schema, table, state, order) && NoneAmong(schema, table, state, order)
    ensures !AnyChosen(schema, table, state)
  {
  }

  lemma OneValueOk(schema: TableSchema, row: Tables.Row, column: nat, value: Value)
    requires RowOk(schema, row) && column < |row|
    ensures RowOk(schema, row[column := value]) <==> ColumnOk(schema.columns[column], value)
  {
    var newRow := row[column := value];
    assert newRow[column] == value;
    assert forall i :: 0 <= i < |row| && i != column ==> ColumnOk(schema.columns[i], newRow[i]);
  }

  ghost predicate OldEntryGone(schema: TableSchema, index: IndexDescriptor, row: Tables.Row, newRow: Tables.Row,
                               column: nat,
                               before: map<Key, Key>, after: map<Key, Key>)
    requires schema.Valid() && RowOk(schema, row) && RowOk(schema, newRow)
  {
    after == if Moves(schema, index, row, newRow, column) then before - {IndexKey(schema, index, row)} else before
  }

  /** The row's entry in the index moves. */
  predicate Moves(schema: TableSchema, index: IndexDescriptor, row: Tables.Row, newRow: Tables.Row, column: nat)
    requires schema.Valid() && RowOk(schema, row) && RowOk(schema, newRow)
  {
    !index.primary && index.column == column && CanIndex(schema, index) &&
    IndexKey(schema, index, row) != IndexKey(schema, index, newRow)
  }

  lemma SameRowKey(schema: TableSchema, row: Tables.Row, newRow: Tables.Row, column: nat)
    requires schema.Valid() && RowOk(schema, row) && RowOk(schema, newRow)
    requires column < |row| && column != schema.primaryKey && newRow == row[column := newRow[column]]
    ensures RowKey(schema, newRow) == RowKey(schema, row)
  {
    ColumnKeyInjective(schema, schema.primaryKey, row, newRow);
  }

  lemma NotMoved(schema: TableSchema, index: IndexDescriptor, row: Tables.Row, newRow: Tables.Row, column: nat)
    requires schema.Valid() && RowOk(schema, row) && RowOk(schema, newRow) && CanIndex(schema, index) && !index.primary
    requires column < |row| && column != schema.primaryKey && newRow == row[column := newRow[column]]
    requires !Moves(schema, index, row, newRow, column)
    ensures IndexKey(schema, index, newRow) == IndexKey(schema, index, row)
  {
    SameRowKey(schema, row, newRow, column);
    if index.column != column {
      ColumnKeyInjective(schema, index.column, row, newRow);
    }
  }

  lemma MovedOntoDuplicate(schema: TableSchema, index: IndexDescriptor, table: Table, content: map<Key, Key>, k: Key,
                           row: Tables.Row)
    requires schema.Valid() && TableOk(schema, table) && CanIndex(schema, index) &&
      Agrees(schema, index, table, content)
    requires k in table && RowOk(schema, row) && RowKey(schema, row) == k
    requires IndexKey(schema, index, row) in content - {IndexKey(schema, index, table[k])}
    ensures index.unique && InTheWay(table, k, index.column, row[index.column])
  {
    AgreesErase(schema, index, table, content, k);
    TakenBy(schema, index, table - {k}, content - {IndexKey(schema, index, table[k])}, row);
    var l :| l in table - {k} && index.column < |(table - {k})[l]| && index.column < |row| &&
      (table - {k})[l][index.column] == row[index.column];
    assert l in table && l != k && table[l][index.column] == row[index.column];
  }

  lemma NotYetAssigned(schema: TableSchema, table: Table, state: PredicateState, column: nat, value: Value,
                       order: seq<Key>, i: nat)
    requires schema.Valid() && TableOk(schema, table) && Evaluable(schema, state) && column < |schema.columns|
    requires Visits(schema, table, state, order) && i < |order|
    ensures var t, k := AssignedSoFar(schema, table, state, column, value, order[..i]), order[i];
      && k in table && k in t && t[k] == table[k]
      && AssignedSoFar(schema, table, state, column, value, order[..i + 1]) ==
         (if Chosen(schema, table[k], state) then t[k := table[k][column := value]] else t)
  {
    var k := order[i];
    assert k in order && k !in order[..i];
    assert order[..i + 1] == order[..i] + [k];
    hide Visits, RowMatches;
    OneMoreAssigned(schema, table, state, column, value, order[..i], k);
  }

  lemma OneMoreAssigned(schema: TableSchema, table: Table, state: PredicateState, column: nat, value: Value,
                        before: seq<Key>, k: Key)
    requires schema.Valid() && TableOk(schema, table) && Evaluable(schema, state) && column < |schema.columns|
    requires k in table && k !in before
    ensures var t := AssignedSoFar(schema, table, state, column, value, before);
      && k in t && t[k] == table[k] && t[k := table[k]] == t
      && AssignedSoFar(schema, table, state, column, value, before + [k]) ==
         t[k := AssignedRow(schema, table[k], state, column, value)]
  {
    hide Chosen, AssignedRow, RowOk, RowKey;
  }

  lemma AllAssigned(schema: TableSchema, table: Table, state: PredicateState, column: nat, value: Value,
                    order: seq<Key>)
    requires schema.Valid() && TableOk(schema, table) && Evaluable(schema, state) && column < |schema.columns|
    requires Visits(schema, table, state, order)
    ensures AssignedSoFar(schema, table, state, column, value, order) == Assigned(schema, table, state, column, value)
  {
    var t, u := AssignedSoFar(schema, table, state, column, value, order),
      Assigned(schema, table, state, column, value);
    forall k | k in table ensures t[k] == u[k] {
      assert Chosen(schema, table[k], state) ==> k in order;
    }
    assert t.Keys == u.Keys;
  }

  lemma NothingAssigned(schema: TableSchema, table: Table, state: PredicateState, column: nat, value: Value)
    requires schema.Valid() && TableOk(schema, table) && state.Impossible? && column < |schema.columns|
    ensures Assigned(schema, table, state, column, value) == table
  {
    var u := Assigned(schema, table, state, column, value);
    forall k | k in table ensures u[k] == table[k] {
      assert !Chosen(schema, table[k], state);
    }
    assert u.Keys == table.Keys;
  }

  /** A value that is in the way of one row stays in the way: no later assignment removes it. */
  lemma DuplicateStays(schema: TableSchema, table: Table, state: PredicateState, column: nat, value: Value,
                       order: seq<Key>, i: nat, k: Key)
    requires schema.Valid() && TableOk(schema, table) && Evaluable(schema, state) && column < |schema.columns|
    requires Visits(schema, table, state, order) && i < |order| && k == order[i] && k in table &&
      Chosen(schema, table[k], state)
    requires InTheWay(AssignedSoFar(schema, table, state, column, value, order[..i]), k, column, value)
    ensures !UniqueOn(Assigned(schema, table, state, column, value), column)
  {
    var t, u := AssignedSoFar(schema, table, state, column, value, order[..i]),
      Assigned(schema, table, state, column, value);
    var l :| l in t && l != k && column < |t[l]| && t[l][column] == value;
    assert k in order && k in u && l in u && u[k][column] == value && u[l][column] == value;
  }

  lemma UniqueUnderIndex(schema: TableSchema, s: State, column: nat)
    requires StateOk(schema, s)
    ensures UniquelyIndexed(s.indexes, column) ==> UniqueOn(s.data.table, column)
  {
    if UniquelyIndexed(s.indexes, column) {
      var i :| 0 <= i < |s.indexes| && UniqueIndexOn(s.indexes[i], column);
      assert TreeOk(schema, s.indexes[i], s.data.table, s.data.trees[i]);
      AgreeingIsUnique(schema, s.indexes[i], s.data.table, s.data.trees[i]);
    }
  }

  // ---- What DELETE computes ------------------------------------------------------------------

  ghost function Kept(schema: TableSchema, table: Table, state: PredicateState): Table
    requires schema.Valid() && TableOk(schema, table) && Evaluable(schema, state)
  {
    map k | k in table && !Chosen(schema, table[k], state) :: table[k]
  }

  ghost function WithoutAll(table: Table, keys: seq<Key>): Table {
    map k | k in table && k !in keys :: table[k]
  }

  lemma WithoutOneMore(table: Table, keys: seq<Key>, i: nat, k: Key)
    requires i < |keys| && keys[i] == k && k in table && k !in keys[..i]
    ensures k in WithoutAll(table, keys[..i])
    ensures WithoutAll(table, keys[..i + 1]) == WithoutAll(table, keys[..i]) - {k}
  {
    assert keys[..i + 1] == keys[..i] + [k];
  }

  lemma AllDeleted(schema: TableSchema, table: Table, state: PredicateState, keys: seq<Key>)
    requires schema.Valid() && TableOk(schema, table) && Evaluable(schema, state)
    requires forall k :: k in keys <==> k in table && Chosen(schema, table[k], state)
    ensures WithoutAll(table, keys) == Kept(schema, table, state)
  {
    var t, u := WithoutAll(table, keys), Kept(schema, table, state);
    forall k ensures k in t <==> k in u {
      assert k in keys <==> k in table && Chosen(schema, table[k], state);
    }
  }

  lemma NothingDeleted(schema: TableSchema, table: Table, state: PredicateState)
    requires schema.Valid() && TableOk(schema, table) && state.Impossible?
    ensures Kept(schema, table, state) == table
  {
    forall k | k in table ensures !Chosen(schema, table[k], state) {
    }
  }

  // ---- What CREATE INDEX computes ------------------------------------------------------------

  /** The rows that the scan has seen. */
  ghost function Only(schema: TableSchema, table: Table, keys: seq<Key>): (t: Table)
    requires schema.Valid() && TableOk(schema, table)
    ensures TableOk(schema, t)
  {
    map k | k in table && k in keys :: table[k]
  }

  lemma OnlyOneMore(schema: TableSchema, table: Table, keys: seq<Key>, i: nat, k: Key)
    requires schema.Valid() && TableOk(schema, table) && i < |keys| && keys[i] == k && k in table && k !in keys[..i]
    ensures k !in Only(schema, table, keys[..i]) && RowKey(schema, table[k]) == k
    ensures Only(schema, table, keys[..i + 1]) == Only(schema, table, keys[..i])[k := table[k]]
  {
    assert keys[..i + 1] == keys[..i] + [k];
  }

  lemma OnlyAll(schema: TableSchema, table: Table, order: seq<Key>)
    requires schema.Valid() && TableOk(schema, table) && Visits(schema, table, Absent, order)
    ensures Only(schema, table, order) == table
  {
    forall k | k in table ensures k in order {
      assert Chosen(schema, table[k], Absent);
    }
  }

  lemma AgreesInsertIfFree(schema: TableSchema, index: IndexDescriptor, table: Table, content: map<Key, Key>,
                           row: Tables.Row)
    requires schema.Valid() && TableOk(schema, table) && CanIndex(schema, index) &&
      Agrees(schema, index, table, content)
    requires RowOk(schema, row) && RowKey(schema, row) !in table
    ensures TableOk(schema, table[RowKey(schema, row) := row])
    ensures IndexKey(schema, index, row) !in content ==>
      Agrees(schema, index, table[RowKey(schema, row) := row],
             content[IndexKey(schema, index, row) := RowKey(schema, row)])
  {
    if IndexKey(schema, index, row) !in content {
      AgreesInsert(schema, index, table, content, row);
    }
  }

  lemma TakenTwice(schema: TableSchema, table: Table, column: nat, seen: seq<Key>, k: Key)
    requires schema.Valid() && TableOk(schema, table) && k in table && k !in seen
    requires ValueTaken(Only(schema, table, seen), column, table[k])
    ensures !UniqueOn(table, column)
  {
    var part := Only(schema, table, seen);
    var l :| l in part && column < |part[l]| && column < |table[k]| && part[l][column] == table[k][column];
    assert l in table && l != k && table[l] == part[l];
  }

  // ---- What SELECT computes ------------------------------------------------------------------

  /** The keys of the chosen rows, in the order of the visit. */
  ghost function ChosenKeys(schema: TableSchema, table: Table, state: PredicateState, order: seq<Key>): (keys: seq<Key>)
    requires schema.Valid() && TableOk(schema, table) && Evaluable(schema, state) && forall k :: k in order ==>
      k in table
    ensures forall i :: 0 <= i < |keys| ==> keys[i] in table && keys[i] in order
  {
    if order == [] then []
    else
      var n := |order| - 1;
      var k := order[n];
      assert k in order && order == order[..n] + [k];
      ChosenKeys(schema, table, state, order[..n]) + (if Chosen(schema, table[k], state) then [k] else [])
  }

  lemma {:induction false} NoneChosen(schema: TableSchema, table: Table, state: PredicateState, order: seq<Key>)
    requires schema.Valid() && TableOk(schema, table) && state.Impossible? && forall k :: k in order ==> k in table
    ensures ChosenKeys(schema, table, state, order) == []
  {
    if order != [] {
      var n := |order| - 1;
      assert forall k :: k in order[..n] ==> k in order;
      assert order[n] in order;
      NoneChosen(schema, table, state, order[..n]);
    }
  }

  /** A SELECT over any access path returns each chosen row once, and no other. */
  lemma FrontOfDistinct(order: seq<Key>, n: nat)
    requires NoDuplicates(order) && n + 1 == |order|
    ensures order == order[..n] + [order[n]] && NoDuplicates(order[..n]) && order[n] !in order[..n]
    ensures forall x :: x in order <==> x in order[..n] || x == order[n]
  {
  }

  lemma OneMoreKept(kept: seq<Key>, order: seq<Key>, k: Key, good: iset<Key>)
    requires NoDuplicates(kept) && k !in order && forall x :: x in kept <==> x in order && x in good
    ensures var keys := kept + (if k in good then [k] else []);
      NoDuplicates(keys) && forall x :: x in keys <==> (x in order || x == k) && x in good
  {
  }

  lemma {:induction false} ChosenKeysExact(schema: TableSchema, table: Table, state: PredicateState, order: seq<Key>)
    requires schema.Valid() && TableOk(schema, table) && Evaluable(schema, state)
    requires NoDuplicates(order) && forall k :: k in order ==> k in table
    ensures var keys := ChosenKeys(schema, table, state, order);
      NoDuplicates(keys) && forall k :: k in keys <==> k in order && k in table && Chosen(schema, table[k], state)
  {
    hide Chosen, RowOk, NoDuplicates;
    if order != [] {
      var n := |order| - 1;
      var k := order[n];
      FrontOfDistinct(order, n);
      ChosenKeysExact(schema, table, state, order[..n]);
      var good := iset x | x in table && Chosen(schema, table[x], state);
      OneMoreKept(ChosenKeys(schema, table, state, order[..n]), order[..n], k, good);
    }
  }

  /** Whatever paths two plans take, they select the same rows, each as often. */
  lemma PlansAgree(schema: TableSchema, table: Table, state: PredicateState, one: seq<Key>, other: seq<Key>)
    requires schema.Valid() && TableOk(schema, table) && Evaluable(schema, state)
    requires Visits(schema, table, state, one) && Visits(schema, table, state, other)
    ensures multiset(ChosenKeys(schema, table, state, one)) == multiset(ChosenKeys(schema, table, state, other))
  {
    ChosenKeysExact(schema, table, state, one);
    ChosenKeysExact(schema, table, state, other);
    var a, b := ChosenKeys(schema, table, state, one), ChosenKeys(schema, table, state, other);
    forall k ensures multiset(a)[k] == multiset(b)[k] {
      OnceEach(a, k);
      OnceEach(b, k);
    }
  }

  lemma {:induction false} OnceEach(keys: seq<Key>, k: Key)
    requires NoDuplicates(keys)
    ensures multiset(keys)[k] == if k in keys then 1 else 0
  {
    if keys != [] {
      var n := |keys| - 1;
      OnceEach(keys[..n], k);
      assert keys == keys[..n] + [keys[n]] && keys[n] !in keys[..n];
    }
  }
}
