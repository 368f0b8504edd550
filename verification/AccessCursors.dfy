/** Opening and reading the cursors of an access path over the B+ trees themselves. */
module AccessCursors {
  import opened Bytes
  import opened Status
  import opened BTreeShape
  import opened BTreeScan
  import opened BTreeStore
  import opened BTreeCursors
  import opened PagedBTree
  import opened Keys
  import opened AccessPaths

  /** What the cursors have left, one after the other. */
  ghost function Remainings(cursors: seq<BTreeCursor>, store: PageStore): seq<Entry>
    requires forall c :: c in cursors ==> c.Valid() && c.store == store
    reads cursors, store
  {
    if cursors == [] then [] else cursors[0].Remaining() + Remainings(cursors[1..], store)
  }

  ghost predicate AllOpen(cursors: seq<BTreeCursor>, store: PageStore)
    reads cursors, store
  {
    && (forall c :: c in cursors ==> c.store == store && c.Valid())
    && forall i, j :: 0 <= i < j < |cursors| ==> cursors[i] != cursors[j]
  }

  /** The bounds as keys. */
  ghost function Bound(b: Option<Bytes>): Option<Key> {
    match b
    case None => None
    case Some(s) => Some(Number(s))
  }

  /** open_cursors: one cursor for most operators, two around the literal for NotEqual, none for Greater
      when no key is greater. */
  method OpenCursors(tree: BTree, op: Operator, key: Bytes, next: Option<Bytes>) returns (r: Result<seq<BTreeCursor>>)
    requires tree.Valid() && |key| == tree.keySize && (next.Some? ==> |next.value| == tree.keySize)
    ensures r.Ok? <==> IsComparison(op)
    ensures r.Err? ==> r.code == InternalError
    ensures r.Ok? ==> fresh(set c | c in r.value) && AllOpen(r.value, tree.store)
    ensures r.Ok? ==>
      Remainings(r.value, tree.store) == Scanned(Entries(tree.tree), Ranges(op, Number(key), Bound(next)))
  {
    var lo, hi: Option<Bytes> := None, None;
    match op {
      case Equal => lo, hi := Some(key), next;
      case NotEqual =>
        var before := OpenOne(tree, None, Some(key));
        if next.None? {
          return Ok([before]);
        }
        var after := OpenOne(tree, next, None);
        assert [before, after][1..] == [after];
        ScannedTwo(Entries(tree.tree), Range(None, Some(Number(key))), Range(Bound(next), None));
        return Ok([before, after]);
      case Less => hi := Some(key);
      case LessEqual => hi := next;
      case Greater =>
        if next.None? {
          return Ok([]);
        }
        lo := next;
      case GreaterEqual => lo := Some(key);
      case _ => return Err(InternalError);
    }
    var cursor := OpenOne(tree, lo, hi);
    r := Ok([cursor]);
  }

  method OpenOne(tree: BTree, lo: Option<Bytes>, hi: Option<Bytes>) returns (cursor: BTreeCursor)
    requires tree.Valid() && (lo.Some? ==> |lo.value| == tree.keySize) && (hi.Some? ==> |hi.value| == tree.keySize)
    ensures fresh(cursor) && AllOpen([cursor], tree.store) && cursor.Valid() && cursor.store == tree.store
    ensures cursor.Remaining() == Between(Entries(tree.tree), Bound(lo), Bound(hi))
    ensures Remainings([cursor], tree.store) == Scanned(Entries(tree.tree), [Range(Bound(lo), Bound(hi))])
  {
    var r := tree.ScanRange(lo, hi);
    assert r.Ok?;
    cursor := r.value;
    assert [cursor][1..] == [];
    ScannedOne(Entries(tree.tree), Range(Bound(lo), Bound(hi)));
  }

  /** open_table_cursors: the next key is the exclusive end of the keys equal to the literal. */
  method OpenTableCursors(tree: BTree, op: Operator, key: Bytes) returns (r: Result<seq<BTreeCursor>>)
    requires tree.Valid() && |key| == tree.keySize
    ensures r.Ok? <==> IsComparison(op)
    ensures r.Ok? ==> fresh(set c | c in r.value) && AllOpen(r.value, tree.store)
    ensures r.Ok? ==>
      Remainings(r.value, tree.store) ==
        Scanned(Entries(tree.tree), Ranges(op, Number(key), NextNumber(Number(key), |key|)))
  {
    var next := NextKey(key);
    NextKeyNumber(key, next);
    r := OpenCursors(tree, op, key, next);
  }

  lemma NextKeyNumber(key: Bytes, next: Option<Bytes>)
    requires next.Some? ==> Number(next.value) == Number(key) + 1 && |next.value| == |key|
    requires next.None? <==> forall i :: 0 <= i < |key| ==> key[i] == 255
    ensures Bound(next) == NextNumber(Number(key), |key|)
  {
    NumberBound(key);
    if next.Some? {
      NumberBound(next.value);
    } else {
      NumberOfOnes(key);
    }
  }

  lemma {:induction false} NumberOfOnes(key: Bytes)
    requires forall i :: 0 <= i < |key| ==> key[i] == 255
    ensures Number(key) + 1 == Radix(|key|)
  {
    if key != [] {
      NumberOfOnes(key[..|key| - 1]);
    }
  }

  /** open_secondary_index_cursors: both bounds are the prefix and its successor, padded with zeros to the
      size of the tree's keys. */
  method OpenSecondaryIndexCursors(tree: BTree, op: Operator, prefix: Bytes) returns (r: Result<seq<BTreeCursor>>)
    requires tree.Valid()
    ensures |prefix| > tree.keySize ==> r == Err(InvalidArgument)
    ensures |prefix| <= tree.keySize ==> (r.Ok? <==> IsComparison(op))
    ensures r.Ok? ==> fresh(set c | c in r.value) && AllOpen(r.value, tree.store)
    ensures r.Ok? ==>
      var span := Radix(tree.keySize - |prefix|);
      Remainings(r.value, tree.store) ==
        Scanned(Entries(tree.tree), Ranges(op, Number(prefix) * span, NextPrefix(Number(prefix), |prefix|, span)))
  {
    if |prefix| > tree.keySize {
      return Err(InvalidArgument);
    }
    var padding := Zeros(tree.keySize - |prefix|);
    var next := NextKey(prefix);
    NextKeyNumber(prefix, next);
    PaddedNumber(prefix, |padding|);
    var nextKey := if next.Some? then Some(next.value + padding) else None;
    NextPrefixBound(prefix, next, |padding|);
    hide NextPrefix, Ranges, Bound;
    r := OpenCursors(tree, op, prefix + padding, nextKey);
  }

  /** The padded successor is the successor of the prefix in units of the padding's range. */
  lemma NextPrefixBound(prefix: Bytes, next: Option<Bytes>, n: nat)
    requires next.Some? ==> |next.value| == |prefix| && Number(next.value) == Number(prefix) + 1
    requires Bound(next) == NextNumber(Number(prefix), |prefix|)
    ensures Bound(if next.Some? then Some(next.value + Zeros(n)) else None) ==
      NextPrefix(Number(prefix), |prefix|, Radix(n))
  {
    if next.Some? {
      PaddedNumber(next.value, n);
    }
  }

  lemma PaddedNumber(s: Bytes, n: nat)
    ensures Number(s + Zeros(n)) == Number(s) * Radix(n)
  {
    NumberOfConcat(s, Zeros(n));
    NumberOfZeros(n);
  }

  ghost predicate LeadsToRow(x: Entry, table: BTree)
    reads table
  {
    |x.value| == table.keySize && Number(x.value) in table.Contents()
  }

  // ---- Reading the cursors -----------------------------------------------------------------

  lemma RemainingsSame(cursors: seq<BTreeCursor>, store: PageStore)
    requires AllOpen(cursors, store)
    ensures cursors != [] ==> AllOpen(cursors[1..], store)
  {
  }

  /** consume_table_cursors: the row processor is given every entry in range, in order. */
  method ConsumeTableCursors(cursors: seq<BTreeCursor>, store: PageStore) returns (rows: seq<Entry>)
    requires AllOpen(cursors, store)
    modifies cursors
    ensures rows == old(Remainings(cursors, store))
  {
    rows := [];
    ghost var all := Remainings(cursors, store);
    for i := 0 to |cursors|
      invariant AllOpen(cursors[i..], store) && all == rows + Remainings(cursors[i..], store)
    {
      ghost var rest := cursors[i..];
      assert rest[0] == cursors[i] && rest[1..] == cursors[i + 1..];
      RemainingsSame(rest, store);
      ghost var later := Remainings(cursors[i + 1..], store);
      var es := ConsumeFirst(cursors[i], rest, store);
      Assoc(rows, es, later);
      rows := rows + es;
    }
  }

  /** Consuming a cursor leaves the ones after it as they are. */
  method ConsumeFirst(cursor: BTreeCursor, ghost rest: seq<BTreeCursor>, ghost store: PageStore)
    returns (es: seq<Entry>)
    requires AllOpen(rest, store) && rest != [] && cursor == rest[0] && AllOpen(rest[1..], store)
    modifies cursor
    ensures AllOpen(rest[1..], store) && old(Remainings(rest, store)) == es + Remainings(rest[1..], store)
    ensures Remainings(rest[1..], store) == old(Remainings(rest[1..], store))
  {
    assert cursor !in rest[1..];
    es := cursor.Consume();
  }

  /** consume_secondary_index_cursors: every index entry leads to its row in the table tree; an entry
      without a row is an error. */
  method ConsumeSecondaryIndexCursors(cursors: seq<BTreeCursor>, store: PageStore, table: BTree)
    returns (r: Result<seq<Entry>>)
    requires AllOpen(cursors, store) && table.Valid()
    modifies cursors
    ensures r.Ok? <==> forall x :: x in old(Remainings(cursors, store)) ==> LeadsToRow(x, table)
    ensures r.Ok? ==>
      var xs := old(Remainings(cursors, store));
      |r.value| == |xs| && forall i :: 0 <= i < |xs| ==>
        LeadsToRow(xs[i], table) && r.value[i] == Entry(Number(xs[i].value), table.Contents()[Number(xs[i].value)])
  {
    var xs := ConsumeTableCursors(cursors, store);
    r := FindRows(xs, table);
  }

  method FindRows(xs: seq<Entry>, table: BTree) returns (r: Result<seq<Entry>>)
    requires table.Valid()
    ensures r.Ok? <==> forall x :: x in xs ==> LeadsToRow(x, table)
    ensures r.Ok? ==> |r.value| == |xs| && forall i :: 0 <= i < |xs| ==>
      LeadsToRow(xs[i], table) && r.value[i] == Entry(Number(xs[i].value), table.Contents()[Number(xs[i].value)])
  {
    var rows := [];
    for i := 0 to |xs|
      invariant |rows| == i
      invariant forall j :: 0 <= j < i ==>
        LeadsToRow(xs[j], table) && rows[j] == Entry(Number(xs[j].value), table.Contents()[Number(xs[j].value)])
    {
      assert xs[i] in xs;
      var row := table.Find(xs[i].value);
      if row.Err? {
        return Err(row.code);
      }
      rows := rows + [Entry(Number(xs[i].value), row.value)];
    }
    r := Ok(rows);
  }
}
