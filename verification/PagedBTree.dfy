/** The paged B+ tree: insert and erase with every split, borrow, merge, refresh, root split and root
    collapse, over a store of pages named by id. */
module PagedBTree {
  import opened PageIds
  import opened Status
  import opened Bytes
  import Keys
  import opened BTreeShape
  import opened BTreeEntries
  import opened BTreeNodes
  import opened BTreePages
  import opened BTreeSpots
  import opened BTreeInsert
  import opened BTreeInsertSplit
  import opened BTreeErase
  import opened BTreePairs
  import opened BTreeInternalPairs
  import opened BTreeRoot
  import opened BTreeScan
  import opened BTreeStore
  import opened BTreeCursors
  import opened BTreeUpdate

  const MAX_FIELD_SIZE := 65535
  const PAGE_ID_SIZE := 8

  // ---- Searches and rebuilding loops on one page -------------------------------------------

  /** Lower bound in a leaf. */
  method LeafPosition(es: seq<Entry>, k: Key) returns (left: nat)
    requires Sorted(es)
    ensures left <= |es|
    ensures forall j :: 0 <= j < left ==> es[j].key < k
    ensures forall j :: left <= j < |es| ==> k <= es[j].key
  {
    left := 0;
    var right := |es|;
    while left < right
      invariant 0 <= left <= right <= |es|
      invariant forall j :: 0 <= j < left ==> es[j].key < k
      invariant forall j :: right <= j < |es| ==> k <= es[j].key
    {
      var mid := left + (right - left) / 2;
      if es[mid].key < k {
        left := mid + 1;
      } else {
        right := mid;
      }
    }
  }

  /** Lower bound among separators. */
  method SeparatorPosition(seps: seq<Key>, k: Key) returns (left: nat)
    requires Increasing(seps)
    ensures left <= |seps|
    ensures forall j :: 0 <= j < left ==> seps[j] < k
    ensures forall j :: left <= j < |seps| ==> k <= seps[j]
  {
    left := 0;
    var right := |seps|;
    while left < right
      invariant 0 <= left <= right <= |seps|
      invariant forall j :: 0 <= j < left ==> seps[j] < k
      invariant forall j :: right <= j < |seps| ==> k <= seps[j]
    {
      var mid := left + (right - left) / 2;
      if seps[mid] < k {
        left := mid + 1;
      } else {
        right := mid;
      }
    }
  }

  lemma PositionUnique(seps: seq<Key>, k: Key, i: nat, j: nat)
    requires i <= |seps| && (forall x :: 0 <= x < i ==> seps[x] < k) && (forall x :: i <= x < |seps| ==> k < seps[x])
    requires j <= |seps| && (forall x :: 0 <= x < j ==> seps[x] < k) && (forall x :: j <= x < |seps| ==> k <= seps[x])
    ensures i == j
  {
    var atJ := if j < |seps| then seps[j] else k;
    var atI := if i < |seps| then seps[i] else k;
  }

  /** child_index_for_key: upper bound among separators. */
  method ChildIndexForKey(seps: seq<Key>, k: Key) returns (left: nat)
    requires Increasing(seps)
    ensures Routed(seps, k, left)
  {
    left := 0;
    var right := |seps|;
    while left < right
      invariant 0 <= left <= right <= |seps|
      invariant forall j :: 0 <= j < left ==> seps[j] <= k
      invariant forall j :: right <= j < |seps| ==> k < seps[j]
    {
      var mid := left + (right - left) / 2;
      if seps[mid] <= k {
        left := mid + 1;
      } else {
        right := mid;
      }
    }
  }

  ghost function Least(a: nat, b: nat): nat {
    if a <= b then a else b
  }

  /** The stored entries and the new one, in order. */
  method GatherEntries(es: seq<Entry>, pos: nat, e: Entry) returns (all: seq<Entry>)
    requires pos <= |es|
    ensures all == Inserted(es, pos, e)
  {
    all := [];
    for i := 0 to |es| + 1
      invariant all == if i <= pos then es[..i] else es[..pos] + [e] + es[pos..Least(i, |es|)]
    {
      if i == pos {
        all := all + [e];
      }
      if i < |es| {
        all := all + [es[i]];
      }
    }
    assert es[pos..|es|] == es[pos..];
  }

  /** The stored separators and children and the new pair, in order. */
  method GatherChildren(ss: seq<Key>, ks: seq<PageId>, pos: nat, sep: Key, right: PageId)
    returns (seps: seq<Key>, kids: seq<PageId>)
    requires pos <= |ss| && |ks| == |ss| + 1
    ensures seps == ss[..pos] + [sep] + ss[pos..]
    ensures kids == ks[..pos + 1] + [right] + ks[pos + 1..]
  {
    seps := [];
    kids := [ks[0]];
    for i := 0 to |ss| + 1
      invariant seps == if i <= pos then ss[..i] else ss[..pos] + [sep] + ss[pos..Least(i, |ss|)]
      invariant kids == if i <= pos then ks[..i + 1] else ks[..pos + 1] + [right] + ks[pos + 1..Least(i, |ss|) + 1]
    {
      if i == pos {
        seps := seps + [sep];
        kids := kids + [right];
      }
      if i < |ss| {
        seps := seps + [ss[i]];
        kids := kids + [ks[i + 1]];
      }
    }
  }

  /** Appends entries[from..to] to an empty leaf, one insert_entry at a time. */
  method FillLeaf(c: Caps, empty: Page, entries: seq<Entry>, from: nat, to: nat) returns (page: Page)
    requires empty.LeafPage? && empty.entries == []
    requires Sorted(entries) && from <= to <= |entries| && to - from <= c.leaf
    ensures page == empty.(entries := entries[from..to])
  {
    page := empty;
    for i := from to to
      invariant page == empty.(entries := entries[from..i])
    {
      var r := LeafInsertEntry(c, page, i - from, entries[i]);
      assert r.Ok?;
      SliceGrows(entries, from, i);
      page := r.value;
    }
  }

  lemma SliceGrows<T>(s: seq<T>, from: nat, i: nat)
    requires from <= i < |s|
    ensures s[from..i + 1] == s[from..i] + [s[i]]
  {
  }

  /** insert_entry at the end of an internal page. */
  method AppendEntry(c: Caps, page: Page, sep: Key, right: PageId) returns (r: Page)
    requires page.InternalPage? && |page.kids| == |page.seps| + 1 && |page.seps| < c.internal
    requires |page.seps| > 0 ==> page.seps[|page.seps| - 1] <= sep
    ensures r == page.(seps := page.seps + [sep], kids := page.kids + [right])
  {
    var inserted := InternalInsertEntry(c, page, |page.seps|, sep, right);
    assert inserted.Ok?;
    r := inserted.value;
  }

  /** Appends separators from..to-1 and their right children to an internal page that has only its
      first child. */
  method FillInternal(c: Caps, empty: Page, seps: seq<Key>, kids: seq<PageId>, from: nat, to: nat) returns (page: Page)
    requires empty.InternalPage? && empty.seps == [] && |kids| == |seps| + 1
    requires Increasing(seps)
    requires from <= to <= |seps| && to - from <= c.internal && empty.kids == [kids[from]]
    ensures page == empty.(seps := seps[from..to], kids := kids[from..to + 1])
  {
    page := empty;
    for i := from to to
      invariant page == empty.(seps := seps[from..i], kids := kids[from..i + 1])
    {
      page := AppendEntry(c, page, seps[i], kids[i + 1]);
      SliceGrows(seps, from, i);
      SliceGrows(kids, from, i + 1);
    }
  }

  lemma KidIdsAround(a: seq<Tree>, u1: Tree, u2: Tree, b: seq<Tree>)
    ensures KidIds(a + [u1, u2] + b) == KidIds(a) + [u1.id, u2.id] + KidIds(b)
  {
    KidIdsConcat(a + [u1, u2], b);
    KidIdsConcat(a, [u1, u2]);
    KidIdsConcat([u1], [u2]);
    assert [u1, u2] == [u1] + [u2];
  }

  lemma SplitKidIds(ts: seq<Tree>, i: nat, u1: Tree, u2: Tree)
    requires i < |ts| && u1.id == ts[i].id
    ensures KidIds(ts[..i] + [u1, u2] + ts[i + 1..]) == KidIds(ts)[..i + 1] + [u2.id] + KidIds(ts)[i + 1..]
  {
    KidIdsAround(ts[..i], u1, u2, ts[i + 1..]);
    KidIdsCut(ts, i);
    KidIdsCut(ts, i + 1);
    Widen(KidIds(ts), i, u2.id);
  }

  lemma Widen(ids: seq<PageId>, i: nat, x: PageId)
    requires i < |ids|
    ensures ids[..i] + [ids[i], x] + ids[i + 1..] == ids[..i + 1] + [x] + ids[i + 1..]
  {
  }

  /** left with sep and then right's separators and children appended. */
  method AppendEntries(c: Caps, left: Page, sep: Key, right: Page) returns (page: Page)
    requires left.InternalPage? && right.InternalPage?
    requires |left.kids| == |left.seps| + 1 && |right.kids| == |right.seps| + 1
    requires |left.seps + [sep] + right.seps| <= c.internal && Increasing(left.seps + [sep] + right.seps)
    ensures page == left.(seps := left.seps + [sep] + right.seps, kids := left.kids + right.kids)
  {
    ghost var row := left.seps + [sep] + right.seps;
    RowEnds(left.seps, sep, right.seps);
    page := AppendEntry(c, left, sep, right.kids[0]);
    for i := 0 to |right.seps|
      invariant page == left.(seps := left.seps + [sep] + right.seps[..i], kids := left.kids + right.kids[..i + 1])
    {
      assert row[|left.seps| + i] == if i == 0 then sep else right.seps[i - 1];
      assert row[|left.seps| + 1 + i] == right.seps[i];
      page := AppendEntry(c, page, right.seps[i], right.kids[i + 1]);
    }
  }

  lemma RowEnds(ls: seq<Key>, sep: Key, rs: seq<Key>)
    requires Increasing(ls + [sep] + rs)
    ensures |ls| > 0 ==> ls[|ls| - 1] <= sep
  {
    var row := ls + [sep] + rs;
    assert row[|ls|] == sep;
    assert |ls| > 0 ==> row[|ls| - 1] == ls[|ls| - 1];
  }

  /** n entries of the size fit the entry area of a page, and one more does not. */
  ghost predicate Fills(n: nat, size: nat) {
    n * size <= ENTRY_AREA_SIZE < (n + 1) * size
  }

  /** The capacities are those that pages of these sizes have. */
  ghost predicate LaidOut(caps: Caps, keySize: nat, valueSize: nat) {
    && 0 < keySize <= MAX_FIELD_SIZE && 0 < valueSize <= MAX_FIELD_SIZE
    && Fills(caps.leaf, keySize + valueSize) && Fills(caps.internal, keySize + PAGE_ID_SIZE)
  }

  lemma QuotientFills(size: nat)
    requires size > 0
    ensures Fills(ENTRY_AREA_SIZE / size, size)
  {
    var q := ENTRY_AREA_SIZE / size;
    assert ENTRY_AREA_SIZE == q * size + ENTRY_AREA_SIZE % size;
    assert (q + 1) * size == q * size + size;
  }

  lemma FillsOnce(m: nat, n: nat, size: nat)
    requires Fills(m, size) && Fills(n, size)
    ensures m == n
  {
    if m < n {
      TimesGrows(m + 1, n, size);
    } else if n < m {
      TimesGrows(n + 1, m, size);
    }
  }

  lemma TimesGrows(m: nat, n: nat, size: nat)
    requires m <= n
    ensures m * size <= n * size
  {
  }

  /** Keys are numbers of keySize bytes, and values are valueSize bytes long. */
  ghost predicate SizesKept(m: map<Key, Value>, keySize: nat, valueSize: nat) {
    forall k :: k in m ==> 0 <= k < Keys.Radix(keySize) && |m[k]| == valueSize
  }

  lemma PutKeepsSizes(m: map<Key, Value>, key: Bytes, value: Value, keySize: nat, valueSize: nat)
    requires SizesKept(m, keySize, valueSize) && |key| == keySize && |value| == valueSize
    ensures SizesKept(m[Number(key) := value], keySize, valueSize)
  {
    Keys.NumberBound(key);
  }

  /** validate_layout: the capacities that a key and value size give, when every page can hold enough. */
  function ValidateLayout(keySize: nat, valueSize: nat): (r: Result<Caps>)
    ensures r.Ok? ==> r.value.Valid() && keySize > 0 && valueSize > 0
    ensures r.Ok? == (0 < keySize <= MAX_FIELD_SIZE && 0 < valueSize <= MAX_FIELD_SIZE &&
      keySize + valueSize <= ENTRY_AREA_SIZE && 2 * (keySize + PAGE_ID_SIZE) <= ENTRY_AREA_SIZE)
  {
    if keySize == 0 || valueSize == 0 then Err(InvalidArgument)
    else if keySize > MAX_FIELD_SIZE || valueSize > MAX_FIELD_SIZE then Err(InvalidArgument)
    else if ENTRY_AREA_SIZE / (keySize + valueSize) == 0 then Err(InvalidArgument)
    else if ENTRY_AREA_SIZE / (keySize + PAGE_ID_SIZE) < 2 then Err(InvalidArgument)
    else Ok(Caps(ENTRY_AREA_SIZE / (keySize + valueSize), ENTRY_AREA_SIZE / (keySize + PAGE_ID_SIZE)))
  }

  /** As many entries as fit a page, for leaves and for internal pages. */
  lemma LayoutFills(keySize: nat, valueSize: nat)
    requires ValidateLayout(keySize, valueSize).Ok?
    ensures LaidOut(ValidateLayout(keySize, valueSize).value, keySize, valueSize)
  {
    QuotientFills(keySize + valueSize);
    QuotientFills(keySize + PAGE_ID_SIZE);
  }

  class BTree {
    const store: PageStore
    const root: PageId
    const keySize: nat
    const valueSize: nat
    const caps: Caps
    ghost var tree: Tree
    ghost var height: nat

    /** The root page id denotes the well-formed tree `tree`, whose entries have the tree's sizes and whose
        capacities are those of pages of these sizes. */
    ghost predicate Valid()
      reads this, store
    {
      WellFormed() && LaidOut(caps, keySize, valueSize) && SizesKept(Contents(), keySize, valueSize)
    }

    ghost predicate WellFormed()
      reads this, store
    {
      store.Valid() && tree.id == root && Sub(caps, store.pages, tree, height, RootMinimum(tree), ROOT_SPOT)
    }

    /** The finite map the tree stands for. */
    ghost function Contents(): map<Key, Value>
      reads this
    {
      MapOf(Entries(tree))
    }

    /** create_new once the layout is known to be valid: one empty root leaf. */
    constructor (store: PageStore, keySize: nat, valueSize: nat)
      requires store.Valid() && ValidateLayout(keySize, valueSize).Ok?
      modifies store
      ensures Valid() && Contents() == map[] && this.store == store && this.keySize == keySize &&
        this.valueSize == valueSize
      ensures root == old(store.pageCount) && fresh(this) && Ids(tree) == {root}
      ensures forall id :: id in old(store.pages) ==> id in store.pages && store.pages[id] == old(store.pages)[id]
    {
      var id := store.NewPage(LeafPage(true, INVALID_PAGE_ID, INVALID_PAGE_ID, INVALID_PAGE_ID, []));
      this.store, this.keySize, this.valueSize := store, keySize, valueSize;
      caps := ValidateLayout(keySize, valueSize).value;
      LayoutFills(keySize, valueSize);
      root := id;
      tree, height := Leaf(id, []), 0;
      new;
      assert Linked(store.pages, ROOT_SPOT.pre + [id] + ROOT_SPOT.post, 0);
    }

    // ---- Lookup ----------------------------------------------------------------------------

    /** The leaf that a search for k ends in, and the entries before and after it. */
    ghost predicate LeafFor(k: Key, leaf: Tree, at: Spot, before: seq<Entry>, after: seq<Entry>)
      reads this, store
    {
      && leaf.Leaf? && leaf.id in store.pages && store.pages[leaf.id].LeafPage? &&
         store.pages[leaf.id].entries == leaf.entries
      && Sorted(leaf.entries)
      && Entries(tree) == before + leaf.entries + after
      && (forall e :: e in before ==> e.key < k) && (forall e :: e in after ==> k < e.key)
      && Leaves(tree) == at.pre + [leaf.id] + at.post
      && Lists(store.pages, at.post, after)
    }

    /** The search for k has come down to the subtree cur. */
    ghost predicate Searching(k: Key, cur: Tree, h: nat, lo: nat, at: Spot, before: seq<Entry>, after: seq<Entry>)
      reads this, store
    {
      && Sub(caps, store.pages, cur, h, lo, at)
      && Entries(tree) == before + Entries(cur) + after
      && (forall e :: e in before ==> e.key < k) && (forall e :: e in after ==> k < e.key)
      && Leaves(tree) == at.pre + Leaves(cur) + at.post
      && Lists(store.pages, at.post, after)
    }

    lemma SearchDown(k: Key, cur: Tree, h: nat, lo: nat, at: Spot, before: seq<Entry>, after: seq<Entry>, i: nat)
      requires Searching(k, cur, h, lo, at, before, after) && cur.Node? && Routed(cur.seps, k, i)
      ensures Searching(k, cur.kids[i], h - 1, Minimum(caps, h - 1), Below(cur, at, i),
                        before + AllEntries(cur.kids[..i]), AllEntries(cur.kids[i + 1..]) + after)
    {
      ChildEntries(caps, cur, h, lo, k, i);
      Around(cur.kids, i);
      Descend(caps, store.pages, cur, h, lo, at, i);
      Regroup(before, AllEntries(cur.kids[..i]), Entries(cur.kids[i]), AllEntries(cur.kids[i + 1..]), after);
      Regroup(at.pre, AllLeaves(cur.kids[..i]), Leaves(cur.kids[i]), AllLeaves(cur.kids[i + 1..]), at.post);
      assert RepAll(store.pages, cur.kids, cur.id);
      ChainOfTrees(store.pages, cur.kids[i + 1..], cur.id);
      ChainEntriesConcat(store.pages, AllLeaves(cur.kids[i + 1..]), at.post);
    }

    method FindLeafPageId(k: Key)
      returns (id: PageId, ghost leaf: Tree, ghost at: Spot, ghost before: seq<Entry>, ghost after: seq<Entry>)
      requires Valid()
      ensures leaf.id == id && LeafFor(k, leaf, at, before, after)
    {
      id := root;
      leaf, at, before, after := tree, ROOT_SPOT, [], [];
      ghost var h, lo := height, RootMinimum(tree);
      while store.pages[id].InternalPage?
        invariant id in store.pages && leaf.id == id && Searching(k, leaf, h, lo, at, before, after)
        decreases leaf
      {
        SeparatorsSorted(leaf);
        var i := ChildIndexForKey(store.pages[id].seps, k);
        SearchDown(k, leaf, h, lo, at, before, after, i);
        id := store.pages[id].kids[i];
        before, after := before + AllEntries(leaf.kids[..i]), AllEntries(leaf.kids[i + 1..]) + after;
        h, lo := h - 1, Minimum(caps, h - 1);
        leaf, at := leaf.kids[i], Below(leaf, at, i);
      }
    }

    /** find agrees with map lookup. */
    method Find(key: Bytes) returns (r: Result<Value>)
      requires Valid()
      ensures |key| != keySize ==> r == Err(InvalidArgument)
      ensures |key| == keySize ==>
        r == if Number(key) in Contents() then Ok(Contents()[Number(key)]) else Err(NotFound)
    {
      if |key| != keySize {
        return Err(InvalidArgument);
      }
      var k := Number(key);
      var id; ghost var leaf, at, before, after;
      id, leaf, at, before, after := FindLeafPageId(k);
      var es := store.pages[id].entries;
      var position := LeafPosition(es, k);
      LeafDecides(k, leaf, at, before, after, position);
      if position == |es| || es[position].key != k {
        return Err(NotFound);
      }
      r := Ok(es[position].value);
    }

    /** Only the leaf that the search ends in can hold k. */
    lemma LeafDecides(k: Key, leaf: Tree, at: Spot, before: seq<Entry>, after: seq<Entry>, pos: nat)
      requires LeafFor(k, leaf, at, before, after) && Sorted(Entries(tree))
      requires pos <= |leaf.entries| && (forall j :: 0 <= j < pos ==> leaf.entries[j].key < k)
      requires forall j :: pos <= j < |leaf.entries| ==> k <= leaf.entries[j].key
      ensures pos < |leaf.entries| && leaf.entries[pos].key == k ==>
        k in Contents() && Contents()[k] == leaf.entries[pos].value && Hit(Entries(tree), |before| + pos, k)
      ensures !(pos < |leaf.entries| && leaf.entries[pos].key == k) ==>
        k !in Contents() && Gap(Entries(tree), |before| + pos, k)
    {
      var es := Entries(tree);
      if pos < |leaf.entries| && leaf.entries[pos].key == k {
        assert es[|before| + pos] == leaf.entries[pos];
        MapOfAt(es, |before| + pos);
      } else {
        forall j | pos <= j < |leaf.entries| ensures k < leaf.entries[j].key {
          assert leaf.entries[pos].key <= leaf.entries[j].key;
        }
        GapInside(before, leaf.entries, after, pos, k);
        GapAbsent(es, |before| + pos, k);
      }
    }

    /** The key that an optional bound stands for. */
    function BoundKey(bound: Option<Bytes>): Option<Key> {
      match bound
      case None => None
      case Some(b) => Some(Number(b))
    }

    /** scan_range: a cursor that will list exactly the entries in range, in key order. */
    method ScanRange(lower: Option<Bytes>, upper: Option<Bytes>) returns (r: Result<BTreeCursor>)
      requires Valid()
      ensures (lower.Some? && |lower.value| != keySize) || (upper.Some? && |upper.value| != keySize) <==>
        r == Err(InvalidArgument)
      ensures r.Ok? || r == Err(InvalidArgument)
      ensures r.Ok? ==> fresh(r.value) && r.value.store == store && r.value.Valid()
      ensures r.Ok? ==> r.value.Remaining() == Between(Entries(tree), BoundKey(lower), BoundKey(upper))
    {
      if lower.Some? && |lower.value| != keySize {
        return Err(InvalidArgument);
      }
      if upper.Some? && |upper.value| != keySize {
        return Err(InvalidArgument);
      }
      var hi := BoundKey(upper);
      var cursor;
      if lower.Some? {
        cursor := ScanFrom(Number(lower.value), hi);
      } else {
        cursor := ScanAll(hi);
      }
      r := Ok(cursor);
    }

    method ScanFrom(lo: Key, hi: Option<Key>) returns (cursor: BTreeCursor)
      requires Valid()
      ensures fresh(cursor) && cursor.store == store && cursor.Valid()
      ensures cursor.Remaining() == Between(Entries(tree), Some(lo), hi)
    {
      var id; ghost var leaf, at, before, after;
      id, leaf, at, before, after := FindLeafPageId(lo);
      var es := store.pages[id].entries;
      var position := LeafPosition(es, lo);
      ghost var rest := [id] + at.post;
      RestOfChain(leaf.id, at);
      assert rest[1..] == at.post;
      cursor := new BTreeCursor(store, id, position, hi, rest);
      RangeFrom(before, leaf.entries, after, position, lo, hi);
    }

    /** The leaf found and the leaves after it, as a cursor needs them. */
    lemma RestOfChain(id: PageId, at: Spot)
      requires Valid() && Leaves(tree) == at.pre + [id] + at.post
      ensures Onward(store.pages, [id] + at.post)
    {
      var ls, rest := ROOT_SPOT.pre + Leaves(tree) + ROOT_SPOT.post, [id] + at.post;
      assert ls == at.pre + rest;
      forall i | 0 <= i < |rest| ensures OnwardAt(store.pages, rest, i) {
        assert Linked(store.pages, ls, |at.pre| + i);
      }
    }

    lemma RangeFrom(before: seq<Entry>, es: seq<Entry>, after: seq<Entry>, pos: nat, lo: Key, hi: Option<Key>)
      requires Sorted(before + es + after) && pos <= |es|
      requires (forall e :: e in before ==> e.key < lo) && (forall e :: e in after ==> lo < e.key)
      requires (forall j :: 0 <= j < pos ==> es[j].key < lo) && (forall j :: pos <= j < |es| ==> lo <= es[j].key)
      ensures UpTo((es + after)[pos..], hi) == Between(before + es + after, Some(lo), hi)
    {
      var all, n := before + es + after, |before| + pos;
      assert all[n..] == (es + after)[pos..];
      forall i | 0 <= i < n ensures !InRange(all[i].key, Some(lo), None) {
        if i < |before| { assert all[i] == before[i]; } else { assert all[i] == es[i - |before|]; }
      }
      forall i | n <= i < |all| ensures InRange(all[i].key, Some(lo), None) {
        if i < |before| + |es| {
          assert all[i] == es[i - |before|];
        } else {
          assert all[i] == after[i - |before| - |es|];
        }
      }
      BetweenFrom(all, n, Some(lo), hi);
    }

    /** Descends first children to the leftmost leaf. */
    method ScanAll(hi: Option<Key>) returns (cursor: BTreeCursor)
      requires Valid()
      ensures fresh(cursor) && cursor.store == store && cursor.Valid()
      ensures cursor.Remaining() == Between(Entries(tree), None, hi)
    {
      var id := root;
      ghost var cur, at, h, lo := tree, ROOT_SPOT, height, RootMinimum(tree);
      while store.pages[id].InternalPage?
        invariant id in store.pages && cur.id == id && Sub(caps, store.pages, cur, h, lo, at) && at.pre == []
        invariant Leaves(tree) == Leaves(cur) + at.post
        decreases cur
      {
        Descend(caps, store.pages, cur, h, lo, at, 0);
        Around(cur.kids, 0);
        id := store.pages[id].kids[0];
        assert cur.kids[..0] == [];
        h, lo := h - 1, Minimum(caps, h - 1);
        cur, at := cur.kids[0], Below(cur, at, 0);
      }
      assert Leaves(tree) == at.pre + [id] + at.post;
      RestOfChain(id, at);
      ChainOfTree(store.pages, tree, INVALID_PAGE_ID, true);
      assert [id] + at.post == Leaves(tree);
      cursor := new BTreeCursor(store, id, 0, hi, Leaves(tree));
      UpToIsBetween(Entries(tree), None, hi);
    }

    // ---- Whole-tree operations -------------------------------------------------------------

    /** Pages that were not the tree's are untouched, and the tree took only its own and new pages. */
    twostate predicate OthersUntouched()
      reads this, store
    {
      && (forall id :: id in old(store.pages) && id !in old(Ids(tree)) ==>
          id in store.pages && store.pages[id] == old(store.pages)[id])
      && Drawn(Ids(tree), old(Ids(tree)), old(store.pageCount))
    }

    /** insert refines map extension; a present key changes nothing. */
    method Insert(key: Bytes, value: Value) returns (s: Outcome)
      requires Valid()
      modifies this, store
      ensures Valid()
      ensures |key| != keySize || |value| != valueSize ==> s == Failed(InvalidArgument)
      ensures |key| == keySize && |value| == valueSize ==>
        s == if Number(key) in old(Contents()) then Failed(ConstraintViolation) else Done
      ensures s == Done ==> Contents() == old(Contents())[Number(key) := value] && OthersUntouched()
      ensures s != Done ==> store.pages == old(store.pages) && tree == old(tree)
    {
      hide SizesKept, LaidOut, Sorted, Distinct, Ids;
      if |key| != keySize {
        return Failed(InvalidArgument);
      }
      if |value| != valueSize {
        return Failed(InvalidArgument);
      }
      PutKeepsSizes(Contents(), key, value, keySize, valueSize);
      var e := Entry(Number(key), value);
      ghost var t, p, n := tree, store.pages, store.pageCount;
      ghost var t1, t2, pos;
      var r;
      r, t1, t2, pos := InsertIntoSubtree(root, e, tree, height, RootMinimum(tree), ROOT_SPOT);
      match r {
        case Duplicate =>
          MapOfAt(Entries(t), pos);
          s := Failed(ConstraintViolation);
        case Stored =>
          MapOfInserted(Entries(t), pos, e);
          tree := t1;
          s := Done;
        case Split(sep, right) =>
          MapOfInserted(Entries(t), pos, e);
          SortedInserted(Entries(t), pos, e);
          GrowRoot(sep, right, t1, t2);
          s := Done;
      }
    }

    /** The root page has split: its left half moves to a new page and the root page becomes the parent
        of both halves. */
    method GrowRoot(sep: Key, right: PageId, ghost t1: Tree, ghost t2: Tree)
      requires store.Valid() && caps.Valid()
      requires Rep(store.pages, t1, INVALID_PAGE_ID, true) && Rep(store.pages, t2, INVALID_PAGE_ID, false)
      requires t1.id == root && t2.id == right && Distinct(t1) && Distinct(t2) && Ids(t1) !! Ids(t2)
      requires Good(caps, t1, height) && Good(caps, t2, height) && Bounds(sep, t2) && Sorted(Entries(t1) + Entries(t2))
      requires Chain(store.pages, ROOT_SPOT.pre + (Leaves(t1) + Leaves(t2)) + ROOT_SPOT.post)
      modifies this, store
      ensures WellFormed() && Entries(tree) == Entries(t1) + Entries(t2) && store.pageCount >= old(store.pageCount)
      ensures Kept(old(store.pages), store.pages, Ids(t1) + Ids(t2), [])
      ensures Drawn(Ids(tree), Ids(t1) + Ids(t2), old(store.pageCount))
    {
      ghost var p := store.pages;
      RootChildrenStored(p, t1);
      ghost var left := SplitRootPages(sep, right);
      RootSplit(caps, p, store.pages, root, sep, left, t1, t2, height);
      tree, height := NewRoot(root, sep, left, t1, t2), height + 1;
    }

    method SplitRootPages(sep: Key, right: PageId) returns (left: PageId)
      requires store.Valid() && caps.Valid() && root in store.pages && right in store.pages
      requires forall x :: x in ChildIds(store.pages[root]) ==> x in store.pages
      modifies store
      ensures store.Valid() && left == old(store.pageCount) && store.pageCount == old(store.pageCount) + 1
      ensures left !in old(store.pages) && left != INVALID_PAGE_ID
      ensures store.pages == RootSplitPages(old(store.pages), root, sep, left, right)
    {
      ghost var p := store.pages;
      var page := store.pages[root];
      var children := ChildIds(page);
      left := store.NewPage(WithHeader(page, root, false));
      if page.InternalPage? {
        SetChildrenParentPageId(children, left);
      }
      assert store.pages == Adopted(p[left := WithHeader(page, root, false)], children, left);
      var newRoot := InternalInsertEntry(caps, InternalPage(true, INVALID_PAGE_ID, [], [left]), 0, sep, right);
      assert newRoot.Ok? && newRoot.value == InternalPage(true, INVALID_PAGE_ID, [sep], [left, right]);
      store.pages := store.pages[root := newRoot.value];
      var rightPage := WithHeader(store.pages[right], root, false);
      store.pages := store.pages[right := if rightPage.LeafPage? then rightPage.(prev := left) else rightPage];
    }

    lemma RootChildrenStored(p: Pages, t: Tree)
      requires Rep(p, t, INVALID_PAGE_ID, true)
      ensures t.id in p && forall x :: x in ChildIds(p[t.id]) ==> x in p
    {
      if t.Node? {
        forall x | x in KidIds(t.kids) ensures x in p {
          KidIdsIn(t.kids, x);
          AllIdsStored(p, t.kids, t.id);
        }
      }
    }

    /** erase refines map removal; an absent key changes nothing. */
    method Erase(key: Bytes) returns (s: Outcome)
      requires Valid()
      modifies this, store
      ensures Valid()
      ensures |key| != keySize ==> s == Failed(InvalidArgument)
      ensures |key| == keySize ==> s == if Number(key) in old(Contents()) then Done else Failed(NotFound)
      ensures s == Done ==>
        Contents() == old(Contents()) - {Number(key)} && OthersUntouched() && Ids(tree) <= old(Ids(tree))
      ensures s != Done ==> store.pages == old(store.pages) && tree == old(tree)
    {
      if |key| != keySize {
        return Failed(InvalidArgument);
      }
      ghost var t := tree;
      ghost var t1, pos;
      var r;
      r, t1, pos := EraseFromSubtree(root, Number(key), tree, height, RootMinimum(tree), ROOT_SPOT);
      if r.Missing? {
        GapAbsent(Entries(t), pos, Number(key));
        return Failed(NotFound);
      }
      MapOfErased(Entries(t), pos);
      ShrinkRoot(t1);
      s := Done;
    }

    /** A root page left with a single child takes over that child's contents; its id stays. */
    method ShrinkRoot(ghost t: Tree)
      requires store.Valid() && Sub(caps, store.pages, t, height, 0, ROOT_SPOT) && t.id == root
      modifies this, store
      ensures WellFormed() && Entries(tree) == Entries(t) && Ids(tree) <= Ids(t) &&
        store.pageCount == old(store.pageCount)
      ensures Kept(old(store.pages), store.pages, Ids(t), [])
    {
      ghost var p := store.pages;
      var page := store.pages[root];
      if page.LeafPage? || |page.seps| > 0 {
        tree := t;
        return;
      }
      var childId := page.kids[0];
      ChildRep(p, t, ROOT_SPOT, 0);
      CollapseChildren(p, t);
      var child := store.pages[childId];
      var grandchildren := ChildIds(child);
      store.pages := store.pages[root := WithHeader(child, INVALID_PAGE_ID, true)];
      if child.InternalPage? {
        SetChildrenParentPageId(grandchildren, root);
      }
      assert store.pages == Adopted(p[root := WithHeader(child, INVALID_PAGE_ID, true)], grandchildren, root);
      Collapse(caps, p, store.pages, t, height);
      tree, height := WithId(t.kids[0], root), height - 1;
    }

    lemma CollapseChildren(p: Pages, t: Tree)
      requires t.Node? && Rep(p, t, INVALID_PAGE_ID, true) && t.kids != []
      ensures t.kids[0].id in p && forall x :: x in ChildIds(p[t.kids[0].id]) ==> x in p
    {
      var k := t.kids[0];
      assert k in t.kids && RepAll(p, t.kids, t.id);
      if k.Node? {
        forall x | x in KidIds(k.kids) ensures x in p {
          KidIdsIn(k.kids, x);
          AllIdsStored(p, k.kids, k.id);
        }
      }
    }

    /** Changes the value of a present key in place. */
    method UpdateValue(key: Bytes, value: Value) returns (s: Outcome)
      requires Valid()
      modifies this, store
      ensures Valid()
      ensures |key| != keySize || |value| != valueSize ==> s == Failed(InvalidArgument)
      ensures |key| == keySize && |value| == valueSize ==>
        s == if Number(key) in old(Contents()) then Done else Failed(NotFound)
      ensures s == Done ==> Contents() == old(Contents())[Number(key) := value] && OthersUntouched()
      ensures s != Done ==> store.pages == old(store.pages) && tree == old(tree)
    {
      if |key| != keySize || |value| != valueSize {
        return Failed(InvalidArgument);
      }
      var k := Number(key);
      PutKeepsSizes(Contents(), key, value, keySize, valueSize);
      hide SizesKept, LaidOut;
      var id; ghost var leaf, at, before, after;
      id, leaf, at, before, after := FindLeafPageId(k);
      var es := store.pages[id].entries;
      var position := LeafPosition(es, k);
      LeafDecides(k, leaf, at, before, after, position);
      if position == |es| || es[position].key != k {
        return Failed(NotFound);
      }
      LeafIsOurs(leaf, at);
      StoreValue(id, position, k, value);
      s := Done;
    }

    lemma LeafIsOurs(leaf: Tree, at: Spot)
      requires Leaves(tree) == at.pre + [leaf.id] + at.post
      ensures leaf.id in Ids(tree)
    {
      LeafWithin(tree);
      assert Leaves(tree)[|at.pre|] == leaf.id;
    }

    method StoreValue(id: PageId, position: nat, k: Key, value: Value)
      requires WellFormed() && id in store.pages && store.pages[id].LeafPage? && id in Ids(tree)
      requires position < |store.pages[id].entries| && store.pages[id].entries[position].key == k
      modifies this, store
      ensures WellFormed() && Contents() == old(Contents())[k := value] && OthersUntouched()
    {
      ghost var p := store.pages;
      var page := store.pages[id];
      store.pages := store.pages[id := page.(entries := page.entries[position := Entry(k, value)])];
      ghost var t1, n := UpdateBelow(caps, p, store.pages, tree, height, RootMinimum(tree), ROOT_SPOT, id, position,
                                     value);
      MapOfReplaced(Entries(tree), n, value);
      tree := t1;
    }

    // ---- Insert ----------------------------------------------------------------------------

    method InsertIntoSubtree(id: PageId, e: Entry, ghost t: Tree, ghost h: nat, ghost lo: nat, ghost at: Spot)
      returns (r: InsertOutcome, ghost t1: Tree, ghost t2: Tree, ghost pos: nat)
      requires store.Valid() && Sub(caps, store.pages, t, h, lo, at) && t.id == id
      modifies store
      decreases t, 1
      ensures store.Valid() && store.pageCount >= old(store.pageCount)
      ensures r.Duplicate? ==> store.pages == old(store.pages) && Hit(Entries(t), pos, e.key)
      ensures r.Stored? ==>
        AfterStored(caps, old(store.pages), old(store.pageCount), store.pages, t, h, lo, at, e, t1, pos)
      ensures r.Split? ==>
        AfterSplit(caps, old(store.pages), old(store.pageCount), store.pages, t, h, at, e, r.sep, t1, t2, pos) &&
          t2.id == r.right
    {
      if store.pages[id].LeafPage? {
        r, t1, t2, pos := InsertIntoLeaf(id, e, t, h, lo, at);
      } else {
        r, t1, t2, pos := InsertIntoInternal(id, e, t, h, lo, at);
      }
    }

    method InsertIntoLeaf(id: PageId, e: Entry, ghost t: Tree, ghost h: nat, ghost lo: nat, ghost at: Spot)
      returns (r: InsertOutcome, ghost t1: Tree, ghost t2: Tree, ghost pos: nat)
      requires store.Valid() && Sub(caps, store.pages, t, h, lo, at) && t.id == id && t.Leaf?
      modifies store
      ensures store.Valid() && store.pageCount >= old(store.pageCount)
      ensures r.Duplicate? ==> store.pages == old(store.pages) && Hit(Entries(t), pos, e.key)
      ensures r.Stored? ==>
        AfterStored(caps, old(store.pages), old(store.pageCount), store.pages, t, h, lo, at, e, t1, pos)
      ensures r.Split? ==>
        AfterSplit(caps, old(store.pages), old(store.pageCount), store.pages, t, h, at, e, r.sep, t1, t2, pos) &&
          t2.id == r.right
      ensures !r.Duplicate? ==> (r.Split? <==> |t.entries| == caps.leaf)
    {
      var page := store.pages[id];
      var position := LeafPosition(page.entries, e.key);
      pos, t1, t2 := position, t, t;
      if position < |page.entries| && page.entries[position].key == e.key {
        return Duplicate, t, t, pos;
      }
      if |page.entries| < caps.leaf {
        var edited := LeafInsertEntry(caps, page, position, e);
        assert edited.Ok?;
        store.pages := store.pages[id := edited.value];
        LeafStored(caps, old(store.pages), old(store.pageCount), store.pages, t, h, lo, at, e, pos);
        return Stored, Leaf(id, Inserted(t.entries, pos, e)), t, pos;
      }
      var sep, right := SplitLeaf(id, position, e, t, h, lo, at);
      ghost var es := Inserted(t.entries, pos, e);
      ghost var m := (caps.leaf + 1) / 2;
      LeafSplit(caps, old(store.pages), old(store.pageCount), store.pages, t, h, lo, at, e, pos, right, m);
      return Split(sep, right), Leaf(id, es[..m]), Leaf(right, es[m..]), pos;
    }

    /** The full leaf's entries and the new one, divided over the old page and a new right page. */
    method SplitLeaf(id: PageId, pos: nat, e: Entry, ghost t: Tree, ghost h: nat, ghost lo: nat, ghost at: Spot)
      returns (sep: Key, right: PageId)
      requires store.Valid() && Sub(caps, store.pages, t, h, lo, at) && t.id == id && t.Leaf?
      requires Gap(t.entries, pos, e.key) && |t.entries| == caps.leaf
      modifies store
      ensures store.Valid() && right == old(store.pageCount) && store.pageCount == old(store.pageCount) + 1
      ensures var es, m := Inserted(t.entries, pos, e), (caps.leaf + 1) / 2;
        sep == es[m].key && store.pages == LeafSplitPages(old(store.pages), id, right, es[..m], es[m..])
    {
      var page := store.pages[id];
      var nextId := page.next;
      SortedInserted(t.entries, pos, e);
      var all := GatherEntries(page.entries, pos, e);
      ghost var p0 := store.pages;
      ChainAt(p0, at.pre, id, at.post);
      right := store.NewPage(LeafPage(false, INVALID_PAGE_ID, INVALID_PAGE_ID, INVALID_PAGE_ID, []));
      var m := |all| / 2;
      var left := FillLeaf(caps, page.(entries := []), all, 0, m);
      var moved := FillLeaf(caps, store.pages[right], all, m, |all|);
      assert all[0..m] == all[..m] && all[m..|all|] == all[m..];
      store.pages :=
        store.pages[id := left.(next := right)][right := moved.(parent := page.parent, prev := id, next := nextId)];
      if nextId != INVALID_PAGE_ID {
        store.pages := store.pages[nextId := store.pages[nextId].(prev := right)];
      }
      sep := all[m].key;
    }

    method InsertIntoInternal(id: PageId, e: Entry, ghost t: Tree, ghost h: nat, ghost lo: nat, ghost at: Spot)
      returns (r: InsertOutcome, ghost t1: Tree, ghost t2: Tree, ghost pos: nat)
      requires store.Valid() && Sub(caps, store.pages, t, h, lo, at) && t.id == id && t.Node?
      modifies store
      decreases t, 0
      ensures store.Valid() && store.pageCount >= old(store.pageCount)
      ensures r.Duplicate? ==> store.pages == old(store.pages) && Hit(Entries(t), pos, e.key)
      ensures r.Stored? ==>
        AfterStored(caps, old(store.pages), old(store.pageCount), store.pages, t, h, lo, at, e, t1, pos)
      ensures r.Split? ==>
        AfterSplit(caps, old(store.pages), old(store.pageCount), store.pages, t, h, at, e, r.sep, t1, t2, pos) &&
          t2.id == r.right
    {
      hide AfterStored, AfterSplit, Pending, Chain, Kept, Distinct;
      ghost var p, n := store.pages, store.pageCount;
      SeparatorsSorted(t);
      var i := ChildIndexForKey(store.pages[id].seps, e.key);
      Descend(caps, p, t, h, lo, at, i);
      ghost var kid := t.kids[i];
      ghost var u1, u2, kpos;
      var below;
      below, u1, u2, kpos := InsertIntoSubtree(store.pages[id].kids[i], e, kid, h - 1, Minimum(caps, h - 1),
                                               Below(t, at, i));
      pos := |AllEntries(t.kids[..i])| + kpos;
      t1, t2 := t, t;
      match below {
        case Duplicate =>
          Around(t.kids, i);
          assert Entries(t)[pos] == Entries(kid)[kpos];
          r := Duplicate;
        case Stored =>
          StoredUp(caps, p, n, store.pages, t, h, lo, at, e, i, u1, kpos);
          r, t1 := Stored, Node(id, t.seps, t.kids[..i] + [u1] + t.kids[i + 1..]);
        case Split(sep, right) =>
          SplitUp(caps, p, n, store.pages, t, h, lo, at, e, i, sep, u1, u2, kpos);
          SplitPosition(caps, t, h, lo, e, i, sep, u1, u2, kpos);
          r, t1, t2 := AddChild(id, sep, right, p, n, t, h, lo, at, e, i, u1, u2, pos);
      }
    }

    /** The child of page id at index i has split: store its separator and right half in the page, or
        split the page. */
    method AddChild(id: PageId, sep: Key, right: PageId, ghost p: Pages, ghost n: int, ghost t: Tree, ghost h: nat,
                    ghost lo: nat, ghost at: Spot,
                    ghost e: Entry, ghost i: nat, ghost u1: Tree, ghost u2: Tree, ghost pos: nat)
      returns (r: InsertOutcome, ghost t1: Tree, ghost t2: Tree)
      requires store.Valid() && n <= store.pageCount && (forall x :: x in p ==> x < n)
      requires Sub(caps, p, t, h, lo, at) && t.id == id && t.Node? && i < |t.kids|
      requires u1.id == t.kids[i].id && u2.id == right
      requires (forall j :: 0 <= j < i ==> t.seps[j] < sep) && (forall j :: i <= j < |t.seps| ==> sep < t.seps[j])
      requires Pending(caps, p, n, store.pages, t, h, at, e, t.seps[..i] + [sep] + t.seps[i..],
                       t.kids[..i] + [u1, u2] + t.kids[i + 1..], pos)
      modifies store
      ensures store.Valid() && store.pageCount >= old(store.pageCount)
      ensures !r.Duplicate?
      ensures r.Stored? ==> AfterStored(caps, p, n, store.pages, t, h, lo, at, e, t1, pos)
      ensures r.Split? ==> AfterSplit(caps, p, n, store.pages, t, h, at, e, r.sep, t1, t2, pos) && t2.id == r.right
    {
      ghost var q := store.pages;
      ghost var ss, ks := t.seps[..i] + [sep] + t.seps[i..], t.kids[..i] + [u1, u2] + t.kids[i + 1..];
      SeparatorsSorted(t);
      SplitKidIds(t.kids, i, u1, u2);
      PendingStored(p, n, q, t, h, at, e, ss, ks, pos);
      assert q[id].seps == t.seps && q[id].kids == KidIds(t.kids);
      r := AddEntry(id, sep, right, i);
      t1, t2 := t, t;
      if r.Stored? {
        RoomUp(caps, p, n, q, store.pages, t, h, lo, at, e, ss, ks, pos);
        t1 := Node(id, ss, ks);
      } else {
        ghost var m := |ss| / 2;
        CutUp(caps, p, n, q, store.pages, t, h, lo, at, e, ss, ks, pos, r.right, m);
        t1, t2 := Node(id, ss[..m], ks[..m + 1]), Node(r.right, ss[m + 1..], ks[m + 1..]);
      }
    }

    lemma PendingStored(p: Pages, n: int, q: Pages, t: Tree, h: nat, at: Spot, e: Entry, ss: seq<Key>, ks: seq<Tree>,
                        pos: nat)
      requires t.Node? && Pending(caps, p, n, q, t, h, at, e, ss, ks, pos)
      ensures forall k :: k in KidIds(ks) ==> k in q
    {
      forall k | k in KidIds(ks) ensures k in q {
        KidIdsIn(ks, k);
        AllIdsStored(q, ks, t.id);
      }
    }

    /** Stores a separator and its right child in an internal page, which splits when full. */
    method AddEntry(id: PageId, sep: Key, right: PageId, ghost i: nat) returns (r: InsertOutcome)
      requires store.Valid() && caps.Valid() && id in store.pages && store.pages[id].InternalPage?
      requires var page := store.pages[id];
        |page.kids| == |page.seps| + 1 && |page.seps| <= caps.internal && i <= |page.seps| &&
        Increasing(page.seps) &&
        (forall j :: 0 <= j < i ==> page.seps[j] < sep) && (forall j :: i <= j < |page.seps| ==> sep < page.seps[j]) &&
        (forall k :: k in page.kids[..i + 1] + [right] + page.kids[i + 1..] ==> k in store.pages)
      modifies store
      ensures store.Valid() && store.pageCount >= old(store.pageCount)
      ensures var page := old(store.pages)[id];
        var ss, ks := page.seps[..i] + [sep] + page.seps[i..], page.kids[..i + 1] + [right] + page.kids[i + 1..];
        if |page.seps| < caps.internal then
          r == Stored && store.pages == old(store.pages)[id := page.(seps := ss, kids := ks)]
        else
          r == Split(ss[|ss| / 2], old(store.pageCount)) &&
          store.pages == InternalSplitPages(old(store.pages), id, old(store.pageCount), ss, ks, |ss| / 2)
    {
      var page := store.pages[id];
      var position := SeparatorPosition(page.seps, sep);
      PositionUnique(page.seps, sep, i, position);
      if |page.seps| < caps.internal {
        var edited := InternalInsertEntry(caps, page, position, sep, right);
        assert edited.Ok?;
        store.pages := store.pages[id := edited.value];
        return Stored;
      }
      r := SplitInternal(id, position, sep, right);
    }

    /** Divides a full page's children, the new one among them, over the page and a new one. */
    method SplitInternal(id: PageId, position: nat, sep: Key, right: PageId) returns (r: InsertOutcome)
      requires store.Valid() && caps.Valid() && id in store.pages && store.pages[id].InternalPage?
      requires var page := store.pages[id];
        |page.kids| == |page.seps| + 1 && |page.seps| == caps.internal && position <= |page.seps| &&
        Increasing(page.seps) &&
        (forall j :: 0 <= j < position ==> page.seps[j] < sep) &&
          (forall j :: position <= j < |page.seps| ==> sep < page.seps[j]) &&
        (forall k :: k in page.kids[..position + 1] + [right] + page.kids[position + 1..] ==> k in store.pages)
      modifies store
      ensures store.Valid() && store.pageCount >= old(store.pageCount)
      ensures var page := old(store.pages)[id];
        var ss, ks := page.seps[..position] + [sep] + page.seps[position..],
          page.kids[..position + 1] + [right] + page.kids[position + 1..];
        r == Split(ss[|ss| / 2], old(store.pageCount)) &&
        store.pages == InternalSplitPages(old(store.pages), id, old(store.pageCount), ss, ks, |ss| / 2)
    {
      var page := store.pages[id];
      var seps, kids := GatherChildren(page.seps, page.kids, position, sep, right);
      var promoted, rightId := DivideInternal(id, seps, kids);
      SetChildrenParentPageId(kids[|seps| / 2 + 1..], rightId);
      return Split(promoted, rightId);
    }

    lemma SeparatorsSorted(t: Tree)
      requires t.Node? && |t.kids| == |t.seps| + 1 && Exact(t.seps, t.kids) && Sorted(Entries(t))
      ensures Increasing(t.seps)
    {
      forall i, j | 0 <= i < j < |t.seps| ensures t.seps[i] < t.seps[j] {
        SepsSorted(t.seps, t.kids, i, j);
      }
    }

    /** A full page's separators and children with the new pair, divided over the old page and a new
        right page; the separator in the middle is promoted and its child heads the right page. */
    method DivideInternal(id: PageId, seps: seq<Key>, kids: seq<PageId>) returns (promoted: Key, rightId: PageId)
      requires store.Valid() && caps.Valid() && id in store.pages && store.pages[id].InternalPage?
      requires |kids| == |seps| + 1 && |seps| == caps.internal + 1
      requires Increasing(seps)
      modifies store
      ensures store.Valid() && rightId == old(store.pageCount) && store.pageCount == old(store.pageCount) + 1
      ensures promoted == seps[|seps| / 2]
      ensures var page, m := old(store.pages)[id], |seps| / 2;
        store.pages == old(store.pages)[id := page.(seps := seps[..m], kids := kids[..m + 1])]
                                       [rightId := InternalPage(false, page.parent, seps[m + 1..], kids[m + 1..])]
    {
      var page := store.pages[id];
      rightId := store.NewPage(InternalPage(false, INVALID_PAGE_ID, [], [INVALID_PAGE_ID]));
      var m := |seps| / 2;
      promoted := seps[m];
      var left := FillInternal(caps, page.(seps := [], kids := [kids[0]]), seps, kids, 0, m);
      var moved := FillInternal(caps, InternalPage(false, page.parent, [], [kids[m + 1]]), seps, kids, m + 1, |seps|);
      assert seps[0..m] == seps[..m] && kids[0..m + 1] == kids[..m + 1];
      assert seps[m + 1..|seps|] == seps[m + 1..] && kids[m + 1..|seps| + 1] == kids[m + 1..];
      store.pages := store.pages[id := left][rightId := moved];
    }

    method SetChildrenParentPageId(ids: seq<PageId>, parent: PageId)
      requires store.Valid() && forall x :: x in ids ==> x in store.pages
      modifies store
      ensures store.Valid() && store.pageCount == old(store.pageCount)
      ensures store.pages == Adopted(old(store.pages), ids, parent)
    {
      for i := 0 to |ids|
        invariant store.Valid() && store.pageCount == old(store.pageCount)
        invariant store.pages == Adopted(old(store.pages), ids[..i], parent)
      {
        var child := ids[i];
        assert child in ids;
        var page := store.pages[child];
        store.pages := store.pages[child := WithHeader(page, parent, page.isRoot)];
        assert ids[..i + 1] == ids[..i] + [ids[i]];
      }
      assert ids[..|ids|] == ids;
    }

    // ---- Erase -----------------------------------------------------------------------------

    method PageIsUnderfull(id: PageId) returns (underfull: bool)
      requires id in store.pages
      ensures var page := store.pages[id];
        underfull == (!page.isRoot &&
          (if page.LeafPage? then |page.entries| < Minimum(caps, 0) else |page.seps| < caps.internal / 2))
    {
      var page := store.pages[id];
      if page.isRoot {
        underfull := false;
      } else if page.LeafPage? {
        underfull := |page.entries| < (caps.leaf + 1) / 2;
      } else {
        underfull := |page.seps| < caps.internal / 2;
      }
    }

    method EraseFromSubtree(id: PageId, k: Key, ghost t: Tree, ghost h: nat, ghost lo: nat, ghost at: Spot)
      returns (r: EraseOutcome, ghost t1: Tree, ghost pos: nat)
      requires store.Valid() && Sub(caps, store.pages, t, h, lo, at) && t.id == id && (t.Node? ==> lo >= 1)
      modifies store
      decreases t, 1
      ensures store.Valid() && store.pageCount == old(store.pageCount)
      ensures r.Missing? ==> store.pages == old(store.pages) && Gap(Entries(t), pos, k)
      ensures r.Gone? ==> AfterErased(caps, old(store.pages), store.pages, t, h, lo, at, k, t1, pos)
      ensures r.Gone? ==> (r.underfull <==> !at.root && Count(t1) < Minimum(caps, h))
    {
      if store.pages[id].LeafPage? {
        r, t1, pos := EraseFromLeaf(id, k, t, h, lo, at);
      } else {
        r, t1, pos := EraseFromInternal(id, k, t, h, lo, at);
      }
    }

    method EraseFromLeaf(id: PageId, k: Key, ghost t: Tree, ghost h: nat, ghost lo: nat, ghost at: Spot)
      returns (r: EraseOutcome, ghost t1: Tree, ghost pos: nat)
      requires store.Valid() && Sub(caps, store.pages, t, h, lo, at) && t.id == id && t.Leaf?
      modifies store
      ensures store.Valid() && store.pageCount == old(store.pageCount)
      ensures r.Missing? ==> store.pages == old(store.pages) && Gap(Entries(t), pos, k)
      ensures r.Gone? ==> AfterErased(caps, old(store.pages), store.pages, t, h, lo, at, k, t1, pos)
      ensures r.Gone? ==> (r.underfull <==> !at.root && Count(t1) < Minimum(caps, h))
    {
      var page := store.pages[id];
      var position := LeafPosition(page.entries, k);
      pos, t1 := position, t;
      if position == |page.entries| || page.entries[position].key != k {
        return Missing, t, pos;
      }
      var edited := LeafEraseEntry(page, position);
      assert edited.Ok?;
      store.pages := store.pages[id := edited.value];
      LeafErased(caps, old(store.pages), store.pages, t, h, lo, at, k, pos);
      t1 := Leaf(id, Erased(t.entries, pos));
      var underfull := PageIsUnderfull(id);
      r := Gone(underfull);
    }

    method EraseFromInternal(id: PageId, k: Key, ghost t: Tree, ghost h: nat, ghost lo: nat, ghost at: Spot)
      returns (r: EraseOutcome, ghost t1: Tree, ghost pos: nat)
      requires store.Valid() && Sub(caps, store.pages, t, h, lo, at) && t.id == id && t.Node? && lo >= 1
      modifies store
      decreases t, 0
      ensures store.Valid() && store.pageCount == old(store.pageCount)
      ensures r.Missing? ==> store.pages == old(store.pages) && Gap(Entries(t), pos, k)
      ensures r.Gone? ==> AfterErased(caps, old(store.pages), store.pages, t, h, lo, at, k, t1, pos)
      ensures r.Gone? ==> (r.underfull <==> !at.root && Count(t1) < Minimum(caps, h))
    {
      ghost var p := store.pages;
      SeparatorsSorted(t);
      var i := ChildIndexForKey(store.pages[id].seps, k);
      Descend(caps, p, t, h, lo, at, i);
      MinimumPositive(caps, h - 1);
      ghost var kid, kpos;
      var below;
      below, kid, kpos := EraseFromSubtree(store.pages[id].kids[i], k, t.kids[i], h - 1, Minimum(caps, h - 1),
                                           Below(t, at, i));
      pos, t1 := |AllEntries(t.kids[..i])| + kpos, t;
      if below.Missing? {
        MissingUp(caps, t, h, lo, k, i, kpos);
        return Missing, t, pos;
      }
      var underfull;
      underfull, t1 := MendAfterErase(id, i, below.underfull, k, p, t, h, lo, at, kid, kpos);
      r := Gone(underfull);
    }

    /** The rest of erase_from_internal once the key has gone from child i. */
    method MendAfterErase(id: PageId, i: nat, childUnderfull: bool, ghost k: Key, ghost p: Pages, ghost t: Tree,
                          ghost h: nat, ghost lo: nat, ghost at: Spot,
                          ghost kid: Tree, ghost kpos: nat)
      returns (underfull: bool, ghost t1: Tree)
      requires store.Valid() && Sub(caps, p, t, h, lo, at) && t.id == id && t.Node? && lo >= 1 && i < |t.kids|
      requires AfterErased(caps, p, store.pages, t.kids[i], h - 1, Minimum(caps, h - 1), Below(t, at, i), k, kid, kpos)
      requires childUnderfull <==> Count(kid) < Minimum(caps, h - 1)
      modifies store
      ensures store.Valid() && store.pageCount == old(store.pageCount)
      ensures AfterErased(caps, p, store.pages, t, h, lo, at, k, t1, |AllEntries(t.kids[..i])| + kpos)
      ensures underfull <==> !at.root && Count(t1) < Minimum(caps, h)
    {
      ghost var q := store.pages;
      ghost var u := Node(id, t.seps, t.kids[..i] + [kid] + t.kids[i + 1..]);
      HurtUp(caps, p, q, t, h, lo, at, k, i, kid, kpos);
      t1 := Mend(id, i, childUnderfull, u, h, lo, at);
      ErasedUp(caps, p, q, store.pages, t, h, lo, at, k, i, kid, kpos, t1);
      underfull := PageIsUnderfull(id);
    }

    /** After a key left child ci of page id: rebalance the child if it is underfull, otherwise refresh
        the separator before it. */
    method Mend(id: PageId, ci: nat, underfull: bool, ghost t: Tree, ghost h: nat, ghost lo: nat, ghost at: Spot)
      returns (ghost t1: Tree)
      requires store.Valid() && Hurt(caps, store.pages, t, h, at, ci) && t.id == id && 1 <= lo <= |t.seps|
      requires underfull <==> Count(t.kids[ci]) < Minimum(caps, h - 1)
      modifies store
      ensures store.Valid() && store.pageCount == old(store.pageCount)
      ensures Healed(caps, old(store.pages), store.pages, t, h, Less(lo), at, t1) && t1.Node?
    {
      if underfull {
        t1 := RebalanceChildAfterErase(id, ci, t, h, at);
      } else if ci > 0 {
        MinimumPositive(caps, h - 1);
        RefreshChildSeparator(id, ci, t, h - 1, Minimum(caps, h - 1), at.parent, at.root);
        FirstEntry(caps, t.kids[ci], h - 1, Minimum(caps, h - 1));
        ghost var sep := Entries(t.kids[ci])[0].key;
        RefreshHeals(caps, old(store.pages), store.pages, t, h, at, ci, sep);
        t1 := WithSep(t, ci - 1, sep);
      } else {
        NoRefreshHeals(caps, store.pages, t, h, at);
        t1 := t;
      }
    }

    /** Sets the separator before child ci to the smallest key below that child, found by descending
        first children. */
    method RefreshChildSeparator(id: PageId, ci: nat, ghost t: Tree, ghost kh: nat, ghost lo: nat, ghost parent: PageId,
                                 ghost root: bool)
      requires store.Valid() && caps.Valid() && t.id == id && t.Node? && Rep(store.pages, t, parent, root)
      requires 0 < ci <= |t.seps| && |t.kids| == |t.seps| + 1
      requires Fits(caps, t.kids[ci], kh, lo) && (lo >= 1 || kh > 0)
      modifies store
      ensures store.Valid() && store.pageCount == old(store.pageCount)
      ensures Entries(t.kids[ci]) != []
      ensures store.pages ==
        old(store.pages)[id := old(store.pages)[id].(seps := t.seps[ci - 1 := Entries(t.kids[ci])[0].key])]
    {
      var current := store.pages[id].kids[ci];
      ghost var kid := t.kids[ci];
      assert kid in t.kids && RepAll(store.pages, t.kids, id);
      FirstEntry(caps, kid, kh, lo);
      ghost var cur, h, l, above := kid, kh, lo, id;
      while store.pages[current].InternalPage?
        invariant store.pages == old(store.pages) && store.pageCount == old(store.pageCount)
        invariant current in store.pages && cur.id == current && Rep(store.pages, cur, above, false)
        invariant Fits(caps, cur, h, l) && (l >= 1 || h > 0)
        invariant Entries(cur) != [] && Entries(kid) != [] && Entries(cur)[0] == Entries(kid)[0]
        decreases cur
      {
        FirstEntry(caps, cur, h, l);
        MinimumPositive(caps, h - 1);
        ghost var first := cur.kids[0];
        assert first in cur.kids && RepAll(store.pages, cur.kids, current) && AllGood(caps, cur.kids, h - 1);
        current := store.pages[current].kids[0];
        cur, h, l, above := first, h - 1, Minimum(caps, h - 1), cur.id;
      }
      var key := store.pages[current].entries[0].key;
      var edited := InternalSetKeyAt(store.pages[id], ci - 1, key);
      assert edited.Ok?;
      store.pages := store.pages[id := edited.value];
    }

    method RebalanceChildAfterErase(id: PageId, ci: nat, ghost t: Tree, ghost h: nat, ghost at: Spot)
      returns (ghost t1: Tree)
      requires store.Valid() && Hurt(caps, store.pages, t, h, at, ci) && t.id == id && |t.seps| >= 1
      requires Count(t.kids[ci]) < Minimum(caps, h - 1)
      modifies store
      ensures store.Valid() && store.pageCount == old(store.pageCount)
      ensures Healed(caps, old(store.pages), store.pages, t, h, Less(|t.seps|), at, t1) && t1.Node?
    {
      ChildRep(store.pages, t, at, ci);
      if store.pages[store.pages[id].kids[ci]].LeafPage? {
        t1 := RebalanceLeafChildAfterErase(id, ci, t, h, at);
      } else {
        t1 := RebalanceInternalChildAfterErase(id, ci, t, h, at);
      }
    }

    // ---- Erase: leaf children --------------------------------------------------------------

    method RebalanceLeafChildAfterErase(id: PageId, ci: nat, ghost t: Tree, ghost h: nat, ghost at: Spot)
      returns (ghost t1: Tree)
      requires store.Valid() && Hurt(caps, store.pages, t, h, at, ci) && t.id == id && |t.seps| >= 1 && h == 1
      requires Count(t.kids[ci]) < Minimum(caps, 0)
      modifies store
      ensures store.Valid() && store.pageCount == old(store.pageCount)
      ensures Healed(caps, old(store.pages), store.pages, t, h, Less(|t.seps|), at, t1) && t1.Node?
    {
      ChildRep(store.pages, t, at, ci);
      var page := store.pages[id];
      var minimum := (caps.leaf + 1) / 2;
      if ci > 0 {
        ChildRep(store.pages, t, at, ci - 1);
        if |store.pages[page.kids[ci - 1]].entries| > minimum {
          t1 := BorrowFromLeftLeaf(id, ci, t, at);
          return;
        }
      }
      if ci < |page.seps| {
        ChildRep(store.pages, t, at, ci + 1);
        if |store.pages[page.kids[ci + 1]].entries| > minimum {
          t1 := BorrowFromRightLeaf(id, ci, t, at);
          return;
        }
      }
      if ci > 0 {
        t1 := MergeLeafChildren(id, ci - 1, ci, t, at);
        return;
      }
      assert ci < |page.seps|;
      t1 := MergeLeafChildren(id, ci, ci, t, at);
    }

    /** Adjacent children's entries are in order. */
    lemma PairSorted(t: Tree, j: nat)
      requires t.Node? && j + 1 < |t.kids| && Sorted(Entries(t))
      ensures Sorted(Entries(t.kids[j]) + Entries(t.kids[j + 1]))
    {
      var a, b := t.kids[..j], t.kids[j + 2..];
      assert t.kids == a + [t.kids[j], t.kids[j + 1]] + b;
      EntriesConcat(a + [t.kids[j], t.kids[j + 1]], b);
      EntriesConcat(a, [t.kids[j], t.kids[j + 1]]);
      Pair(t.kids[j], t.kids[j + 1]);
      SortedInside(AllEntries(a), Entries(t.kids[j]) + Entries(t.kids[j + 1]), AllEntries(b));
    }

    method BorrowFromLeftLeaf(id: PageId, ci: nat, ghost t: Tree, ghost at: Spot) returns (ghost t1: Tree)
      requires store.Valid() && Hurt(caps, store.pages, t, 1, at, ci) && t.id == id && 0 < ci
      requires Count(t.kids[ci]) < Minimum(caps, 0) < Count(t.kids[ci - 1])
      modifies store
      ensures store.Valid() && store.pageCount == old(store.pageCount)
      ensures Healed(caps, old(store.pages), store.pages, t, 1, |t.seps|, at, t1) && t1.Node?
    {
      hide Rep, RepAll, Chain, Kept, Shift, Distinct;
      ghost var p, j := store.pages, ci - 1;
      ghost var l, r := t.kids[j], t.kids[ci];
      ChildRep(p, t, at, j);
      ChildRep(p, t, at, ci);
      PairApart(t, j);
      PairSorted(t, j);
      var leftId, childId := store.pages[id].kids[ci - 1], store.pages[id].kids[ci];
      var last := |store.pages[leftId].entries| - 1;
      var borrowed := store.pages[leftId].entries[last];
      assert r.entries != [] ==>
        (l.entries + r.entries)[last] == borrowed && (l.entries + r.entries)[|l.entries|] == r.entries[0];
      var inserted := LeafInsertEntry(caps, store.pages[childId], 0, borrowed);
      assert inserted.Ok?;
      store.pages := store.pages[childId := inserted.value];
      var erased := LeafEraseEntry(store.pages[leftId], last);
      assert erased.Ok?;
      store.pages := store.pages[leftId := erased.value];
      ghost var ls, rs := l.entries[..last], [borrowed] + r.entries;
      assert erased.value.entries == ls && inserted.value.entries == rs;
      assert ls + rs == l.entries + r.entries;
      t1 := FinishLeafBorrow(id, ci, j, p, t, at, ls, rs, false);
    }

    method BorrowFromRightLeaf(id: PageId, ci: nat, ghost t: Tree, ghost at: Spot) returns (ghost t1: Tree)
      requires store.Valid() && Hurt(caps, store.pages, t, 1, at, ci) && t.id == id && ci < |t.seps|
      requires Count(t.kids[ci]) < Minimum(caps, 0) < Count(t.kids[ci + 1])
      modifies store
      ensures store.Valid() && store.pageCount == old(store.pageCount)
      ensures Healed(caps, old(store.pages), store.pages, t, 1, |t.seps|, at, t1) && t1.Node?
    {
      ghost var p, j := store.pages, ci;
      ghost var l, r := t.kids[ci], t.kids[ci + 1];
      ChildRep(p, t, at, ci);
      ChildRep(p, t, at, ci + 1);
      PairApart(t, j);
      PairSorted(t, j);
      var childId, rightId := store.pages[id].kids[ci], store.pages[id].kids[ci + 1];
      ghost var count := |l.entries|;
      assert count > 0 ==>
        (l.entries + r.entries)[count - 1] == l.entries[count - 1] && (l.entries + r.entries)[count] == r.entries[0];
      MoveFirstEntry(childId, rightId);
      ghost var ls, rs := l.entries + [r.entries[0]], r.entries[1..];
      assert ls + rs == l.entries + r.entries;
      t1 := FinishLeafBorrow(id, ci, j, p, t, at, ls, rs, true);
    }

    /** The right page's first entry becomes the left page's last. */
    method MoveFirstEntry(leftId: PageId, rightId: PageId)
      requires store.Valid() && leftId in store.pages && rightId in store.pages && leftId != rightId
      requires store.pages[leftId].LeafPage? && store.pages[rightId].LeafPage? &&
        |store.pages[leftId].entries| < caps.leaf
      requires var ls, rs := store.pages[leftId].entries, store.pages[rightId].entries;
        |rs| > 0 && (|ls| > 0 ==> ls[|ls| - 1].key <= rs[0].key)
      modifies store
      ensures store.Valid() && store.pageCount == old(store.pageCount)
      ensures var l, r := old(store.pages)[leftId], old(store.pages)[rightId];
        store.pages ==
          old(store.pages)[leftId := l.(entries := l.entries + [r.entries[0]])]
                          [rightId := r.(entries := r.entries[1..])]
    {
      var borrowed := store.pages[rightId].entries[0];
      var inserted := LeafInsertEntry(caps, store.pages[leftId], |store.pages[leftId].entries|, borrowed);
      assert inserted.Ok?;
      store.pages := store.pages[leftId := inserted.value];
      var erased := LeafEraseEntry(store.pages[rightId], 0);
      assert erased.Ok?;
      assert inserted.value.entries == old(store.pages)[leftId].entries + [borrowed];
      assert erased.value.entries == old(store.pages)[rightId].entries[1..];
      store.pages := store.pages[rightId := erased.value];
    }

    /** The separators that a move between children j and j + 1 makes stale, refreshed: the one between
        them, and the one before child ci when the entry came from the right. */
    method FinishLeafBorrow(id: PageId, ci: nat, ghost j: nat, ghost p: Pages, ghost t: Tree, ghost at: Spot,
                            ghost ls: seq<Entry>, ghost rs: seq<Entry>, fromRight: bool)
      returns (ghost t1: Tree)
      requires store.Valid() && Hurt(caps, p, t, 1, at, ci) && t.id == id
      requires j + 1 < |t.kids| && ci == (if fromRight then j else j + 1)
      requires t.kids[j].Leaf? && t.kids[j + 1].Leaf? && ls + rs == t.kids[j].entries + t.kids[j + 1].entries
      requires Minimum(caps, 0) <= |ls| <= caps.leaf && Minimum(caps, 0) <= |rs| <= caps.leaf
      requires var a, b := t.kids[j].id, t.kids[j + 1].id;
        a in p && b in p && p[a].LeafPage? && p[b].LeafPage? &&
        store.pages == p[a := p[a].(entries := ls)][b := p[b].(entries := rs)]
      modifies store
      ensures store.Valid() && store.pageCount == old(store.pageCount)
      ensures Healed(caps, p, store.pages, t, 1, |t.seps|, at, t1) && t1.Node?
    {
      hide Sorted;
      ghost var q := store.pages;
      ghost var l, r := Leaf(t.kids[j].id, ls), Leaf(t.kids[j + 1].id, rs);
      MinimumPositive(caps, 0);
      LeafShift(p, q, t, at, j, ls, rs);
      ShiftRep(p, q, t, at, j, l, r);
      ghost var u := WithPair(t, j, [l, r], t.seps);
      if fromRight && ci > 0 {
        RefreshChildSeparator(id, ci, u, 0, Minimum(caps, 0), at.parent, at.root);
        RefreshRep(q, store.pages, u, at.parent, at.root, ci - 1, ls[0].key);
        u := WithSep(u, ci - 1, ls[0].key);
      }
      RefreshChildSeparator(id, if fromRight then ci + 1 else ci, u, 0, Minimum(caps, 0), at.parent, at.root);
      ghost var ss := u.seps[j := rs[0].key];
      LeafBorrowHeals(p, q, store.pages, t, at, ci, j, l, r, ss, fromRight);
      t1 := WithPair(t, j, [l, r], ss);
    }

    lemma LeafBorrowHeals(p: Pages, q: Pages, r: Pages, t: Tree, at: Spot, ci: nat, j: nat, lt: Tree, rt: Tree,
                          ss: seq<Key>, fromRight: bool)
      requires Hurt(caps, p, t, 1, at, ci) && j + 1 < |t.kids| && ci == (if fromRight then j else j + 1)
      requires Shift(p, q, t, j, lt, rt) && lt.Leaf? && rt.Leaf? && t.kids[j].Leaf?
      requires Minimum(caps, 0) <= |lt.entries| <= caps.leaf && Minimum(caps, 0) <= |rt.entries| <= caps.leaf
      requires |ss| == |t.seps| && ss[j] == rt.entries[0].key && (fromRight && j > 0 ==> ss[j - 1] == lt.entries[0].key)
      requires !fromRight && j > 0 ==> ss[j - 1] == t.seps[j - 1]
      requires lt.entries + rt.entries == t.kids[j].entries + Entries(t.kids[j + 1])
      requires forall i :: 0 <= i < |t.seps| && i != j && i + 1 != j ==> ss[i] == t.seps[i]
      requires t.id in q && q[t.id].InternalPage? && r == q[t.id := q[t.id].(seps := ss)]
      ensures Healed(caps, p, r, t, 1, |t.seps|, at, WithPair(t, j, [lt, rt], ss))
    {
      if !fromRight && j > 0 {
        assert Bounds(t.seps[j - 1], t.kids[j]);
        assert (lt.entries + rt.entries)[0] == lt.entries[0];
        assert t.kids[j].entries != [] ==> (t.kids[j].entries + Entries(t.kids[j + 1]))[0] == t.kids[j].entries[0];
      }
      ShiftHeals(caps, p, q, r, t, 1, at, ci, j, lt, rt, ss);
    }

    /** Merges child j + 1 into child j and drops entry j from the parent. */
    method MergeLeafChildren(id: PageId, j: nat, ghost ci: nat, ghost t: Tree, ghost at: Spot) returns (ghost t1: Tree)
      requires store.Valid() && Hurt(caps, store.pages, t, 1, at, ci) && t.id == id
      requires j + 1 < |t.kids| && (ci == j + 1 || (ci == j && j == 0))
      requires Count(t.kids[ci]) < Minimum(caps, 0) && Count(t.kids[if ci == j then j + 1 else j]) <= Minimum(caps, 0)
      modifies store
      ensures store.Valid() && store.pageCount == old(store.pageCount)
      ensures Healed(caps, old(store.pages), store.pages, t, 1, Less(|t.seps|), at, t1) && t1.Node?
    {
      ghost var p := store.pages;
      ChildRep(p, t, at, j);
      ChildRep(p, t, at, j + 1);
      PairApart(t, j);
      PairSorted(t, j);
      PairPostIsLeaf(p, t, at, j);
      var leftId, rightId := store.pages[id].kids[j], store.pages[id].kids[j + 1];
      MergeAdjacentLeaves(leftId, rightId, t, at, j);
      ghost var mid := store.pages;
      LeafMergedAt(p, mid, t, at, j);
      ghost var m := Leaf(leftId, t.kids[j].entries + t.kids[j + 1].entries);
      assert mid[id] == p[id];
      var edited := InternalEraseEntry(store.pages[id], j);
      assert edited.Ok?;
      store.pages := store.pages[id := edited.value];
      ghost var pp := PairPost(t, at, j);
      ParentDrops(p, mid, store.pages, t, at, j, m, {m.id}, pp);
      ChainParents(mid, store.pages, PairPre(t, at, j) + Leaves(m) + pp);
      MergeHeals(caps, p, store.pages, t, 1, at, ci, j, m, {m.id});
      t1 := WithPair(t, j, [m], t.seps[..j] + t.seps[j + 1..]);
    }

    /** Appends the right leaf's entries to the left leaf and unlinks the right leaf. */
    method MergeAdjacentLeaves(leftId: PageId, rightId: PageId, ghost t: Tree, ghost at: Spot, ghost j: nat)
      requires store.Valid() && t.Node? && j + 1 < |t.kids| && t.kids[j].id == leftId && t.kids[j + 1].id == rightId
      requires leftId in store.pages && rightId in store.pages && leftId != rightId
      requires store.pages[leftId].LeafPage? && store.pages[rightId].LeafPage? && t.kids[j].Leaf? && t.kids[j + 1].Leaf?
      requires Sorted(store.pages[leftId].entries + store.pages[rightId].entries)
      requires |store.pages[leftId].entries| + |store.pages[rightId].entries| <= caps.leaf
      requires Chain(store.pages, at.pre + Leaves(t) + at.post)
      modifies store
      ensures store.Valid() && store.pageCount == old(store.pageCount)
      ensures store.pages == LeafMerged(old(store.pages), leftId, rightId)
    {
      var right := store.pages[rightId];
      var page := store.pages[leftId];
      var leftCount := |page.entries|;
      ghost var all := page.entries + right.entries;
      for i := 0 to |right.entries|
        invariant page == store.pages[leftId].(entries := all[..leftCount + i])
      {
        var r := LeafInsertEntry(caps, page, leftCount + i, right.entries[i]);
        assert all[leftCount + i] == right.entries[i];
        assert r.Ok?;
        page := r.value;
      }
      assert all[..leftCount + |right.entries|] == all;
      RightLink(store.pages, t, at, j);
      store.pages := store.pages[leftId := page.(next := right.next)];
      if right.next != INVALID_PAGE_ID {
        store.pages := store.pages[right.next := store.pages[right.next].(prev := leftId)];
      }
    }

    /** The right leaf of a pair links to nothing or to a stored leaf. */
    lemma RightLink(p: Pages, t: Tree, at: Spot, j: nat)
      requires t.Node? && j + 1 < |t.kids| && t.kids[j].Leaf? && t.kids[j + 1].Leaf?
      requires Chain(p, at.pre + Leaves(t) + at.post)
      ensures var b := t.kids[j + 1].id;
        b in p && p[b].LeafPage? && (p[b].next == INVALID_PAGE_ID || (p[b].next in p && p[p[b].next].LeafPage?))
    {
      PairChain(p, t, at, j);
      var pre, post := PairPre(t, at, j) + [t.kids[j].id], PairPost(t, at, j);
      assert at.pre + Leaves(t) + at.post == pre + [t.kids[j + 1].id] + post;
      ChainAt(p, pre, t.kids[j + 1].id, post);
    }

    // ---- Erase: internal children ----------------------------------------------------------

    method RebalanceInternalChildAfterErase(id: PageId, ci: nat, ghost t: Tree, ghost h: nat, ghost at: Spot)
      returns (ghost t1: Tree)
      requires store.Valid() && Hurt(caps, store.pages, t, h, at, ci) && t.id == id && |t.seps| >= 1 && h >= 2
      requires Count(t.kids[ci]) < Minimum(caps, h - 1)
      modifies store
      ensures store.Valid() && store.pageCount == old(store.pageCount)
      ensures Healed(caps, old(store.pages), store.pages, t, h, Less(|t.seps|), at, t1) && t1.Node?
    {
      ghost var p := store.pages;
      ghost var t0 := t;
      FirstEntry(caps, t.kids[ci], h - 1, Short(caps, h - 1));
      if ci > 0 {
        RefreshChildSeparator(id, ci, t, h - 1, Short(caps, h - 1), at.parent, at.root);
        t0 := WithSep(t, ci - 1, Entries(t.kids[ci])[0].key);
        RefreshStaysHurt(p, store.pages, t, h, at, ci);
      }
      ghost var q := store.pages;
      t1 := MoveInternalChild(id, ci, t0, h, at);
      HealedAfterRefresh(p, q, store.pages, t, t0, h, at, ci, t1);
    }

    lemma RefreshStaysHurt(p: Pages, q: Pages, t: Tree, h: nat, at: Spot, ci: nat)
      requires Hurt(caps, p, t, h, at, ci) && 0 < ci && Entries(t.kids[ci]) != []
      requires q == p[t.id := p[t.id].(seps := t.seps[ci - 1 := Entries(t.kids[ci])[0].key])]
      ensures Hurt(caps, q, WithSep(t, ci - 1, Entries(t.kids[ci])[0].key), h, at, ci)
    {
      RefreshRep(p, q, t, at.parent, at.root, ci - 1, Entries(t.kids[ci])[0].key);
      ChainParents(p, q, at.pre + Leaves(t) + at.post);
      var u := WithSep(t, ci - 1, Entries(t.kids[ci])[0].key);
      forall i | 0 <= i < |u.seps| && i + 1 != ci ensures Bounds(u.seps[i], u.kids[i + 1]) {
        assert Bounds(t.seps[i], t.kids[i + 1]);
      }
    }

    lemma HealedAfterRefresh(p: Pages, q: Pages, r: Pages, t: Tree, t0: Tree, h: nat, at: Spot, ci: nat, t1: Tree)
      requires Hurt(caps, p, t, h, at, ci)
      requires t0.Node? && t0.id == t.id && t0.kids == t.kids && |t0.seps| == |t.seps|
      requires t.id in p && p[t.id].InternalPage? && (q == p || q == p[t.id := p[t.id].(seps := t0.seps)])
      requires Healed(caps, q, r, t0, h, Less(|t0.seps|), at, t1)
      ensures Healed(caps, p, r, t, h, Less(|t.seps|), at, t1)
    {
      assert Entries(t0) == Entries(t) && Ids(t0) == Ids(t);
    }

    /** Borrows from, or merges with, a sibling of the short internal child ci; all separators are exact. */
    method MoveInternalChild(id: PageId, ci: nat, ghost t: Tree, ghost h: nat, ghost at: Spot) returns (ghost t1: Tree)
      requires store.Valid() && Hurt(caps, store.pages, t, h, at, ci) && t.id == id && |t.seps| >= 1 && h >= 2
      requires Count(t.kids[ci]) < Minimum(caps, h - 1) && (ci > 0 ==> Bounds(t.seps[ci - 1], t.kids[ci]))
      modifies store
      ensures store.Valid() && store.pageCount == old(store.pageCount)
      ensures Healed(caps, old(store.pages), store.pages, t, h, Less(|t.seps|), at, t1) && t1.Node?
    {
      ChildRep(store.pages, t, at, ci);
      var page := store.pages[id];
      var minimum := caps.internal / 2;
      if ci > 0 {
        ChildRep(store.pages, t, at, ci - 1);
        if |store.pages[page.kids[ci - 1]].seps| > minimum {
          t1 := BorrowFromLeftInternal(id, ci, t, h, at);
          return;
        }
      }
      if ci < |page.seps| {
        ChildRep(store.pages, t, at, ci + 1);
        assert Bounds(t.seps[ci], t.kids[ci + 1]);
        if |store.pages[page.kids[ci + 1]].seps| > minimum {
          t1 := BorrowFromRightInternal(id, ci, t, h, at);
          return;
        }
      }
      if ci > 0 {
        t1 := MergeInternalChildren(id, ci - 1, ci, t, h, at);
        return;
      }
      assert ci < |page.seps|;
      t1 := MergeInternalChildren(id, ci, ci, t, h, at);
    }

    /** What both children of a pair look like, seen from the parent. */
    lemma PairSiblings(p: Pages, t: Tree, h: nat, at: Spot, ci: nat, j: nat)
      requires Hurt(caps, p, t, h, at, ci) && h >= 2 && j + 1 < |t.kids| && Bounds(t.seps[j], t.kids[j + 1])
      requires ci == j || ci == j + 1
      ensures Siblings(caps, t.kids[j], t.seps[j], t.kids[j + 1], h - 1)
      ensures Rep(p, t.kids[j], t.id, false) && Rep(p, t.kids[j + 1], t.id, false)
      ensures t.id in p && p[t.id].InternalPage? && p[t.id].seps == t.seps && p[t.id].kids == KidIds(t.kids)
      ensures Increasing(RowSeps(t.kids[j], t.seps[j], t.kids[j + 1]))
    {
      ChildRep(p, t, at, j);
      ChildRep(p, t, at, j + 1);
      PairApart(t, j);
      PairSorted(t, j);
      var l, r := t.kids[j], t.kids[j + 1];
      RowBody(caps, l, t.seps[j], r, h - 1);
      RowContents(l, r);
      var u := Node(l.id, RowSeps(l, t.seps[j], r), RowKids(l, r));
      SeparatorsSorted(u);
    }

    lemma RowNeighbours(l: Tree, sep: Key, r: Tree)
      requires l.Node? && r.Node? && Increasing(RowSeps(l, sep, r))
      ensures |l.seps| > 0 ==> l.seps[|l.seps| - 1] <= sep
      ensures |r.seps| > 0 ==> sep <= r.seps[0]
    {
      var row := RowSeps(l, sep, r);
      assert row[|l.seps|] == sep;
      assert |l.seps| > 0 ==> row[|l.seps| - 1] == l.seps[|l.seps| - 1];
      assert |r.seps| > 0 ==> row[|l.seps| + 1] == r.seps[0];
    }

    /** Pages of two siblings without a common page, as stored. */
    lemma PairIds(p: Pages, l: Tree, r: Tree, parent: PageId)
      requires l.Node? && r.Node? && Rep(p, l, parent, false) && Rep(p, r, parent, false) && Ids(l) !! Ids(r)
      ensures l.id != r.id && l.id in Ids(l) && r.id in Ids(r) && l.id !in Ids(r) && r.id !in Ids(l)
      ensures l.id in p && p[l.id].InternalPage? && p[l.id].seps == l.seps && p[l.id].kids == KidIds(l.kids)
      ensures r.id in p && p[r.id].InternalPage? && p[r.id].seps == r.seps && p[r.id].kids == KidIds(r.kids)
    {
      IdWithin(l);
      IdWithin(r);
    }

    /** A child page id is a stored page, and not the page itself or its sibling. */
    lemma GrandchildStored(p: Pages, l: Tree, parent: PageId, i: nat)
      requires l.Node? && Rep(p, l, parent, false) && Distinct(l) && i < |l.kids|
      ensures l.kids[i].id in p && l.kids[i].id in Ids(l) && l.kids[i].id != l.id
    {
      var g := l.kids[i];
      assert g in l.kids && RepAll(p, l.kids, l.id);
      IdWithin(g);
      KidIdsWithin(l.kids, g);
    }

    /** What moving l's last child to r (or r's first child to l) needs to find in the store. */
    ghost predicate PairStored(p: Pages, l: Tree, r: Tree, borrowed: PageId) {
      && l.Node? && r.Node? && |l.kids| == |l.seps| + 1 && |r.kids| == |r.seps| + 1
      && l.id in p && r.id in p && borrowed in p
      && l.id != r.id && borrowed != l.id && borrowed != r.id
      && p[l.id].InternalPage? && p[r.id].InternalPage?
      && p[l.id].seps == l.seps && p[l.id].kids == KidIds(l.kids)
      && p[r.id].seps == r.seps && p[r.id].kids == KidIds(r.kids)
    }

    lemma PairIsStored(p: Pages, t: Tree, h: nat, at: Spot, ci: nat, j: nat)
      requires Hurt(caps, p, t, h, at, ci) && h >= 2 && j + 1 < |t.kids| && Bounds(t.seps[j], t.kids[j + 1])
      requires ci == j || ci == j + 1
      ensures var l, r, sep := t.kids[j], t.kids[j + 1], t.seps[j];
        && Siblings(caps, l, sep, r, h - 1)
        && PairStored(p, l, r, l.kids[|l.seps|].id) && PairStored(p, l, r, r.kids[0].id)
        && (|l.seps| > 0 ==> l.seps[|l.seps| - 1] <= sep) && (|r.seps| > 0 ==> sep <= r.seps[0])
        && Rep(p, l, t.id, false) && Rep(p, r, t.id, false)
        && t.id in p && p[t.id].InternalPage? && p[t.id].seps == t.seps && p[t.id].kids == KidIds(t.kids)
    {
      var l, r, sep := t.kids[j], t.kids[j + 1], t.seps[j];
      PairSiblings(p, t, h, at, ci, j);
      PairIds(p, l, r, t.id);
      GrandchildStored(p, l, t.id, |l.seps|);
      GrandchildStored(p, r, t.id, 0);
      RowNeighbours(l, sep, r);
    }

    method BorrowFromLeftInternal(id: PageId, ci: nat, ghost t: Tree, ghost h: nat, ghost at: Spot)
      returns (ghost t1: Tree)
      requires store.Valid() && Hurt(caps, store.pages, t, h, at, ci) && t.id == id && h >= 2 && 0 < ci
      requires Count(t.kids[ci]) < Minimum(caps, h - 1) < Count(t.kids[ci - 1]) && Bounds(t.seps[ci - 1], t.kids[ci])
      modifies store
      ensures store.Valid() && store.pageCount == old(store.pageCount)
      ensures Healed(caps, old(store.pages), store.pages, t, h, |t.seps|, at, t1) && t1.Node?
    {
      hide Rep, RepAll, Chain, Kept, Shift, Distinct;
      ghost var p := store.pages;
      ghost var l, r := t.kids[ci - 1], t.kids[ci];
      PairIsStored(p, t, h, at, ci, ci - 1);
      var leftId, childId := store.pages[id].kids[ci - 1], store.pages[id].kids[ci];
      var borrowed := store.pages[leftId].kids[|store.pages[leftId].seps|];
      var sep := store.pages[id].seps[ci - 1];
      LendChildRight(leftId, childId, borrowed, sep, l, r);
      LentRight(p, store.pages, t, h, at, ci);
      t1 := FinishInternalBorrow(id, ci, ci - 1, p, t, h, at, |l.seps| - 1);
    }

    lemma LentRight(p: Pages, q: Pages, t: Tree, h: nat, at: Spot, ci: nat)
      requires Hurt(caps, p, t, h, at, ci) && h >= 2 && 0 < ci
      requires Count(t.kids[ci]) < Minimum(caps, h - 1) < Count(t.kids[ci - 1])
      requires Siblings(caps, t.kids[ci - 1], t.seps[ci - 1], t.kids[ci], h - 1)
      requires Rep(p, t.kids[ci - 1], t.id, false) && Rep(p, t.kids[ci], t.id, false)
      requires var l, r := t.kids[ci - 1], t.kids[ci];
        var n := |l.seps|; var g := l.kids[n].id;
        l.id in p && r.id in p && g in p && p[l.id].InternalPage? && p[r.id].InternalPage? &&
        q == LendPages(p, l.id, l.seps[..n - 1], KidIds(l.kids)[..n], r.id, [t.seps[ci - 1]] + r.seps,
                       [g] + KidIds(r.kids), g, r.id)
      ensures var l, r, sep, m := t.kids[ci - 1], t.kids[ci], t.seps[ci - 1], Count(t.kids[ci - 1]) - 1;
        Shift(p, q, t, ci - 1, CutLeft(l, sep, r, m), CutRight(l, sep, r, m))
    {
      hide Rep, RepAll;
      var l, r := t.kids[ci - 1], t.kids[ci];
      LendRightRep(p, q, l, t.seps[ci - 1], r, t.id);
      InternalShift(caps, p, q, t, at, h - 1, ci - 1, t.seps[ci - 1], |l.seps| - 1);
    }

    /** The left page's last child becomes the right page's first child, under separator sep. */
    method LendChildRight(leftId: PageId, childId: PageId, borrowed: PageId, sep: Key, ghost l: Tree, ghost r: Tree)
      requires store.Valid() && PairStored(store.pages, l, r, borrowed) && l.id == leftId && r.id == childId
      requires |l.seps| > 0 && |r.seps| < caps.internal
      requires borrowed == l.kids[|l.seps|].id && (|r.seps| > 0 ==> sep <= r.seps[0])
      modifies store
      ensures store.Valid() && store.pageCount == old(store.pageCount)
      ensures var n := |l.seps|;
        store.pages == LendPages(old(store.pages), leftId, l.seps[..n - 1], KidIds(l.kids)[..n], childId,
                                 [sep] + r.seps, [borrowed] + KidIds(r.kids), borrowed, childId)
    {
      PrependChild(childId, sep, borrowed);
      var left := store.pages[leftId];
      var erased := InternalEraseEntry(left, |left.seps| - 1);
      assert erased.Ok?;
      store.pages := store.pages[leftId := erased.value];
      assert erased.value.seps == l.seps[..|l.seps| - 1] && erased.value.kids == KidIds(l.kids)[..|l.seps|];
      var page := store.pages[borrowed];
      store.pages := store.pages[borrowed := WithHeader(page, childId, page.isRoot)];
    }

    /** insert_entry at 0 with the old first child, then set_first_child_page_id. */
    method PrependChild(id: PageId, sep: Key, first: PageId)
      requires store.Valid() && id in store.pages && store.pages[id].InternalPage?
      requires var page := store.pages[id];
        |page.kids| == |page.seps| + 1 && |page.seps| < caps.internal && (|page.seps| > 0 ==> sep <= page.seps[0])
      modifies store
      ensures store.Valid() && store.pageCount == old(store.pageCount)
      ensures var page := old(store.pages)[id];
        store.pages == old(store.pages)[id := page.(seps := [sep] + page.seps, kids := [first] + page.kids)]
    {
      var page := store.pages[id];
      var inserted := InternalInsertEntry(caps, page, 0, sep, page.kids[0]);
      assert inserted.Ok?;
      var kids := inserted.value.kids[0 := first];
      assert kids == [first] + page.kids && inserted.value.seps == [sep] + page.seps;
      store.pages := store.pages[id := inserted.value.(kids := kids)];
    }

    method BorrowFromRightInternal(id: PageId, ci: nat, ghost t: Tree, ghost h: nat, ghost at: Spot)
      returns (ghost t1: Tree)
      requires store.Valid() && Hurt(caps, store.pages, t, h, at, ci) && t.id == id && h >= 2 && ci < |t.seps|
      requires Count(t.kids[ci]) < Minimum(caps, h - 1) < Count(t.kids[ci + 1]) &&
        (ci > 0 ==> Bounds(t.seps[ci - 1], t.kids[ci]))
      modifies store
      ensures store.Valid() && store.pageCount == old(store.pageCount)
      ensures Healed(caps, old(store.pages), store.pages, t, h, |t.seps|, at, t1) && t1.Node?
    {
      hide Rep, RepAll, Chain, Kept, Shift, Distinct;
      ghost var p := store.pages;
      ghost var l, r := t.kids[ci], t.kids[ci + 1];
      assert Bounds(t.seps[ci], t.kids[ci + 1]);
      PairIsStored(p, t, h, at, ci, ci);
      var childId, rightId := store.pages[id].kids[ci], store.pages[id].kids[ci + 1];
      var borrowed := store.pages[rightId].kids[0];
      var sep := store.pages[id].seps[ci];
      LendChildLeft(childId, rightId, borrowed, sep, l, r);
      LendLeftRep(p, store.pages, l, sep, r, id);
      InternalShift(caps, p, store.pages, t, at, h - 1, ci, sep, |l.seps| + 1);
      t1 := FinishInternalBorrow(id, ci, ci, p, t, h, at, |l.seps| + 1);
    }

    /** The right page's first child becomes the left page's last child, under separator sep. */
    method LendChildLeft(childId: PageId, rightId: PageId, borrowed: PageId, sep: Key, ghost l: Tree, ghost r: Tree)
      requires store.Valid() && PairStored(store.pages, l, r, borrowed) && l.id == childId && r.id == rightId
      requires |l.seps| < caps.internal && |r.seps| > 0
      requires borrowed == r.kids[0].id && (|l.seps| > 0 ==> l.seps[|l.seps| - 1] <= sep)
      modifies store
      ensures store.Valid() && store.pageCount == old(store.pageCount)
      ensures store.pages == LendPages(old(store.pages), childId, l.seps + [sep], KidIds(l.kids) + [borrowed],
                                       rightId, r.seps[1..], KidIds(r.kids)[1..], borrowed, childId)
    {
      var child := AppendEntry(caps, store.pages[childId], sep, borrowed);
      store.pages := store.pages[childId := child];
      var right := store.pages[rightId];
      var moved := right.(kids := right.kids[0 := right.kids[1]]);
      var erased := InternalEraseEntry(moved, 0);
      assert erased.Ok?;
      store.pages := store.pages[rightId := erased.value];
      var page := store.pages[borrowed];
      store.pages := store.pages[borrowed := WithHeader(page, childId, page.isRoot)];
      assert erased.value.seps == r.seps[1..] && erased.value.kids == KidIds(r.kids)[1..];
    }

    /** Refreshes the separator between the two pages of a pair after a child moved between them. */
    method FinishInternalBorrow(id: PageId, ghost ci: nat, j: nat, ghost p: Pages, ghost t: Tree, ghost h: nat,
                                ghost at: Spot, ghost m: nat)
      returns (ghost t1: Tree)
      requires store.Valid() && Hurt(caps, p, t, h, at, ci) && t.id == id && h >= 2
      requires j + 1 < |t.kids| && (ci == j || ci == j + 1) && (j > 0 ==> Bounds(t.seps[j - 1], t.kids[j]))
      requires Siblings(caps, t.kids[j], t.seps[j], t.kids[j + 1], h - 1)
      requires Minimum(caps, h - 1) <= m <= caps.internal
      requires m + 1 + Minimum(caps, h - 1) <= |RowSeps(t.kids[j], t.seps[j], t.kids[j + 1])| <= m + 1 + caps.internal
      requires Shift(p, store.pages, t, j, CutLeft(t.kids[j], t.seps[j], t.kids[j + 1], m),
                     CutRight(t.kids[j], t.seps[j], t.kids[j + 1], m))
      modifies store
      ensures store.Valid() && store.pageCount == old(store.pageCount)
      ensures Healed(caps, p, store.pages, t, h, |t.seps|, at, t1) && t1.Node?
    {
      ghost var q := store.pages;
      ghost var l, r := CutLeft(t.kids[j], t.seps[j], t.kids[j + 1], m),
        CutRight(t.kids[j], t.seps[j], t.kids[j + 1], m);
      CutSiblings(caps, t.kids[j], t.seps[j], t.kids[j + 1], h - 1, m);
      ShiftRep(p, q, t, at, j, l, r);
      ghost var u := WithPair(t, j, [l, r], t.seps);
      RefreshChildSeparator(id, j + 1, u, h - 1, Minimum(caps, h - 1), at.parent, at.root);
      ghost var ss := t.seps[j := Entries(r)[0].key];
      InternalBorrowHeals(p, q, store.pages, t, h, at, ci, j, l, r, ss);
      t1 := WithPair(t, j, [l, r], ss);
    }

    lemma InternalBorrowHeals(p: Pages, q: Pages, r: Pages, t: Tree, h: nat, at: Spot, ci: nat, j: nat, lt: Tree,
                              rt: Tree, ss: seq<Key>)
      requires Hurt(caps, p, t, h, at, ci) && h >= 2 && j + 1 < |t.kids| && (ci == j || ci == j + 1)
      requires Shift(p, q, t, j, lt, rt) && Good(caps, lt, h - 1) && Good(caps, rt, h - 1)
      requires j > 0 ==> Bounds(t.seps[j - 1], t.kids[j])
      requires Entries(rt) != [] && ss == t.seps[j := Entries(rt)[0].key]
      requires t.id in q && q[t.id].InternalPage? && r == q[t.id := q[t.id].(seps := ss)]
      ensures Healed(caps, p, r, t, h, |t.seps|, at, WithPair(t, j, [lt, rt], ss))
    {
      FirstEntry(caps, lt, h - 1, Minimum(caps, h - 1));
      if j > 0 {
        assert (Entries(lt) + Entries(rt))[0] == Entries(lt)[0];
        assert (Entries(t.kids[j]) + Entries(t.kids[j + 1]))[0] == Entries(t.kids[j])[0];
      }
      ShiftHeals(caps, p, q, r, t, h, at, ci, j, lt, rt, ss);
    }

    /** Merges internal child j + 1 into child j and drops entry j from the parent. */
    method MergeInternalChildren(id: PageId, j: nat, ghost ci: nat, ghost t: Tree, ghost h: nat, ghost at: Spot)
      returns (ghost t1: Tree)
      requires store.Valid() && Hurt(caps, store.pages, t, h, at, ci) && t.id == id && h >= 2
      requires j + 1 < |t.kids| && (ci == j + 1 || (ci == j && j == 0)) && Bounds(t.seps[j], t.kids[j + 1])
      requires Count(t.kids[ci]) < Minimum(caps, h - 1) &&
        Count(t.kids[if ci == j then j + 1 else j]) <= Minimum(caps, h - 1)
      modifies store
      ensures store.Valid() && store.pageCount == old(store.pageCount)
      ensures Healed(caps, old(store.pages), store.pages, t, h, Less(|t.seps|), at, t1) && t1.Node?
    {
      ghost var p := store.pages;
      ghost var l, r := t.kids[j], t.kids[j + 1];
      PairSiblings(p, t, h, at, ci, j);
      PairApart(t, j);
      IdWithin(l);
      IdWithin(r);
      var leftId, rightId := store.pages[id].kids[j], store.pages[id].kids[j + 1];
      var sep := store.pages[id].seps[j];
      RightChildrenStored(p, r, id);
      MergeAdjacentInternals(leftId, sep, rightId);
      ghost var mid := store.pages;
      ghost var m := Node(leftId, RowSeps(l, sep, r), RowKids(l, r));
      InternalMergeRep(p, mid, l, sep, r, id);
      JoinSiblings(caps, l, sep, r, h - 1);
      t1 := FinishInternalMerge(id, j, ci, p, t, h, at, m);
    }

    lemma RightChildrenStored(p: Pages, r: Tree, parent: PageId)
      requires r.Node? && Rep(p, r, parent, false) && Distinct(r)
      ensures forall x :: x in KidIds(r.kids) ==> x in p && x != r.id && x in Ids(r)
    {
      forall x | x in KidIds(r.kids) ensures x in p && x != r.id && x in Ids(r) {
        var i :| 0 <= i < |r.kids| && KidIds(r.kids)[i] == x;
        GrandchildStored(p, r, parent, i);
      }
    }

    method FinishInternalMerge(id: PageId, j: nat, ghost ci: nat, ghost p: Pages, ghost t: Tree, ghost h: nat,
                               ghost at: Spot, ghost m: Tree)
      returns (ghost t1: Tree)
      requires store.Valid() && Hurt(caps, p, t, h, at, ci) && t.id == id && h >= 2
      requires j + 1 < |t.kids| && (ci == j + 1 || (ci == j && j == 0))
      requires Rep(store.pages, m, id, false) && m.id == t.kids[j].id
      requires Good(caps, m, h - 1) && Distinct(m) && Ids(m) <= Ids(t.kids[j]) + Ids(t.kids[j + 1])
      requires Entries(m) == Entries(t.kids[j]) + Entries(t.kids[j + 1]) &&
        Leaves(m) == Leaves(t.kids[j]) + Leaves(t.kids[j + 1])
      requires Kept(p, store.pages, Ids(t.kids[j]) + Ids(t.kids[j + 1]), [])
      requires store.pages.Keys == p.Keys && forall x :: x in p ==> SameLinks(p, store.pages, x)
      modifies store
      ensures store.Valid() && store.pageCount == old(store.pageCount)
      ensures Healed(caps, p, store.pages, t, h, Less(|t.seps|), at, t1) && t1.Node?
    {
      ghost var mid := store.pages;
      ghost var s := Ids(t.kids[j]) + Ids(t.kids[j + 1]);
      ChildRep(p, t, at, j);
      PairApart(t, j);
      PairPostIsLeaf(p, t, at, j);
      var edited := InternalEraseEntry(store.pages[id], j);
      assert edited.Ok?;
      store.pages := store.pages[id := edited.value];
      ghost var pp := PairPost(t, at, j);
      assert Kept(p, mid, s, pp);
      ParentDrops(p, mid, store.pages, t, at, j, m, s, pp);
      MergedInternalChain(p, mid, store.pages, t, at, j, m);
      MergeHeals(caps, p, store.pages, t, h, at, ci, j, m, s);
      t1 := WithPair(t, j, [m], t.seps[..j] + t.seps[j + 1..]);
    }

    lemma MergedInternalChain(p: Pages, mid: Pages, q: Pages, t: Tree, at: Spot, j: nat, m: Tree)
      requires t.Node? && j + 1 < |t.kids| && Chain(p, at.pre + Leaves(t) + at.post)
      requires Leaves(m) == Leaves(t.kids[j]) + Leaves(t.kids[j + 1])
      requires forall x :: x in p ==> SameLinks(p, mid, x)
      requires t.id in mid && mid[t.id].InternalPage? && t.id in q && q == mid[t.id := q[t.id]] && q[t.id].InternalPage?
      ensures Chain(q, PairPre(t, at, j) + Leaves(m) + PairPost(t, at, j))
    {
      PairChain(p, t, at, j);
      var ls := PairPre(t, at, j) + Leaves(m) + PairPost(t, at, j);
      forall i | 0 <= i < |ls| ensures SameLinks(p, mid, ls[i]) {
        assert Linked(p, ls, i);
      }
      ChainSame(p, mid, ls);
      ChainParents(mid, q, ls);
    }

    /** Appends sep and the right page's entries to the left page and adopts the right page's children. */
    method MergeAdjacentInternals(leftId: PageId, sep: Key, rightId: PageId)
      requires store.Valid() && leftId in store.pages && rightId in store.pages && leftId != rightId
      requires store.pages[leftId].InternalPage? && store.pages[rightId].InternalPage?
      requires var l, r := store.pages[leftId], store.pages[rightId];
        |l.kids| == |l.seps| + 1 && |r.kids| == |r.seps| + 1 && |l.seps + [sep] + r.seps| <= caps.internal &&
        Increasing(l.seps + [sep] + r.seps) && (forall x :: x in r.kids ==> x in store.pages)
      modifies store
      ensures store.Valid() && store.pageCount == old(store.pageCount)
      ensures store.pages == InternalMerged(old(store.pages), leftId, sep, rightId)
    {
      var right := store.pages[rightId];
      var page := AppendEntries(caps, store.pages[leftId], sep, right);
      store.pages := store.pages[leftId := page];
      SetChildrenParentPageId(right.kids, leftId);
    }
  }
}
