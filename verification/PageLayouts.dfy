/** The pages of a tree and their 4096 bytes: the tree's capacities are those of its pages, and every page that the
    tree ever has can be stored. */
module PageLayouts {
  import opened PageIds
  import opened Bytes
  import opened Status
  import opened BTreeShape
  import opened BTreeEntries
  import opened BTreeNodes
  import opened BTreePages
  import opened BTreeSpots
  import opened PagedBTree
  import opened BTreeUpdate
  import opened BTreeRoot
  import opened PageBytes
  import PageEdits
  import Keys

  /** A page of a tree with these sizes. */
  ghost predicate SizedPage(s: Bytes, keySize: nat, valueSize: nat) {
    Validate(s) == Done && KeySize(s) == keySize && U16(s, VALUE_SIZE_OFFSET) == valueSize
  }

  function CapacityOf(caps: Caps, page: Page): nat {
    if page.LeafPage? then caps.leaf else caps.internal
  }

  function KeysIn(page: Page): nat {
    if page.LeafPage? then |page.entries| else |page.seps|
  }

  /** The bytes have room for as many keys as the tree's capacities say. */
  lemma CapacityIsCaps(caps: Caps, s: Bytes, keySize: nat, valueSize: nat)
    requires LaidOut(caps, keySize, valueSize) && SizedPage(s, keySize, valueSize)
    ensures Capacity(s) == CapacityOf(caps, View(s)) && KeyCount(s) == KeysIn(View(s))
  {
    QuotientFills(EntrySize(s));
    FillsOnce(Capacity(s), CapacityOf(caps, View(s)), EntrySize(s));
  }

  // ---- Building the bytes --------------------------------------------------------------------

  function Low(n: nat): Byte {
    n % 256
  }

  function High(n: nat): Byte
    requires n <= MAX_FIELD_SIZE
  {
    n / 256
  }

  /** The bytes of an initialized page. */
  function BlankBytes(kind: Byte, keySize: nat, valueSize: nat): (s: Bytes)
    requires keySize <= MAX_FIELD_SIZE && valueSize <= MAX_FIELD_SIZE
    ensures |s| == PAGE_SIZE
  {
    [kind, 0, 0, 0, HEADER_SIZE, 0, 0, 0] + seq(32, _ => 255) +
    [Low(keySize), High(keySize), Low(valueSize), High(valueSize)] + Keys.Zeros(PAGE_SIZE - 44)
  }

  lemma BlankIsSized(kind: Byte, keySize: nat, valueSize: nat)
    requires keySize <= MAX_FIELD_SIZE && valueSize <= MAX_FIELD_SIZE && kind in {INTERNAL_KIND, LEAF_KIND}
    requires PageEdits.CanInitialize(PAGE_SIZE, kind, keySize, valueSize)
    ensures var s := BlankBytes(kind, keySize, valueSize);
      SizedPage(s, keySize, valueSize) && View(s) == PageEdits.EmptyPage(kind)
  {
    var s := BlankBytes(kind, keySize, valueSize);
    assert s[40] == Low(keySize) && s[41] == High(keySize) && s[42] == Low(valueSize) && s[43] == High(valueSize);
    PageEdits.BlankView(s, kind, keySize, valueSize);
  }

  /** The page with one more entry at its end. */
  function Appended(s: Bytes, e: Bytes): (t: Bytes)
    requires Validate(s) == Done && KeyCount(s) < Capacity(s) && |e| == EntrySize(s)
    ensures |t| == PAGE_SIZE
  {
    var n, size := KeyCount(s), EntrySize(s);
    PageEdits.CountBound(s);
    OffsetOrder(size, n, n + 1);
    var at := OffsetOf(size, n);
    Counted(s, n + 1)[..at] + e + s[at + size..]
  }

  /** The page with its key count set. */
  function Counted(s: Bytes, n: nat): (t: Bytes)
    requires |s| == PAGE_SIZE && n <= MAX_FIELD_SIZE
    ensures |t| == PAGE_SIZE
  {
    s[KEY_COUNT_OFFSET := Low(n)][KEY_COUNT_OFFSET + 1 := High(n)]
  }

  lemma AppendedInserts(s: Bytes, e: Bytes)
    requires Validate(s) == Done && KeyCount(s) < Capacity(s) && |e| == EntrySize(s)
    ensures EntryInserted(s, Appended(s, e), KeyCount(s), e)
  {
    var n, size, t := KeyCount(s), EntrySize(s), Appended(s, e);
    PageEdits.CountBound(s);
    OffsetOrder(size, n, n + 1);
    var at := OffsetOf(size, n);
    hide Validate, OffsetOf, EntrySize, Capacity;
    CountedKeeps(s, n + 1);
    Joined(Counted(s, n + 1)[..at], e, s[at + size..]);
    assert at >= HEADER_SIZE;
    assert forall p :: 0 <= p < at ==> t[p] == Counted(s, n + 1)[..at][p] == Counted(s, n + 1)[p];
    SameRange(s, t, 0, 2);
    SameRange(s, t, 4, HEADER_SIZE);
  }

  lemma SameRange(s: Bytes, t: Bytes, a: nat, b: nat)
    requires a <= b <= |s| && b <= |t| && forall p :: a <= p < b ==> t[p] == s[p]
    ensures t[a..b] == s[a..b]
  {
  }

  lemma Joined(a: Bytes, b: Bytes, c: Bytes)
    ensures var t := a + b + c;
      && (forall p :: 0 <= p < |a| ==> t[p] == a[p])
      && (forall p :: |a| <= p < |a| + |b| ==> t[p] == b[p - |a|])
  {
  }

  lemma CountedKeeps(s: Bytes, n: nat)
    requires |s| == PAGE_SIZE && n <= MAX_FIELD_SIZE
    ensures KeyCount(Counted(s, n)) == n
    ensures forall p :: 0 <= p < PAGE_SIZE && p != 2 && p != 3 ==> Counted(s, n)[p] == s[p]
  {
  }

  lemma AppendedIsSized(s: Bytes, key: Bytes, tail: Bytes, keySize: nat, valueSize: nat)
    requires SizedPage(s, keySize, valueSize) && KeyCount(s) < Capacity(s) && |key| == KeySize(s) &&
      |tail| == TailSize(s)
    ensures var t := Appended(s, key + tail);
      && SizedPage(t, keySize, valueSize) && t[0] == s[0]
      && (s[0] == LEAF_KIND ==> View(t) == LeafWith(View(s), KeyCount(s), Entry(Number(key), tail)))
      && (s[0] == INTERNAL_KIND ==> View(t) == InternalWith(View(s), KeyCount(s), Number(key), IdAt(tail, 0)))
  {
    var t := Appended(s, key + tail);
    AppendedInserts(s, key + tail);
    InsertedView(s, t, KeyCount(s), key, tail);
    HeaderFields(s, t, KeyCount(s) + 1);
    hide Validate;
    assert t[42] == t[4..HEADER_SIZE][38] && s[42] == s[4..HEADER_SIZE][38];
    assert t[43] == t[4..HEADER_SIZE][39] && s[43] == s[4..HEADER_SIZE][39];
  }

  /** Entries that a leaf of these sizes can store. */
  ghost predicate CanStore(es: seq<Entry>, keySize: nat, valueSize: nat) {
    forall i :: 0 <= i < |es| ==> 0 <= es[i].key < Keys.Radix(keySize) && |es[i].value| == valueSize
  }

  /** The bytes of a new leaf with the entries. */
  lemma {:induction false} LeafBytes(es: seq<Entry>, keySize: nat, valueSize: nat) returns (s: Bytes)
    requires 0 < keySize <= MAX_FIELD_SIZE && 0 < valueSize <= MAX_FIELD_SIZE && CanStore(es, keySize, valueSize)
    requires |es| <= ENTRY_AREA_SIZE / (keySize + valueSize) && ENTRY_AREA_SIZE / (keySize + valueSize) >= 1
    ensures SizedPage(s, keySize, valueSize)
    ensures View(s) == LeafPage(false, INVALID_PAGE_ID, INVALID_PAGE_ID, INVALID_PAGE_ID, es)
  {
    if es == [] {
      s := BlankBytes(LEAF_KIND, keySize, valueSize);
      BlankIsSized(LEAF_KIND, keySize, valueSize);
    } else {
      var n := |es| - 1;
      var t := LeafBytes(es[..n], keySize, valueSize);
      var key := Keys.BigEndian(es[n].key, keySize);
      Keys.NumberOfBigEndian(es[n].key, keySize);
      s := Appended(t, key + es[n].value);
      AppendedIsSized(t, key, es[n].value, keySize, valueSize);
      hide Validate, EntriesOf, Keys.Radix;
      assert es == es[..n] + [es[n]];
    }
  }

  ghost predicate SepsStore(seps: seq<Key>, keySize: nat) {
    forall i :: 0 <= i < |seps| ==> 0 <= seps[i] < Keys.Radix(keySize)
  }

  /** The page with a page id set. */
  function IdWritten(s: Bytes, at: nat, id: PageId): (t: Bytes)
    requires |s| == PAGE_SIZE && IsPageId(id) && at + 8 <= PAGE_SIZE
    ensures |t| == PAGE_SIZE
  {
    s[..at] + IdBytes(id) + s[at + 8..]
  }

  lemma IdWrittenIsSized(s: Bytes, at: nat, id: PageId, keySize: nat, valueSize: nat)
    requires SizedPage(s, keySize, valueSize) && IsPageId(id)
    requires at in {PARENT_OFFSET, NEXT_LEAF_OFFSET, PREVIOUS_LEAF_OFFSET, FIRST_CHILD_OFFSET}
    ensures var t := IdWritten(s, at, id);
      && SizedPage(t, keySize, valueSize) && t[0] == s[0]
      && (at == PARENT_OFFSET ==> View(t) == WithHeader(View(s), id, View(s).isRoot))
      && (at == NEXT_LEAF_OFFSET && s[0] == LEAF_KIND ==> View(t) == WithNext(View(s), id))
      && (at == PREVIOUS_LEAF_OFFSET && s[0] == LEAF_KIND ==> View(t) == WithPrevious(View(s), id))
      && (at == FIRST_CHILD_OFFSET && s[0] == INTERNAL_KIND ==> View(t) == WithFirstChild(View(s), id))
  {
    var t := IdWritten(s, at, id);
    hide IdBytes;
    assert IdSet(s, t, at, id);
    IdSetView(s, t, at, id);
    hide View, Validate;
    assert forall p :: 40 <= p < 44 ==> t[p] == s[p];
  }

  /** The bytes of a new internal page with the separators and children. */
  lemma {:induction false} InternalBytes(seps: seq<Key>, kids: seq<PageId>, keySize: nat, valueSize: nat)
    returns (s: Bytes)
    requires 0 < keySize <= MAX_FIELD_SIZE && 0 < valueSize <= MAX_FIELD_SIZE && SepsStore(seps, keySize)
    requires |seps| <= ENTRY_AREA_SIZE / (keySize + PAGE_ID_SIZE) && ENTRY_AREA_SIZE / (keySize + PAGE_ID_SIZE) >= 2
    requires |kids| == |seps| + 1 && forall i :: 0 <= i < |kids| ==> IsPageId(kids[i])
    ensures SizedPage(s, keySize, valueSize)
    ensures View(s) == InternalPage(false, INVALID_PAGE_ID, seps, kids)
  {
    if seps == [] {
      var t := BlankBytes(INTERNAL_KIND, keySize, valueSize);
      BlankIsSized(INTERNAL_KIND, keySize, valueSize);
      s := IdWritten(t, FIRST_CHILD_OFFSET, kids[0]);
      IdWrittenIsSized(t, FIRST_CHILD_OFFSET, kids[0], keySize, valueSize);
      hide View, Validate;
      assert kids == [INVALID_PAGE_ID][0 := kids[0]];
    } else {
      var n := |seps| - 1;
      var t := InternalBytes(seps[..n], kids[..n + 1], keySize, valueSize);
      var key, tail := Keys.BigEndian(seps[n], keySize), IdBytes(kids[n + 1]);
      Keys.NumberOfBigEndian(seps[n], keySize);
      IdRoundTrip(kids[n + 1]);
      s := Appended(t, key + tail);
      AppendedIsSized(t, key, tail, keySize, valueSize);
      hide Validate, Keys.Radix;
      assert seps == seps[..n] + [seps[n]] && kids == kids[..n + 1] + [kids[n + 1]];
    }
  }

  /** The page with its root flag set. */
  lemma RootFlagIsSized(s: Bytes, isRoot: bool, keySize: nat, valueSize: nat)
    requires SizedPage(s, keySize, valueSize)
    ensures var t := s[1 := if isRoot then 1 else 0];
      SizedPage(t, keySize, valueSize) && View(t) == WithHeader(View(s), View(s).parent, isRoot)
  {
    RootFlagView(s, s[1 := if isRoot then 1 else 0], isRoot);
  }

  /** The page ids of a page fit their eight bytes. */
  ghost predicate IdsFit(page: Page) {
    && IsPageId(page.parent) && (page.LeafPage? ==> IsPageId(page.next) && IsPageId(page.prev))
    && (page.InternalPage? ==> forall i :: 0 <= i < |page.kids| ==> IsPageId(page.kids[i]))
  }

  /** A page that a tree of these sizes may have. */
  ghost predicate PageOk(page: Page, caps: Caps, keySize: nat, valueSize: nat) {
    && KeysIn(page) <= CapacityOf(caps, page)
    && (page.LeafPage? ==> CanStore(page.entries, keySize, valueSize))
    && (page.InternalPage? ==> SepsStore(page.seps, keySize) && |page.kids| == |page.seps| + 1)
  }

  /** Such a page has its bytes. */
  lemma PageHasBytes(page: Page, caps: Caps, keySize: nat, valueSize: nat) returns (s: Bytes)
    requires LaidOut(caps, keySize, valueSize) && caps.Valid() && PageOk(page, caps, keySize, valueSize) && IdsFit(page)
    ensures SizedPage(s, keySize, valueSize) && View(s) == page
  {
    CapsAreQuotients(caps, keySize, valueSize);
    var t;
    if page.LeafPage? {
      t := LeafBytes(page.entries, keySize, valueSize);
      IdWrittenIsSized(t, NEXT_LEAF_OFFSET, page.next, keySize, valueSize);
      t := IdWritten(t, NEXT_LEAF_OFFSET, page.next);
      IdWrittenIsSized(t, PREVIOUS_LEAF_OFFSET, page.prev, keySize, valueSize);
      t := IdWritten(t, PREVIOUS_LEAF_OFFSET, page.prev);
    } else {
      t := InternalBytes(page.seps, page.kids, keySize, valueSize);
    }
    hide View, Validate, IdWritten, SizedPage;
    IdWrittenIsSized(t, PARENT_OFFSET, page.parent, keySize, valueSize);
    t := IdWritten(t, PARENT_OFFSET, page.parent);
    RootFlagIsSized(t, page.isRoot, keySize, valueSize);
    s := t[1 := if page.isRoot then 1 else 0];
  }

  lemma CapsAreQuotients(caps: Caps, keySize: nat, valueSize: nat)
    requires LaidOut(caps, keySize, valueSize)
    ensures caps.leaf == ENTRY_AREA_SIZE / (keySize + valueSize)
    ensures caps.internal == ENTRY_AREA_SIZE / (keySize + PAGE_ID_SIZE)
  {
    FillsIsQuotient(caps.leaf, keySize + valueSize);
    FillsIsQuotient(caps.internal, keySize + PAGE_ID_SIZE);
    hide Fills;
  }

  lemma FillsIsQuotient(n: nat, size: nat)
    requires Fills(n, size) && size > 0
    ensures n == ENTRY_AREA_SIZE / size
  {
    QuotientFills(size);
    FillsOnce(n, ENTRY_AREA_SIZE / size, size);
  }

  // ---- Every page of a tree ------------------------------------------------------------------

  ghost predicate EntriesSized(t: Tree, keySize: nat, valueSize: nat) {
    CanStore(Entries(t), keySize, valueSize)
  }

  lemma {:induction false} TreePageOk(c: Caps, p: Pages, t: Tree, h: nat, lo: nat, parent: PageId, root: bool,
                                      keySize: nat, valueSize: nat, id: PageId)
    requires Rep(p, t, parent, root) && Fits(c, t, h, lo) && EntriesSized(t, keySize, valueSize) && id in Ids(t)
    ensures id in p && PageOk(p[id], c, keySize, valueSize)
    decreases t
  {
    match t {
      case Leaf(_, es) =>
      case Node(_, seps, kids) =>
        forall i | 0 <= i < |kids| ensures EntriesSized(kids[i], keySize, valueSize) {
          KidSized(t, i, keySize, valueSize);
        }
        if id == t.id {
          forall i | 0 <= i < |seps| ensures 0 <= seps[i] < Keys.Radix(keySize) {
            assert Bounds(seps[i], kids[i + 1]) && EntriesSized(kids[i + 1], keySize, valueSize);
          }
        } else {
          var i := OwnerOf(kids, id);
          assert kids[i] in kids && Good(c, kids[i], h - 1) && Rep(p, kids[i], t.id, false);
          TreePageOk(c, p, kids[i], h - 1, Minimum(c, h - 1), t.id, false, keySize, valueSize, id);
        }
    }
  }

  lemma KidSized(t: Tree, i: nat, keySize: nat, valueSize: nat)
    requires t.Node? && i < |t.kids| && EntriesSized(t, keySize, valueSize)
    ensures EntriesSized(t.kids[i], keySize, valueSize)
  {
    Around(t.kids, i);
    var a, e := AllEntries(t.kids[..i]), Entries(t.kids[i]);
    forall j | 0 <= j < |e| ensures 0 <= e[j].key < Keys.Radix(keySize) && |e[j].value| == valueSize {
      assert Entries(t)[|a| + j] == e[j];
    }
  }

  /** Every page that a tree has fits its 4096 bytes: there is a page of the tree's sizes that denotes it. */
  lemma TreePageHasBytes(tree: BTree, id: PageId) returns (s: Bytes)
    requires tree.Valid() && id in Ids(tree.tree) && id in tree.store.pages && IdsFit(tree.store.pages[id])
    ensures SizedPage(s, tree.keySize, tree.valueSize) && View(s) == tree.store.pages[id]
    ensures Capacity(s) == CapacityOf(tree.caps, tree.store.pages[id])
  {
    var es := Entries(tree.tree);
    forall i | 0 <= i < |es|
      ensures 0 <= es[i].key < Keys.Radix(tree.keySize) && |es[i].value| == tree.valueSize
    {
      MapOfAt(es, i);
    }
    TreePageOk(tree.caps, tree.store.pages, tree.tree, tree.height, RootMinimum(tree.tree), INVALID_PAGE_ID, true,
               tree.keySize, tree.valueSize, id);
    hide PageOk, Sub;
    s := PageHasBytes(tree.store.pages[id], tree.caps, tree.keySize, tree.valueSize);
    CapacityIsCaps(tree.caps, s, tree.keySize, tree.valueSize);
  }
}
