/** A B+ tree page as 4096 bytes: a 64-byte header and an array of fixed-size entries. The edits on the bytes
    refine the edits of the typed pages that the trees are made of. */
module PageBytes {
  import opened PageIds
  import opened Bytes
  import opened Status
  import opened Endian
  import opened Keys
  import opened BTreeShape
  import opened BTreeNodes
  import opened BTreePages

  const HEADER_SIZE := 64

  const INTERNAL_KIND: Byte := 1
  const LEAF_KIND: Byte := 2

  const KEY_COUNT_OFFSET := 2
  const HEADER_SIZE_OFFSET := 4
  const PARENT_OFFSET := 8
  const NEXT_LEAF_OFFSET := 16
  const PREVIOUS_LEAF_OFFSET := 24
  const FIRST_CHILD_OFFSET := 32
  const KEY_SIZE_OFFSET := 40
  const VALUE_SIZE_OFFSET := 42

  // ---- Reading a page ----------------------------------------------------------------------

  function U16(s: Bytes, at: nat): nat
    requires at + 2 <= |s|
  {
    s[at] as int + 256 * s[at + 1] as int
  }

  const NO_ID := 0xFFFF_FFFF_FFFF_FFFF

  function IdAt(s: Bytes, at: nat): (id: PageId)
    requires at + 8 <= |s|
    ensures id >= INVALID_PAGE_ID
  {
    var n := LittleNumber(s[at..at + 8]);
    if n == NO_ID then INVALID_PAGE_ID else n
  }

  predicate IsPageId(id: PageId) {
    INVALID_PAGE_ID <= id < NO_ID
  }

  function IdBytes(id: PageId): (s: Bytes)
    requires IsPageId(id)
    ensures |s| == 8
  {
    LittleEndian(if id == INVALID_PAGE_ID then NO_ID else id, 8)
  }

  lemma IdRoundTrip(id: PageId)
    requires IsPageId(id)
    ensures IdAt(IdBytes(id), 0) == id
  {
    assert Radix(8) == NO_ID + 1 by {
      assert Radix(4) == 0x1_0000_0000;
      assert Radix(8) == 0x1_0000_0000 * Radix(4);
    }
    LittleRoundTrip(if id == INVALID_PAGE_ID then NO_ID else id, 8);
    assert IdBytes(id)[0..8] == IdBytes(id);
  }

  function KeyCount(s: Bytes): nat
    requires |s| == PAGE_SIZE
  {
    U16(s, KEY_COUNT_OFFSET)
  }

  function KeySize(s: Bytes): nat
    requires |s| == PAGE_SIZE
  {
    U16(s, KEY_SIZE_OFFSET)
  }

  /** What follows the key in an entry: a leaf's value, an internal page's child id. */
  function TailSize(s: Bytes): nat
    requires |s| == PAGE_SIZE
  {
    if s[0] == LEAF_KIND then U16(s, VALUE_SIZE_OFFSET) else 8
  }

  function EntrySize(s: Bytes): nat
    requires |s| == PAGE_SIZE
  {
    KeySize(s) + TailSize(s)
  }

  function Capacity(s: Bytes): nat
    requires |s| == PAGE_SIZE && EntrySize(s) > 0
  {
    ENTRY_AREA_SIZE / EntrySize(s)
  }

  /** validate_page. */
  function Validate(s: Bytes): (r: Outcome)
    ensures r == Done ==> |s| == PAGE_SIZE && EntrySize(s) > 0 && KeyCount(s) <= Capacity(s) && Capacity(s) >= 1
    ensures r == Done && s[0] == INTERNAL_KIND ==> Capacity(s) >= 2
  {
    if |s| != PAGE_SIZE then Failed(InvalidArgument)
    else if s[0] != INTERNAL_KIND && s[0] != LEAF_KIND then Failed(Corruption)
    else if s[1] > 1 then Failed(Corruption)
    else if U16(s, HEADER_SIZE_OFFSET) != HEADER_SIZE then Failed(Corruption)
    else if !AllZero(s[6..8]) || !AllZero(s[44..64]) then Failed(Corruption)
    else if KeySize(s) == 0 || U16(s, VALUE_SIZE_OFFSET) == 0 then Failed(Corruption)
    else if Capacity(s) == 0 then Failed(Corruption)
    else if s[0] == INTERNAL_KIND && Capacity(s) < 2 then Failed(Corruption)
    else if KeyCount(s) > Capacity(s) then Failed(Corruption)
    else Done
  }

  /** Where entry i starts. */
  function OffsetOf(size: nat, i: nat): (at: nat)
    ensures at >= HEADER_SIZE
  {
    HEADER_SIZE + i * size
  }

  /** Entries up to the capacity end inside the page, in order. */
  lemma OffsetOrder(size: nat, i: nat, j: nat)
    requires size > 0 && i <= j <= ENTRY_AREA_SIZE / size
    ensures OffsetOf(size, i) <= OffsetOf(size, j) <= PAGE_SIZE
    ensures i < j ==> OffsetOf(size, i) + size == OffsetOf(size, i + 1) <= OffsetOf(size, j)
  {
    var n := ENTRY_AREA_SIZE / size;
    assert n * size <= ENTRY_AREA_SIZE;
    assert j * size <= n * size;
    assert i * size <= j * size;
    if i < j {
      assert (i + 1) * size == i * size + size;
      assert (i + 1) * size <= j * size;
    }
  }

  function EntryAt(s: Bytes, i: nat): (e: Bytes)
    requires Validate(s) == Done && i < Capacity(s)
    ensures |e| == EntrySize(s)
  {
    OffsetOrder(EntrySize(s), i, i + 1);
    s[OffsetOf(EntrySize(s), i)..OffsetOf(EntrySize(s), i) + EntrySize(s)]
  }

  function KeyAt(s: Bytes, i: nat): (k: Bytes)
    requires Validate(s) == Done && i < Capacity(s)
    ensures |k| == KeySize(s)
  {
    EntryAt(s, i)[..KeySize(s)]
  }

  function TailAt(s: Bytes, i: nat): (v: Bytes)
    requires Validate(s) == Done && i < Capacity(s)
    ensures |v| == TailSize(s)
  {
    EntryAt(s, i)[KeySize(s)..]
  }

  function EntriesOf(s: Bytes): (es: seq<Entry>)
    requires Validate(s) == Done
    ensures |es| == KeyCount(s) && forall i :: 0 <= i < |es| ==> es[i] == Entry(Number(KeyAt(s, i)), TailAt(s, i))
  {
    seq(KeyCount(s), i requires 0 <= i < KeyCount(s) => Entry(Number(KeyAt(s, i)), TailAt(s, i)))
  }

  function SepsOf(s: Bytes): (seps: seq<Key>)
    requires Validate(s) == Done
    ensures |seps| == KeyCount(s) && forall i :: 0 <= i < |seps| ==> seps[i] == Number(KeyAt(s, i))
  {
    seq(KeyCount(s), i requires 0 <= i < KeyCount(s) => Number(KeyAt(s, i)))
  }

  function RightChildAt(s: Bytes, i: nat): PageId
    requires Validate(s) == Done && i < Capacity(s) && TailSize(s) == 8
  {
    IdAt(TailAt(s, i), 0)
  }

  function KidsOf(s: Bytes): (kids: seq<PageId>)
    requires Validate(s) == Done && s[0] == INTERNAL_KIND
    ensures |kids| == KeyCount(s) + 1 && kids[0] == IdAt(s, FIRST_CHILD_OFFSET)
    ensures forall i :: 0 <= i < KeyCount(s) ==> kids[i + 1] == RightChildAt(s, i)
  {
    [IdAt(s, FIRST_CHILD_OFFSET)] + seq(KeyCount(s), i requires 0 <= i < KeyCount(s) => RightChildAt(s, i))
  }

  /** The typed page that the bytes hold. */
  function View(s: Bytes): (page: Page)
    requires Validate(s) == Done
    ensures page.LeafPage? <==> s[0] == LEAF_KIND
    ensures page.InternalPage? <==> s[0] == INTERNAL_KIND
    ensures page.LeafPage? ==> |page.entries| == KeyCount(s)
    ensures page.InternalPage? ==> |page.kids| == |page.seps| + 1 && |page.seps| == KeyCount(s)
  {
    if s[0] == LEAF_KIND then
      LeafPage(s[1] == 1, IdAt(s, PARENT_OFFSET), IdAt(s, NEXT_LEAF_OFFSET), IdAt(s, PREVIOUS_LEAF_OFFSET),
               EntriesOf(s))
    else
      InternalPage(s[1] == 1, IdAt(s, PARENT_OFFSET), SepsOf(s), KidsOf(s))
  }

  /** The page's capacities as the trees use them. */
  function CapsOf(s: Bytes): Caps
    requires Validate(s) == Done
  {
    Caps(Capacity(s), Capacity(s))
  }

  // ---- Edits of the entry array ------------------------------------------------------------

  /** t is s with its key count set to n, and otherwise the same outside the entry area. */
  ghost predicate HeaderKept(s: Bytes, t: Bytes, n: nat)
    requires |s| == PAGE_SIZE
  {
    |t| == PAGE_SIZE && t[..2] == s[..2] && KeyCount(t) == n && t[4..HEADER_SIZE] == s[4..HEADER_SIZE]
  }

  lemma HeaderFields(s: Bytes, t: Bytes, n: nat)
    requires Validate(s) == Done && HeaderKept(s, t, n) && n <= Capacity(s)
    ensures Validate(t) == Done && t[0] == s[0] && t[1] == s[1] && KeySize(t) == KeySize(s) &&
      TailSize(t) == TailSize(s)
    ensures forall at :: 4 <= at <= HEADER_SIZE - 8 ==> IdAt(t, at) == IdAt(s, at)
  {
    assert t[0] == t[..2][0] && t[1] == t[..2][1] && s[0] == s[..2][0] && s[1] == s[..2][1];
    assert forall i :: 4 <= i < HEADER_SIZE ==> t[i] == t[4..HEADER_SIZE][i - 4] && s[i] == s[4..HEADER_SIZE][i - 4];
    assert t[6..8] == s[6..8] && t[44..64] == s[44..64];
    forall at | 4 <= at <= HEADER_SIZE - 8
      ensures IdAt(t, at) == IdAt(s, at)
    {
      assert t[at..at + 8] == s[at..at + 8];
    }
  }

  /** t holds at lo..hi-1 what s holds d bytes before. */
  ghost predicate Moved(s: Bytes, t: Bytes, lo: nat, hi: nat, d: int) {
    && lo <= hi <= |t| && 0 <= lo - d && hi - d <= |s|
    && forall p :: lo <= p < hi ==> t[p] == s[p - d]
  }

  /** t is s with entry e put before entry i. */
  ghost predicate EntryInserted(s: Bytes, t: Bytes, i: nat, e: Bytes)
    requires Validate(s) == Done
  {
    var n, size := KeyCount(s), EntrySize(s);
    && i <= n < Capacity(s) && |e| == size && HeaderKept(s, t, n + 1)
    && Moved(s, t, HEADER_SIZE, OffsetOf(size, i), 0)
    && Moved(e, t, OffsetOf(size, i), OffsetOf(size, i) + size, OffsetOf(size, i))
    && Moved(s, t, OffsetOf(size, i) + size, OffsetOf(size, n) + size, size)
  }

  /** t is s without entry i. */
  ghost predicate EntryErased(s: Bytes, t: Bytes, i: nat)
    requires Validate(s) == Done
  {
    var n, size := KeyCount(s), EntrySize(s);
    && i < n && HeaderKept(s, t, n - 1)
    && Moved(s, t, HEADER_SIZE, OffsetOf(size, i), 0)
    && Moved(s, t, OffsetOf(size, i), OffsetOf(size, n - 1), 0 - size)
  }

  lemma MovedEntry(s: Bytes, t: Bytes, i: nat, j: nat, lo: nat, hi: nat, d: int)
    requires Validate(s) == Done == Validate(t) && EntrySize(s) == EntrySize(t) && i < Capacity(s) && j < Capacity(s)
    requires Moved(s, t, lo, hi, d) && OffsetOf(EntrySize(s), i) == OffsetOf(EntrySize(s), j) - d
    requires lo <= OffsetOf(EntrySize(s), j) && OffsetOf(EntrySize(s), j) + EntrySize(s) <= hi
    ensures EntryAt(t, j) == EntryAt(s, i)
  {
    hide OffsetOf;
    OffsetOrder(EntrySize(s), i, i + 1);
    OffsetOrder(EntrySize(s), j, j + 1);
  }

  lemma InsertedEntries(s: Bytes, t: Bytes, i: nat, e: Bytes, j: nat)
    requires Validate(s) == Done == Validate(t) && EntryInserted(s, t, i, e) && EntrySize(t) == EntrySize(s) &&
      j <= KeyCount(s)
    ensures EntryAt(t, j) == if j < i then EntryAt(s, j) else if j == i then e else EntryAt(s, j - 1)
  {
    assert Capacity(t) == Capacity(s);
    var n, size := KeyCount(s), EntrySize(s);
    OffsetOrder(size, j, n);
    hide OffsetOf, Validate, Moved, Capacity, KeyCount, EntrySize;
    if j < i {
      OffsetOrder(size, j, i);
      MovedEntry(s, t, j, j, HEADER_SIZE, OffsetOf(size, i), 0);
    } else if j > i {
      OffsetOrder(size, i, j - 1);
      OffsetOrder(size, i, j);
      OffsetOrder(size, j - 1, n);
      MovedEntry(s, t, j - 1, j, OffsetOf(size, i) + size, OffsetOf(size, n) + size, size);
    } else {
      InsertedEntry(s, t, i, e);
    }
  }

  lemma InsertedEntry(s: Bytes, t: Bytes, i: nat, e: Bytes)
    requires Validate(s) == Done == Validate(t) && EntryInserted(s, t, i, e) && EntrySize(t) == EntrySize(s)
    ensures EntryAt(t, i) == e
  {
    OffsetOrder(EntrySize(t), i, i + 1);
  }

  lemma ErasedEntries(s: Bytes, t: Bytes, i: nat, j: nat)
    requires Validate(s) == Done == Validate(t) && EntryErased(s, t, i) && EntrySize(t) == EntrySize(s) &&
      j < KeyCount(s) - 1
    ensures EntryAt(t, j) == if j < i then EntryAt(s, j) else EntryAt(s, j + 1)
  {
    assert Capacity(t) == Capacity(s);
    var n := KeyCount(s);
    var size: int := EntrySize(s);
    OffsetOrder(size, i, n);
    OffsetOrder(size, j + 1, n);
    OffsetOrder(size, j + 1, n - 1);
    OffsetOrder(size, j, j + 1);
    hide OffsetOf, Validate, Moved, EntryAt, Capacity, KeyCount, EntrySize;
    if j < i {
      OffsetOrder(size, j, i);
      MovedEntry(s, t, j, j, HEADER_SIZE, OffsetOf(size, i), 0);
    } else {
      OffsetOrder(size, i, j);
      MovedEntry(s, t, j + 1, j, OffsetOf(size, i), OffsetOf(size, n - 1), 0 - size);
    }
  }

  /** The parts of entry j after an insertion before entry i. */
  ghost predicate InsertedAt(s: Bytes, t: Bytes, i: nat, key: Bytes, tail: Bytes, j: nat)
    requires Validate(s) == Done == Validate(t) && i <= KeyCount(s) && j <= KeyCount(s) < Capacity(s) == Capacity(t)
  {
    && KeyAt(t, j) == (if j < i then KeyAt(s, j) else if j == i then key else KeyAt(s, j - 1))
    && TailAt(t, j) == (if j < i then TailAt(s, j) else if j == i then tail else TailAt(s, j - 1))
  }

  lemma InsertedLeaf(s: Bytes, t: Bytes, i: nat, key: Bytes, tail: Bytes)
    requires Validate(s) == Done == Validate(t) && i <= KeyCount(s) < Capacity(s) == Capacity(t) &&
      KeyCount(t) == KeyCount(s) + 1
    requires forall j :: 0 <= j <= KeyCount(s) ==> InsertedAt(s, t, i, key, tail, j)
    ensures EntriesOf(t) == EntriesOf(s)[..i] + [Entry(Number(key), tail)] + EntriesOf(s)[i..]
  {
    hide KeyCount;
    hide Validate, EntryAt, KeyAt, TailAt, Number, Capacity;
    forall j | 0 <= j <= KeyCount(s)
      ensures EntriesOf(t)[j] == (EntriesOf(s)[..i] + [Entry(Number(key), tail)] + EntriesOf(s)[i..])[j]
    {
      assert InsertedAt(s, t, i, key, tail, j);
    }
  }

  lemma InsertedSeparators(s: Bytes, t: Bytes, i: nat, key: Bytes, tail: Bytes)
    requires Validate(s) == Done == Validate(t) && i <= KeyCount(s) < Capacity(s) == Capacity(t) &&
      KeyCount(t) == KeyCount(s) + 1
    requires forall j :: 0 <= j <= KeyCount(s) ==> InsertedAt(s, t, i, key, tail, j)
    ensures SepsOf(t) == SepsOf(s)[..i] + [Number(key)] + SepsOf(s)[i..]
  {
    hide Validate, EntryAt, KeyAt, TailAt, Number, Capacity;
    forall j | 0 <= j <= KeyCount(s)
      ensures SepsOf(t)[j] == (SepsOf(s)[..i] + [Number(key)] + SepsOf(s)[i..])[j]
    {
      assert InsertedAt(s, t, i, key, tail, j);
    }
  }

  lemma InsertedChild(s: Bytes, t: Bytes, i: nat, key: Bytes, tail: Bytes, x: nat)
    requires Validate(s) == Done == Validate(t) && i <= KeyCount(s) < Capacity(s) == Capacity(t) &&
      KeyCount(t) == KeyCount(s) + 1
    requires s[0] == INTERNAL_KIND == t[0] && |tail| == 8 && 0 < x <= KeyCount(t) &&
      InsertedAt(s, t, i, key, tail, x - 1)
    ensures KidsOf(t)[x] == if x <= i then KidsOf(s)[x] else if x == i + 1 then IdAt(tail, 0) else KidsOf(s)[x - 1]
  {
    hide Validate, EntryAt, KeyAt, TailAt, Capacity, IdAt;
    var j := x - 1;
    assert KidsOf(t)[j + 1] == RightChildAt(t, j);
    assert j < i ==> KidsOf(s)[j + 1] == RightChildAt(s, j);
    assert j > i ==> KidsOf(s)[j - 1 + 1] == RightChildAt(s, j - 1);
  }

  lemma InsertedInternal(s: Bytes, t: Bytes, i: nat, key: Bytes, tail: Bytes)
    requires Validate(s) == Done == Validate(t) && i <= KeyCount(s) < Capacity(s) == Capacity(t) &&
      KeyCount(t) == KeyCount(s) + 1
    requires s[0] == INTERNAL_KIND == t[0] && |tail| == 8 && IdAt(s, FIRST_CHILD_OFFSET) == IdAt(t, FIRST_CHILD_OFFSET)
    requires forall j :: 0 <= j <= KeyCount(s) ==> InsertedAt(s, t, i, key, tail, j)
    ensures SepsOf(t) == SepsOf(s)[..i] + [Number(key)] + SepsOf(s)[i..]
    ensures KidsOf(t) == KidsOf(s)[..i + 1] + [IdAt(tail, 0)] + KidsOf(s)[i + 1..]
  {
    hide Validate, InsertedAt, Number, Capacity, IdAt;
    InsertedSeparators(s, t, i, key, tail);
    forall x | 0 <= x < |KidsOf(t)|
      ensures KidsOf(t)[x] == (KidsOf(s)[..i + 1] + [IdAt(tail, 0)] + KidsOf(s)[i + 1..])[x]
    {
      if x > 0 {
        InsertedChild(s, t, i, key, tail, x);
      }
    }
  }

  /** On the typed page, that is insert_entry. */
  lemma InsertedView(s: Bytes, t: Bytes, i: nat, key: Bytes, tail: Bytes)
    requires Validate(s) == Done && |key| == KeySize(s) && |tail| == TailSize(s) && EntryInserted(s, t, i, key + tail)
    ensures Validate(t) == Done && t[0] == s[0]
    ensures s[0] == LEAF_KIND ==> View(t) == LeafWith(View(s), i, Entry(Number(key), tail))
    ensures s[0] == INTERNAL_KIND ==> View(t) == InternalWith(View(s), i, Number(key), IdAt(tail, 0))
  {
    var n := KeyCount(s);
    HeaderFields(s, t, n + 1);
    hide EntryAt, Validate;
    forall j | 0 <= j <= n
      ensures InsertedAt(s, t, i, key, tail, j)
    {
      InsertedEntries(s, t, i, key + tail, j);
    }
    if s[0] == LEAF_KIND {
      InsertedLeaf(s, t, i, key, tail);
    } else {
      InsertedInternal(s, t, i, key, tail);
    }
  }

  function LeafWith(page: Page, i: nat, e: Entry): Page
    requires page.LeafPage? && i <= |page.entries|
  {
    page.(entries := page.entries[..i] + [e] + page.entries[i..])
  }

  function InternalWith(page: Page, i: nat, sep: Key, right: PageId): Page
    requires page.InternalPage? && |page.kids| == |page.seps| + 1 && i <= |page.seps|
  {
    page.(seps := page.seps[..i] + [sep] + page.seps[i..], kids := page.kids[..i + 1] + [right] + page.kids[i + 1..])
  }

  ghost predicate ErasedAt(s: Bytes, t: Bytes, i: nat, j: nat)
    requires Validate(s) == Done == Validate(t) && j + 1 < KeyCount(s) <= Capacity(s) == Capacity(t)
  {
    && KeyAt(t, j) == (if j < i then KeyAt(s, j) else KeyAt(s, j + 1))
    && TailAt(t, j) == (if j < i then TailAt(s, j) else TailAt(s, j + 1))
  }

  lemma ErasedLeaf(s: Bytes, t: Bytes, i: nat)
    requires Validate(s) == Done == Validate(t) && i < KeyCount(s) <= Capacity(s) == Capacity(t) &&
      KeyCount(t) == KeyCount(s) - 1
    requires forall j :: 0 <= j < KeyCount(s) - 1 ==> ErasedAt(s, t, i, j)
    ensures EntriesOf(t) == EntriesOf(s)[..i] + EntriesOf(s)[i + 1..]
  {
    hide KeyCount;
    hide Validate, EntryAt, KeyAt, TailAt, Number, Capacity;
    forall j | 0 <= j < KeyCount(s) - 1
      ensures EntriesOf(t)[j] == (EntriesOf(s)[..i] + EntriesOf(s)[i + 1..])[j]
    {
      assert ErasedAt(s, t, i, j);
    }
  }

  lemma ErasedInternal(s: Bytes, t: Bytes, i: nat)
    requires Validate(s) == Done == Validate(t) && i < KeyCount(s) <= Capacity(s) == Capacity(t) &&
      KeyCount(t) == KeyCount(s) - 1
    requires s[0] == INTERNAL_KIND == t[0] && IdAt(s, FIRST_CHILD_OFFSET) == IdAt(t, FIRST_CHILD_OFFSET)
    requires forall j :: 0 <= j < KeyCount(s) - 1 ==> ErasedAt(s, t, i, j)
    ensures SepsOf(t) == SepsOf(s)[..i] + SepsOf(s)[i + 1..]
    ensures KidsOf(t) == KidsOf(s)[..i + 1] + KidsOf(s)[i + 2..]
  {
    hide Validate, EntryAt, KeyAt, TailAt, Number, Capacity, IdAt;
    forall j | 0 <= j < KeyCount(s) - 1
      ensures SepsOf(t)[j] == (SepsOf(s)[..i] + SepsOf(s)[i + 1..])[j]
    {
      assert ErasedAt(s, t, i, j);
    }
    forall x | 0 <= x < |KidsOf(t)|
      ensures KidsOf(t)[x] == (KidsOf(s)[..i + 1] + KidsOf(s)[i + 2..])[x]
    {
      if x > 0 {
        var j := x - 1;
        assert ErasedAt(s, t, i, j);
        assert KidsOf(t)[j + 1] == RightChildAt(t, j);
        assert j < i ==> KidsOf(s)[j + 1] == RightChildAt(s, j);
        assert j >= i ==> KidsOf(s)[j + 1 + 1] == RightChildAt(s, j + 1);
      }
    }
  }

  /** On the typed page, that is erase_entry. */
  lemma ErasedView(s: Bytes, t: Bytes, i: nat)
    requires Validate(s) == Done && EntryErased(s, t, i)
    ensures Validate(t) == Done && t[0] == s[0]
    ensures s[0] == LEAF_KIND ==> LeafEraseEntry(View(s), i) == Ok(View(t))
    ensures s[0] == INTERNAL_KIND ==> InternalEraseEntry(View(s), i) == Ok(View(t))
  {
    var n := KeyCount(s);
    HeaderFields(s, t, n - 1);
    hide EntryAt, Validate;
    forall j | 0 <= j < n - 1
      ensures ErasedAt(s, t, i, j)
    {
      ErasedEntries(s, t, i, j);
    }
    if s[0] == LEAF_KIND {
      ErasedLeaf(s, t, i);
    } else {
      ErasedInternal(s, t, i);
    }
  }

  // ---- Edits of one entry or one header field ----------------------------------------------

  /** t is s with entry i rewritten to e. */
  ghost predicate EntrySet(s: Bytes, t: Bytes, i: nat, e: Bytes)
    requires Validate(s) == Done
  {
    && i < KeyCount(s) && |t| == PAGE_SIZE && |e| == EntrySize(s) &&
       OffsetOf(EntrySize(s), i) + EntrySize(s) <= PAGE_SIZE
    && Moved(e, t, OffsetOf(EntrySize(s), i), OffsetOf(EntrySize(s), i) + EntrySize(s), OffsetOf(EntrySize(s), i))
    && forall p ::
       0 <= p < PAGE_SIZE && !(OffsetOf(EntrySize(s), i) <= p < OffsetOf(EntrySize(s), i) + EntrySize(s)) ==>
       t[p] == s[p]
  }

  lemma SetHeader(s: Bytes, t: Bytes, i: nat, e: Bytes)
    requires Validate(s) == Done && EntrySet(s, t, i, e)
    ensures Validate(t) == Done && t[0] == s[0] && t[1] == s[1] && EntrySize(t) == EntrySize(s) &&
      KeySize(t) == KeySize(s)
    ensures KeyCount(t) == KeyCount(s)
    ensures forall at :: 4 <= at <= HEADER_SIZE - 8 ==> IdAt(t, at) == IdAt(s, at)
  {
    assert t[..2] == s[..2] && t[4..HEADER_SIZE] == s[4..HEADER_SIZE];
    HeaderFields(s, t, KeyCount(s));
  }

  lemma SetEntries(s: Bytes, t: Bytes, i: nat, e: Bytes, j: nat)
    requires Validate(s) == Done == Validate(t) && EntrySet(s, t, i, e) && EntrySize(t) == EntrySize(s) &&
      j < KeyCount(s)
    ensures EntryAt(t, j) == if j == i then e else EntryAt(s, j)
  {
    var size := EntrySize(s);
    OffsetOrder(size, i, i + 1);
    OffsetOrder(size, j, j + 1);
    if j < i {
      OffsetOrder(size, j, i);
    } else if j > i {
      OffsetOrder(size, i, j);
    }
    hide Validate, OffsetOf;
    assert j != i ==> forall p :: OffsetOf(size, j) <= p < OffsetOf(size, j) + size ==> t[p] == s[p];
  }

  /** On the typed page, that changes one separator. */
  lemma SetKeyView(s: Bytes, t: Bytes, i: nat, key: Bytes)
    requires Validate(s) == Done && s[0] == INTERNAL_KIND && i < KeyCount(s) && |key| == KeySize(s)
    requires EntrySet(s, t, i, key + TailAt(s, i))
    ensures Validate(t) == Done && t[0] == s[0] && InternalSetKeyAt(View(s), i, Number(key)) == Ok(View(t))
  {
    var e := key + TailAt(s, i);
    SetHeader(s, t, i, e);
    hide Validate, EntryAt, EntrySet;
    forall j | 0 <= j < KeyCount(s)
      ensures KeyAt(t, j) == (if j == i then key else KeyAt(s, j)) && TailAt(t, j) == TailAt(s, j)
    {
      SetEntries(s, t, i, e, j);
    }
    assert SepsOf(t) == SepsOf(s)[i := Number(key)];
    assert KidsOf(t) == KidsOf(s) by {
      forall x | 0 <= x < |KidsOf(t)|
        ensures KidsOf(t)[x] == KidsOf(s)[x]
      {
        if x > 0 {
          assert KidsOf(t)[x - 1 + 1] == RightChildAt(t, x - 1) && KidsOf(s)[x - 1 + 1] == RightChildAt(s, x - 1);
        }
      }
    }
  }

  /** On the typed page, that changes one value. */
  lemma SetValueView(s: Bytes, t: Bytes, i: nat, value: Bytes)
    requires Validate(s) == Done && s[0] == LEAF_KIND && i < KeyCount(s) && |value| == TailSize(s)
    requires EntrySet(s, t, i, KeyAt(s, i) + value)
    ensures Validate(t) == Done && t[0] == s[0]
    ensures View(t) == WithValue(View(s), i, value)
  {
    var e := KeyAt(s, i) + value;
    SetHeader(s, t, i, e);
    hide Validate, EntryAt, EntrySet;
    forall j | 0 <= j < KeyCount(s)
      ensures KeyAt(t, j) == KeyAt(s, j) && TailAt(t, j) == (if j == i then value else TailAt(s, j))
    {
      SetEntries(s, t, i, e, j);
    }
    assert EntriesOf(t) == EntriesOf(s)[i := Entry(Number(KeyAt(s, i)), value)];
  }

  function WithValue(page: Page, i: nat, value: Bytes): Page
    requires page.LeafPage? && i < |page.entries|
  {
    page.(entries := page.entries[i := Entry(page.entries[i].key, value)])
  }

  function WithNext(page: Page, id: PageId): Page
    requires page.LeafPage?
  {
    page.(next := id)
  }

  function WithPrevious(page: Page, id: PageId): Page
    requires page.LeafPage?
  {
    page.(prev := id)
  }

  function WithFirstChild(page: Page, id: PageId): Page
    requires page.InternalPage? && page.kids != []
  {
    page.(kids := page.kids[0 := id])
  }

  /** t is s with the page id at offset at set to id. */
  ghost predicate IdSet(s: Bytes, t: Bytes, at: nat, id: PageId)
    requires |s| == PAGE_SIZE && IsPageId(id)
  {
    && at in {PARENT_OFFSET, NEXT_LEAF_OFFSET, PREVIOUS_LEAF_OFFSET, FIRST_CHILD_OFFSET}
    && |t| == PAGE_SIZE && Moved(IdBytes(id), t, at, at + 8, at)
    && forall p :: 0 <= p < PAGE_SIZE && !(at <= p < at + 8) ==> t[p] == s[p]
  }

  lemma SameEntries(s: Bytes, t: Bytes)
    requires Validate(s) == Done == Validate(t) && EntrySize(t) == EntrySize(s) && KeySize(t) == KeySize(s) &&
      KeyCount(t) == KeyCount(s)
    requires forall p :: HEADER_SIZE <= p < PAGE_SIZE ==> t[p] == s[p]
    ensures EntriesOf(t) == EntriesOf(s) && SepsOf(t) == SepsOf(s)
    ensures s[0] == t[0] == INTERNAL_KIND ==> KidsOf(t)[1..] == KidsOf(s)[1..]
  {
    forall i | 0 <= i < KeyCount(s)
      ensures EntryAt(t, i) == EntryAt(s, i)
    {
      OffsetOrder(EntrySize(s), i, i + 1);
      hide Validate, OffsetOf;
    }
    hide Validate, EntryAt;
    if s[0] == INTERNAL_KIND && t[0] == INTERNAL_KIND {
      forall x | 0 < x < |KidsOf(t)|
        ensures KidsOf(t)[x] == KidsOf(s)[x]
      {
        assert KidsOf(t)[x - 1 + 1] == RightChildAt(t, x - 1) && KidsOf(s)[x - 1 + 1] == RightChildAt(s, x - 1);
      }
    }
  }

  lemma IdStored(s: Bytes, t: Bytes, at: nat, id: PageId)
    requires |s| == PAGE_SIZE && IsPageId(id) && IdSet(s, t, at, id)
    ensures IdAt(t, at) == id
  {
    hide IdBytes;
    forall k | 0 <= k < 8
      ensures t[at..at + 8][k] == IdBytes(id)[k]
    {
      assert t[at + k] == IdBytes(id)[at + k - at];
    }
    assert t[at..at + 8] == IdBytes(id) && IdBytes(id)[0..8] == IdBytes(id);
    IdRoundTrip(id);
  }

  /** On the typed page, that changes the one header field. */
  lemma IdSetView(s: Bytes, t: Bytes, at: nat, id: PageId)
    requires Validate(s) == Done && IsPageId(id) && IdSet(s, t, at, id)
    ensures Validate(t) == Done && t[0] == s[0] && t[1] == s[1]
    ensures at == PARENT_OFFSET ==> View(t) == WithHeader(View(s), id, View(s).isRoot)
    ensures at == NEXT_LEAF_OFFSET && s[0] == LEAF_KIND ==> View(t) == WithNext(View(s), id)
    ensures at == PREVIOUS_LEAF_OFFSET && s[0] == LEAF_KIND ==> View(t) == WithPrevious(View(s), id)
    ensures at == FIRST_CHILD_OFFSET && s[0] == INTERNAL_KIND ==> View(t) == WithFirstChild(View(s), id)
  {
    assert t[6..8] == s[6..8] && t[44..64] == s[44..64];
    SameEntries(s, t);
    IdStored(s, t, at, id);
    forall other | other in {PARENT_OFFSET, NEXT_LEAF_OFFSET, PREVIOUS_LEAF_OFFSET, FIRST_CHILD_OFFSET} && other != at
      ensures IdAt(t, other) == IdAt(s, other)
    {
      OtherIdKept(s, t, at, id, other);
    }
    hide Validate, IdAt, EntriesOf, SepsOf;
    if s[0] == INTERNAL_KIND {
      assert KidsOf(t) == [KidsOf(t)[0]] + KidsOf(t)[1..] && KidsOf(s) == [KidsOf(s)[0]] + KidsOf(s)[1..];
    }
  }

  lemma OtherIdKept(s: Bytes, t: Bytes, at: nat, id: PageId, other: nat)
    requires |s| == PAGE_SIZE && IsPageId(id) && IdSet(s, t, at, id)
    requires other in {PARENT_OFFSET, NEXT_LEAF_OFFSET, PREVIOUS_LEAF_OFFSET, FIRST_CHILD_OFFSET} && other != at
    ensures IdAt(t, other) == IdAt(s, other)
  {
    assert t[other..other + 8] == s[other..other + 8];
  }

  lemma RootFlagView(s: Bytes, t: Bytes, isRoot: bool)
    requires Validate(s) == Done && t == s[1 := if isRoot then 1 else 0]
    ensures Validate(t) == Done && t[0] == s[0] && View(t) == WithHeader(View(s), View(s).parent, isRoot)
  {
    assert t[6..8] == s[6..8] && t[44..64] == s[44..64];
    SameEntries(s, t);
    forall at | at in {PARENT_OFFSET, NEXT_LEAF_OFFSET, PREVIOUS_LEAF_OFFSET, FIRST_CHILD_OFFSET}
      ensures IdAt(t, at) == IdAt(s, at)
    {
      assert t[at..at + 8] == s[at..at + 8];
    }
    hide Validate, IdAt, EntriesOf, SepsOf;
    if s[0] == INTERNAL_KIND {
      assert KidsOf(t) == [KidsOf(t)[0]] + KidsOf(t)[1..] && KidsOf(s) == [KidsOf(s)[0]] + KidsOf(s)[1..];
    }
  }

  /** The keys' byte order is the order of the typed page's keys. */
  lemma SortedView(s: Bytes)
    requires Validate(s) == Done
    ensures KeysSorted(s) <==> Sorted(EntriesOf(s))
    ensures KeysSorted(s) <==> Increasing(SepsOf(s))
  {
    forall i, j | 0 <= i < j < KeyCount(s)
      ensures LexLess(KeyAt(s, i), KeyAt(s, j)) <==> EntriesOf(s)[i].key < EntriesOf(s)[j].key
      ensures LexLess(KeyAt(s, i), KeyAt(s, j)) <==> SepsOf(s)[i] < SepsOf(s)[j]
    {
      LexIsNumeric(KeyAt(s, i), KeyAt(s, j));
    }
  }

  ghost predicate KeysSorted(s: Bytes)
    requires Validate(s) == Done
  {
    forall i, j :: 0 <= i < j < KeyCount(s) ==> LexLess(KeyAt(s, i), KeyAt(s, j))
  }
}
