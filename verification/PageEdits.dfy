/** Leaf and internal pages as views over their bytes: searches, and edits in place. */
module PageEdits {
  import opened PageIds
  import opened Bytes
  import opened Status
  import opened Endian
  import opened BTreeShape
  import opened BTreeNodes
  import opened BTreePages
  import opened PageBytes

  // ---- Moving and writing bytes ------------------------------------------------------------

  /** memmove: the ranges may overlap, so the direction of the copy depends on which comes first. */
  method MoveBytes(bytes: array<Byte>, to: nat, from: nat, n: nat)
    requires to + n <= bytes.Length && from + n <= bytes.Length
    modifies bytes
    ensures forall p :: to <= p < to + n ==> bytes[p] == old(bytes[p - to + from])
    ensures forall p :: 0 <= p < bytes.Length && !(to <= p < to + n) ==> bytes[p] == old(bytes[p])
  {
    if to <= from {
      for i := 0 to n
        invariant forall p :: to <= p < to + i ==> bytes[p] == old(bytes[p - to + from])
        invariant forall p :: 0 <= p < bytes.Length && !(to <= p < to + i) ==> bytes[p] == old(bytes[p])
      {
        bytes[to + i] := bytes[from + i];
      }
    } else {
      for i := n downto 0
        invariant forall p :: to + i <= p < to + n ==> bytes[p] == old(bytes[p - to + from])
        invariant forall p :: 0 <= p < bytes.Length && !(to + i <= p < to + n) ==> bytes[p] == old(bytes[p])
      {
        bytes[to + i] := bytes[from + i];
      }
    }
  }

  // ---- Searches ----------------------------------------------------------------------------

  /** find_insertion_position: the first entry whose key is not below the given one. */
  method FindInsertionPosition(s: Bytes, key: Bytes) returns (r: Result<nat>)
    requires Validate(s) == Done && KeysSorted(s)
    ensures r.Err? <==> |key| != KeySize(s)
    ensures r.Err? ==> r.code == InvalidArgument
    ensures r.Ok? ==> r.value <= KeyCount(s)
    ensures r.Ok? ==> forall i :: 0 <= i < r.value ==> LexLess(KeyAt(s, i), key)
    ensures r.Ok? ==> forall i :: r.value <= i < KeyCount(s) ==> !LexLess(KeyAt(s, i), key)
  {
    if |key| != KeySize(s) {
      return Err(InvalidArgument);
    }
    var left, right := 0, KeyCount(s);
    while left < right
      invariant 0 <= left <= right <= KeyCount(s)
      invariant forall i :: 0 <= i < left ==> LexLess(KeyAt(s, i), key)
      invariant forall i :: right <= i < KeyCount(s) ==> !LexLess(KeyAt(s, i), key)
    {
      hide Validate, KeyAt;
      var mid := left + (right - left) / 2;
      if LexLess(KeyAt(s, mid), key) {
        forall i | 0 <= i < mid
          ensures LexLess(KeyAt(s, i), key)
        {
          LexTransitive(KeyAt(s, i), KeyAt(s, mid), key);
        }
        left := mid + 1;
      } else {
        forall i | mid < i < KeyCount(s)
          ensures !LexLess(KeyAt(s, i), key)
        {
          if LexLess(KeyAt(s, i), key) {
            LexTransitive(KeyAt(s, mid), KeyAt(s, i), key);
          }
        }
        right := mid;
      }
    }
    r := Ok(left);
  }

  /** child_index_for_key: the number of separators that are not above the key. */
  method ChildIndexForKey(s: Bytes, key: Bytes) returns (r: Result<nat>)
    requires Validate(s) == Done && KeysSorted(s)
    ensures r.Err? <==> |key| != KeySize(s)
    ensures r.Err? ==> r.code == InvalidArgument
    ensures r.Ok? ==> r.value <= KeyCount(s)
    ensures r.Ok? ==> forall i :: 0 <= i < r.value ==> LexLeq(KeyAt(s, i), key)
    ensures r.Ok? ==> forall i :: r.value <= i < KeyCount(s) ==> LexLess(key, KeyAt(s, i))
  {
    if |key| != KeySize(s) {
      return Err(InvalidArgument);
    }
    var left, right := 0, KeyCount(s);
    while left < right
      invariant 0 <= left <= right <= KeyCount(s)
      invariant forall i :: 0 <= i < left ==> LexLeq(KeyAt(s, i), key)
      invariant forall i :: right <= i < KeyCount(s) ==> LexLess(key, KeyAt(s, i))
    {
      hide Validate, KeyAt;
      var mid := left + (right - left) / 2;
      LexTotal(KeyAt(s, mid), key);
      if LexLeq(KeyAt(s, mid), key) {
        forall i | 0 <= i < mid
          ensures LexLeq(KeyAt(s, i), key)
        {
          if KeyAt(s, mid) != key {
            LexTransitive(KeyAt(s, i), KeyAt(s, mid), key);
          }
        }
        left := mid + 1;
      } else {
        forall i | mid < i < KeyCount(s)
          ensures LexLess(key, KeyAt(s, i))
        {
          LexTransitive(key, KeyAt(s, mid), KeyAt(s, i));
        }
        right := mid;
      }
    }
    r := Ok(left);
  }

  // ---- Edits of the bytes ------------------------------------------------------------------

  /** The checks of insert_entry. */
  function InsertCheck(s: Bytes, i: nat, key: Bytes, tail: Bytes): (r: Outcome)
    requires Validate(s) == Done
    ensures r == Done ==> i <= KeyCount(s) < Capacity(s) && |key| == KeySize(s) && |tail| == TailSize(s)
  {
    var n := KeyCount(s);
    if i > n then Failed(InvalidArgument)
    else if |key| != KeySize(s) then Failed(InvalidArgument)
    else if |tail| != TailSize(s) then Failed(InvalidArgument)
    else if n >= Capacity(s) then Failed(InvalidArgument)
    else if i > 0 && LexLess(key, KeyAt(s, i - 1)) then Failed(InvalidArgument)
    else if i < n && LexLess(KeyAt(s, i), key) then Failed(InvalidArgument)
    else Done
  }

  method SetKeyCount(bytes: array<Byte>, n: nat)
    requires bytes.Length == PAGE_SIZE && n <= ENTRY_AREA_SIZE
    modifies bytes
    ensures KeyCount(bytes[..]) == n
    ensures forall p :: 0 <= p < PAGE_SIZE && p != 2 && p != 3 ==> bytes[p] == old(bytes[p])
  {
    bytes[KEY_COUNT_OFFSET] := n % 256;
    bytes[KEY_COUNT_OFFSET + 1] := n / 256;
  }

  method InsertBytes(bytes: array<Byte>, i: nat, key: Bytes, tail: Bytes) returns (r: Outcome)
    requires Validate(bytes[..]) == Done
    modifies bytes
    ensures r == InsertCheck(old(bytes[..]), i, key, tail)
    ensures r == Done ==> EntryInserted(old(bytes[..]), bytes[..], i, key + tail)
    ensures r != Done ==> bytes[..] == old(bytes[..])
  {
    ghost var s := bytes[..];
    r := InsertCheck(bytes[..], i, key, tail);
    if r != Done {
      return;
    }
    var n, size := KeyCount(bytes[..]), EntrySize(bytes[..]);
    CountBound(s);
    OffsetOrder(size, i, n);
    OffsetOrder(size, n, n + 1);
    var at, end := OffsetOf(size, i), OffsetOf(size, n);
    hide Validate, OffsetOf, InsertCheck;
    MoveBytes(bytes, at + size, at, end - at);
    WriteBytes(bytes, at, key);
    WriteBytes(bytes, at + |key|, tail);
    SetKeyCount(bytes, n + 1);
  }

  lemma CountBound(s: Bytes)
    requires Validate(s) == Done
    ensures KeyCount(s) <= Capacity(s) <= ENTRY_AREA_SIZE
  {
    hide Validate;
    Quotient(ENTRY_AREA_SIZE, EntrySize(s));
  }

  lemma Quotient(a: nat, b: nat)
    requires b > 0
    ensures a / b <= a
  {
    AtLeastOnce(a / b, b);
    assert a == (a / b) * b + a % b;
  }

  lemma {:induction false} AtLeastOnce(q: nat, b: nat)
    requires b > 0
    ensures q <= q * b
  {
    if b > 1 {
      AtLeastOnce(q, b - 1);
      assert q * b == q * (b - 1) + q;
    }
  }

  method EraseBytes(bytes: array<Byte>, i: nat) returns (r: Outcome)
    requires Validate(bytes[..]) == Done
    modifies bytes
    ensures r == if i < KeyCount(old(bytes[..])) then Done else Failed(InvalidArgument)
    ensures r == Done ==> EntryErased(old(bytes[..]), bytes[..], i)
    ensures r != Done ==> bytes[..] == old(bytes[..])
  {
    ghost var s := bytes[..];
    var n, size := KeyCount(bytes[..]), EntrySize(bytes[..]);
    if i >= n {
      return Failed(InvalidArgument);
    }
    CountBound(s);
    OffsetOrder(size, i, n);
    OffsetOrder(size, n - 1, n);
    var at, end := OffsetOf(size, i), OffsetOf(size, n);
    hide Validate, OffsetOf;
    MoveBytes(bytes, at, at + size, end - at - size);
    SetKeyCount(bytes, n - 1);
    r := Done;
  }

  /** The neighbours' keys compare as their numbers do, so the two layers check the same. */
  lemma ChecksAgree(s: Bytes, i: nat, key: Bytes, tail: Bytes)
    requires Validate(s) == Done && |key| == KeySize(s) && |tail| == TailSize(s)
    ensures s[0] == LEAF_KIND ==>
      LeafInsertEntry(CapsOf(s), View(s), i, Entry(Number(key), tail)) ==
      if InsertCheck(s, i, key, tail) == Done then Ok(LeafWith(View(s), i, Entry(Number(key), tail)))
        else Err(InvalidArgument)
    ensures s[0] == INTERNAL_KIND ==>
      InternalInsertEntry(CapsOf(s), View(s), i, Number(key), IdAt(tail, 0)) ==
      if InsertCheck(s, i, key, tail) == Done then Ok(InternalWith(View(s), i, Number(key), IdAt(tail, 0)))
        else Err(InvalidArgument)
  {
    if i <= KeyCount(s) < Capacity(s) {
      if i > 0 {
        LexIsNumeric(key, KeyAt(s, i - 1));
      }
      if i < KeyCount(s) {
        LexIsNumeric(KeyAt(s, i), key);
      }
    }
  }

  /** memcpy into entry i at offset skip of the entry. */
  method WriteEntry(bytes: array<Byte>, i: nat, skip: nat, x: Bytes)
    requires Validate(bytes[..]) == Done && i < KeyCount(bytes[..]) && skip + |x| <= EntrySize(bytes[..])
    modifies bytes
    ensures
      var s := old(bytes[..]);
      EntrySet(s, bytes[..], i, EntryAt(s, i)[..skip] + x + EntryAt(s, i)[skip + |x|..])
  {
    var size := EntrySize(bytes[..]);
    OffsetOrder(size, i, i + 1);
    var at := OffsetOf(size, i);
    hide Validate, OffsetOf;
    WriteBytes(bytes, at + skip, x);
  }

  /** set_parent_page_id and the setters of the other ids. */
  method SetPageId(bytes: array<Byte>, at: nat, id: PageId)
    requires bytes.Length == PAGE_SIZE && IsPageId(id)
    requires at in {PARENT_OFFSET, NEXT_LEAF_OFFSET, PREVIOUS_LEAF_OFFSET, FIRST_CHILD_OFFSET}
    modifies bytes
    ensures IdSet(old(bytes[..]), bytes[..], at, id)
  {
    hide IdBytes;
    WriteBytes(bytes, at, IdBytes(id));
  }

  /** set_root. */
  method SetRootFlag(bytes: array<Byte>, isRoot: bool)
    requires Validate(bytes[..]) == Done
    modifies bytes
    ensures Validate(bytes[..]) == Done && bytes[0] == old(bytes[0])
    ensures View(bytes[..]) == WithHeader(old(View(bytes[..])), old(View(bytes[..])).parent, isRoot)
  {
    ghost var s := bytes[..];
    bytes[1] := if isRoot then 1 else 0;
    RootFlagView(s, bytes[..], isRoot);
  }

  // ---- New pages ---------------------------------------------------------------------------

  predicate CanInitialize(length: nat, kind: Byte, keySize: nat, valueSize: nat) {
    && length == PAGE_SIZE && keySize > 0 && valueSize > 0
    && (if kind == LEAF_KIND then ENTRY_AREA_SIZE / (keySize + valueSize) >= 1
        else ENTRY_AREA_SIZE / (keySize + 8) >= 2)
  }

  function EmptyPage(kind: Byte): Page {
    if kind == LEAF_KIND then LeafPage(false, INVALID_PAGE_ID, INVALID_PAGE_ID, INVALID_PAGE_ID, [])
    else InternalPage(false, INVALID_PAGE_ID, [], [INVALID_PAGE_ID])
  }

  /** What initialize_leaf and initialize_internal write. */
  ghost predicate Blank(s: Bytes, kind: Byte, keySize: nat, valueSize: nat) {
    && |s| == PAGE_SIZE && s[0] == kind && s[1] == 0 && KeyCount(s) == 0 && U16(s, HEADER_SIZE_OFFSET) == HEADER_SIZE
    && AllZero(s[6..8]) && AllZero(s[44..64]) && KeySize(s) == keySize && U16(s, VALUE_SIZE_OFFSET) == valueSize
    && forall p :: PARENT_OFFSET <= p < KEY_SIZE_OFFSET ==> s[p] == 255
  }

  lemma BlankView(s: Bytes, kind: Byte, keySize: nat, valueSize: nat)
    requires Blank(s, kind, keySize, valueSize) && CanInitialize(|s|, kind, keySize, valueSize) &&
      kind in {INTERNAL_KIND, LEAF_KIND}
    ensures Validate(s) == Done && View(s) == EmptyPage(kind)
  {
    forall at | at in {PARENT_OFFSET, NEXT_LEAF_OFFSET, PREVIOUS_LEAF_OFFSET, FIRST_CHILD_OFFSET}
      ensures IdAt(s, at) == INVALID_PAGE_ID
    {
      AllOnes(s[at..at + 8]);
    }
    assert Validate(s) == Done;
    hide Validate, IdAt;
    if kind == LEAF_KIND {
      assert EntriesOf(s) == [];
    } else {
      assert SepsOf(s) == [] && KidsOf(s) == [IdAt(s, FIRST_CHILD_OFFSET)];
    }
  }

  lemma AllOnes(s: Bytes)
    requires |s| == 8 && forall i :: 0 <= i < 8 ==> s[i] == 255
    ensures LittleNumber(s) == NO_ID
  {
    assert LittleNumber(s[8..]) == 0;
    assert s[7..][1..] == s[8..] && LittleNumber(s[7..]) == 0xFF;
    assert s[6..][1..] == s[7..] && LittleNumber(s[6..]) == 0xFFFF;
    assert s[5..][1..] == s[6..] && LittleNumber(s[5..]) == 0xFF_FFFF;
    assert s[4..][1..] == s[5..] && LittleNumber(s[4..]) == 0xFFFF_FFFF;
    assert s[3..][1..] == s[4..] && LittleNumber(s[3..]) == 0xFF_FFFF_FFFF;
    assert s[2..][1..] == s[3..] && LittleNumber(s[2..]) == 0xFFFF_FFFF_FFFF;
    assert s[1..][1..] == s[2..] && LittleNumber(s[1..]) == 0xFF_FFFF_FFFF_FFFF;
  }

  /** initialize_leaf and initialize_internal. */
  method Initialize(bytes: array<Byte>, kind: Byte, keySize: nat, valueSize: nat) returns (r: Outcome)
    requires kind in {INTERNAL_KIND, LEAF_KIND} && keySize < 0x1_0000 && valueSize < 0x1_0000
    modifies bytes
    ensures r == if CanInitialize(bytes.Length, kind, keySize, valueSize) then Done else Failed(InvalidArgument)
    ensures r == Done ==> Validate(bytes[..]) == Done && View(bytes[..]) == EmptyPage(kind)
    ensures r == Done ==> KeySize(bytes[..]) == keySize && (kind == LEAF_KIND ==> TailSize(bytes[..]) == valueSize)
    ensures r != Done ==> bytes[..] == old(bytes[..])
  {
    if !CanInitialize(bytes.Length, kind, keySize, valueSize) {
      return Failed(InvalidArgument);
    }
    for i := 0 to bytes.Length
      invariant forall p :: 0 <= p < i ==> bytes[p] == 0
    {
      bytes[i] := 0;
    }
    bytes[0] := kind;
    bytes[HEADER_SIZE_OFFSET] := HEADER_SIZE;
    WriteBytes(bytes, PARENT_OFFSET, seq(32, _ => 255));
    bytes[KEY_SIZE_OFFSET], bytes[KEY_SIZE_OFFSET + 1] := keySize % 256, keySize / 256;
    bytes[VALUE_SIZE_OFFSET], bytes[VALUE_SIZE_OFFSET + 1] := valueSize % 256, valueSize / 256;
    BlankView(bytes[..], kind, keySize, valueSize);
    r := Done;
  }

  /** A leaf page over its bytes. */
  class BTreeLeafPage {
    const bytes: array<Byte>

    ghost predicate Valid()
      reads bytes
    {
      Validate(bytes[..]) == Done && bytes[0] == LEAF_KIND
    }

    ghost function Page(): (page: Page)
      requires Valid()
      reads bytes
      ensures page.LeafPage?
    {
      View(bytes[..])
    }

    /** Opens the page unless it fails validation or is not a leaf. */
    static predicate CanOpen(s: Bytes) {
      Validate(s) == Done && s[0] == LEAF_KIND
    }

    constructor (bytes: array<Byte>)
      requires CanOpen(bytes[..])
      ensures Valid() && this.bytes == bytes
    {
      this.bytes := bytes;
    }

    /** The place where the typed page's sorted entries take the key. */
    method FindPosition(key: Bytes) returns (r: Result<nat>)
      requires Valid() && Sorted(Page().entries)
      ensures r.Err? <==> |key| != KeySize(bytes[..])
      ensures r.Err? ==> r.code == InvalidArgument
      ensures r.Ok? ==> r.value <= |Page().entries|
      ensures r.Ok? ==> forall i :: 0 <= i < r.value ==> Page().entries[i].key < Number(key)
      ensures r.Ok? ==> forall i :: r.value <= i < |Page().entries| ==> Number(key) <= Page().entries[i].key
    {
      ghost var s := bytes[..];
      SortedView(s);
      r := FindInsertionPosition(bytes[..], key);
      if r.Ok? {
        hide Validate;
        forall i | 0 <= i < KeyCount(s)
          ensures LexLess(KeyAt(s, i), key) <==> Page().entries[i].key < Number(key)
        {
          LexIsNumeric(KeyAt(s, i), key);
        }
      }
    }

    /** insert_entry is the typed page's LeafInsertEntry. */
    method InsertEntry(i: nat, key: Bytes, value: Bytes) returns (r: Outcome)
      requires Valid()
      modifies bytes
      ensures Valid()
      ensures |key| != KeySize(old(bytes[..])) || |value| != TailSize(old(bytes[..])) ==> r == Failed(InvalidArgument)
      ensures |key| == KeySize(old(bytes[..])) && |value| == TailSize(old(bytes[..])) ==>
        LeafInsertEntry(CapsOf(old(bytes[..])), old(Page()), i, Entry(Number(key), value)) ==
          if r == Done then Ok(Page()) else Err(InvalidArgument)
      ensures r != Done ==> r == Failed(InvalidArgument) && bytes[..] == old(bytes[..])
    {
      ghost var s := bytes[..];
      if |key| == KeySize(s) && |value| == TailSize(s) {
        ChecksAgree(s, i, key, value);
      }
      r := InsertBytes(bytes, i, key, value);
      if r == Done {
        InsertedView(s, bytes[..], i, key, value);
      }
    }

    /** erase_entry is the typed page's LeafEraseEntry. */
    method EraseEntry(i: nat) returns (r: Outcome)
      requires Valid()
      modifies bytes
      ensures Valid()
      ensures LeafEraseEntry(old(Page()), i) == if r == Done then Ok(Page()) else Err(InvalidArgument)
      ensures r != Done ==> r == Failed(InvalidArgument) && bytes[..] == old(bytes[..])
    {
      ghost var s := bytes[..];
      r := EraseBytes(bytes, i);
      if r == Done {
        ErasedView(s, bytes[..], i);
      }
    }

    /** update_value changes the value stored under a present key. */
    method UpdateValue(key: Bytes, value: Bytes) returns (r: Outcome)
      requires Valid() && Sorted(Page().entries)
      modifies bytes
      ensures Valid()
      ensures |key| != KeySize(old(bytes[..])) || |value| != TailSize(old(bytes[..])) ==> r == Failed(InvalidArgument)
      ensures |key| == KeySize(old(bytes[..])) && |value| == TailSize(old(bytes[..])) ==>
        if r == Done then
          exists i :: 0 <= i < |old(Page()).entries| && old(Page()).entries[i].key == Number(key) &&
            Page() == WithValue(old(Page()), i, value)
        else
          r == Failed(NotFound) && forall i :: 0 <= i < |old(Page()).entries| ==>
            old(Page()).entries[i].key != Number(key)
      ensures r != Done ==> bytes[..] == old(bytes[..])
    {
      ghost var s := bytes[..];
      if |key| != KeySize(bytes[..]) || |value| != TailSize(bytes[..]) {
        return Failed(InvalidArgument);
      }
      var position := FindPosition(key);
      var i := position.value;
      if i == KeyCount(bytes[..]) {
        return Failed(NotFound);
      }
      LexIsNumeric(KeyAt(s, i), key);
      assert Page().entries[i].key == Number(KeyAt(s, i));
      if KeyAt(bytes[..], i) != key {
        return Failed(NotFound);
      }
      WriteEntry(bytes, i, KeySize(bytes[..]), value);
      EntryParts(s, i, value);
      SetValueView(s, bytes[..], i, value);
      r := Done;
    }

    method SetNextLeafPageId(id: PageId)
      requires Valid() && IsPageId(id)
      modifies bytes
      ensures Valid() && Page() == WithNext(old(Page()), id)
    {
      ghost var s := bytes[..];
      SetPageId(bytes, NEXT_LEAF_OFFSET, id);
      IdSetView(s, bytes[..], NEXT_LEAF_OFFSET, id);
    }

    method SetPreviousLeafPageId(id: PageId)
      requires Valid() && IsPageId(id)
      modifies bytes
      ensures Valid() && Page() == WithPrevious(old(Page()), id)
    {
      ghost var s := bytes[..];
      SetPageId(bytes, PREVIOUS_LEAF_OFFSET, id);
      IdSetView(s, bytes[..], PREVIOUS_LEAF_OFFSET, id);
    }

    method SetParentPageId(id: PageId)
      requires Valid() && IsPageId(id)
      modifies bytes
      ensures Valid() && Page() == WithHeader(old(Page()), id, old(Page()).isRoot)
    {
      ghost var s := bytes[..];
      SetPageId(bytes, PARENT_OFFSET, id);
      IdSetView(s, bytes[..], PARENT_OFFSET, id);
    }
  }

  lemma EntryParts(s: Bytes, i: nat, value: Bytes)
    requires Validate(s) == Done && i < KeyCount(s) && |value| == TailSize(s)
    ensures EntryAt(s, i)[..KeySize(s)] + value + EntryAt(s, i)[KeySize(s) + |value|..] == KeyAt(s, i) + value
  {
  }

  /** An internal page over its bytes. */
  class BTreeInternalPage {
    const bytes: array<Byte>

    ghost predicate Valid()
      reads bytes
    {
      Validate(bytes[..]) == Done && bytes[0] == INTERNAL_KIND
    }

    ghost function Page(): (page: Page)
      requires Valid()
      reads bytes
      ensures page.InternalPage? && |page.kids| == |page.seps| + 1
    {
      View(bytes[..])
    }

    static predicate CanOpen(s: Bytes) {
      Validate(s) == Done && s[0] == INTERNAL_KIND
    }

    constructor (bytes: array<Byte>)
      requires CanOpen(bytes[..])
      ensures Valid() && this.bytes == bytes
    {
      this.bytes := bytes;
    }

    /** child_page_id_for_key follows the child that the typed page routes the key to. */
    method ChildPageIdForKey(key: Bytes) returns (r: Result<PageId>, ghost i: nat)
      requires Valid() && Increasing(Page().seps)
      ensures r.Err? <==> |key| != KeySize(bytes[..])
      ensures r.Err? ==> r.code == InvalidArgument
      ensures r.Ok? ==> Routed(Page().seps, Number(key), i) && r.value == Page().kids[i]
    {
      ghost var s := bytes[..];
      SortedView(s);
      i := 0;
      var index := ChildIndexForKey(bytes[..], key);
      if index.Err? {
        return Err(index.code), 0;
      }
      i := index.value;
      hide Validate;
      forall j | 0 <= j < KeyCount(s)
        ensures LexLess(KeyAt(s, j), key) <==> Page().seps[j] < Number(key)
        ensures LexLess(key, KeyAt(s, j)) <==> Number(key) < Page().seps[j]
        ensures KeyAt(s, j) == key ==> Page().seps[j] == Number(key)
      {
        LexIsNumeric(KeyAt(s, j), key);
        LexIsNumeric(key, KeyAt(s, j));
      }
      if index.value == 0 {
        return Ok(IdAt(bytes[..], FIRST_CHILD_OFFSET)), 0;
      }
      assert KidsOf(s)[index.value - 1 + 1] == RightChildAt(s, index.value - 1);
      r := Ok(RightChildAt(bytes[..], index.value - 1));
    }

    /** insert_entry is the typed page's InternalInsertEntry. */
    method InsertEntry(i: nat, key: Bytes, right: PageId) returns (r: Outcome)
      requires Valid() && IsPageId(right)
      modifies bytes
      ensures Valid()
      ensures |key| != KeySize(old(bytes[..])) ==> r == Failed(InvalidArgument)
      ensures |key| == KeySize(old(bytes[..])) ==>
        InternalInsertEntry(CapsOf(old(bytes[..])), old(Page()), i, Number(key), right) ==
          if r == Done then Ok(Page()) else Err(InvalidArgument)
      ensures r != Done ==> r == Failed(InvalidArgument) && bytes[..] == old(bytes[..])
    {
      ghost var s := bytes[..];
      IdRoundTrip(right);
      if |key| == KeySize(s) {
        ChecksAgree(s, i, key, IdBytes(right));
      }
      r := InsertBytes(bytes, i, key, IdBytes(right));
      if r == Done {
        InsertedView(s, bytes[..], i, key, IdBytes(right));
      }
    }

    /** erase_entry is the typed page's InternalEraseEntry. */
    method EraseEntry(i: nat) returns (r: Outcome)
      requires Valid()
      modifies bytes
      ensures Valid()
      ensures InternalEraseEntry(old(Page()), i) == if r == Done then Ok(Page()) else Err(InvalidArgument)
      ensures r != Done ==> r == Failed(InvalidArgument) && bytes[..] == old(bytes[..])
    {
      ghost var s := bytes[..];
      r := EraseBytes(bytes, i);
      if r == Done {
        ErasedView(s, bytes[..], i);
      }
    }

    /** set_key_at is the typed page's InternalSetKeyAt. */
    method SetKeyAt(i: nat, key: Bytes) returns (r: Outcome)
      requires Valid()
      modifies bytes
      ensures Valid()
      ensures |key| == KeySize(old(bytes[..])) ==>
        InternalSetKeyAt(old(Page()), i, Number(key)) == if r == Done then Ok(Page()) else Err(InvalidArgument)
      ensures |key| != KeySize(old(bytes[..])) ==> r == Failed(InvalidArgument)
      ensures r != Done ==> r == Failed(InvalidArgument) && bytes[..] == old(bytes[..])
    {
      ghost var s := bytes[..];
      if i >= KeyCount(bytes[..]) || |key| != KeySize(bytes[..]) {
        return Failed(InvalidArgument);
      }
      WriteEntry(bytes, i, 0, key);
      assert EntryAt(s, i)[..0] + key + EntryAt(s, i)[0 + |key|..] == key + TailAt(s, i);
      SetKeyView(s, bytes[..], i, key);
      r := Done;
    }

    method SetFirstChildPageId(id: PageId)
      requires Valid() && IsPageId(id)
      modifies bytes
      ensures Valid() && Page() == WithFirstChild(old(Page()), id)
    {
      ghost var s := bytes[..];
      SetPageId(bytes, FIRST_CHILD_OFFSET, id);
      IdSetView(s, bytes[..], FIRST_CHILD_OFFSET, id);
    }

    method SetParentPageId(id: PageId)
      requires Valid() && IsPageId(id)
      modifies bytes
      ensures Valid() && Page() == WithHeader(old(Page()), id, old(Page()).isRoot)
    {
      ghost var s := bytes[..];
      SetPageId(bytes, PARENT_OFFSET, id);
      IdSetView(s, bytes[..], PARENT_OFFSET, id);
    }
  }
}
