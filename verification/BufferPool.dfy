/** The buffer pool: a fixed set of frames that cache pages, with pin counts and dirty flags. */
module BufferPool {
  import opened Sets
  import opened PageIds
  import opened PageImages
  import opened Status
  import opened LRUReplacers

  datatype BufferFrame = BufferFrame(page: PageId, image: Image, pinCount: nat, dirty: bool)

  /** A frame after reset(). */
  function EmptyFrame(): BufferFrame {
    BufferFrame(INVALID_PAGE_ID, ZeroPage(), 0, false)
  }

  /** What the pool holds of one page. */
  datatype Slot = Slot(image: Image, pinCount: nat, dirty: bool)

  ghost function SlotOf(f: BufferFrame): Slot {
    Slot(f.image, f.pinCount, f.dirty)
  }

  ghost function Pinned(s: Slot): Slot {
    s.(pinCount := s.pinCount + 1)
  }

  ghost function Released(s: Slot, dirty: bool): Slot
    requires s.pinCount > 0
  {
    s.(pinCount := s.pinCount - 1, dirty := s.dirty || dirty)
  }

  ghost predicate Evictable(f: BufferFrame) {
    f.pinCount == 0 && !f.dirty
  }

  /** Free frames and mapped frames partition the frames, the page table is injective and agrees with
      the frames, and the evictable frames are exactly the cached, unpinned, clean ones. */
  ghost predicate PoolOk(free: seq<nat>, frames: seq<BufferFrame>, table: map<PageId, nat>, evictable: set<nat>) {
    && NoDuplicates(free)
    && (forall f: nat :: f in free ==> f < |frames| && frames[f] == EmptyFrame())
    && (forall p :: p in table ==> p != INVALID_PAGE_ID && table[p] < |frames| && frames[table[p]].page == p)
    && (forall f: nat :: f < |frames| && f !in free ==> frames[f].page in table && table[frames[f].page] == f)
    && (forall f: nat :: f in evictable <==> f < |frames| && f !in free && Evictable(frames[f]))
  }

  /** The cached pages with what is held of each. */
  ghost function CachedIn(frames: seq<BufferFrame>, table: map<PageId, nat>): (m: map<PageId, Slot>)
    requires forall p :: p in table ==> table[p] < |frames|
    ensures m.Keys == table.Keys && forall p :: p in table ==> m[p] == SlotOf(frames[table[p]])
  {
    map p | p in table :: SlotOf(frames[table[p]])
  }

  /** Changing the frame of a cached page changes that page's slot only. */
  lemma SlotEdited(free: seq<nat>, frames: seq<BufferFrame>, table: map<PageId, nat>, evictable: set<nat>, p: PageId,
                   frame: BufferFrame, after: set<nat>)
    requires PoolOk(free, frames, table, evictable) && p in table && frame.page == p
    requires after == if Evictable(frame) then evictable + {table[p]} else evictable - {table[p]}
    ensures PoolOk(free, frames[table[p] := frame], table, after)
    ensures CachedIn(frames[table[p] := frame], table) == CachedIn(frames, table)[p := SlotOf(frame)]
  {
    assert p != INVALID_PAGE_ID && table[p] !in free;
    var m := CachedIn(frames[table[p] := frame], table);
    assert m.Keys == CachedIn(frames, table)[p := SlotOf(frame)].Keys;
    forall q | q in m ensures m[q] == CachedIn(frames, table)[p := SlotOf(frame)][q] {
      assert q != p ==> table[q] != table[p];
    }
  }

  /** Giving frame f, free or evictable, to a page that is not cached. */
  lemma SlotFilled(free: seq<nat>, frames: seq<BufferFrame>, table: map<PageId, nat>, evictable: set<nat>, f: nat,
                   frame: BufferFrame)
    requires f < |frames| && NoDuplicates(free) && (f in free || f in evictable)
    requires PoolOk(free, frames, table, evictable) && frame.page !in table && frame.page != INVALID_PAGE_ID &&
      !Evictable(frame)
    ensures PoolOk(Without(free, f), frames[f := frame], (table - {frames[f].page})[frame.page := f], evictable - {f})
    ensures Evicted(CachedIn(frames, table), frames[f].page, frame.page, SlotOf(frame),
                    CachedIn(frames[f := frame], (table - {frames[f].page})[frame.page := f]))
  {
    CachedFilled(free, frames, table, evictable, f, frame);
    hide CachedIn, Evicted;
  }

  lemma CachedFilled(free: seq<nat>, frames: seq<BufferFrame>, table: map<PageId, nat>, evictable: set<nat>, f: nat,
                     frame: BufferFrame)
    requires f < |frames| && (f in free || f in evictable)
    requires PoolOk(free, frames, table, evictable) && frame.page !in table && frame.page != INVALID_PAGE_ID &&
      !Evictable(frame)
    ensures Evicted(CachedIn(frames, table), frames[f].page, frame.page, SlotOf(frame),
                    CachedIn(frames[f := frame], (table - {frames[f].page})[frame.page := f]))
  {
    assert f in free ==> frames[f].page !in table;
    var m := CachedIn(frames[f := frame], (table - {frames[f].page})[frame.page := f]);
    var expected := (CachedIn(frames, table) - {frames[f].page})[frame.page := SlotOf(frame)];
    assert m.Keys == expected.Keys;
    forall q | q in m ensures m[q] == expected[q] {
      assert q != frame.page ==> table[q] != f;
    }
  }

  /** Emptying the frame of a cached page. */
  lemma SlotEmptied(free: seq<nat>, frames: seq<BufferFrame>, table: map<PageId, nat>, evictable: set<nat>, p: PageId)
    requires PoolOk(free, frames, table, evictable) && p in table
    ensures PoolOk(free + [table[p]], frames[table[p] := EmptyFrame()], table - {p}, evictable - {table[p]})
    ensures CachedIn(frames[table[p] := EmptyFrame()], table - {p}) == CachedIn(frames, table) - {p}
  {
    assert p != INVALID_PAGE_ID && table[p] !in free;
    AppendedFresh(free, table[p]);
    CachedEmptied(free, frames, table, evictable, p);
    hide CachedIn;
  }

  lemma CachedEmptied(free: seq<nat>, frames: seq<BufferFrame>, table: map<PageId, nat>, evictable: set<nat>, p: PageId)
    requires PoolOk(free, frames, table, evictable) && p in table
    ensures CachedIn(frames[table[p] := EmptyFrame()], table - {p}) == CachedIn(frames, table) - {p}
  {
    var m := CachedIn(frames[table[p] := EmptyFrame()], table - {p});
    assert m.Keys == (CachedIn(frames, table) - {p}).Keys;
    forall q | q in m ensures m[q] == CachedIn(frames, table)[q] {
      assert table[q] != table[p];
    }
  }

  /** after is before with page added; victim is the only page that may be gone, and only if it was
      neither pinned nor dirty. */
  ghost predicate Evicted(before: map<PageId, Slot>, victim: PageId, page: PageId, slot: Slot,
                          after: map<PageId, Slot>) {
    && (victim in before ==> before[victim].pinCount == 0 && !before[victim].dirty)
    && after == (before - {victim})[page := slot]
  }

  lemma AppendedFresh(s: seq<nat>, x: nat)
    requires NoDuplicates(s) && x !in s
    ensures NoDuplicates(s + [x])
  {
  }

  class BufferPoolManager {
    const capacity: nat
    var freeFrameIds: seq<nat>
    var frames: seq<BufferFrame>
    var pageFrames: map<PageId, nat>
    const lru: LRUReplacer

    ghost predicate Valid()
      reads this, lru
    {
      var valid := lru.Valid() && lru.capacity == capacity && |frames| == capacity &&
        PoolOk(freeFrameIds, frames, pageFrames, lru.positions);
      valid
    }

    ghost function Cached(): (m: map<PageId, Slot>)
      requires Valid()
      reads this, lru
      ensures m.Keys == pageFrames.Keys
    {
      CachedIn(frames, pageFrames)
    }

    constructor (capacity: nat)
      ensures Valid() && this.capacity == capacity && fresh(lru)
      ensures Cached() == map[]
    {
      this.capacity := capacity;
      freeFrameIds := seq(capacity, i requires 0 <= i => i);
      frames := seq(capacity, _ => EmptyFrame());
      pageFrames := map[];
      lru := new LRUReplacer(capacity);
      new;
      forall f | 0 <= f < capacity ensures f in freeFrameIds {
        assert freeFrameIds[f] == f;
      }
    }

    lemma MappedFrame(page: PageId)
      requires Valid() && page in pageFrames
      ensures pageFrames[page] < |frames| && frames[pageFrames[page]].page == page != INVALID_PAGE_ID
      ensures SlotOf(frames[pageFrames[page]]) == Cached()[page]
    {
    }

    method PinPage(page: PageId) returns (r: Outcome)
      requires Valid()
      modifies this, lru
      ensures Valid()
      ensures r == (if page == INVALID_PAGE_ID then Failed(InvalidArgument)
                    else if page !in old(Cached()) then Failed(NotFound) else Done)
      ensures r.Failed? ==> unchanged(this) && unchanged(lru)
      ensures r.Done? ==> Cached() == old(Cached())[page := Pinned(old(Cached())[page])]
    {
      hide PoolOk;
      if page == INVALID_PAGE_ID {
        return Failed(InvalidArgument);
      }
      if page !in pageFrames {
        return Failed(NotFound);
      }
      MappedFrame(page);
      var f := pageFrames[page];
      var marked := lru.MarkNonEvictable(f);
      assert marked.Done?;
      var frame := frames[f].(pinCount := frames[f].pinCount + 1);
      assert lru.positions == old(lru.positions) - {f};
      SlotEdited(freeFrameIds, frames, pageFrames, old(lru.positions), page, frame, lru.positions);
      frames := frames[f := frame];
      r := Done;
    }

    method UnpinPage(page: PageId, dirty: bool) returns (r: Outcome)
      requires Valid()
      modifies this, lru
      ensures Valid()
      ensures r == (if page == INVALID_PAGE_ID then Failed(InvalidArgument)
                    else if page !in old(Cached()) then Failed(NotFound)
                    else if old(Cached())[page].pinCount == 0 then Failed(InternalError) else Done)
      ensures r.Failed? ==> unchanged(this) && unchanged(lru)
      ensures r.Done? ==> Cached() == old(Cached())[page := Released(old(Cached())[page], dirty)]
    {
      if page == INVALID_PAGE_ID {
        return Failed(InvalidArgument);
      }
      if page !in pageFrames {
        return Failed(NotFound);
      }
      var f := pageFrames[page];
      assert SlotOf(frames[f]) == Cached()[page];
      if frames[f].pinCount == 0 {
        return Failed(InternalError);
      }
      assert f !in lru.positions;
      var frame := frames[f].(pinCount := frames[f].pinCount - 1, dirty := frames[f].dirty || dirty);
      ghost var before := frames;
      frames := frames[f := frame];
      if frames[f].pinCount == 0 && !frames[f].dirty {
        var marked := lru.MarkEvictable(f);
        assert marked.Done? && lru.positions == old(lru.positions) + {f};
      } else {
        assert lru.positions == old(lru.positions) - {f};
      }
      SlotEdited(freeFrameIds, before, pageFrames, old(lru.positions), page, frame, lru.positions);
      assert SlotOf(frame) == Released(SlotOf(before[f]), dirty);
      assert Cached() == CachedIn(before, pageFrames)[page := SlotOf(frame)];
      r := Done;
    }

    /** Pins a cached page and gives what it holds. */
    method GetPage(page: PageId) returns (r: Result<Image>)
      requires Valid()
      modifies this, lru
      ensures Valid()
      ensures r == (if page == INVALID_PAGE_ID then Err(InvalidArgument)
                    else if page !in old(Cached()) then Err(NotFound) else Ok(old(Cached())[page].image))
      ensures r.Err? ==> unchanged(this) && unchanged(lru)
      ensures r.Ok? ==> Cached() == old(Cached())[page := Pinned(old(Cached())[page])]
    {
      if page == INVALID_PAGE_ID {
        return Err(InvalidArgument);
      }
      if page !in pageFrames {
        return Err(NotFound);
      }
      var pinned := PinPage(page);
      assert pinned.Done?;
      assert SlotOf(frames[pageFrames[page]]) == Cached()[page];
      r := Ok(frames[pageFrames[page]].image);
    }

    /** Some frame can be given to another page. */
    ghost predicate HasRoom()
      requires Valid()
      reads this, lru
    {
      freeFrameIds != [] || lru.lru != []
    }

    /** Without room every frame holds a page that is pinned or dirty. */
    lemma NoRoomMeansBusy()
      requires Valid() && !HasRoom()
      ensures forall f :: 0 <= f < capacity ==>
        frames[f].page in Cached() && (frames[f].pinCount > 0 || frames[f].dirty)
    {
      assert forall f :: f !in lru.positions;
    }

    /** With room there is a free frame, or a page that is neither pinned nor dirty. */
    lemma RoomMeansIdle()
      requires Valid() && HasRoom() && freeFrameIds == []
      ensures exists p :: p in Cached() && Cached()[p].pinCount == 0 && !Cached()[p].dirty
    {
      var f := lru.lru[0];
      assert f in lru.positions;
      assert frames[f].page in Cached();
    }

    /** Caches a page pinned once, in a free frame or in place of the least recently used evictable page.
        Fails for a valid page that is not cached only when every frame is pinned or dirty. */
    method CachePage(page: PageId, image: Image) returns (r: Outcome)
      requires Valid()
      modifies this, lru
      ensures Valid()
      ensures r == (if page == INVALID_PAGE_ID then Failed(InvalidArgument)
                    else if page in old(Cached()) then Failed(AlreadyExists)
                    else if !old(HasRoom()) then Failed(NotFound) else Done)
      ensures r.Failed? ==> unchanged(this) && unchanged(lru)
      ensures r.Done? ==> exists victim :: Evicted(old(Cached()), victim, page, Slot(image, 1, false), Cached())
    {
      if page == INVALID_PAGE_ID {
        return Failed(InvalidArgument);
      }
      if page in pageFrames {
        return Failed(AlreadyExists);
      }
      var f;
      if freeFrameIds != [] {
        var last := |freeFrameIds| - 1;
        f := freeFrameIds[last];
        WithoutLast(freeFrameIds);
        freeFrameIds := freeFrameIds[..last];
      } else {
        var victim := lru.Victim();
        if victim.Err? {
          return Failed(victim.code);
        }
        f := victim.value;
      }
      FillFrame(f, page, image, old(freeFrameIds), old(lru.positions));
      r := Done;
    }

    /** The rest of cache_page once a frame was taken: the frame's old page leaves, the new one enters. */
    method FillFrame(f: nat, page: PageId, image: Image, ghost free: seq<nat>, ghost evictable: set<nat>)
      requires lru.Valid() && lru.capacity == capacity && |frames| == capacity &&
        PoolOk(free, frames, pageFrames, evictable)
      requires f < capacity && (f in free || f in evictable) && page != INVALID_PAGE_ID && page !in pageFrames
      requires freeFrameIds == Without(free, f) && lru.positions == evictable - {f}
      modifies this
      ensures Valid() && lru.lru == old(lru.lru)
      ensures exists victim :: Evicted(old(CachedIn(frames, pageFrames)), victim, page, Slot(image, 1, false), Cached())
    {
      hide CachedIn, Evicted;
      var frame := BufferFrame(page, image, 1, false);
      ghost var cached, victim := CachedIn(frames, pageFrames), frames[f].page;
      SlotFilled(free, frames, pageFrames, evictable, f, frame);
      pageFrames := pageFrames - {frames[f].page};
      frames := frames[f := frame];
      pageFrames := pageFrames[page := f];
      assert Evicted(cached, victim, page, SlotOf(frame), Cached());
    }

    method ClearDirty(page: PageId) returns (r: Outcome)
      requires Valid()
      modifies this, lru
      ensures Valid()
      ensures r == (if page == INVALID_PAGE_ID then Failed(InvalidArgument)
                    else if page !in old(Cached()) then Failed(NotFound) else Done)
      ensures r.Failed? ==> unchanged(this) && unchanged(lru)
      ensures r.Done? ==> Cached() == old(Cached())[page := old(Cached())[page].(dirty := false)]
    {
      if page == INVALID_PAGE_ID {
        return Failed(InvalidArgument);
      }
      if page !in pageFrames {
        return Failed(NotFound);
      }
      var f := pageFrames[page];
      var frame := frames[f].(dirty := false);
      ghost var before := frames;
      frames := frames[f := frame];
      if frames[f].pinCount == 0 {
        var marked := lru.MarkEvictable(f);
        assert marked.Done?;
      }
      SlotEdited(freeFrameIds, before, pageFrames, old(lru.positions), page, frame, lru.positions);
      r := Done;
    }

    /** can_discard_page and can_restore_page make the same checks. */
    method CheckUnpinned(page: PageId) returns (r: Outcome)
      requires Valid()
      ensures r == (if page == INVALID_PAGE_ID then Failed(InvalidArgument)
                    else if page !in Cached() then Failed(NotFound)
                    else if Cached()[page].pinCount > 0 then Failed(InternalError) else Done)
    {
      if page == INVALID_PAGE_ID {
        return Failed(InvalidArgument);
      }
      if page !in pageFrames {
        return Failed(NotFound);
      }
      assert SlotOf(frames[pageFrames[page]]) == Cached()[page];
      if frames[pageFrames[page]].pinCount > 0 {
        return Failed(InternalError);
      }
      r := Done;
    }

    method DiscardPage(page: PageId) returns (r: Outcome)
      requires Valid()
      modifies this, lru
      ensures Valid()
      ensures r.Done? == (page != INVALID_PAGE_ID && page in old(Cached()) && old(Cached())[page].pinCount == 0)
      ensures r.Failed? ==> unchanged(this) && unchanged(lru)
      ensures r.Done? ==> Cached() == old(Cached()) - {page}
    {
      r := CheckUnpinned(page);
      if r.Failed? {
        return;
      }
      assert SlotOf(frames[pageFrames[page]]) == Cached()[page];
      var f := pageFrames[page];
      var marked := lru.MarkNonEvictable(f);
      assert marked.Done?;
      SlotEmptied(freeFrameIds, frames, pageFrames, old(lru.positions), page);
      pageFrames := pageFrames - {page};
      frames := frames[f := EmptyFrame()];
      freeFrameIds := freeFrameIds + [f];
    }

    method RestorePage(page: PageId, image: Image) returns (r: Outcome)
      requires Valid()
      modifies this, lru
      ensures Valid()
      ensures r.Done? == (page != INVALID_PAGE_ID && page in old(Cached()) && old(Cached())[page].pinCount == 0)
      ensures r.Failed? ==> unchanged(this) && unchanged(lru)
      ensures r.Done? ==> Cached() == old(Cached())[page := Slot(image, 0, false)]
    {
      r := CheckUnpinned(page);
      if r.Failed? {
        return;
      }
      assert SlotOf(frames[pageFrames[page]]) == Cached()[page];
      var cleared := ClearDirty(page);
      assert cleared.Done?;
      var f := pageFrames[page];
      assert SlotOf(frames[f]) == Cached()[page];
      SlotEdited(freeFrameIds, frames, pageFrames, lru.positions, page, frames[f].(image := image), lru.positions);
      frames := frames[f := frames[f].(image := image)];
    }

    method IsUnpinned(page: PageId) returns (r: Result<bool>)
      requires Valid()
      ensures r == (if page == INVALID_PAGE_ID then Err(InvalidArgument)
                    else if page !in Cached() then Err(NotFound) else Ok(Cached()[page].pinCount == 0))
    {
      if page == INVALID_PAGE_ID {
        return Err(InvalidArgument);
      }
      if page !in pageFrames {
        return Err(NotFound);
      }
      assert SlotOf(frames[pageFrames[page]]) == Cached()[page];
      r := Ok(frames[pageFrames[page]].pinCount == 0);
    }

    /** A client writing through the page pointer that its pin gives it. */
    method WriteThrough(page: PageId, image: Image)
      requires Valid() && page in Cached()
      modifies this
      ensures Valid() && Cached() == old(Cached())[page := old(Cached())[page].(image := image)]
    {
      var f := pageFrames[page];
      SlotEdited(freeFrameIds, frames, pageFrames, lru.positions, page, frames[f].(image := image), lru.positions);
      frames := frames[f := frames[f].(image := image)];
    }
  }
}
