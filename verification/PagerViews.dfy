/** The pager's state as a value: what is committed, what the running transaction works on, and how the
    steps of a transaction change the two. */
module PagerViews {
  import opened PageIds
  import opened PageImages
  import opened Disks
  import opened Recovery
  import opened BufferPool
  import opened WalFormat

  datatype TransactionStatus = Inactive | Active | FailedTransaction | Unresolved

  datatype TransactionState = TransactionState(status: TransactionStatus, transactionId: nat, dirtyPageIds: set<PageId>,
                                               newPageIds: set<PageId>, originalPages: map<PageId, Image>)
  {
    predicate InTransaction() { status != Inactive }

    predicate IsFailed() { status == FailedTransaction }

    predicate IsUnresolved() { status == Unresolved }
  }

  /** A transaction state after clear(). */
  const NO_TRANSACTION := TransactionState(Inactive, 0, {}, {}, map[])

  /** A pin that a client holds; dirty once the client has asked for the page to write to it. */
  datatype Handle = Handle(page: PageId, dirty: bool)

  /** Where committed pages are read from: the images recovered from or committed to the log, and the
      database file for the rest. */
  datatype Store = Store(header: DatabaseHeader, recovered: map<PageId, Image>, disk: Disk)

  datatype View = View(store: Store, header: DatabaseHeader, cached: map<PageId, Slot>, transaction: TransactionState,
                       pins: multiset<Handle>)

  // ---- What is committed, what is worked on ------------------------------------------------

  ghost predicate Stored(s: Store, p: PageId) {
    p in s.recovered || p in s.disk.pages
  }

  /** The committed image of a page. */
  ghost function Base(s: Store, p: PageId): Image
    requires Stored(s, p)
  {
    if p in s.recovered then s.recovered[p] else s.disk.pages[p]
  }

  ghost predicate StoreOk(s: Store) {
    && Whole(s.disk) && s.disk.pageCount <= s.header.pageCount && s.header.databaseId == s.disk.header.databaseId
    && (forall p :: p in s.recovered ==> 1 <= p < s.header.pageCount)
    && (forall p :: 1 <= p < s.header.pageCount ==> Stored(s, p))
  }

  ghost function CommittedDb(s: Store): (db: Db)
    ensures StoreOk(s) ==> Complete(db)
  {
    Db(s.header, map p | 1 <= p < s.header.pageCount && Stored(s, p) :: Base(s, p))
  }

  /** What the running transaction sees. */
  ghost function WorkingDb(v: View): (db: Db)
    requires Consistent(v)
    ensures Complete(db)
  {
    Db(v.header, map p | 1 <= p < v.header.pageCount :: WorkingImage(v, p))
  }

  ghost function WorkingImage(v: View, p: PageId): Image
    requires Consistent(v) && 1 <= p < v.header.pageCount
  {
    if p in v.cached then v.cached[p].image
    else
      NewPagesCached(v, p);
      Base(v.store, p)
  }

  // ---- The invariant -----------------------------------------------------------------------

  /** The before-images are exact, and with the new page ids they account for every changed page. */
  ghost predicate TransactionOk(s: Store, header: DatabaseHeader, t: TransactionState) {
    && s.header.pageCount <= header.pageCount && s.header.databaseId == header.databaseId
    && (t.status == Inactive ==> t.dirtyPageIds == {} && t.newPageIds == {} && t.originalPages == map[])
    && (forall p :: p in t.dirtyPageIds <==> p in t.originalPages || p in t.newPageIds)
    && (forall p :: p in t.newPageIds <==> s.header.pageCount <= p < header.pageCount)
    && (forall p :: p in t.originalPages && p != HEADER_PAGE_ID ==>
          1 <= p < s.header.pageCount && Stored(s, p) && t.originalPages[p] == Base(s, p))
    && (if HEADER_PAGE_ID in t.originalPages then t.originalPages[HEADER_PAGE_ID] == HeaderImage(s.header)
        else header == s.header)
  }

  /** Cached pages that the transaction did not touch hold the committed image and are clean; touched
      pages are cached, and kept by a dirty flag or by a handle that will leave one. */
  ghost predicate CacheOk(s: Store, count: nat, cached: map<PageId, Slot>, dirty: set<PageId>, pins: multiset<Handle>) {
    && (forall p :: p in cached ==> 1 <= p < count)
    && (forall p :: p in cached && p !in dirty ==> Stored(s, p) && cached[p].image == Base(s, p) && !cached[p].dirty)
    && (forall p :: p in dirty && p != HEADER_PAGE_ID ==> p in cached && (cached[p].dirty || Handle(p, true) in pins))
  }

  /** Pin counts are those of the handles, and only pages of the transaction have dirty handles. */
  ghost predicate PinsOk(cached: map<PageId, Slot>, dirty: set<PageId>, pins: multiset<Handle>) {
    && (forall p :: p in cached ==> cached[p].pinCount == pins[Handle(p, false)] + pins[Handle(p, true)])
    && (forall h :: h in pins ==> h.page in cached && (h.dirty ==> h.page in dirty))
  }

  ghost predicate Consistent(v: View) {
    var consistent :=
      && StoreOk(v.store) && TransactionOk(v.store, v.header, v.transaction)
      && CacheOk(v.store, v.header.pageCount, v.cached, v.transaction.dirtyPageIds, v.pins)
      && PinsOk(v.cached, v.transaction.dirtyPageIds, v.pins);
    consistent
  }

  lemma NewPagesCached(v: View, p: PageId)
    requires Consistent(v) && 1 <= p < v.header.pageCount && p !in v.cached
    ensures p < v.store.header.pageCount && Stored(v.store, p) && p !in v.transaction.dirtyPageIds
  {
    assert p >= v.store.header.pageCount ==> p in v.transaction.newPageIds;
    assert p !in v.transaction.dirtyPageIds;
  }

  /** An unpinned, clean page does not belong to the transaction. */
  lemma IdleIsUntouched(v: View, p: PageId)
    requires Consistent(v) && p in v.cached && v.cached[p].pinCount == 0 && !v.cached[p].dirty
    ensures p !in v.transaction.dirtyPageIds && v.cached[p].image == Base(v.store, p)
    ensures Handle(p, false) !in v.pins && Handle(p, true) !in v.pins
  {
  }

  lemma SameWorking(v: View, w: View)
    requires Consistent(v) && Consistent(w) && v.header == w.header
    requires forall p :: 1 <= p < v.header.pageCount ==> WorkingImage(v, p) == WorkingImage(w, p)
    ensures WorkingDb(v) == WorkingDb(w)
  {
  }

  /** Outside a transaction clients see exactly the committed database; beginning one changes nothing. */
  lemma IdleWorksOnCommitted(v: View, t: TransactionState)
    requires Consistent(v) && v.transaction.status == Inactive
    requires t.dirtyPageIds == {} && t.newPageIds == {} && t.originalPages == map[]
    ensures WorkingDb(v) == CommittedDb(v.store)
    ensures Consistent(v.(transaction := t)) && WorkingDb(v.(transaction := t)) == WorkingDb(v)
  {
    forall p | 1 <= p < v.header.pageCount ensures WorkingImage(v, p) == Base(v.store, p) {
    }
    assert WorkingDb(v).pages == CommittedDb(v.store).pages;
    SameWorking(v, v.(transaction := t));
  }

  // ---- Reading -----------------------------------------------------------------------------

  lemma NotCachedNotPinned(v: View, p: PageId)
    requires Consistent(v) && p !in v.cached
    ensures Handle(p, false) !in v.pins && Handle(p, true) !in v.pins
  {
  }

  /** The pins after a page was cached or pinned once more. */
  lemma PinAdded(cached: map<PageId, Slot>, dirty: set<PageId>, pins: multiset<Handle>, h: Handle,
                 after: map<PageId, Slot>)
    requires PinsOk(cached, dirty, pins) && h.page in after && (h.dirty ==> h.page in dirty)
    requires after[h.page].pinCount == pins[Handle(h.page, false)] + pins[Handle(h.page, true)] + 1
    requires forall p :: p in after && p != h.page ==> p in cached && after[p].pinCount == cached[p].pinCount
    requires forall x :: x in pins ==> x.page in after
    ensures PinsOk(after, dirty, pins + multiset{h})
  {
    forall x | x in pins + multiset{h} ensures x.page in after && (x.dirty ==> x.page in dirty) {
      assert x in pins || x == h;
    }
  }

  lemma PinDropped(cached: map<PageId, Slot>, dirty: set<PageId>, pins: multiset<Handle>, h: Handle)
    requires PinsOk(cached, dirty, pins) && h in pins
    ensures h.page in cached && cached[h.page].pinCount > 0
    ensures PinsOk(cached[h.page := Released(cached[h.page], h.dirty)], dirty, pins - multiset{h})
  {
    forall x | x in pins - multiset{h} ensures x.page in cached && (x.dirty ==> x.page in dirty) {
      assert x in pins;
    }
  }

  /** Fetching a page into the pool: whatever is evicted for it, the working database stays the same. */
  lemma Fetched(v: View, p: PageId, victim: PageId, cached: map<PageId, Slot>)
    requires Consistent(v) && p !in v.cached && 1 <= p < v.header.pageCount && Stored(v.store, p)
    requires Evicted(v.cached, victim, p, Slot(Base(v.store, p), 1, false), cached)
    ensures var w := v.(cached := cached, pins := v.pins + multiset{Handle(p, false)});
      Consistent(w) && WorkingDb(w) == WorkingDb(v)
  {
    var w := v.(cached := cached, pins := v.pins + multiset{Handle(p, false)});
    FetchedConsistent(v, p, victim, cached);
    forall q | 1 <= q < v.header.pageCount
      ensures WorkingImage(v, q) == WorkingImage(w, q)
    {
      if q == victim && victim in v.cached {
        IdleIsUntouched(v, victim);
      }
    }
    hide Consistent;
    SameWorking(v, w);
  }

  lemma FetchedConsistent(v: View, p: PageId, victim: PageId, cached: map<PageId, Slot>)
    requires Consistent(v) && p !in v.cached && 1 <= p < v.header.pageCount && Stored(v.store, p)
    requires Evicted(v.cached, victim, p, Slot(Base(v.store, p), 1, false), cached)
    ensures Consistent(v.(cached := cached, pins := v.pins + multiset{Handle(p, false)}))
  {
    hide StoreOk, TransactionOk;
    NewPagesCached(v, p);
    NotCachedNotPinned(v, p);
    if victim in v.cached {
      IdleIsUntouched(v, victim);
    }
    PinAdded(v.cached, v.transaction.dirtyPageIds, v.pins, Handle(p, false), cached);
    hide PinsOk;
  }

  lemma PinnedAgain(v: View, p: PageId)
    requires Consistent(v) && p in v.cached
    ensures var w := v.(cached := v.cached[p := Pinned(v.cached[p])], pins := v.pins + multiset{Handle(p, false)});
      Consistent(w) && WorkingDb(w) == WorkingDb(v)
  {
    var w := v.(cached := v.cached[p := Pinned(v.cached[p])], pins := v.pins + multiset{Handle(p, false)});
    PinAdded(v.cached, v.transaction.dirtyPageIds, v.pins, Handle(p, false), w.cached);
    SameWorking(v, w);
  }

  lemma Unpinned(v: View, h: Handle)
    requires Consistent(v) && h in v.pins
    ensures h.page in v.cached && v.cached[h.page].pinCount > 0
    ensures var w :=
      v.(cached := v.cached[h.page := Released(v.cached[h.page], h.dirty)], pins := v.pins - multiset{h});
      Consistent(w) && WorkingDb(w) == WorkingDb(v)
  {
    hide TransactionOk, StoreOk;
    var w := v.(cached := v.cached[h.page := Released(v.cached[h.page], h.dirty)], pins := v.pins - multiset{h});
    PinDropped(v.cached, v.transaction.dirtyPageIds, v.pins, h);
    SameWorking(v, w);
  }

  // ---- Writing -----------------------------------------------------------------------------

  /** Recording the before-image of a page, if it is not recorded yet. */
  function Recorded(t: TransactionState, p: PageId, image: Image): TransactionState {
    if p in t.originalPages || p in t.newPageIds then t
    else t.(originalPages := t.originalPages[p := image], dirtyPageIds := t.dirtyPageIds + {p})
  }

  /** The handle h was given its page to write to. */
  lemma MadeMutable(v: View, h: Handle)
    requires Consistent(v) && h in v.pins
    ensures h.page in v.cached && h.page != HEADER_PAGE_ID && h.page != INVALID_PAGE_ID
    ensures v.transaction.status == Active ==>
      var w := v.(transaction := Recorded(v.transaction, h.page, v.cached[h.page].image),
                        pins := v.pins - multiset{h} + multiset{Handle(h.page, true)});
      Consistent(w) && WorkingDb(w) == WorkingDb(v)
  {
    var w := v.(transaction := Recorded(v.transaction, h.page, v.cached[h.page].image),
                pins := v.pins - multiset{h} + multiset{Handle(h.page, true)});
    if v.transaction.status == Active {
      MadeMutableOk(v, h);
      SameWorking(v, w);
    }
  }

  lemma MadeMutableOk(v: View, h: Handle)
    requires Consistent(v) && h in v.pins && v.transaction.status == Active
    ensures Consistent(v.(transaction := Recorded(v.transaction, h.page, v.cached[h.page].image),
                          pins := v.pins - multiset{h} + multiset{Handle(h.page, true)}))
  {
    RecordedOk(v, h.page);
    var t := Recorded(v.transaction, h.page, v.cached[h.page].image);
    PinSwapped(v.cached, v.transaction.dirtyPageIds, t.dirtyPageIds, v.pins, h);
    assert CacheOk(v.store, v.header.pageCount, v.cached, t.dirtyPageIds,
                   v.pins - multiset{h} + multiset{Handle(h.page, true)}) by {
      forall p | p in t.dirtyPageIds && p != HEADER_PAGE_ID && p != h.page && !v.cached[p].dirty
        ensures Handle(p, true) in v.pins - multiset{h} + multiset{Handle(h.page, true)}
      {
        assert Handle(p, true) in v.pins;
      }
    }
  }

  /** The before-image of an untouched cached page is its committed image. */
  lemma RecordedOk(v: View, p: PageId)
    requires Consistent(v) && p in v.cached && v.transaction.status == Active
    ensures TransactionOk(v.store, v.header, Recorded(v.transaction, p, v.cached[p].image))
  {
    assert p >= v.store.header.pageCount ==> p in v.transaction.newPageIds;
  }

  lemma PinSwapped(cached: map<PageId, Slot>, dirty: set<PageId>, dirty': set<PageId>, pins: multiset<Handle>,
                   h: Handle)
    requires PinsOk(cached, dirty, pins) && h in pins && dirty <= dirty' && h.page in dirty'
    ensures PinsOk(cached, dirty', pins - multiset{h} + multiset{Handle(h.page, true)})
  {
    forall x | x in pins - multiset{h} + multiset{Handle(h.page, true)}
      ensures x.page in cached && (x.dirty ==> x.page in dirty')
    {
      assert x in pins || x == Handle(h.page, true);
    }
  }

  /** A client wrote to a page through a dirty handle. */
  lemma Written(v: View, h: Handle, image: Image)
    requires Consistent(v) && h in v.pins && h.dirty
    ensures h.page in v.cached
    ensures var w := v.(cached := v.cached[h.page := v.cached[h.page].(image := image)]);
      Consistent(w) && WorkingDb(w) == WorkingDb(v).(pages := WorkingDb(v).pages[h.page := image])
  {
    var w := v.(cached := v.cached[h.page := v.cached[h.page].(image := image)]);
    assert WorkingDb(w).pages == WorkingDb(v).pages[h.page := image];
  }

  /** The transaction once it has allocated page n: the header is recorded, the page is new and dirty. */
  function WithNewPage(t: TransactionState, header: DatabaseHeader, n: PageId): TransactionState {
    var marked := Recorded(t, HEADER_PAGE_ID, HeaderImage(header));
    marked.(newPageIds := marked.newPageIds + {n}, dirtyPageIds := marked.dirtyPageIds + {n})
  }

  ghost function AfterNewPage(v: View, cached: map<PageId, Slot>): View {
    var n := v.header.pageCount;
    v.(header := v.header.(pageCount := n + 1), cached := cached,
       transaction := WithNewPage(v.transaction, v.header, n),
       pins := v.pins + multiset{Handle(n, true)})
  }

  lemma NewPageNotCached(v: View)
    requires Consistent(v)
    ensures v.header.pageCount !in v.cached
  {
  }

  /** A page allocated at the end of the database. */
  lemma NewPageAdded(v: View, cached: map<PageId, Slot>)
    requires Consistent(v) && v.transaction.status == Active
    requires exists victim :: Evicted(v.cached, victim, v.header.pageCount, Slot(ZeroPage(), 1, false), cached)
    ensures var w := AfterNewPage(v, cached);
      Consistent(w) && WorkingDb(w) == Db(w.header, WorkingDb(v).pages[v.header.pageCount := ZeroPage()])
  {
    hide PinsOk, TransactionOk;
    var victim :| Evicted(v.cached, victim, v.header.pageCount, Slot(ZeroPage(), 1, false), cached);
    var w, n := AfterNewPage(v, cached), v.header.pageCount;
    NewPageOk(v, victim, cached);
    forall p | 1 <= p < n ensures WorkingImage(w, p) == WorkingImage(v, p) {
      assert p in v.cached ==> p == victim || p in cached;
    }
    assert WorkingImage(w, n) == ZeroPage();
  }

  lemma NewPageOk(v: View, victim: PageId, cached: map<PageId, Slot>)
    requires Consistent(v) && v.transaction.status == Active
    requires Evicted(v.cached, victim, v.header.pageCount, Slot(ZeroPage(), 1, false), cached)
    ensures v.header.pageCount !in v.cached && Consistent(AfterNewPage(v, cached))
    ensures victim in v.cached ==>
      victim !in v.transaction.dirtyPageIds && v.cached[victim].image == Base(v.store, victim)
  {
    NewPageNotCached(v);
    NotCachedNotPinned(v, v.header.pageCount);
    if victim in v.cached {
      IdleIsUntouched(v, victim);
    }
    NewPagePins(v, victim, cached);
    NewPageCache(v, victim, cached);
  }

  lemma NewPageCache(v: View, victim: PageId, cached: map<PageId, Slot>)
    requires Consistent(v) && v.header.pageCount !in v.cached
    requires Evicted(v.cached, victim, v.header.pageCount, Slot(ZeroPage(), 1, false), cached)
    requires victim in v.cached ==> victim !in v.transaction.dirtyPageIds
    ensures var w := AfterNewPage(v, cached);
      CacheOk(w.store, w.header.pageCount, w.cached, w.transaction.dirtyPageIds, w.pins)
  {
    var w := AfterNewPage(v, cached);
    assert forall h :: h in v.pins ==> h in w.pins;
  }

  lemma NewPagePins(v: View, victim: PageId, cached: map<PageId, Slot>)
    requires PinsOk(v.cached, v.transaction.dirtyPageIds, v.pins) && v.header.pageCount !in v.cached
    requires Evicted(v.cached, victim, v.header.pageCount, Slot(ZeroPage(), 1, false), cached)
    ensures PinsOk(cached, AfterNewPage(v, cached).transaction.dirtyPageIds, AfterNewPage(v, cached).pins)
  {
    var n, dirty := v.header.pageCount, AfterNewPage(v, cached).transaction.dirtyPageIds;
    assert PinsOk(v.cached, dirty, v.pins);
    assert Handle(n, false) !in v.pins && Handle(n, true) !in v.pins;
    PinAdded(v.cached, dirty, v.pins, Handle(n, true), cached);
  }

  // ---- Ending a transaction ----------------------------------------------------------------

  /** No client holds a page of the transaction. */
  ghost predicate Settled(v: View) {
    forall p :: p in v.transaction.dirtyPageIds ==> Unheld(p, v.cached)
  }

  /** The images that commit writes to the log. */
  ghost function Changes(v: View): map<PageId, Image>
    requires Consistent(v)
  {
    map p | p in v.transaction.dirtyPageIds :: ChangedImage(v, p)
  }

  ghost function ChangedImage(v: View, p: PageId): Image
    requires Consistent(v) && p in v.transaction.dirtyPageIds
  {
    if p == HEADER_PAGE_ID then HeaderImage(v.header) else v.cached[p].image
  }

  /** The state after a commit. */
  ghost function AfterCommit(v: View): View
    requires Consistent(v)
  {
    var changes := Changes(v);
    View(Store(v.header, v.store.recovered + (changes - {HEADER_PAGE_ID}), v.store.disk), v.header,
         map p | p in v.cached :: if p in changes then v.cached[p].(dirty := false) else v.cached[p],
         NO_TRANSACTION, v.pins)
  }

  /** No dirty handle survives a settled transaction. */
  lemma SettledPins(v: View, h: Handle)
    requires Consistent(v) && Settled(v) && h in v.pins
    ensures h.page in v.cached && h.page !in v.transaction.dirtyPageIds && !h.dirty
  {
    assert v.cached[h.page].pinCount == v.pins[Handle(h.page, false)] + v.pins[Handle(h.page, true)];
    assert h == Handle(h.page, false) || h == Handle(h.page, true);
  }

  /** Commit makes the working database the committed one. */
  lemma CommitPublishes(v: View)
    requires Consistent(v) && Settled(v)
    ensures Consistent(AfterCommit(v))
    ensures CommittedDb(AfterCommit(v).store) == WorkingDb(v) && WorkingDb(AfterCommit(v)) == WorkingDb(v)
  {
    hide PinsOk, StoreOk;
    var w := AfterCommit(v);
    CommitStore(v);
    CommitCache(v);
    CommitPins(v);
    forall p | 1 <= p < v.header.pageCount
      ensures Base(w.store, p) == WorkingImage(v, p) && WorkingImage(w, p) == WorkingImage(v, p)
    {
      CommitBase(v, p);
      assert p in w.cached <==> p in v.cached;
    }
  }

  /** Page 0 is never cached, and the header that no frame changes is the committed one. */
  lemma HeaderApart(v: View)
    requires Consistent(v)
    ensures HEADER_PAGE_ID !in v.cached && (HEADER_PAGE_ID !in Changes(v) ==> v.header == v.store.header)
    ensures Changes(v).Keys == v.transaction.dirtyPageIds
  {
  }

  lemma CommitPins(v: View)
    requires Consistent(v) && Settled(v)
    ensures PinsOk(AfterCommit(v).cached, {}, v.pins)
  {
    forall h | h in v.pins ensures h.page in v.cached && !h.dirty {
      SettledPins(v, h);
    }
  }

  lemma CommitCache(v: View)
    requires Consistent(v) && Settled(v)
    ensures var w := AfterCommit(v); CacheOk(w.store, w.header.pageCount, w.cached, {}, w.pins)
  {
    var w := AfterCommit(v);
    forall p | p in w.cached ensures Stored(w.store, p) && w.cached[p].image == Base(w.store, p) && !w.cached[p].dirty {
      CommitStore(v);
      CommitBase(v, p);
    }
  }

  /** After a commit a page's committed image is what the transaction saw. */
  lemma CommitBase(v: View, p: PageId)
    requires Consistent(v) && 1 <= p < v.header.pageCount
    ensures Stored(AfterCommit(v).store, p) && Base(AfterCommit(v).store, p) == WorkingImage(v, p)
  {
    CommitStore(v);
    if p !in v.cached {
      NewPagesCached(v, p);
    }
  }

  lemma CommitStore(v: View)
    requires Consistent(v)
    ensures StoreOk(AfterCommit(v).store)
  {
    var s := AfterCommit(v).store;
    forall p | 1 <= p < s.header.pageCount ensures Stored(s, p) {
      if p >= v.store.header.pageCount {
        assert p in v.transaction.newPageIds && p in v.transaction.dirtyPageIds;
        assert p in Changes(v);
      } else {
        assert Stored(v.store, p);
      }
    }
  }

  /** The changes are exactly what turns the committed database into the working one. */
  lemma ChangesApply(v: View)
    requires Consistent(v)
    ensures Applicable(CommittedDb(v.store), Changes(v)) && Committed(CommittedDb(v.store), Changes(v)) == WorkingDb(v)
  {
    var db := Committed(CommittedDb(v.store), Changes(v));
    assert db.header == v.header;
    forall p ensures p in db.pages <==> 1 <= p < v.header.pageCount {
      assert p >= v.store.header.pageCount && p in v.transaction.dirtyPageIds ==> p in v.transaction.newPageIds;
      assert v.store.header.pageCount <= p < v.header.pageCount ==>
        p in v.transaction.newPageIds && p in v.transaction.dirtyPageIds;
    }
    assert db.pages == WorkingDb(v).pages;
  }

  /** The state after a rollback. */
  ghost function AfterRollback(v: View): View
    requires Consistent(v)
  {
    var t := v.transaction;
    View(v.store, v.store.header,
         map p | p in v.cached && p !in t.newPageIds ::
           if p in t.originalPages then Slot(t.originalPages[p], 0, false) else v.cached[p],
         NO_TRANSACTION, v.pins)
  }

  /** Rollback makes the committed database, header and page count included, the working one again. */
  lemma RollbackRestores(v: View)
    requires Consistent(v) && Settled(v)
    ensures Consistent(AfterRollback(v)) && WorkingDb(AfterRollback(v)) == CommittedDb(v.store)
  {
    hide StoreOk;
    var w := AfterRollback(v);
    forall h | h in w.pins ensures h.page in w.cached && !h.dirty {
      SettledPins(v, h);
    }
    assert CacheOk(w.store, w.header.pageCount, w.cached, {}, w.pins);
    assert WorkingDb(w).pages == CommittedDb(v.store).pages;
  }

  // ---- Visiting the pages of a transaction in some order -----------------------------------

  /** The frames that hold the listed pages' images. */
  ghost predicate FramesOf(frames: seq<Frame>, order: seq<PageId>, images: map<PageId, Image>) {
    |frames| == |order| && forall i :: 0 <= i < |order| ==>
      order[i] in images && frames[i] == Frame(order[i], images[order[i]])
  }

  /** Whatever order the pages are visited in, their frames add up to the same images. */
  lemma {:induction false} FramesAddUp(frames: seq<Frame>, order: seq<PageId>, images: map<PageId, Image>)
    requires FramesOf(frames, order, images)
    ensures forall p :: p in Overlaid(map[], frames) <==> p in order
    ensures forall p :: p in order ==> Overlaid(map[], frames)[p] == images[p]
  {
    if order != [] {
      var n := |order| - 1;
      FramesAddUp(frames[..n], order[..n], images);
      assert order == order[..n] + [order[n]];
    }
  }

  lemma FramesAre(frames: seq<Frame>, order: seq<PageId>, images: map<PageId, Image>)
    requires FramesOf(frames, order, images) && forall p :: p in order <==> p in images
    ensures Overlaid(map[], frames) == images
  {
    FramesAddUp(frames, order, images);
    var sum := Overlaid(map[], frames);
    forall p ensures p in sum <==> p in images {
      assert p in sum <==> p in order;
    }
    forall p | p in sum ensures sum[p] == images[p] {
      assert p in order;
    }
  }

  /** The recovered images after the listed frames were committed. */
  ghost function Published(recovered: map<PageId, Image>, frames: seq<Frame>): map<PageId, Image> {
    recovered + (Overlaid(map[], frames) - {HEADER_PAGE_ID})
  }

  lemma PublishedMore(recovered: map<PageId, Image>, frames: seq<Frame>, i: nat)
    requires i < |frames|
    ensures Overlaid(map[], frames[..i + 1]) == Overlaid(map[], frames[..i])[frames[i].page := frames[i].image]
    ensures Published(recovered, frames[..i + 1]) ==
      (if frames[i].page == HEADER_PAGE_ID then Published(recovered, frames[..i])
       else Published(recovered, frames[..i])[frames[i].page := frames[i].image])
  {
    assert frames[..i + 1][..i] == frames[..i];
  }

  /** The cached pages with the listed ones marked clean. */
  ghost function Cleaned(cached: map<PageId, Slot>, pages: set<PageId>): (m: map<PageId, Slot>)
    ensures m.Keys == cached.Keys
  {
    map p | p in cached :: if p in pages then cached[p].(dirty := false) else cached[p]
  }

  /** Marking one more page clean; page 0 is never cached. */
  ghost function CleanedOne(cached: map<PageId, Slot>, p: PageId): map<PageId, Slot> {
    if p in cached then cached[p := cached[p].(dirty := false)] else cached
  }

  /** Nothing is published at first. */
  lemma NothingPublished(recovered: map<PageId, Image>, cached: map<PageId, Slot>)
    ensures Overlaid(map[], []) == map[] && Published(recovered, []) == recovered
    ensures Cleaned(cached, Overlaid(map[], []).Keys) == cached
  {
  }

  lemma CleanedMore(cached: map<PageId, Slot>, images: map<PageId, Image>, p: PageId, image: Image)
    ensures CleanedOne(Cleaned(cached, images.Keys), p) == Cleaned(cached, images[p := image].Keys)
  {
  }

  /** f is a copy of page p as it is now. */
  ghost predicate Copied(f: Frame, p: PageId, header: DatabaseHeader, cached: map<PageId, Slot>) {
    f.page == p &&
      (if p == HEADER_PAGE_ID then f.image == HeaderImage(header) else p in cached && f.image == cached[p].image)
  }

  lemma CopiesAreChanges(v: View, frames: seq<Frame>, order: seq<PageId>)
    requires Consistent(v) && |frames| == |order| && forall p :: p in order <==> p in v.transaction.dirtyPageIds
    requires forall i :: 0 <= i < |order| ==> Copied(frames[i], order[i], v.header, v.cached)
    ensures Overlaid(map[], frames) == Changes(v)
  {
    forall i | 0 <= i < |order| ensures order[i] in Changes(v) && frames[i] == Frame(order[i], Changes(v)[order[i]]) {
      assert order[i] in order && Copied(frames[i], order[i], v.header, v.cached);
    }
    FramesAre(frames, order, Changes(v));
  }

  /** No client holds page p. */
  ghost predicate Unheld(p: PageId, cached: map<PageId, Slot>) {
    p == HEADER_PAGE_ID || (p != INVALID_PAGE_ID && p in cached && cached[p].pinCount == 0)
  }

  /** Marking a transaction failed or unresolved changes nothing else. */
  lemma StatusChanged(v: View, status: TransactionStatus)
    requires Consistent(v) && v.transaction.status != Inactive && status != Inactive
    ensures var w := v.(transaction := v.transaction.(status := status)); Consistent(w) && WorkingDb(w) == WorkingDb(v)
  {
    SameWorking(v, v.(transaction := v.transaction.(status := status)));
  }

  /** The cached pages with the before-images of the listed pages put back. */
  ghost function Restored(cached: map<PageId, Slot>, originals: map<PageId, Image>,
                          pages: set<PageId>): (m: map<PageId, Slot>)
    ensures m.Keys == cached.Keys
  {
    map p | p in cached :: if p in pages && p in originals then Slot(originals[p], 0, false) else cached[p]
  }

  lemma RestoredMore(cached: map<PageId, Slot>, originals: map<PageId, Image>, pages: set<PageId>, p: PageId)
    requires p in cached && p in originals
    ensures Restored(cached, originals, pages)[p := Slot(originals[p], 0, false)] ==
      Restored(cached, originals, pages + {p})
  {
  }

  lemma RestoredHeader(cached: map<PageId, Slot>, originals: map<PageId, Image>, pages: set<PageId>)
    requires HEADER_PAGE_ID !in cached
    ensures Restored(cached, originals, pages + {HEADER_PAGE_ID}) == Restored(cached, originals, pages)
  {
  }

  /** Restoring every before-image and discarding every new page is the rollback. */
  lemma RestoredAll(v: View, originals: set<PageId>, fresh': set<PageId>)
    requires Consistent(v) && originals == v.transaction.originalPages.Keys && fresh' == v.transaction.newPageIds
    ensures Restored(v.cached, v.transaction.originalPages, originals) - fresh' == AfterRollback(v).cached
  {
  }

  function SetOf(order: seq<PageId>): set<PageId> {
    set p | p in order
  }

  lemma SetOfMore(order: seq<PageId>, i: nat)
    requires i < |order|
    ensures SetOf(order[..i + 1]) == SetOf(order[..i]) + {order[i]}
  {
  }

  lemma SetOfAll(order: seq<PageId>, s: set<PageId>)
    requires forall p :: p in order <==> p in s
    ensures SetOf(order[..|order|]) == s
  {
    assert order[..|order|] == order;
    forall p ensures p in SetOf(order) <==> p in s {
      assert p in order <==> p in s;
    }
  }

  lemma DiscardedMore(cached: map<PageId, Slot>, pages: set<PageId>, p: PageId)
    requires p in cached && p !in pages
    ensures p in cached - pages && (cached - pages)[p] == cached[p]
    ensures (cached - pages) - {p} == cached - (pages + {p})
  {
  }

  /** The database file as committed pages are written to it, seen through the recovered images. */
  lemma SameBase(v: View, s: Store)
    requires Consistent(v) && StoreOk(s) && s.header == v.store.header
    requires forall p :: 1 <= p < s.header.pageCount ==> Base(s, p) == Base(v.store, p)
    ensures Consistent(v.(store := s)) && WorkingDb(v.(store := s)) == WorkingDb(v) &&
      CommittedDb(s) == CommittedDb(v.store)
  {
    var w := v.(store := s);
    forall p | p in v.cached && p !in v.transaction.dirtyPageIds ensures 1 <= p < s.header.pageCount {
      assert p >= v.store.header.pageCount ==> p in v.transaction.newPageIds;
    }
    SameWorking(v, w);
  }

  // ---- Checkpoint --------------------------------------------------------------------------

  lemma SameFile(s: Store, d: Disk)
    requires StoreOk(s) && Whole(d) && s.disk.pageCount <= d.pageCount <= s.header.pageCount
    requires d.header.databaseId == s.header.databaseId
    requires forall p :: p in s.disk.pages && p !in s.recovered ==> d.pages[p] == s.disk.pages[p]
    ensures StoreOk(s.(disk := d)) && CommittedDb(s.(disk := d)) == CommittedDb(s)
  {
    var t := s.(disk := d);
    forall p | 1 <= p < s.header.pageCount ensures Stored(t, p) && Base(t, p) == Base(s, p) {
      assert Stored(s, p);
    }
    assert CommittedDb(t).pages == CommittedDb(s).pages;
  }

  /** Writing a recovered page, the committed header or the committed page count to the file leaves the
      committed database as it is. */
  lemma PutStore(s: Store, p: PageId)
    requires StoreOk(s) && p in s.recovered
    ensures var t := s.(disk := Put(s.disk, p, s.recovered[p])); StoreOk(t) && CommittedDb(t) == CommittedDb(s)
    ensures p in CommittedDb(s).pages && CommittedDb(s).pages[p] == s.recovered[p]
  {
    SameFile(s, Put(s.disk, p, s.recovered[p]));
  }

  lemma PutHeaderStore(s: Store)
    requires StoreOk(s)
    ensures var t := s.(disk := PutHeader(s.disk, s.header)); StoreOk(t) && CommittedDb(t) == CommittedDb(s)
  {
    SameFile(s, PutHeader(s.disk, s.header));
  }

  lemma ExtendedStore(s: Store)
    requires StoreOk(s)
    ensures var t := s.(disk := Extended(s.disk, s.header.pageCount)); StoreOk(t) && CommittedDb(t) == CommittedDb(s)
  {
    SameFile(s, Extended(s.disk, s.header.pageCount));
  }

  /** A file to which everything committed was written shows the committed database by itself. */
  lemma WrittenShows(s: Store)
    requires StoreOk(s) && s.disk.pageCount == s.header.pageCount && s.disk.header == s.header
    requires forall p :: p in s.recovered ==> p in s.disk.pages && s.disk.pages[p] == s.recovered[p]
    ensures Shows(s.disk, map[], CommittedDb(s))
    ensures StoreOk(s.(recovered := map[])) && CommittedDb(s.(recovered := map[])) == CommittedDb(s)
  {
    var t := s.(recovered := map[]);
    assert CommittedDb(t).pages == CommittedDb(s).pages;
  }

  /** The same committed database read from elsewhere: nothing changes for the transaction. */
  lemma SameStore(v: View, s: Store)
    requires Consistent(v) && StoreOk(s) && CommittedDb(s) == CommittedDb(v.store)
    ensures Consistent(v.(store := s)) && WorkingDb(v.(store := s)) == WorkingDb(v)
  {
    forall p | 1 <= p < s.header.pageCount ensures Base(s, p) == Base(v.store, p) {
      assert CommittedDb(s).pages[p] == CommittedDb(v.store).pages[p];
    }
    SameBase(v, s);
  }

  /** The view right after opening. */
  ghost function OpenedView(d: Disk, images: map<PageId, Image>, header: DatabaseHeader): View {
    View(Store(header, images - {HEADER_PAGE_ID}, d), header, map[], NO_TRANSACTION, multiset{})
  }

  lemma OpenedShows(d: Disk, images: map<PageId, Image>, header: DatabaseHeader, db: Db)
    requires Shows(d, images, db) && header == db.header
    ensures var v := OpenedView(d, images, header); Consistent(v) && CommittedDb(v.store) == db && WorkingDb(v) == db
  {
    var v := OpenedView(d, images, header);
    forall p | 1 <= p < db.header.pageCount ensures Stored(v.store, p) && Base(v.store, p) == db.pages[p] {
      assert p in db.pages;
    }
    assert CommittedDb(v.store).pages == db.pages;
    assert WorkingDb(v).pages == db.pages;
  }
}
