/** What a crash may do to the pager's two files. */
module PagerCrash {
  import opened PageIds
  import opened PageImages
  import opened Status
  import opened Disks
  import opened WalFormat
  import opened WalScanner
  import opened LogScans
  import opened Recovery
  import opened LogWrites
  import opened WalManagers

  /** Whatever file a crash leaves, with the images over it it shows db. */
  ghost predicate AllShow(ds: iset<Disk>, images: map<PageId, Image>, db: Db) {
    forall d :: d in ds ==> Shows(d, images, db)
  }

  /** A log that a crash may leave gives images that show db over every file it may leave. */
  ghost predicate Secure(ds: iset<Disk>, log: Log, databaseId: nat, db: Db) {
    exists images :: Gives(log, databaseId, images) && AllShow(ds, images, db)
  }

  ghost predicate AllSecure(ds: iset<Disk>, logs: iset<Log>, databaseId: nat, db: Db) {
    forall l :: l in logs ==> Secure(ds, l, databaseId, db)
  }

  /** The two files as a pager with committed database db leaves them to a crash. */
  ghost predicate Shown(d: Disk, log: Log, db: Db) {
    Secure(iset{d}, log, db.header.databaseId, db)
  }

  /** A log shows db over every file, or it is refused. */
  ghost predicate Guarded(ds: iset<Disk>, log: Log, databaseId: nat, db: Db) {
    Secure(ds, log, databaseId, db) || Unreadable(log, databaseId)
  }

  ghost predicate AllGuarded(ds: iset<Disk>, logs: iset<Log>, databaseId: nat, db: Db) {
    forall l :: l in logs ==> Guarded(ds, l, databaseId, db)
  }

  /** After a commit that was not acknowledged, each log shows the database before it over every file, or
      the database after it, or it is refused. */
  ghost predicate EitherShown(ds: iset<Disk>, recent: iset<Log>, older: iset<Log>, databaseId: nat, before: Db,
                              after: Db) {
    forall l :: l in recent || l in older ==> EitherSecure(ds, l, databaseId, before, after)
  }

  ghost predicate EitherSecure(ds: iset<Disk>, log: Log, databaseId: nat, before: Db, after: Db) {
    Secure(ds, log, databaseId, before) || Secure(ds, log, databaseId, after) || Unreadable(log, databaseId)
  }

  /** All files are of the same database. */
  ghost predicate SameId(ds: iset<Disk>, databaseId: nat) {
    forall d :: d in ds ==> d.header.databaseId == databaseId
  }

  lemma UnreadableRefused(d: Disk, log: Log)
    requires Unreadable(log, d.header.databaseId)
    ensures Recover(d, log) == Err(Corruption)
  {
  }

  lemma SecureShown(ds: iset<Disk>, db: Db, d: Disk, log: Log)
    requires Secure(ds, log, db.header.databaseId, db) && d in ds
    ensures Shown(d, log, db)
  {
    var images :| Gives(log, db.header.databaseId, images) && AllShow(ds, images, db);
    OnlyFileShows(d, images, db);
  }

  /** Reopening files that show db gives exactly db, except for files caught half written. */
  lemma ShownRecovers(d: Disk, log: Log, db: Db)
    requires Shown(d, log, db)
    ensures Recovers(d, log, db)
  {
    var images :| Gives(log, db.header.databaseId, images) && AllShow(iset{d}, images, db);
    assert d in iset{d};
    ShownIsRecovered(d, log, images, db);
  }

  lemma OnlyFileShows(d: Disk, images: map<PageId, Image>, db: Db)
    requires Shows(d, images, db)
    ensures AllShow(iset{d}, images, db)
  {
  }

  lemma UndecidedShown(ds: iset<Disk>, log: Log, images: map<PageId, Image>, changes: map<PageId, Image>, db: Db)
    requires Undecided(log, db.header.databaseId, images, images + changes)
    requires AllShow(ds, images, db) && Applicable(db, changes)
    ensures EitherSecure(ds, log, db.header.databaseId, db, Committed(db, changes))
  {
    CommitAllShow(ds, images, changes, db);
    if Gives(log, db.header.databaseId, images) {
      GivesSecure(ds, log, images, db.header.databaseId, db);
    } else if Gives(log, db.header.databaseId, images + changes) {
      GivesSecure(ds, log, images + changes, db.header.databaseId, Committed(db, changes));
    }
  }

  lemma GuardedUndecided(ds: iset<Disk>, b: Log, l: Log, changes: map<PageId, Image>, db: Db)
    requires StemsFrom(b, l, db.header.databaseId, changes) && Guarded(ds, b, db.header.databaseId, db)
    requires Applicable(db, changes)
    ensures EitherSecure(ds, l, db.header.databaseId, db, Committed(db, changes))
  {
    hide Applicable, Gives, Unreadable, Undecided;
    if Secure(ds, b, db.header.databaseId, db) {
      var images :| Gives(b, db.header.databaseId, images) && AllShow(ds, images, db);
      UndecidedShown(ds, l, images, changes, db);
    }
  }

  /** A commit that was not acknowledged: the logs of the present are undecided, those of before a
      truncation still give the old database. */
  lemma UndecidedAll(ds: iset<Disk>, before: iset<Log>, recent: iset<Log>, older: iset<Log>,
                     changes: map<PageId, Image>, db: Db)
    requires Stemming(before, recent, db.header.databaseId, changes) && Applicable(db, changes)
    requires AllGuarded(ds, before, db.header.databaseId, db) && AllGuarded(ds, older, db.header.databaseId, db)
    ensures EitherShown(ds, recent, older, db.header.databaseId, db, Committed(db, changes))
  {
    hide StemsFrom, Applicable, Secure, Unreadable;
    forall l | l in recent ensures EitherSecure(ds, l, db.header.databaseId, db, Committed(db, changes)) {
      var b :| b in before && StemsFrom(b, l, db.header.databaseId, changes);
      GuardedUndecided(ds, b, l, changes, db);
    }
  }

  /** Reopening refuses whatever a crash may leave. */
  ghost predicate AllRefused(ds: iset<Disk>, recent: iset<Log>, older: iset<Log>) {
    forall d, l :: d in ds && (l in recent || l in older) ==> Recover(d, l) == Err(Corruption)
  }

  lemma GapUnreadable(log: Log, databaseId: nat)
    requires Gap(log, databaseId)
    ensures Unreadable(log, databaseId)
  {
    GapIsRefused(log, databaseId);
  }

  lemma GapsRefused(ds: iset<Disk>, logs: iset<Log>, databaseId: nat)
    requires (forall l :: l in logs ==> Gap(l, databaseId)) && SameId(ds, databaseId)
    ensures AllRefused(ds, logs, iset{}) && forall l :: l in logs ==> Unreadable(l, databaseId)
  {
    forall l | l in logs ensures Unreadable(l, databaseId) {
      GapUnreadable(l, databaseId);
    }
    forall d, l | d in ds && l in logs ensures Recover(d, l) == Err(Corruption) {
      UnreadableRefused(d, l);
    }
  }

  /** A log gives the same images however often it is read. */
  lemma SecureGives(ds: iset<Disk>, log: Log, images: map<PageId, Image>, databaseId: nat, db: Db)
    requires Secure(ds, log, databaseId, db) && Gives(log, databaseId, images)
    ensures AllShow(ds, images, db)
  {
  }

  lemma GivesSecure(ds: iset<Disk>, log: Log, images: map<PageId, Image>, databaseId: nat, db: Db)
    requires Gives(log, databaseId, images) && AllShow(ds, images, db)
    ensures Secure(ds, log, databaseId, db)
  {
  }

  lemma SecureId(ds: iset<Disk>, log: Log, databaseId: nat, db: Db, d: Disk)
    requires d in ds && Secure(ds, log, databaseId, db)
    ensures d.header.databaseId == db.header.databaseId
  {
  }

  /** Files show one database at most. */
  lemma ShownOnce(d: Disk, log: Log, a: Db, b: Db)
    requires Shown(d, log, a) && Shown(d, log, b)
    ensures a == b
  {
    assert d in iset{d};
    var images :| Gives(log, a.header.databaseId, images) && AllShow(iset{d}, images, a);
    SecureGives(iset{d}, log, images, a.header.databaseId, b);
    assert Shows(d, images, a) && Shows(d, images, b);
    assert a.header == b.header;
    assert forall p :: p in a.pages <==> p in b.pages;
    assert a.pages.Keys == b.pages.Keys;
    assert forall p :: p in a.pages ==> a.pages[p] == b.pages[p];
  }

  /** Logs that give what logs before them gave are as good as those. */
  lemma GivenSecure(ds: iset<Disk>, before: iset<Log>, after: iset<Log>, databaseId: nat, db: Db)
    requires GivenBefore(before, after, databaseId) && AllSecure(ds, before, databaseId, db)
    ensures AllSecure(ds, after, databaseId, db)
  {
    hide Gives, AllShow;
    forall l | l in after ensures Secure(ds, l, databaseId, db) {
      var b :| b in before && GivesSame(b, l, databaseId);
      var images :| Gives(b, databaseId, images) && AllShow(ds, images, db);
    }
  }

  lemma WritesSameId(before: iset<Disk>, after: iset<Disk>, databaseId: nat, db: Db)
    requires SameId(before, databaseId) && OnlyCommittedWrites(before, after, db) && db.header.databaseId == databaseId
    ensures SameId(after, databaseId)
  {
  }

  /** A log that gives images showing db, as all that a crash may leave. */
  lemma LogAlone(ds: iset<Disk>, log: Log, images: map<PageId, Image>, databaseId: nat, db: Db)
    requires Gives(log, databaseId, images) && AllShow(ds, images, db)
    ensures AllSecure(ds, iset{log}, databaseId, db) && AllSecure(ds, iset{}, databaseId, db)
  {
    GivesSecure(ds, log, images, databaseId, db);
  }

  /** A log that shows db over each single file shows it over all of them. */
  lemma ShownSecure(ds: iset<Disk>, log: Log, db: Db, d: Disk)
    requires d in ds && forall x :: x in ds ==> Shown(x, log, db)
    ensures Secure(ds, log, db.header.databaseId, db) && d.header.databaseId == db.header.databaseId
  {
    var images :| Gives(log, db.header.databaseId, images) && AllShow(iset{d}, images, db);
    forall x | x in ds ensures Shows(x, images, db) {
      assert x in iset{x};
    }
    assert d in iset{d};
  }

  lemma SecureOurs(ds: iset<Disk>, logs: iset<Log>, databaseId: nat, db: Db)
    requires AllSecure(ds, logs, databaseId, db)
    ensures Ours(logs, databaseId)
  {
    forall l | l in logs && l.header.Some? ensures l.header == Some(databaseId) {
      assert Secure(ds, l, databaseId, db);
    }
  }

  lemma CommitAllShow(ds: iset<Disk>, images: map<PageId, Image>, changes: map<PageId, Image>, db: Db)
    requires AllShow(ds, images, db) && Applicable(db, changes)
    ensures AllShow(ds, images + changes, Committed(db, changes))
  {
    forall d | d in ds ensures Shows(d, images + changes, Committed(db, changes)) {
      CommitShows(d, images, db, changes);
    }
  }

  // ---- Checkpoint --------------------------------------------------------------------------

  /** Every file in after is one of before, or one of before with a committed page, the committed header
      or the committed page count written to it. */
  ghost predicate OnlyCommittedWrites(before: iset<Disk>, after: iset<Disk>, db: Db) {
    forall d :: d in after ==> d in before || exists b :: b in before && CommittedWrite(b, d, db)
  }

  ghost predicate CommittedWrite(b: Disk, d: Disk, db: Db) {
    || d == PutHeader(b, db.header) || d == Extended(b, db.header.pageCount)
    || exists p :: p in db.pages && d == Put(b, p, db.pages[p])
  }

  lemma CommittedWriteShows(b: Disk, d: Disk, images: map<PageId, Image>, db: Db)
    requires Shows(b, images, db) && CommittedWrite(b, d, db)
    ensures Shows(d, images, db)
  {
    if d == PutHeader(b, db.header) {
      PutHeaderShows(b, images, db);
    } else if d == Extended(b, db.header.pageCount) {
      ExtendedShows(b, images, db);
    } else {
      var p :| p in db.pages && d == Put(b, p, db.pages[p]);
      PutShows(b, images, db, p);
    }
  }

  /** Writing committed data over the file, however little of it a crash keeps, changes nothing that the
      logs show. */
  lemma CommittedWritesShow(before: iset<Disk>, after: iset<Disk>, images: map<PageId, Image>, db: Db)
    requires AllShow(before, images, db) && OnlyCommittedWrites(before, after, db)
    ensures AllShow(after, images, db)
  {
    forall d | d in after ensures Shows(d, images, db) {
      if d !in before {
        var b :| b in before && CommittedWrite(b, d, db);
        CommittedWriteShows(b, d, images, db);
      }
    }
  }

  lemma CommittedWritesSecure(before: iset<Disk>, after: iset<Disk>, logs: iset<Log>, databaseId: nat, db: Db)
    requires AllSecure(before, logs, databaseId, db) && OnlyCommittedWrites(before, after, db)
    ensures AllSecure(after, logs, databaseId, db)
  {
    forall l | l in logs ensures Secure(after, l, databaseId, db) {
      var images :| Gives(l, databaseId, images) && AllShow(before, images, db);
      CommittedWritesShow(before, after, images, db);
    }
  }

  /** Once the file alone shows db, a log without transactions is as good as the one before the reset. */
  lemma ResetSecure(ds: iset<Disk>, recent: iset<Log>, older: iset<Log>, recent': iset<Log>, older': iset<Log>,
                    databaseId: nat, db: Db)
    requires AllShow(ds, map[], db) && DroppedFrom(recent, older, recent', older', databaseId)
    ensures AllSecure(ds, recent, databaseId, db) && AllSecure(ds, older, databaseId, db) ==>
      AllSecure(ds, recent', databaseId, db) && AllSecure(ds, older', databaseId, db)
    ensures AllGuarded(ds, recent, databaseId, db) && AllGuarded(ds, older, databaseId, db) ==>
      AllGuarded(ds, recent', databaseId, db) && AllGuarded(ds, older', databaseId, db)
  {
    hide Unreadable;
    forall l | Gives(l, databaseId, map[]) ensures Secure(ds, l, databaseId, db) {
      GivesSecure(ds, l, map[], databaseId, db);
    }
    hide Gives, Secure, AllShow;
  }

  lemma CommittedWritesGuarded(before: iset<Disk>, after: iset<Disk>, logs: iset<Log>, databaseId: nat, db: Db)
    requires AllGuarded(before, logs, databaseId, db) && OnlyCommittedWrites(before, after, db)
    ensures AllGuarded(after, logs, databaseId, db)
  {
    hide Unreadable, OnlyCommittedWrites;
    forall l | l in logs ensures Guarded(after, l, databaseId, db) {
      if Secure(before, l, databaseId, db) {
        CommittedWritesSecure(before, after, iset{l}, databaseId, db);
      }
    }
  }

  lemma PutsAreCommitted(ds: iset<Disk>, p: PageId, db: Db)
    requires p in db.pages
    ensures OnlyCommittedWrites(ds, ds + iset d | d in ds :: Put(d, p, db.pages[p]), db)
  {
    forall d | d in (ds + iset d | d in ds :: Put(d, p, db.pages[p])) && d !in ds
      ensures exists b :: b in ds && CommittedWrite(b, d, db)
    {
      var b :| b in ds && d == Put(b, p, db.pages[p]);
      assert CommittedWrite(b, d, db);
    }
  }

  lemma HeadersAreCommitted(ds: iset<Disk>, db: Db)
    ensures OnlyCommittedWrites(ds, ds + iset d | d in ds :: PutHeader(d, db.header), db)
  {
    forall d | d in (ds + iset d | d in ds :: PutHeader(d, db.header)) && d !in ds
      ensures exists b :: b in ds && CommittedWrite(b, d, db)
    {
      var b :| b in ds && d == PutHeader(b, db.header);
      assert CommittedWrite(b, d, db);
    }
  }

  lemma ExtensionsAreCommitted(ds: iset<Disk>, db: Db)
    ensures OnlyCommittedWrites(ds, ds + iset d | d in ds :: Extended(d, db.header.pageCount), db)
  {
    forall d | d in (ds + iset d | d in ds :: Extended(d, db.header.pageCount)) && d !in ds
      ensures exists b :: b in ds && CommittedWrite(b, d, db)
    {
      var b :| b in ds && d == Extended(b, db.header.pageCount);
      assert CommittedWrite(b, d, db);
    }
  }

  // ---- Opening -----------------------------------------------------------------------------

  ghost predicate BadHeaderImage(images: map<PageId, Image>) {
    HEADER_PAGE_ID in images && !images[HEADER_PAGE_ID].HeaderImage?
  }

  /** Opening in terms of the images that the log is about to give. */
  lemma RecoverFrom(d: Disk, log: Log)
    requires Sound(log)
    ensures var manager := OpenImages(log, d.header.databaseId);
      Recover(d, log) ==
        (if d.header.pageCount > d.pageCount || manager.Err? || BadHeaderImage(manager.value) then Err(Corruption)
         else Ok(DbOf(d, manager.value)))
  {
  }

  /** The header that recovery takes. */
  ghost function HeaderFrom(d: Disk, images: map<PageId, Image>): DatabaseHeader {
    if HEADER_PAGE_ID in images && images[HEADER_PAGE_ID].HeaderImage? then images[HEADER_PAGE_ID].header else d.header
  }

  lemma ShownImages(d: Disk, log: Log, db: Db)
    requires Shown(d, log, db) && OpenImages(log, d.header.databaseId).Ok?
    requires Sound(log)
    ensures Shows(d, OpenImages(log, d.header.databaseId).value, db)
  {
    var images :| Gives(log, db.header.databaseId, images) && AllShow(iset{d}, images, db);
    assert d in iset{d};
  }

  /** The logs that a crash may leave right before opening and that opening does not do away with: only
      cutting off trailing bytes syncs the file. */
  ghost predicate Held(l: Log, log: Log, databaseId: nat, recent: iset<Log>, older: iset<Log>) {
    if CutAtOpening(log, databaseId) then l == log else l in recent || l in older
  }

  /** Whatever a crash may leave of the two files shows db. */
  ghost predicate AllHeldShown(disks: iset<Disk>, log: Log, databaseId: nat, recent: iset<Log>, older: iset<Log>,
                               db: Db) {
    forall d, l :: d in disks && Held(l, log, databaseId, recent, older) ==> Shown(d, l, db)
  }

  lemma ShownHeld(d: Disk, log: Log, databaseId: nat, db: Db)
    requires Shown(d, log, db)
    ensures AllHeldShown(iset{d}, log, databaseId, iset{log}, iset{}, db)
  {
  }

  lemma OpenGives(log: Log, databaseId: nat, images: map<PageId, Image>)
    requires Sound(log) && OpenImages(log, databaseId) == Ok(images)
    ensures Gives(log, databaseId, images)
  {
  }

  lemma HeaderlessGives(l: Log, log: Log, databaseId: nat, left: Log, recent: iset<Log>, images: map<PageId, Image>)
    requires log.size == 0 && l in RecentOpened(log, databaseId, left, recent) && Gives(left, databaseId, images)
    requires OpenImages(log, databaseId) == Ok(images)
    ensures Gives(l, databaseId, images)
  {
  }

  /** The logs that a crash may leave once the file was opened are as good as those before. */
  lemma OpenedSecure(disks: iset<Disk>, log: Log, databaseId: nat, left: Log, recent: iset<Log>, older: iset<Log>,
                     images: map<PageId, Image>, db: Db, d: Disk)
    requires d in disks && d.header.databaseId == databaseId && log in recent
    requires forall l :: l in recent ==> Sound(l) && l.size <= log.size
    requires OpenImages(log, databaseId) == Ok(images) && Gives(left, databaseId, images)
    requires AllHeldShown(disks, log, databaseId, recent, older, db)
    ensures db.header.databaseId == databaseId
    ensures AllSecure(disks, RecentOpened(log, databaseId, left, recent), databaseId, db)
    ensures AllSecure(disks, OlderOpened(log, databaseId, older), databaseId, db)
  {
    hide Shows, ScanOf, Gives, Shown;
    assert Held(log, log, databaseId, recent, older);
    ShownSecure(disks, log, db, d);
    forall l | l in RecentOpened(log, databaseId, left, recent) ensures Secure(disks, l, databaseId, db) {
      if log.size == 0 {
        HeaderlessGives(l, log, databaseId, left, recent, images);
      }
      OpenedOne(disks, log, databaseId, recent, older, l, images, db, d);
    }
    forall l | l in OlderOpened(log, databaseId, older) ensures Secure(disks, l, databaseId, db) {
      OpenedOne(disks, log, databaseId, recent, older, l, images, db, d);
    }
  }

  lemma OpenedOne(disks: iset<Disk>, log: Log, databaseId: nat, recent: iset<Log>, older: iset<Log>, l: Log,
                  images: map<PageId, Image>, db: Db, d: Disk)
    requires d in disks && databaseId == db.header.databaseId && log in recent && Sound(log)
    requires AllHeldShown(disks, log, databaseId, recent, older, db) && OpenImages(log, databaseId) == Ok(images)
    requires Gives(l, databaseId, images) || Held(l, log, databaseId, recent, older)
    ensures Secure(disks, l, databaseId, db)
  {
    hide Shows, ScanOf, Gives, Shown;
    if Held(l, log, databaseId, recent, older) {
      ShownSecure(disks, l, db, d);
    } else {
      ShownSecure(disks, log, db, d);
      OpenGives(log, databaseId, images);
      SecureGives(disks, log, images, databaseId, db);
      GivesSecure(disks, l, images, databaseId, db);
    }
  }

  lemma SecureOpened(disks: iset<Disk>, log: Log, databaseId: nat, left: Log, recent: iset<Log>, older: iset<Log>,
                     images: map<PageId, Image>, db: Db)
    requires log in recent && forall l :: l in recent ==> Sound(l) && l.size <= log.size
    requires OpenImages(log, databaseId) == Ok(images) && Gives(left, databaseId, images)
    requires left in RecentOpened(log, databaseId, left, recent) && databaseId == db.header.databaseId
    requires AllSecure(disks, RecentOpened(log, databaseId, left, recent), databaseId, db)
    requires AllSecure(disks, OlderOpened(log, databaseId, older), databaseId, db)
    ensures AllHeldShown(disks, log, databaseId, recent, older, db)
  {
    SecureGives(disks, left, images, databaseId, db);
    forall d, l | d in disks && Held(l, log, databaseId, recent, older) ensures Shown(d, l, db) {
      if l in older && !CutAtOpening(log, databaseId) {
        assert l in OlderOpened(log, databaseId, older);
      } else if log.size == 0 || CutAtOpening(log, databaseId) {
        GivesSecure(disks, l, images, databaseId, db);
      } else {
        assert l in RecentOpened(log, databaseId, left, recent);
      }
      SecureShown(disks, db, d, l);
    }
  }

  // ---- A log that lost its end -----------------------------------------------------------------

  /** What a process that takes o for the end of a log without transactions makes of it by appending one
      page: both records land whole, and the file is refused for the zeros before them. */
  lemma AppendedBeyondTheEnd(databaseId: nat, o: nat, id: nat, page: PageId, image: Image, d: Disk)
    requires WAL_HEADER_SIZE + WAL_COMMIT_RECORD_SIZE <= o && d.header.databaseId == databaseId
    ensures var t := Transaction(id, [Frame(page, image)]);
      var framed := Remains(EmptyLog(databaseId), o, RecordOf(t, 0), true, 0, EmptyLog(databaseId));
      var log := Remains(framed, RecordOffset(o, 1), RecordOf(t, 1), true, 0, EmptyLog(databaseId));
      && MayLeave(EmptyLog(databaseId), o, RecordOf(t, 0), framed) &&
         MayLeave(framed, RecordOffset(o, 1), RecordOf(t, 1), log)
      && Intact(log, o, t) && log.size == EndOf(o, t) && Recover(d, log) == Err(Corruption)
  {
    var t := Transaction(id, [Frame(page, image)]);
    var framed := Remains(EmptyLog(databaseId), o, RecordOf(t, 0), true, 0, EmptyLog(databaseId));
    var log := Remains(framed, RecordOffset(o, 1), RecordOf(t, 1), true, 0, EmptyLog(databaseId));
    GapIsRefused(log, databaseId);
  }

  // ---- Files that were never synced ------------------------------------------------------------

  /** A log that was created and not synced may lack its header after a crash, and is refused then. */
  lemma LostHeaderIsRefused(databaseId: nat)
    ensures exists l :: l in Created(EmptyLog(databaseId)) && 0 < l.size && forall d :: Recover(d, l) == Err(Corruption)
  {
    var l := Log(1, None, map[], map[]);
    assert l in Created(EmptyLog(databaseId));
    assert forall d :: Recover(d, l) == Err(Corruption);
  }

  /** A three-page database with equal pages, and the log of a transaction that changes both. */
  function TwinPages(databaseId: nat, a: Image, b: Image): Db {
    Db(DatabaseHeader(databaseId, 3), map[1 := a, 2 := b])
  }

  function TwinFile(databaseId: nat, a: Image, b: Image): Disk {
    Disk(3, DatabaseHeader(databaseId, 3), map[1 := a, 2 := b])
  }

  function TwinTransaction(b: Image): Transaction {
    Transaction(1, [Frame(1, b), Frame(2, b)])
  }

  function TwinLog(databaseId: nat, b: Image): Log {
    var t := TwinTransaction(b);
    Log(EndOf(WAL_HEADER_SIZE, t), Some(databaseId),
        map[RecordOffset(WAL_HEADER_SIZE, 0) := RecordOf(t, 0), RecordOffset(WAL_HEADER_SIZE, 1) := RecordOf(t, 1),
            RecordOffset(WAL_HEADER_SIZE, 2) := RecordOf(t, 2)], map[])
  }

  lemma TwinLogGives(databaseId: nat, b: Image)
    ensures var log := TwinLog(databaseId, b);
      && Sound(log) && Gives(log, databaseId, map[1 := b, 2 := b]) && !CutAtOpening(log, databaseId)
      && Sound(EmptyLog(databaseId)) && EmptyLog(databaseId).size < log.size
  {
    var log, t := TwinLog(databaseId, b), TwinTransaction(b);
    var base := EmptyLog(databaseId);
    EmptyGives(databaseId);
    TwinLogIntact(databaseId, b);
    TwinOverlaid(b);
    hide Run, Step, TwinLog, EmptyLog, Overlaid, Agree, Intact, RecordIntact, EndOf;
    AllLanded(base, log, databaseId, t, map[]);
    assert map[] + map[1 := b, 2 := b] == map[1 := b, 2 := b];
    ScanAccepts(log, databaseId);
  }

  lemma TwinLogIntact(databaseId: nat, b: Image)
    ensures var base, log, t := EmptyLog(databaseId), TwinLog(databaseId, b), TwinTransaction(b);
      && Sound(base) && base.header == Some(databaseId) && base.size == WAL_HEADER_SIZE && Sound(log) &&
         log.header == Some(databaseId)
      && Agree(base, log, base.size) && Intact(log, base.size, t) && log.size == EndOf(base.size, t) &&
         log.size > WAL_HEADER_SIZE
  {
  }

  lemma TwinOverlaid(b: Image)
    ensures Overlaid(map[], TwinTransaction(b).frames) == map[1 := b, 2 := b]
  {
    var frames := TwinTransaction(b).frames;
    assert frames[..1] == [Frame(1, b)] && frames[..1][..0] == [];
    assert Overlaid(map[], frames[..1]) == map[][1 := b];
    assert map[1 := b][2 := b] == map[1 := b, 2 := b];
  }

  /** With an empty log, recovery gives what the file holds. */
  lemma TwinFileShows(databaseId: nat, a: Image, b: Image)
    ensures Whole(TwinFile(databaseId, a, b)) && TwinFile(databaseId, a, b).header.databaseId == databaseId
    ensures Shown(TwinFile(databaseId, a, b), EmptyLog(databaseId), TwinPages(databaseId, a, b))
    ensures Recover(TwinFile(databaseId, a, b), EmptyLog(databaseId)) == Ok(TwinPages(databaseId, a, b))
  {
    var d, db := TwinFile(databaseId, a, b), TwinPages(databaseId, a, b);
    EmptyGives(databaseId);
    OnlyFileShows(d, map[], db);
    hide Recover;
    ShownRecovers(d, EmptyLog(databaseId), db);
  }

  lemma TwinLogShows(databaseId: nat, a: Image, b: Image)
    ensures Shown(TwinFile(databaseId, a, a), TwinLog(databaseId, b), TwinPages(databaseId, b, b))
  {
    TwinLogGives(databaseId, b);
    OnlyFileShows(TwinFile(databaseId, a, a), map[1 := b, 2 := b], TwinPages(databaseId, b, b));
  }

  /** The twin files can be opened, and what a crash may leave of their log includes the empty one. */
  lemma TwinHeld(databaseId: nat, a: Image, b: Image, left: Log)
    ensures var d, log, recent := TwinFile(databaseId, a, a), TwinLog(databaseId, b), TwinRecent(databaseId, b);
      && Whole(d) && log in recent && (forall l :: l in recent ==> Sound(l) && l.size <= log.size)
      && EmptyLog(databaseId) in RecentOpened(log, d.header.databaseId, left, recent)
  {
    TwinLogGives(databaseId, b);
  }

  /** What a crash may leave of the twin log before it is synced. */
  ghost function TwinRecent(databaseId: nat, b: Image): iset<Log> {
    iset{TwinLog(databaseId, b), EmptyLog(databaseId)}
  }

  /** The transaction in the twin log is in doubt. */
  lemma TwinEitherShown(databaseId: nat, a: Image, b: Image)
    ensures EitherShown(iset{TwinFile(databaseId, a, a)}, TwinRecent(databaseId, b), iset{}, databaseId,
                        TwinPages(databaseId, a, a), TwinPages(databaseId, b, b))
  {
    TwinSecure(databaseId, a, b);
    hide Secure, TwinFile, TwinLog, TwinPages, EmptyLog, Unreadable;
  }

  lemma TwinSecure(databaseId: nat, a: Image, b: Image)
    ensures Secure(iset{TwinFile(databaseId, a, a)}, TwinLog(databaseId, b), databaseId, TwinPages(databaseId, b, b))
    ensures Secure(iset{TwinFile(databaseId, a, a)}, EmptyLog(databaseId), databaseId, TwinPages(databaseId, a, a))
  {
    hide Secure, Recover, TwinFile, TwinLog, EmptyLog;
    TwinLogShows(databaseId, a, b);
    TwinFileShows(databaseId, a, a);
  }

  /** Opened with the transaction, the twin files are not safe: the empty log still shows the old pages. */
  lemma TwinUnsafe(databaseId: nat, a: Image, b: Image)
    requires a != b
    ensures var d, log := TwinFile(databaseId, a, a), TwinLog(databaseId, b);
      !AllHeldShown(iset{d}, log, d.header.databaseId, TwinRecent(databaseId, b), iset{}, TwinPages(databaseId, b, b))
  {
    var d := TwinFile(databaseId, a, a);
    TwinLogGives(databaseId, b);
    TwinFileShows(databaseId, a, a);
    assert TwinPages(databaseId, a, a).pages[1] == a && TwinPages(databaseId, b, b).pages[1] == b;
    hide Shown, Recover, TwinLog, TwinPages;
    if Shown(d, EmptyLog(databaseId), TwinPages(databaseId, b, b)) {
      ShownRecovers(d, EmptyLog(databaseId), TwinPages(databaseId, b, b));
    }
    assert Held(EmptyLog(databaseId), TwinLog(databaseId, b), databaseId, TwinRecent(databaseId, b), iset{});
  }

  lemma TwinPut(databaseId: nat, a: Image, b: Image)
    ensures Put(TwinFile(databaseId, a, a), 1, b) == TwinFile(databaseId, b, a)
  {
    assert map[1 := a, 2 := a][1 := b] == map[1 := b, 2 := a];
  }
}
