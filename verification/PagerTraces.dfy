/** Where the pages of a recovered database come from, when a crash may leave files that do not belong
    together. */
module PagerTraces {
  import opened PageIds
  import opened PageImages
  import opened Status
  import opened Disks
  import opened WalFormat
  import opened WalScanner
  import opened LogScans
  import opened Recovery
  import opened LogWrites
  import opened WalManagers
  import opened PagerCrash

  /** A page that one of the sources has, or that nothing was written to. */
  ghost predicate Drawn(p: PageId, image: Image, sources: iset<Db>) {
    image == ZeroPage() || exists s :: s in sources && p in s.pages && s.pages[p] == image
  }

  ghost predicate HeaderDrawn(h: DatabaseHeader, sources: iset<Db>) {
    exists s :: s in sources && s.header == h
  }

  /** The header is that of one of the sources, and so is each page, or it reads as zeros. */
  ghost predicate DrawnFrom(db: Db, sources: iset<Db>) {
    HeaderDrawn(db.header, sources) && forall p :: p in db.pages ==> Drawn(p, db.pages[p], sources)
  }

  /** The file with the images over it has only what the sources have. */
  ghost predicate Yields(d: Disk, images: map<PageId, Image>, sources: iset<Db>) {
    && HeaderDrawn(HeaderFrom(d, images), sources)
    && (forall p :: p in images && p != HEADER_PAGE_ID ==> Drawn(p, images[p], sources))
    && (forall p :: p in d.pages && p !in images ==> Drawn(p, d.pages[p], sources))
  }

  ghost predicate AllYield(ds: iset<Disk>, images: map<PageId, Image>, sources: iset<Db>) {
    forall d :: d in ds ==> Yields(d, images, sources)
  }

  /** Over every file the log has only what the sources have, or it is refused. */
  ghost predicate Traced(ds: iset<Disk>, log: Log, databaseId: nat, sources: iset<Db>) {
    || Unreadable(log, databaseId)
    || exists images :: Gives(log, databaseId, images) && AllYield(ds, images, sources)
  }

  ghost predicate AllTraced(ds: iset<Disk>, logs: iset<Log>, databaseId: nat, sources: iset<Db>) {
    forall l :: l in logs ==> Traced(ds, l, databaseId, sources)
  }

  /** What reopening makes of traced files. */
  lemma TracedRecovers(ds: iset<Disk>, log: Log, databaseId: nat, sources: iset<Db>, d: Disk)
    requires Traced(ds, log, databaseId, sources) && d in ds && d.header.databaseId == databaseId
    ensures var r := Recover(d, log);
      r == Err(Corruption) || (r.Ok? && DrawnFrom(r.value, sources))
  {
    if Unreadable(log, databaseId) {
      UnreadableRefused(d, log);
    } else {
      var images :| Gives(log, databaseId, images) && AllYield(ds, images, sources);
      YieldsDb(d, images, sources);
      hide Yields, DrawnFrom;
      assert Yields(d, images, sources);
    }
  }

  lemma YieldsDb(d: Disk, images: map<PageId, Image>, sources: iset<Db>)
    requires Yields(d, images, sources)
    ensures DrawnFrom(DbOf(d, images), sources)
  {
  }

  // ---- Where traces come from ------------------------------------------------------------------

  lemma ShowsYields(d: Disk, images: map<PageId, Image>, db: Db, sources: iset<Db>)
    requires Shows(d, images, db) && db in sources
    ensures Yields(d, images, sources)
  {
  }

  lemma AllShowYield(ds: iset<Disk>, images: map<PageId, Image>, db: Db, sources: iset<Db>)
    requires AllShow(ds, images, db) && db in sources
    ensures AllYield(ds, images, sources)
  {
    hide Shows, Yields;
    forall d | d in ds ensures Yields(d, images, sources) {
      ShowsYields(d, images, db, sources);
    }
  }

  lemma SecureTraced(ds: iset<Disk>, log: Log, databaseId: nat, db: Db, sources: iset<Db>)
    requires Secure(ds, log, databaseId, db) && db in sources
    ensures Traced(ds, log, databaseId, sources)
  {
    hide Gives, AllShow, AllYield, Unreadable;
    var images :| Gives(log, databaseId, images) && AllShow(ds, images, db);
    AllShowYield(ds, images, db, sources);
  }

  lemma AllSecureTraced(ds: iset<Disk>, logs: iset<Log>, databaseId: nat, db: Db, sources: iset<Db>)
    requires AllSecure(ds, logs, databaseId, db) && db in sources
    ensures AllTraced(ds, logs, databaseId, sources)
  {
    hide Secure, Traced;
    forall l | l in logs ensures Traced(ds, l, databaseId, sources) {
      SecureTraced(ds, l, databaseId, db, sources);
    }
  }

  // ---- What keeps them ---------------------------------------------------------------------------

  lemma YieldsMore(d: Disk, images: map<PageId, Image>, sources: iset<Db>, more: iset<Db>)
    requires Yields(d, images, sources) && forall s :: s in sources ==> s in more
    ensures Yields(d, images, more)
  {
  }

  lemma AllTracedMore(ds: iset<Disk>, logs: iset<Log>, databaseId: nat, sources: iset<Db>, more: iset<Db>)
    requires AllTraced(ds, logs, databaseId, sources) && forall s :: s in sources ==> s in more
    ensures AllTraced(ds, logs, databaseId, more)
  {
    hide Gives, Unreadable, Yields;
    forall l | l in logs ensures Traced(ds, l, databaseId, more) {
      if !Unreadable(l, databaseId) {
        var images :| Gives(l, databaseId, images) && AllYield(ds, images, sources);
        forall d | d in ds ensures Yields(d, images, more) {
          YieldsMore(d, images, sources, more);
        }
        assert AllYield(ds, images, more);
      }
    }
  }

  lemma WriteYields(b: Disk, d: Disk, images: map<PageId, Image>, db: Db, sources: iset<Db>)
    requires Yields(b, images, sources) && CommittedWrite(b, d, db) && db in sources
    ensures Yields(d, images, sources)
  {
    forall p | p in d.pages && p !in images ensures Drawn(p, d.pages[p], sources) {
      assert p in b.pages ==> Drawn(p, b.pages[p], sources);
    }
  }

  /** Writing pages of a source over the file. */
  lemma WritesTraced(before: iset<Disk>, after: iset<Disk>, logs: iset<Log>, databaseId: nat, db: Db, sources: iset<Db>)
    requires AllTraced(before, logs, databaseId, sources) && OnlyCommittedWrites(before, after, db) && db in sources
    ensures AllTraced(after, logs, databaseId, sources)
  {
    hide Gives, Unreadable, Yields, CommittedWrite;
    forall l | l in logs ensures Traced(after, l, databaseId, sources) {
      if !Unreadable(l, databaseId) {
        var images :| Gives(l, databaseId, images) && AllYield(before, images, sources);
        forall d | d in after ensures Yields(d, images, sources) {
          if d !in before {
            var b :| b in before && CommittedWrite(b, d, db);
            WriteYields(b, d, images, db, sources);
          }
        }
        assert AllYield(after, images, sources);
      }
    }
  }

  /** Changes that lead to a source. */
  lemma ChangesYield(d: Disk, images: map<PageId, Image>, changes: map<PageId, Image>, db: Db, sources: iset<Db>)
    requires Yields(d, images, sources) && Applicable(db, changes) && Committed(db, changes) in sources
    ensures Yields(d, images + changes, sources)
  {
    var after := Committed(db, changes);
    forall p | p in changes && p != HEADER_PAGE_ID ensures Drawn(p, changes[p], sources) {
      assert p in after.pages && after.pages[p] == changes[p];
    }
    assert HEADER_PAGE_ID in changes ==> after.header == changes[HEADER_PAGE_ID].header;
  }

  lemma StemTraced(ds: iset<Disk>, b: Log, l: Log, databaseId: nat, changes: map<PageId, Image>, db: Db,
                   sources: iset<Db>)
    requires StemsFrom(b, l, databaseId, changes) && Traced(ds, b, databaseId, sources)
    requires Applicable(db, changes) && Committed(db, changes) in sources
    ensures Traced(ds, l, databaseId, sources)
  {
    hide Gives, Unreadable, Yields, Applicable;
    if !Unreadable(l, databaseId) {
      var images :| Gives(b, databaseId, images) && AllYield(ds, images, sources);
      forall d | d in ds ensures Yields(d, images + changes, sources) {
        ChangesYield(d, images, changes, db, sources);
      }
      assert AllYield(ds, images + changes, sources);
    }
  }

  /** A commit that failed adds the database that it was to produce. */
  lemma StemmingTraced(ds: iset<Disk>, before: iset<Log>, recent: iset<Log>, databaseId: nat,
                       changes: map<PageId, Image>, db: Db, sources: iset<Db>)
    requires Stemming(before, recent, databaseId, changes) && AllTraced(ds, before, databaseId, sources)
    requires Applicable(db, changes) && Committed(db, changes) in sources
    ensures AllTraced(ds, recent, databaseId, sources)
  {
    hide StemsFrom, Traced, Applicable;
    forall l | l in recent ensures Traced(ds, l, databaseId, sources) {
      var b :| b in before && StemsFrom(b, l, databaseId, changes);
      StemTraced(ds, b, l, databaseId, changes, db, sources);
    }
  }

  /** Dropping the log once the file alone shows a source. */
  lemma DroppedTraced(ds: iset<Disk>, recent: iset<Log>, older: iset<Log>, recent': iset<Log>, older': iset<Log>,
                      databaseId: nat, db: Db, sources: iset<Db>)
    requires AllTraced(ds, recent, databaseId, sources) && AllTraced(ds, older, databaseId, sources)
    requires AllShow(ds, map[], db) && db in sources && DroppedFrom(recent, older, recent', older', databaseId)
    ensures AllTraced(ds, recent', databaseId, sources) && AllTraced(ds, older', databaseId, sources)
  {
    AllShowYield(ds, map[], db, sources);
    hide Unreadable, AllYield;
    forall l | Gives(l, databaseId, map[]) ensures Traced(ds, l, databaseId, sources) {
    }
    hide Gives, Traced;
  }

  // ---- Opening files that were not synced ----------------------------------------------------------

  /** The log that is about to be opened shows db over every file that a crash may leave, and whatever a
      crash may leave of it is made of the sources. */
  ghost predicate Continued(disks: iset<Disk>, log: Log, recent: iset<Log>, older: iset<Log>, databaseId: nat, db: Db,
                            sources: iset<Db>) {
    && databaseId == db.header.databaseId && SameId(disks, databaseId) && Ours(recent, databaseId) && db in sources
    && Secure(disks, log, databaseId, db)
    && AllTraced(disks, recent, databaseId, sources) && AllTraced(disks, older, databaseId, sources)
  }

  lemma ContinuedShown(disks: iset<Disk>, log: Log, recent: iset<Log>, older: iset<Log>, databaseId: nat, db: Db,
                       sources: iset<Db>, d: Disk)
    requires d in disks && Continued(disks, log, recent, older, databaseId, db, sources)
    ensures Shown(d, log, db)
  {
    SecureShown(disks, db, d, log);
  }

  /** Opening keeps that. */
  lemma ContinuedOpens(disks: iset<Disk>, log: Log, databaseId: nat, left: Log, recent: iset<Log>, older: iset<Log>,
                       images: map<PageId, Image>, db: Db, sources: iset<Db>, d: Disk)
    requires d in disks && log in recent && Sound(log) && Continued(disks, log, recent, older, databaseId, db, sources)
    requires OpenImages(log, databaseId) == Ok(images) && Gives(left, databaseId, images) &&
      left.header == Some(databaseId)
    ensures AllShow(disks, images, db)
    ensures Ours(RecentOpened(log, databaseId, left, recent), databaseId)
    ensures AllTraced(disks, RecentOpened(log, databaseId, left, recent), databaseId, sources)
    ensures AllTraced(disks, OlderOpened(log, databaseId, older), databaseId, sources)
  {
    hide AllShow, ScanOf;
    OpenGives(log, databaseId, images);
    SecureGives(disks, log, images, databaseId, db);
    AllShowYield(disks, images, db, sources);
    hide Shows, Yields, Unreadable;
    forall l | l in RecentOpened(log, databaseId, left, recent) ensures Traced(disks, l, databaseId, sources) {
      if log.size == 0 {
        HeaderlessGives(l, log, databaseId, left, recent, images);
      }
      hide Gives;
      assert Gives(l, databaseId, images) || l in recent;
    }
  }

  /** Opening leaves a log that has whole transactions up to its end, whatever of it a crash leaves. */
  ghost predicate LevelOpened(log: Log, databaseId: nat, recent: iset<Log>) {
    log.size == 0 || CutAtOpening(log, databaseId) || forall l :: l in recent ==> Levelled(l, databaseId, log.size)
  }

  lemma OpenedLevel(log: Log, databaseId: nat, left: Log, recent: iset<Log>)
    requires LevelOpened(log, databaseId, recent) && WholeRead(left, databaseId)
    requires CutAtOpening(log, databaseId) || log.size == 0 || left == log
    ensures forall l :: l in RecentOpened(log, databaseId, left, recent) ==> Levelled(l, databaseId, left.size)
  {
  }

  /** Files on the medium that show db. */
  lemma ShownContinues(d: Disk, log: Log, db: Db)
    requires Shown(d, log, db)
    ensures Continued(iset{d}, log, iset{log}, iset{}, d.header.databaseId, db, iset{db})
  {
    assert d in iset{d};
    SecureId(iset{d}, log, db.header.databaseId, db, d);
    SecureTraced(iset{d}, log, db.header.databaseId, db, iset{db});
    SecureOurs(iset{d}, iset{log}, db.header.databaseId, db);
  }

  lemma AloneLevel(d: Disk, log: Log)
    requires Recover(d, log).Ok? && Sound(log)
    ensures LevelOpened(log, d.header.databaseId, iset{log})
  {
    if log.size != 0 {
      ScanAccepts(log, d.header.databaseId);
    }
  }
}
