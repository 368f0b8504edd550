/** What reopening makes of a database file and a log file, and when the two together show a given
    committed database. */
module Recovery {
  import opened PageIds
  import opened PageImages
  import opened Status
  import opened Disks
  import opened WalFormat
  import opened WalScanner
  import opened LogScans

  /** A database as its clients see it: the header and pages 1 to pageCount - 1. */
  datatype Db = Db(header: DatabaseHeader, pages: map<PageId, Image>)

  ghost predicate Complete(db: Db) {
    db.header.pageCount >= 1 && forall p :: p in db.pages <==> 1 <= p < db.header.pageCount
  }

  /** The file with the recovered images over it. */
  ghost function DbOf(d: Disk, images: map<PageId, Image>): Db {
    var h :=
      if HEADER_PAGE_ID in images && images[HEADER_PAGE_ID].HeaderImage? then images[HEADER_PAGE_ID].header
      else d.header;
    Db(h, map p | p in d.pages.Keys + images.Keys && 1 <= p < h.pageCount ::
              if p in images then images[p] else d.pages[p])
  }

  /** The whole of opening: the checks on the file, the log scan, and the overlay of what it accepted. */
  ghost function Recover(d: Disk, log: Log): Result<Db> {
    if d.header.pageCount > d.pageCount then Err(Corruption)
    else if log.size == 0 then Ok(DbOf(d, map[]))
    else
      match ScanOf(log, d.header.databaseId)
      case Err(code) => Err(code)
      case Ok(scan) =>
        var images := ImagesOf(log, scan.latest);
        if HEADER_PAGE_ID in images && !images[HEADER_PAGE_ID].HeaderImage? then Err(Corruption)
        else Ok(DbOf(d, images))
  }

  /** The two files that a crash can leave without damaging anything and that opening refuses all the
      same: the header counts pages that the file, not yet extended on the medium, does not have; or the
      log lost part of its own 64-byte header. */
  ghost predicate HalfWritten(d: Disk, log: Log) {
    d.header.pageCount > d.pageCount || (log.size > 0 && log.header.None?)
  }

  /** Reopening gives db, except for files caught half written. */
  ghost predicate Recovers(d: Disk, log: Log, db: Db) {
    Recover(d, log) == if HalfWritten(d, log) then Err(Corruption) else Ok(db)
  }

  // ---- What the two files must hold --------------------------------------------------------

  /** The file with the images over it shows db. */
  ghost predicate Shows(d: Disk, images: map<PageId, Image>, db: Db) {
    && Whole(d) && Complete(db) && d.pageCount <= db.header.pageCount && d.header.databaseId == db.header.databaseId
    && (if HEADER_PAGE_ID in images then images[HEADER_PAGE_ID] == HeaderImage(db.header) else d.header == db.header)
    && (forall p :: p in images ==> 0 <= p < db.header.pageCount)
    && (forall p :: p in db.pages ==>
        if p in images then images[p] == db.pages[p] else p in d.pages && d.pages[p] == db.pages[p])
  }

  /** The images that a log gives: those a scan accepts, or none while the log has no header yet. */
  ghost predicate Gives(log: Log, databaseId: nat, images: map<PageId, Image>) {
    if log.header.None? then images == map[]
    else
      log.size >= WAL_HEADER_SIZE && ScanOf(log, databaseId).Ok? &&
        images == ImagesOf(log, ScanOf(log, databaseId).value.latest)
  }

  lemma ShownIsRecovered(d: Disk, log: Log, images: map<PageId, Image>, db: Db)
    requires Shows(d, images, db) && Gives(log, db.header.databaseId, images)
    ensures Recovers(d, log, db)
  {
    if !HalfWritten(d, log) {
      var shown := DbOf(d, images).pages;
      forall p ensures p in shown <==> p in db.pages {
        assert p in db.pages ==> p in d.pages.Keys + images.Keys;
      }
      assert shown == db.pages;
    }
  }

  // ---- What keeps the files showing a database ---------------------------------------------

  lemma PutShows(d: Disk, images: map<PageId, Image>, db: Db, p: PageId)
    requires Shows(d, images, db) && p in db.pages
    ensures Shows(Put(d, p, db.pages[p]), images, db)
  {
  }

  lemma PutHeaderShows(d: Disk, images: map<PageId, Image>, db: Db)
    requires Shows(d, images, db)
    ensures Shows(PutHeader(d, db.header), images, db)
  {
  }

  lemma ExtendedShows(d: Disk, images: map<PageId, Image>, db: Db)
    requires Shows(d, images, db)
    ensures Shows(Extended(d, db.header.pageCount), images, db)
  {
  }

  /** db after a transaction's frames. */
  ghost function Committed(db: Db, changes: map<PageId, Image>): Db {
    Db(if HEADER_PAGE_ID in changes && changes[HEADER_PAGE_ID].HeaderImage? then changes[HEADER_PAGE_ID].header
       else db.header,
       map p | p in db.pages.Keys + changes.Keys && p != HEADER_PAGE_ID ::
         if p in changes then changes[p] else db.pages[p])
  }

  /** The changes are a header image for page 0 and images of pages up to the new page count, with every
      new page among them. */
  ghost predicate Applicable(db: Db, changes: map<PageId, Image>) {
    && (HEADER_PAGE_ID in changes ==>
          changes[HEADER_PAGE_ID].HeaderImage? && changes[HEADER_PAGE_ID].header.databaseId == db.header.databaseId &&
          changes[HEADER_PAGE_ID].header.pageCount >= db.header.pageCount)
    && Complete(Committed(db, changes))
    && forall p :: p in changes ==> 0 <= p < Committed(db, changes).header.pageCount
  }

  lemma CommitShows(d: Disk, images: map<PageId, Image>, db: Db, changes: map<PageId, Image>)
    requires Shows(d, images, db) && Applicable(db, changes)
    ensures Shows(d, images + changes, Committed(db, changes))
  {
  }
}
