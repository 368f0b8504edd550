/** The transactional page store: reads and writes through the buffer pool, commit through the log,
    rollback from before-images, and checkpoints into the database file. */
module Pagers {
  import opened Sets
  import opened PageIds
  import opened PageImages
  import opened Status
  import opened Disks
  import opened WalFormat
  import opened WalScanner
  import opened LogScans
  import opened Recovery
  import opened LogWrites
  import opened WalManagers
  import opened BufferPool
  import opened PagerViews
  import opened PagerCrash
  import opened PagerTraces
  import opened Transactions

  /** The elements of an unordered set, in some order. */
  method Listed(s: set<PageId>) returns (order: seq<PageId>)
    ensures NoDuplicates(order) && forall p :: p in order <==> p in s
  {
    order := [];
    var rest := s;
    while rest != {}
      invariant NoDuplicates(order) && rest <= s
      invariant forall p :: p in s <==> p in order || p in rest
      invariant forall p :: p in order ==> p !in rest
      decreases |rest|
    {
      ghost var some := Member(rest);
      var p :| p in rest;
      rest := rest - {p};
      order := order + [p];
    }
  }

  class Pager {
    const disk: DiskManager
    const wal: WalManager
    const pool: BufferPoolManager
    var header: DatabaseHeader
    var committedHeader: DatabaseHeader
    var recovered: map<PageId, Image>
    var transaction: TransactionState
    var nextTransactionId: nat
    var closed: bool
    /** The pins that clients hold. */
    ghost var pins: multiset<Handle>
    /** The images that the log gives. */
    ghost var logImages: map<PageId, Image>
    /** Whether a commit was not acknowledged, and the database that it was to produce. */
    ghost var inDoubt: bool
    ghost var attempted: Db
    /** The databases whose pages a crash may bring back: the committed one, and while the log was not synced
        after it was opened or after a commit failed, those that the files may hold as well. */
    ghost var sources: iset<Db>

    ghost function StoreView(): Store
      reads this`committedHeader, this`recovered, disk
    {
      Store(committedHeader, recovered, disk.disk)
    }

    ghost function ViewOf(): View
      requires pool.Valid()
      reads this`header, this`committedHeader, this`recovered, this`transaction, this`pins, disk, pool, pool.lru
    {
      View(StoreView(), header, pool.Cached(), transaction, pins)
    }

    ghost predicate Valid()
      reads this`header, this`committedHeader, this`recovered, this`transaction, this`pins, this`inDoubt, disk, pool,
        pool.lru
    {
      pool.Valid() && disk.Valid() && Consistent(ViewOf()) && inDoubt == transaction.IsUnresolved()
    }

    // ---- What the files are worth ------------------------------------------------------------

    /** Nothing that a crash may leave of the two files shows anything but the committed database, or what
        an unresolved commit was to make of it. */
    ghost predicate CrashSafe()
      reads this`committedHeader, this`recovered, this`logImages, this`inDoubt, this`attempted, disk, wal
    {
      var safe := if inDoubt then SafeInDoubt(Committed(), attempted) else Safe(Committed());
      safe
    }

    /** Whatever a crash leaves of the two files shows db. */
    ghost predicate Safe(db: Db)
      reads this`logImages, disk, wal
    {
      var safe := wal.databaseId == db.header.databaseId && wal.Resting(logImages) &&
        AllSecure(disk.possible, wal.recent, wal.databaseId, db) &&
          AllSecure(disk.possible, wal.older, wal.databaseId, db);
      safe
    }

    ghost predicate SafeInDoubt(before: Db, after: Db)
      reads disk, wal
    {
      && wal.databaseId == before.header.databaseId == after.header.databaseId
      && SameId(disk.possible, wal.databaseId) && wal.FilesFit()
      && EitherShown(disk.possible, wal.recent, wal.older, wal.databaseId, before, after)
    }

    /** Whatever a crash leaves of the two files shows db or is refused. */
    ghost predicate GuardedFiles(db: Db)
      reads disk, wal
    {
      && wal.databaseId == db.header.databaseId && SameId(disk.possible, wal.databaseId)
      && AllGuarded(disk.possible, wal.recent, wal.databaseId, db) &&
         AllGuarded(disk.possible, wal.older, wal.databaseId, db)
    }

    /** The log as this process reads it shows db, whatever a crash leaves of the database file. What it
        leaves of the log may show something else. */
    ghost predicate Follows(db: Db)
      reads this`logImages, disk, wal
    {
      var follows := wal.databaseId == db.header.databaseId && wal.Resting(logImages) &&
        AllShow(disk.possible, logImages, db);
      follows
    }

    /** A commit was acknowledged and lost: reopening refuses whatever a crash may leave. */
    ghost predicate Lost()
      reads disk, wal
    {
      var lost := wal.Gapped() && wal.older == iset{} && SameId(disk.possible, wal.databaseId);
      lost
    }

    /** What every step of every run keeps. Outside a commit in doubt the files follow the committed
        database, or a commit was lost; in doubt the log as this process reads it shows the database before
        or after the commit, or is refused. Whatever a crash leaves is made of pages of the sources. */
    ghost predicate Workable()
      reads this`committedHeader, this`recovered, this`logImages, this`inDoubt, this`attempted, this`sources, disk, wal
    {
      var workable := Tracked(Committed()) &&
        if inDoubt then Doubtful(Committed(), attempted) else Follows(Committed()) || Lost();
      workable
    }

    ghost predicate Tracked(db: Db)
      reads this`sources, disk, wal
    {
      && wal.databaseId == db.header.databaseId && SameId(disk.possible, wal.databaseId)
      && wal.FilesFit() && Ours(wal.recent, wal.databaseId) && db in sources
      && AllTraced(disk.possible, wal.recent, wal.databaseId, sources)
      && AllTraced(disk.possible, wal.older, wal.databaseId, sources)
    }

    ghost predicate Doubtful(before: Db, after: Db)
      reads this`sources, disk, wal
    {
      && after in sources && after.header.databaseId == wal.databaseId
      && EitherSecure(disk.possible, wal.log, wal.databaseId, before, after)
    }

    /** Whatever a crash leaves, reopening gives the committed database; after a commit that was not
        acknowledged it gives the database before or after it, or is refused. Either way the files show
        the database that is recovered, so a pager opened on them starts out safe again. */
    lemma CrashRecovers(d: Disk, log: Log)
      requires CrashSafe() && d in disk.possible && (log in wal.recent || log in wal.older)
      ensures !inDoubt ==> Shown(d, log, Committed()) && Recovers(d, log, Committed())
      ensures inDoubt ==>
        || (Shown(d, log, Committed()) && Recovers(d, log, Committed()))
        || (Shown(d, log, attempted) && Recovers(d, log, attempted))
        || Recover(d, log) == Err(Corruption)
    {
      if !inDoubt || Secure(disk.possible, log, wal.databaseId, Committed()) {
        SecureShown(disk.possible, Committed(), d, log);
        ShownRecovers(d, log, Committed());
      } else if Secure(disk.possible, log, wal.databaseId, attempted) {
        SecureShown(disk.possible, attempted, d, log);
        ShownRecovers(d, log, attempted);
      } else {
        assert EitherSecure(disk.possible, log, wal.databaseId, Committed(), attempted);
        UnreadableRefused(d, log);
      }
    }

    /** Guarded files recover to db, or they are refused. */
    lemma GuardedRecovers(d: Disk, log: Log, db: Db)
      requires GuardedFiles(db) && d in disk.possible && (log in wal.recent || log in wal.older)
      ensures (Shown(d, log, db) && Recovers(d, log, db)) || Recover(d, log) == Err(Corruption)
    {
      assert Guarded(disk.possible, log, wal.databaseId, db);
      if Secure(disk.possible, log, wal.databaseId, db) {
        SecureShown(disk.possible, db, d, log);
        ShownRecovers(d, log, db);
      } else {
        UnreadableRefused(d, log);
      }
    }

    /** Even files that do not belong together recover to pages and a header of the sources, or are refused. */
    lemma CrashTraces(d: Disk, log: Log)
      requires Workable() && d in disk.possible && (log in wal.recent || log in wal.older)
      ensures var r := Recover(d, log);
        r == Err(Corruption) || (r.Ok? && DrawnFrom(r.value, sources))
    {
      assert Traced(disk.possible, log, wal.databaseId, sources);
      TracedRecovers(disk.possible, log, wal.databaseId, sources, d);
    }

    lemma SafeParts(db: Db)
      requires Safe(db)
      ensures wal.databaseId == db.header.databaseId && wal.Resting(logImages) && Ours(wal.recent, wal.databaseId)
      ensures AllSecure(disk.possible, wal.recent, wal.databaseId, db) &&
        AllSecure(disk.possible, wal.older, wal.databaseId, db)
      ensures AllShow(disk.possible, logImages, db) && Follows(db)
    {
      SecureOurs(disk.possible, wal.recent, wal.databaseId, db);
      SecureGives(disk.possible, wal.log, logImages, wal.databaseId, db);
    }

    lemma PartsAreSafe(db: Db)
      requires wal.databaseId == db.header.databaseId && wal.Resting(logImages)
      requires AllSecure(disk.possible, wal.recent, wal.databaseId, db) &&
        AllSecure(disk.possible, wal.older, wal.databaseId, db)
      ensures Safe(db)
    {
    }

    lemma LostIsRefused()
      requires Lost()
      ensures AllRefused(disk.possible, wal.recent, wal.older)
      ensures forall db: Db :: db.header.databaseId == wal.databaseId ==> GuardedFiles(db)
      ensures forall db :: !Safe(db) && !Follows(db)
      ensures forall s ::
        AllTraced(disk.possible, wal.recent, wal.databaseId, s) &&
        AllTraced(disk.possible, wal.older, wal.databaseId, s)
      ensures Ours(wal.recent, wal.databaseId)
    {
      GapsRefused(disk.possible, wal.recent, wal.databaseId);
    }

    /** The database as of the last commit. */
    ghost function Committed(): Db
      reads this`committedHeader, this`recovered, disk
    {
      CommittedDb(StoreView())
    }

    /** The database as clients see it now. */
    ghost function Working(): Db
      requires pool.Valid() && Consistent(ViewOf())
      reads this`header, this`committedHeader, this`recovered, this`transaction, this`pins, disk, pool, pool.lru
    {
      WorkingDb(ViewOf())
    }

    /** The transaction as the statements above the pager know it: they take the pager for a session whose
        steps are BeginStep, CommitStep, RollbackStep and FailStep, and so are the pager's. */
    ghost function Current(): Snapshot<Db>
      requires Valid()
      reads this, disk, pool, pool.lru
    {
      Snapshot(Working(), Committed(), transaction.status)
    }

    constructor (disk: DiskManager, wal: WalManager, pool: BufferPoolManager, header: DatabaseHeader,
                 recovered: map<PageId, Image>, ghost logImages: map<PageId, Image>, ghost sources: iset<Db>)
      ensures this.sources == sources
      ensures this.disk == disk && this.wal == wal && this.pool == pool && this.logImages == logImages
      ensures this.header == header && committedHeader == header && this.recovered == recovered
      ensures transaction == NO_TRANSACTION && nextTransactionId == 1 && !closed && pins == multiset{} && !inDoubt
    {
      this.disk, this.wal, this.pool := disk, wal, pool;
      this.header, this.committedHeader, this.recovered, this.logImages := header, header, recovered, logImages;
      transaction, nextTransactionId, closed, pins := NO_TRANSACTION, 1, false, multiset{};
      inDoubt, attempted, this.sources := false, Db(header, map[]), sources;
    }

    // ---- Opening ---------------------------------------------------------------------------

    /** Opens the two files as they read now. It refuses exactly the files that Recover refuses; files
        that show a committed database db are opened with exactly that database. disks, recent and older
        are what a crash might leave of the files at this point. Opening syncs nothing unless it cuts
        trailing bytes off the log, so a crash during the new run is safe if and only if the files that
        it may still leave all show the database that was read. left is the log file afterwards. */
    static method Open(d: Disk, log: Log, capacity: nat, ghost disks: iset<Disk>, ghost recent: iset<Log>,
                       ghost older: iset<Log>, ghost db: Db, ghost sources: iset<Db>)
        returns (r: Result<Pager>, left: Log)
      requires d in disks && forall x :: x in disks ==> Whole(x)
      requires log in recent && (forall l :: l in recent ==> Sound(l) && l.size <= log.size) &&
        (forall l :: l in older ==> Sound(l))
      ensures r.Err? && capacity == 0 ==> r.code == InvalidArgument
      ensures r.Err? && capacity > 0 ==> r.code == IoError || (r.code == Corruption && Recover(d, log).Err?)
      ensures r.Ok? ==>
        fresh(r.value) && fresh(r.value.disk) && fresh(r.value.wal) && fresh(r.value.pool) && fresh(r.value.pool.lru)
      ensures r.Ok? ==> capacity > 0 && Recover(d, log).Ok? && r.value.header == Recover(d, log).value.header
      ensures r.Ok? ==> r.value.transaction == NO_TRANSACTION && r.value.wal.Aligned() && r.value.disk.disk == d
      ensures r.Ok? ==> r.value.disk.Valid() && r.value.disk.possible == disks && !r.value.inDoubt
      ensures r.Ok? ==> r.value.wal.recent == RecentOpened(log, d.header.databaseId, left, recent)
      ensures r.Ok? ==>
        (r.value.CrashSafe() <==> AllHeldShown(disks, log, d.header.databaseId, recent, older, r.value.Committed()))
      ensures r.Ok? && Shown(d, log, db) ==> r.value.Valid() && r.value.Committed() == db == r.value.Working()
      ensures r.Ok? && Continued(disks, log, recent, older, d.header.databaseId, db, sources) ==>
        r.value.Workable() && r.value.Follows(db)
      ensures r.Ok? && Continued(disks, log, recent, older, d.header.databaseId, db, sources) ==>
        r.value.sources == sources
      ensures r.Ok? && LevelOpened(log, d.header.databaseId, recent) ==> r.value.wal.Level()
      ensures r == Err(IoError) && log.size != 0 ==> Recover(d, left) == Recover(d, log)
    {
      hide WalManager.Resting, Sound, ScanOf, Shown, AllHeldShown, Continued, Levelled, LevelOpened;
      left := log;
      if capacity == 0 {
        return Err(InvalidArgument), left;
      }
      RecoverFrom(d, log);
      if d.header.pageCount > d.pageCount {
        return Err(Corruption), left;
      }
      var manager;
      manager, left := WalManager.OpenOrCreate(log, d.header.databaseId, recent, older);
      if manager.Err? {
        if manager.code == IoError && log.size != 0 {
          LeftRecovers(d, log, left);
        }
        return Err(manager.code), left;
      }
      r := OpenOnLog(d, manager.value, capacity, disks, OpenImages(log, d.header.databaseId).value, sources);
      if r.Ok? {
        r.value.OpenedSafety(d, log, recent, older);
        r.value.OpenedFilesShow(d, log, recent, older, db);
        r.value.OpenedOnLevel(log, recent);
      }
    }

    /** The rest of open, once the log is. */
    static method OpenOnLog(d: Disk, manager: WalManager, capacity: nat, ghost disks: iset<Disk>,
                            ghost given: map<PageId, Image>, ghost sources: iset<Db>)
        returns (r: Result<Pager>)
      requires capacity > 0 && d in disks && (forall x :: x in disks ==> Whole(x))
      requires manager.databaseId == d.header.databaseId && manager.Resting(given)
      ensures r.Err? ==> r.code == Corruption
      ensures r.Err? <==> BadHeaderImage(given)
      ensures r.Ok? ==>
        fresh(r.value) && fresh(r.value.disk) && fresh(r.value.pool) && fresh(r.value.pool.lru) &&
        r.value.wal == manager
      ensures r.Ok? ==> r.value.OpenedFrom(d, given, disks) && r.value.transaction == NO_TRANSACTION
      ensures r.Ok? ==> r.value.sources == sources
    {
      ScanAccepts(manager.log, manager.databaseId);
      var images := ReadLog(manager.log, d.header.databaseId);
      if HEADER_PAGE_ID in images && images[HEADER_PAGE_ID].DataImage? {
        return Err(Corruption);
      }
      var header := if HEADER_PAGE_ID in images then images[HEADER_PAGE_ID].header else d.header;
      var disk := new DiskManager(d, disks);
      var pool := new BufferPoolManager(capacity);
      var pager := new Pager(disk, manager, pool, header, images - {HEADER_PAGE_ID}, images, sources);
      r := Ok(pager);
    }

    /** The pager right after opening. */
    ghost predicate OpenedFrom(d: Disk, images: map<PageId, Image>, disks: iset<Disk>)
      reads this, disk, pool, pool.lru
    {
      && pool.Valid() && disk.Valid() && pool.Cached() == map[] && disk.disk == d && disk.possible == disks
      && header == committedHeader == HeaderFrom(d, images) && recovered == images - {HEADER_PAGE_ID}
      && transaction == NO_TRANSACTION && pins == multiset{} && logImages == images && !inDoubt
    }

    /** Right after opening. */
    lemma OpenedSafety(d: Disk, log: Log, recent: iset<Log>, older: iset<Log>)
      requires OpenedFrom(d, logImages, disk.possible) && wal.databaseId == d.header.databaseId
      requires log in recent && forall l :: l in recent ==> Sound(l) && l.size <= log.size
      requires OpenImages(log, wal.databaseId) == Ok(logImages) && wal.Resting(logImages)
      requires wal.recent == RecentOpened(log, wal.databaseId, wal.log, recent)
      requires wal.older == OlderOpened(log, wal.databaseId, older)
      ensures CrashSafe() <==> AllHeldShown(disk.possible, log, wal.databaseId, recent, older, Committed())
    {
      hide ScanOf, Sound;
      if CrashSafe() {
        hide CrashSafe;
        SecureOpened(disk.possible, log, wal.databaseId, wal.log, recent, older, logImages, Committed());
      }
      if AllHeldShown(disk.possible, log, wal.databaseId, recent, older, Committed()) {
        OpenedSecure(disk.possible, log, wal.databaseId, wal.log, recent, older, logImages, Committed(), d);
      }
    }

    /** Right after opening files that show db. */
    lemma OpenedFilesShow(d: Disk, log: Log, recent: iset<Log>, older: iset<Log>, db: Db)
      requires OpenedFrom(d, logImages, disk.possible) && wal.databaseId == d.header.databaseId
      requires OpenImages(log, wal.databaseId) == Ok(logImages) && wal.Resting(logImages)
      requires wal.recent == RecentOpened(log, wal.databaseId, wal.log, recent)
      requires wal.older == OlderOpened(log, wal.databaseId, older)
      requires log in recent && forall l :: l in recent ==> Sound(l) && l.size <= log.size
      ensures Shown(d, log, db) ==> Valid() && Committed() == db == Working()
      ensures Continued(disk.possible, log, recent, older, wal.databaseId, db, sources) ==> Workable() && Follows(db)
    {
      hide Valid, Committed, Working, Shown, Workable, Follows, Continued, ScanOf, WalManager.Resting;
      if Shown(d, log, db) {
        ShownImages(d, log, db);
        OpenedIsValid(d, logImages, db);
      }
      if Continued(disk.possible, log, recent, older, wal.databaseId, db, sources) {
        ContinuedShown(disk.possible, log, recent, older, wal.databaseId, db, sources, d);
        OpenedWorks(d, log, recent, older, db);
      }
    }

    lemma OpenedOnLevel(log: Log, recent: iset<Log>)
      requires wal.recent == RecentOpened(log, wal.databaseId, wal.log, recent) && wal.Resting(logImages)
      requires CutAtOpening(log, wal.databaseId) || log.size == 0 || wal.log == log
      ensures LevelOpened(log, wal.databaseId, recent) ==> wal.Level()
    {
      if LevelOpened(log, wal.databaseId, recent) {
        OpenedLevel(log, wal.databaseId, wal.log, recent);
      }
    }

    lemma OpenedWorks(d: Disk, log: Log, recent: iset<Log>, older: iset<Log>, db: Db)
      requires OpenedFrom(d, logImages, disk.possible) && wal.databaseId == d.header.databaseId
      requires OpenImages(log, wal.databaseId) == Ok(logImages) && wal.Resting(logImages) && Committed() == db
      requires wal.recent == RecentOpened(log, wal.databaseId, wal.log, recent)
      requires wal.older == OlderOpened(log, wal.databaseId, older)
      requires log in recent && forall l :: l in recent ==> Sound(l) && l.size <= log.size
      requires Continued(disk.possible, log, recent, older, wal.databaseId, db, sources)
      ensures Workable() && Follows(db)
    {
      hide ScanOf, RecentOpened, OlderOpened, AllTraced, Ours, Gives, Sound;
      ContinuedOpens(disk.possible, log, wal.databaseId, wal.log, recent, older, logImages, db, sources, d);
    }

    /** When cutting the log could not be confirmed, the file left behind recovers the same. */
    static lemma LeftRecovers(d: Disk, log: Log, left: Log)
      requires d.header.pageCount <= d.pageCount && log.size != 0 && OpenImages(log, d.header.databaseId).Ok?
      requires left.header.Some? && Gives(left, d.header.databaseId, OpenImages(log, d.header.databaseId).value)
      ensures Recover(d, left) == Recover(d, log)
    {
    }

    lemma OpenedIsValid(d: Disk, images: map<PageId, Image>, db: Db)
      requires OpenedFrom(d, images, disk.possible) && Shows(d, images, db)
      ensures Valid() && Committed() == db == Working()
    {
      hide WorkingImage;
      OpenedShows(d, images, header, db);
      assert ViewOf() == OpenedView(d, images, header);
    }

    /** Opening the two files that a crash or a shutdown of the whole system left: what is read is what the
        medium holds. Files that show a database are opened safely. */
    static method OpenAfterCrash(d: Disk, log: Log, capacity: nat, ghost db: Db) returns (r: Result<Pager>, left: Log)
      requires Whole(d) && Sound(log)
      ensures r.Ok? ==> fresh(r.value) && Recover(d, log).Ok?
      ensures r.Ok? && Shown(d, log, db) ==>
        r.value.Valid() && r.value.Workable() && r.value.CrashSafe() && r.value.wal.Level()
      ensures r.Ok? && Shown(d, log, db) ==>
        r.value.Committed() == db == r.value.Working() && r.value.sources == iset{db}
      ensures r.Err? ==> capacity == 0 || r.code == IoError || (r.code == Corruption && Recover(d, log).Err?)
    {
      hide Shown, Sound, Whole, Consistent, ScanOf, AllHeldShown, RecentOpened, Recover, Continued;
      if Shown(d, log, db) {
        ShownHeld(d, log, d.header.databaseId, db);
        ShownContinues(d, log, db);
      }
      r, left := Open(d, log, capacity, iset{d}, iset{log}, iset{}, db, iset{db});
      if r.Ok? {
        AloneLevel(d, log);
      }
    }

    /** Opening the files of a pager that ended without a crash of the system in between. The new pager has
        the database that was committed, or what a commit in doubt was to make of it, and can go on from
        there. It is safe if and only if what a crash may still leave shows that database. After a lost
        commit there is nothing to open. */
    method Reopen(capacity: nat) returns (r: Result<Pager>, left: Log)
      requires Valid() && Workable()
      ensures r.Ok? ==> fresh(r.value) && r.value.Valid() && r.value.Workable() && r.value.Follows(r.value.Committed())
      ensures r.Ok? ==> r.value.Committed() == r.value.Working() && r.value.wal.Aligned() && r.value.sources == sources
      ensures r.Ok? ==> r.value.Committed() == Committed() || (inDoubt && r.value.Committed() == attempted)
      ensures r.Ok? ==> Recover(disk.disk, wal.log).Ok? && Shown(disk.disk, wal.log, r.value.Committed())
      ensures r.Ok? ==>
        (r.value.CrashSafe() <==>
           AllHeldShown(disk.possible, wal.log, wal.databaseId, wal.recent, wal.older, r.value.Committed()))
      ensures r.Ok? && !inDoubt && CrashSafe() ==> r.value.CrashSafe()
      ensures r.Ok? && (wal.Level() || CutAtOpening(wal.log, wal.databaseId)) ==> r.value.wal.Level()
      ensures !inDoubt && Lost() ==> r.Err?
    {
      hide CrashSafe, Consistent, Gives, Shows, ScanOf, Sound, Whole, Recover, AllHeldShown, Shown, Follows, Secure;
      hide Workable;
      hide Continued, LevelOpened, Levelled;
      ghost var secure := Secure(disk.possible, wal.log, wal.databaseId, Committed());
      ghost var db := if inDoubt && !secure then attempted else Committed();
      ReopenFits();
      r, left := Open(disk.disk, wal.log, capacity, disk.possible, wal.recent, wal.older, db, sources);
      if r.Ok? {
        ReopenContinues(db);
        if !inDoubt && CrashSafe() {
          SafeHeld();
        }
        ReopenLevel();
      }
    }

    lemma ReopenFits()
      requires disk.Valid() && Workable()
      ensures disk.disk in disk.possible && (forall d :: d in disk.possible ==> Whole(d)) && wal.log in wal.recent
      ensures forall l :: l in wal.recent ==> Sound(l) && l.size <= wal.log.size
      ensures forall l :: l in wal.older ==> Sound(l)
      ensures disk.disk.header.databaseId == wal.databaseId
    {
    }

    lemma ReopenLevel()
      ensures wal.Level() || CutAtOpening(wal.log, wal.databaseId) ==> LevelOpened(wal.log, wal.databaseId, wal.recent)
    {
    }

    lemma ReopenContinues(db: Db)
      requires disk.Valid() && Workable() && Recover(disk.disk, wal.log).Ok?
      requires db == if inDoubt &&
        !Secure(disk.possible, wal.log, wal.databaseId, Committed()) then attempted else Committed()
      ensures Shown(disk.disk, wal.log, db)
      ensures Continued(disk.possible, wal.log, wal.recent, wal.older, wal.databaseId, db, sources)
      ensures inDoubt || !Lost()
    {
      if Unreadable(wal.log, wal.databaseId) {
        UnreadableRefused(disk.disk, wal.log);
      }
      if !inDoubt {
        if Lost() {
          LostIsRefused();
        } else {
          GivesSecure(disk.possible, wal.log, logImages, wal.databaseId, db);
        }
      }
      assert Secure(disk.possible, wal.log, wal.databaseId, db);
      SecureShown(disk.possible, db, disk.disk, wal.log);
    }

    lemma SafeHeld()
      requires disk.Valid() && CrashSafe() && !inDoubt
      ensures AllHeldShown(disk.possible, wal.log, wal.databaseId, wal.recent, wal.older, Committed())
    {
      SafeParts(Committed());
      forall d, l | d in disk.possible && (l in wal.recent || l in wal.older) ensures Shown(d, l, Committed()) {
        SecureShown(disk.possible, Committed(), d, l);
      }
    }

    /** The log that a failed commit left, opened again by the next process. Until the next sync the new run
        is safe if and only if opening cut trailing bytes off the log, or found nothing of the commit in it.
        Found whole, the commit counts as committed although a crash may still undo it: until a commit or a
        checkpoint of the new run succeeds, a crash may bring back pages of either database. */
    method ReopenInDoubt(capacity: nat, ghost size: nat) returns (r: Result<Pager>, left: Log)
      requires Valid() && Workable() && CrashSafe() && inDoubt && InTheLog(size, attempted) && attempted != Committed()
      ensures r.Ok? ==> fresh(r.value) && r.value.Valid() && r.value.Workable() && r.value.Follows(r.value.Committed())
      ensures r.Ok? ==> r.value.Committed() == r.value.Working() && r.value.sources == sources
      ensures r.Ok? ==> r.value.Committed() == Committed() || r.value.Committed() == attempted
      ensures r.Ok? ==> (r.value.CrashSafe() <==> CutAtOpening(wal.log, wal.databaseId) || wal.log.size == size)
      ensures r.Ok? && r.value.CrashSafe() ==> r.value.wal.Level()
    {
      hide CrashSafe, Consistent, Secure, Gives, Shows, ScanOf, Sound, Whole, InTheLog, AllHeldShown, Recover, Shown;
      hide CutAtOpening;
      hide Workable, Follows, WalManager.Level;
      r, left := Reopen(capacity);
      if r.Ok? {
        DoubtSettled(size, r.value.Committed());
      }
    }

    lemma DoubtSettled(size: nat, db: Db)
      requires disk.Valid() && Workable() && CrashSafe() && inDoubt && InTheLog(size, attempted) &&
        attempted != Committed()
      requires db == Committed() || db == attempted
      requires Recover(disk.disk, wal.log).Ok? && Shown(disk.disk, wal.log, db)
      ensures AllHeldShown(disk.possible, wal.log, wal.databaseId, wal.recent, wal.older, db) <==>
        CutAtOpening(wal.log, wal.databaseId) || wal.log.size == size
      ensures wal.log.size == size ==> wal.Level()
    {
      DoubtShown(db);
      if wal.log.size == size {
        DoubtAbsent(size, db);
      } else if !CutAtOpening(wal.log, wal.databaseId) {
        DoubtWhole(size, db);
      }
    }

    lemma DoubtShown(db: Db)
      requires disk.Valid() && Workable() && inDoubt && (db == Committed() || db == attempted)
      requires Recover(disk.disk, wal.log).Ok? && Shown(disk.disk, wal.log, db)
      ensures forall d :: d in disk.possible ==> Shown(d, wal.log, db)
    {
      hide Recover, Secure, ScanOf, Shown, Shows;
      if Unreadable(wal.log, wal.databaseId) {
        UnreadableRefused(disk.disk, wal.log);
      }
      ghost var other := if Secure(disk.possible, wal.log, wal.databaseId, Committed()) then Committed() else attempted;
      assert Secure(disk.possible, wal.log, wal.databaseId, other);
      SecureShown(disk.possible, other, disk.disk, wal.log);
      ShownOnce(disk.disk, wal.log, other, db);
      forall d | d in disk.possible ensures Shown(d, wal.log, db) {
        SecureShown(disk.possible, db, d, wal.log);
      }
    }

    /** Nothing of the commit is in the log, so nothing of it can be on the medium. */
    lemma DoubtAbsent(size: nat, db: Db)
      requires disk.Valid() && Workable() && InTheLog(size, attempted) && wal.log.size == size
      requires Shown(disk.disk, wal.log, db)
      ensures AllHeldShown(disk.possible, wal.log, wal.databaseId, wal.recent, wal.older, db) && wal.Level()
    {
      hide Secure, ScanOf, Recover, Shown, Shows;
      SecureShown(disk.possible, Committed(), disk.disk, wal.log);
      ShownOnce(disk.disk, wal.log, Committed(), db);
      forall d, l | d in disk.possible && Held(l, wal.log, wal.databaseId, wal.recent, wal.older)
        ensures Shown(d, l, db)
      {
        SecureShown(disk.possible, db, d, l);
      }
    }

    /** All of the commit is in the log, and none of it may be on the medium. */
    lemma DoubtWhole(size: nat, db: Db)
      requires disk.Valid() && Workable() && InTheLog(size, attempted) && wal.log.size != size &&
        attempted != Committed()
      requires inDoubt && Recover(disk.disk, wal.log).Ok? && !CutAtOpening(wal.log, wal.databaseId)
      requires Shown(disk.disk, wal.log, db)
      ensures !AllHeldShown(disk.possible, wal.log, wal.databaseId, wal.recent, wal.older, db)
    {
      ScanAccepts(wal.log, wal.databaseId);
      assert WholeRead(wal.log, wal.databaseId);
      ghost var l :| l in wal.recent && Secure(disk.possible, l, wal.databaseId, Committed());
      hide Recover, ScanOf, Gives, Shows, Secure;
      SecureShown(disk.possible, attempted, disk.disk, wal.log);
      ShownOnce(disk.disk, wal.log, attempted, db);
      SecureShown(disk.possible, Committed(), disk.disk, l);
      hide Shown;
      if Shown(disk.disk, l, db) {
        ShownOnce(disk.disk, l, Committed(), db);
      }
      assert Held(l, wal.log, wal.databaseId, wal.recent, wal.older);
    }

    /** Why a commit in doubt has to be settled by the system, not by the next process: page 1 and page 2
        hold a, the log with a transaction that makes both b was written but not synced, the process ends,
        and another opens the file as the system reads it back. The new pager is not safe, and the first
        page that a checkpoint writes makes the files ones that recover to neither database. */
    static method UnsyncedReopenMixes(databaseId: nat, a: Image, b: Image, capacity: nat)
        returns (r: Result<Pager>, left: Log, ghost atOpening: Db, ghost safe: bool)
      requires a != b
      ensures EitherShown(iset{TwinFile(databaseId, a, a)}, TwinRecent(databaseId, b), iset{}, databaseId,
                          TwinPages(databaseId, a, a), TwinPages(databaseId, b, b))
      ensures r.Ok? ==> atOpening == TwinPages(databaseId, b, b) && !safe
      ensures r.Ok? ==>
        exists d, l ::
        d in r.value.disk.possible && l in r.value.wal.recent && Recover(d, l) == Ok(TwinPages(databaseId, b, a))
    {
      hide Recover, Shown, Sound, Gives, TwinFile, TwinLog, TwinPages, TwinRecent, EmptyLog, Whole, AllHeldShown;
      hide RecentOpened, EitherShown;
      var file, log := TwinFile(databaseId, a, a), TwinLog(databaseId, b);
      TwinEitherShown(databaseId, a, b);
      TwinLogShows(databaseId, a, b);
      TwinFileShows(databaseId, b, a);
      TwinPut(databaseId, a, b);
      TwinHeld(databaseId, a, b, log);
      r, left := Open(file, log, capacity, iset{file}, TwinRecent(databaseId, b), iset{}, TwinPages(databaseId, b, b),
                      iset{TwinPages(databaseId, b, b)});
      atOpening := if r.Ok? then r.value.Committed() else TwinPages(databaseId, a, a);
      safe := r.Ok? && r.value.CrashSafe();
      if r.Ok? {
        TwinHeld(databaseId, a, b, left);
        TwinUnsafe(databaseId, a, b);
        var written := r.value.disk.WritePage(1, b);
      }
    }

    /** The images of the log that was just opened. */
    static method ReadLog(log: Log, databaseId: nat) returns (images: map<PageId, Image>)
      requires ScanOf(log, databaseId).Ok?
      ensures images == ImagesOf(log, ScanOf(log, databaseId).value.latest)
    {
      var scan := Scan(log, databaseId);
      ScanAccepts(log, databaseId);
      images := ReadFrames(log, scan.value.latest);
    }

    /** Reads back the frames that a scan accepted. */
    static method ReadFrames(log: Log, latest: map<PageId, nat>) returns (images: map<PageId, Image>)
      requires LatestFrames(log, latest, log.size)
      ensures images == ImagesOf(log, latest)
    {
      var order := Listed(latest.Keys);
      images := map[];
      for i := 0 to |order|
        invariant images.Keys == SetOf(order[..i])
        invariant forall p :: p in images ==>
          p in latest && FrameAt(log, latest[p]) && images[p] == log.records[latest[p]].image
      {
        var p := order[i];
        assert p in order;
        SetOfMore(order, i);
        // The frame decodes, and it is one of the page that the scan recorded it for.
        assert FramePage(log, latest[p], p);
        images := images[p := log.records[latest[p]].image];
      }
      SetOfAll(order, latest.Keys);
      forall p | p in latest ensures FrameAt(log, latest[p]) {
        assert FramePage(log, latest[p], p);
      }
    }

    // ---- Reading ---------------------------------------------------------------------------

    /** Pins a page. Fails for a page outside the database, when every frame is pinned or dirty, and when a
        page that is neither cached nor recovered cannot be read. */
    method GetPage(p: PageId) returns (r: Result<Handle>)
      requires Valid()
      modifies this`pins, pool, pool.lru
      ensures Valid() && Working() == old(Working())
      ensures r.Ok? ==> r.value == Handle(p, false) && pins == old(pins) + multiset{r.value} && p in Working().pages
      ensures r.Err? ==> pins == old(pins) && unchanged(pool) && unchanged(pool.lru)
      ensures r.Err? ==>
        || closed || p !in Working().pages
        || (p !in pool.Cached() && (!pool.HasRoom() || (r.code == IoError && p !in recovered)))
      ensures closed || p == INVALID_PAGE_ID || p == HEADER_PAGE_ID ==> r == Err(InvalidArgument)
      ensures r == Err(InvalidArgument) ==> closed || p !in Working().pages
      ensures r == Err(NotFound) ==> !pool.HasRoom()
      ensures r.Err? ==> r.code == InvalidArgument || r.code == NotFound || r.code == IoError
    {
      if closed {
        return Err(InvalidArgument);
      }
      if p == INVALID_PAGE_ID || p == HEADER_PAGE_ID {
        return Err(InvalidArgument);
      }
      r := PinCached(p);
      if r.Ok? {
        return;
      }
      // The page id is valid, so the only failure left is that the page is not cached.
      r := Fetch(p);
    }

    /** Pins a page that is in the pool. */
    method PinCached(p: PageId) returns (r: Result<Handle>)
      requires Valid() && p != INVALID_PAGE_ID && p != HEADER_PAGE_ID
      modifies this`pins, pool, pool.lru
      ensures Valid() && Working() == old(Working())
      ensures r.Ok? ==> r.value == Handle(p, false) && pins == old(pins) + multiset{r.value} && p in Working().pages
      ensures r.Err? ==> r.code == NotFound && p !in pool.Cached()
      ensures r.Err? ==> pins == old(pins) && unchanged(pool) && unchanged(pool.lru)
    {
      hide PoolOk;
      hide StoreOk, TransactionOk;
      ghost var v := ViewOf();
      var got := pool.GetPage(p);
      if got.Err? {
        return Err(got.code);
      }
      PinnedAgain(v, p);
      pins := pins + multiset{Handle(p, false)};
      assert ViewOf() == v.(cached := v.cached[p := Pinned(v.cached[p])], pins := v.pins + multiset{Handle(p, false)});
      r := Ok(Handle(p, false));
    }

    /** Brings a page that is not cached into the pool. */
    method Fetch(p: PageId) returns (r: Result<Handle>)
      requires Valid() && p != INVALID_PAGE_ID && p !in pool.Cached()
      modifies this`pins, pool, pool.lru
      ensures Valid() && Working() == old(Working())
      ensures r.Ok? ==> r.value == Handle(p, false) && pins == old(pins) + multiset{r.value} && p in Working().pages
      ensures r.Err? ==> pins == old(pins) && unchanged(pool) && unchanged(pool.lru)
      ensures r.Err? ==> p !in Working().pages || !pool.HasRoom() || (r.code == IoError && p !in recovered)
      ensures r == Err(InvalidArgument) ==> p !in Working().pages
      ensures r == Err(NotFound) ==> !pool.HasRoom()
      ensures r.Err? ==> r.code == InvalidArgument || r.code == NotFound || r.code == IoError
    {
      ghost var v := ViewOf();
      var image;
      if p in recovered {
        image := recovered[p];
      } else {
        var read := disk.ReadPage(p);
        if read.Err? {
          if read.code == InvalidArgument {
            NotStored(v, p);
          }
          return Err(read.code);
        }
        image := read.value;
      }
      StoredInside(v, p);
      var cached := pool.CachePage(p, image);
      if cached.Failed? {
        return Err(cached.code);
      }
      ghost var victim :| Evicted(v.cached, victim, p, Slot(image, 1, false), pool.Cached());
      Fetched(v, p, victim, pool.Cached());
      pins := pins + multiset{Handle(p, false)};
      assert ViewOf() == v.(cached := pool.Cached(), pins := v.pins + multiset{Handle(p, false)});
      r := Ok(Handle(p, false));
    }

    /** A page that is neither cached nor stored is outside the database. */
    lemma NotStored(v: View, p: PageId)
      requires Consistent(v) && p !in v.cached && !Stored(v.store, p)
      ensures p !in WorkingDb(v).pages
    {
      if 1 <= p < v.header.pageCount {
        NewPagesCached(v, p);
      }
    }

    lemma StoredInside(v: View, p: PageId)
      requires Consistent(v) && Stored(v.store, p)
      ensures 1 <= p < v.header.pageCount
    {
    }

    /** The image of a page that a client holds. */
    method Read(h: Handle) returns (image: Image)
      requires Valid() && h in pins
      ensures h.page in Working().pages && image == Working().pages[h.page]
    {
      assert h.page in pool.Cached() && SlotOf(pool.frames[pool.pageFrames[h.page]]) == pool.Cached()[h.page];
      image := pool.frames[pool.pageFrames[h.page]].image;
    }

    /** The end of a handle. */
    method Release(h: Handle)
      requires Valid() && h in pins
      modifies this`pins, pool, pool.lru
      ensures Valid() && Working() == old(Working()) && pins == old(pins) - multiset{h}
    {
      hide CrashSafe, Safe, Consistent;
      ghost var v := ViewOf();
      Unpinned(v, h);
      var released := pool.UnpinPage(h.page, h.dirty);
      assert released.Done?;
      pins := pins - multiset{h};
      assert ViewOf() ==
        v.(cached := v.cached[h.page := Released(v.cached[h.page], h.dirty)], pins := v.pins - multiset{h});
    }

    // ---- Writing ---------------------------------------------------------------------------

    /** mutable_page: records the before-image of the page and makes the handle one to write through. */
    method MutablePage(h: Handle) returns (r: Result<Handle>)
      requires Valid() && h in pins
      modifies this`pins, this`transaction, pool, pool.lru
      ensures Valid() && Working() == old(Working()) && transaction.status == old(transaction.status)
      ensures r.Ok? == (!closed && transaction.status == Active)
      ensures r.Ok? ==> r.value == Handle(h.page, true) && pins == old(pins) - multiset{h} + multiset{r.value}
      ensures r.Err? ==> pins == old(pins) && transaction == old(transaction)
      ensures r.Err? ==> r.code == if closed then InvalidArgument else TransactionError
    {
      hide StoreOk, TransactionOk, CacheOk, PinsOk, WorkingImage, PoolOk;
      ghost var v := ViewOf();
      MadeMutable(v, h);
      var marked := MarkDirty(h.page);
      if marked.Failed? {
        return Err(marked.code);
      }
      assert transaction == Recorded(v.transaction, h.page, v.cached[h.page].image);
      pins := pins - multiset{h} + multiset{Handle(h.page, true)};
      assert ViewOf() == v.(transaction := transaction, pins := pins);
      r := Ok(Handle(h.page, true));
    }

    method MarkDirty(p: PageId) returns (r: Outcome)
      requires pool.Valid() && (p == HEADER_PAGE_ID || (p != INVALID_PAGE_ID && p in pool.Cached()))
      modifies this`transaction, pool, pool.lru
      ensures pool.Valid() && pool.Cached() == old(pool.Cached())
      ensures r.Done? == (!closed && transaction.status == Active)
      ensures r.Failed? ==> transaction == old(transaction)
      ensures r.Failed? ==> r.code == if closed then InvalidArgument else TransactionError
      ensures r.Done? ==>
        transaction == Recorded(old(transaction), p,
                                if p == HEADER_PAGE_ID then HeaderImage(header) else old(pool.Cached())[p].image)
    {
      if closed {
        return Failed(InvalidArgument);
      }
      if p == INVALID_PAGE_ID {
        return Failed(InvalidArgument);
      }
      if transaction.IsFailed() || transaction.IsUnresolved() || !transaction.InTransaction() {
        return Failed(TransactionError);
      }
      if p in transaction.originalPages || p in transaction.newPageIds {
        return Done;
      }
      if p == HEADER_PAGE_ID {
        transaction := transaction.(originalPages := transaction.originalPages[p := HeaderImage(header)]);
      } else {
        var image := Peek(p);
        transaction := transaction.(originalPages := transaction.originalPages[p := image]);
      }
      transaction := transaction.(dirtyPageIds := transaction.dirtyPageIds + {p});
      r := Done;
    }

    /** Pins a cached page, copies it, and lets go of it again. */
    method Peek(p: PageId) returns (image: Image)
      requires pool.Valid() && p != INVALID_PAGE_ID && p in pool.Cached()
      modifies pool, pool.lru
      ensures pool.Valid() && pool.Cached() == old(pool.Cached()) && image == pool.Cached()[p].image
    {
      hide PoolOk;
      var got := pool.GetPage(p);
      assert got.Ok?;
      image := got.value;
      var released := pool.UnpinPage(p, false);
      assert released.Done?;
    }

    /** A client writing through a handle that mutable_page made dirty. */
    method Write(h: Handle, image: Image)
      requires Valid() && h in pins && h.dirty
      modifies pool
      ensures Valid() && Working() == old(Working()).(pages := old(Working()).pages[h.page := image])
    {
      Written(ViewOf(), h, image);
      pool.WriteThrough(h.page, image);
    }

    /** Allocates the next page of the database, zeroed and dirty. */
    method NewPage() returns (r: Result<Handle>)
      requires Valid()
      modifies this`header, this`pins, this`transaction, pool, pool.lru
      ensures Valid() && transaction.status == old(transaction.status)
      ensures r.Ok? ==> var n := old(header).pageCount;
        && r.value == Handle(n, true) && pins == old(pins) + multiset{r.value} &&
           header == old(header).(pageCount := n + 1)
        && Working() == Db(header, old(Working()).pages[n := ZeroPage()])
      ensures r.Err? ==> unchanged(this) && unchanged(pool) && unchanged(pool.lru)
      ensures r.Err? ==>
        r.code == if closed then InvalidArgument
        else if transaction.status != Active then TransactionError else NotFound
      ensures r == Err(NotFound) ==> !pool.HasRoom()
    {
      hide StoreOk, TransactionOk, CacheOk, PinsOk;
      hide CrashSafe, Safe;
      if closed {
        return Err(InvalidArgument);
      }
      if !transaction.InTransaction() || transaction.IsFailed() || transaction.IsUnresolved() {
        return Err(TransactionError);
      }
      ghost var v := ViewOf();
      var page := header.pageCount;
      NewPageNotCached(v);
      var cached := pool.CachePage(page, ZeroPage());
      if cached.Failed? {
        return Err(cached.code);
      }
      NewPageAdded(v, pool.Cached());
      FinishNewPage(page);
      assert ViewOf() == AfterNewPage(v, pool.Cached());
      r := Ok(Handle(page, true));
    }

    /** The rest of new_page, once the zeroed page is cached. */
    method FinishNewPage(page: PageId)
      requires pool.Valid() && !closed && transaction.status == Active && page == header.pageCount
      modifies this`header, this`pins, this`transaction, pool, pool.lru
      ensures pool.Valid() && pool.Cached() == old(pool.Cached())
      ensures header == old(header).(pageCount := page + 1) && pins == old(pins) + multiset{Handle(page, true)}
      ensures transaction == WithNewPage(old(transaction), old(header), page)
    {
      var marked := MarkDirty(HEADER_PAGE_ID);
      assert marked.Done?;
      header := header.(pageCount := header.pageCount + 1);
      transaction :=
        transaction.(newPageIds := transaction.newPageIds + {page}, dirtyPageIds := transaction.dirtyPageIds + {page});
      pins := pins + multiset{Handle(page, true)};
    }

    // ---- Transactions ----------------------------------------------------------------------

    method BeginTransaction() returns (r: Outcome)
      requires Valid()
      modifies this`transaction, this`nextTransactionId
      ensures Valid() && Working() == old(Working())
      ensures r.Done? == (!closed && old(transaction.status) == Inactive)
      ensures r.Done? ==> transaction == old(transaction).(status := Active, transactionId := old(nextTransactionId))
      ensures r.Done? ==> Working() == Committed() && nextTransactionId == old(nextTransactionId) + 1
      ensures r.Failed? ==> unchanged(this) && r.code == if closed then InvalidArgument else TransactionError
      ensures BeginStep(old(Current()), Current(), r)
    {
      if closed {
        return Failed(InvalidArgument);
      }
      if transaction.InTransaction() {
        return Failed(TransactionError);
      }
      ghost var v := ViewOf();
      transaction := transaction.(status := Active, transactionId := nextTransactionId);
      IdleWorksOnCommitted(v, transaction);
      assert ViewOf() == v.(transaction := transaction);
      nextTransactionId := nextTransactionId + 1;
      r := Done;
    }

    method MarkTransactionFailed() returns (r: Outcome)
      requires Valid()
      modifies this`transaction
      ensures Valid() && Working() == old(Working())
      ensures r.Done? == (!closed && old(transaction).InTransaction() && !old(transaction).IsUnresolved())
      ensures transaction == if r.Done? then old(transaction).(status := FailedTransaction) else old(transaction)
      ensures r.Failed? ==> r.code == if closed then InvalidArgument else TransactionError
      ensures FailStep(old(Current()), Current())
    {
      hide StoreOk, PinsOk, CacheOk;
      if closed {
        return Failed(InvalidArgument);
      }
      if !transaction.InTransaction() || transaction.IsUnresolved() {
        return Failed(TransactionError);
      }
      transaction := transaction.(status := FailedTransaction);
      r := Done;
    }

    /** Makes the transaction durable and its pages the committed ones. Fails without touching anything
        while a client still holds a changed page; once the log was written to, failing leaves the
        transaction unresolved. An acknowledged commit is safe if and only if it was appended at the end
        of a log that follows the committed database; so the first one makes a run safe that began on files
        that were not synced. If a reset had lost track of the end of the log, no crash leaves files that
        can be opened, however many commits follow. */
    method CommitTransaction() returns (r: Outcome)
      requires Valid() && Workable()
      modifies this, pool, pool.lru, wal
      ensures Valid() && Workable() && Working() == old(Working()) && pins == old(pins) && header == old(header)
      ensures r.Done? ==> Committed() == old(Working()) && transaction == NO_TRANSACTION && !inDoubt
      ensures r.Done? ==> wal.Aligned() && (CrashSafe() <==> old(Follows(Committed()) && wal.Aligned()))
      ensures r.Done? && CrashSafe() ==> wal.Level() && sources == iset{Committed()}
      ensures r.Done? && !CrashSafe() ==> Lost() && AllRefused(disk.possible, wal.recent, wal.older)
      ensures r.Failed? ==> Committed() == old(Committed()) && (old(CrashSafe()) ==> CrashSafe())
      ensures r.Failed? && old(!inDoubt && GuardedFiles(Committed())) ==>
        if inDoubt then CrashSafe() else GuardedFiles(Committed())
      ensures r.Failed? && old(!inDoubt && Lost()) ==> AllRefused(disk.possible, wal.recent, wal.older)
      ensures r.Failed? ==> forall db :: db in sources ==> db in old(sources) || db == old(Working())
      ensures r.Failed? ==>
        transaction == old(transaction) || (transaction.IsUnresolved() && attempted == old(Working()))
      ensures r.Failed? && transaction == old(transaction) ==>
        closed || transaction.status != Active || (!Settled(ViewOf()) && unchanged(wal) && unchanged(pool))
      ensures r.Failed? && transaction != old(transaction) && old(CrashSafe() && wal.Aligned() && wal.Level()) ==>
        InTheLog(old(wal.log.size), attempted)
      ensures CommitStep(old(Current()), Current(), r)
      ensures r == Failed(InvalidArgument) <==> closed
      ensures r == Failed(TransactionError) <==>
        !closed && (old(transaction.status) != Active || !old(Settled(ViewOf())))
      ensures r.Failed? ==>
        r.code == InvalidArgument || r.code == TransactionError || (r.code == IoError && transaction.IsUnresolved())
    {
      hide Consistent, Safe, SafeInDoubt, AllRefused, WalManager.Aligned, WalManager.Level, Lost, CrashSafe, Workable;
      hide GuardedFiles, Follows, InTheLog;
      r := CheckCommit();
      if r.Done? {
        ActiveIsSafe();
        r := CommitChanges();
        SafetyInDoubt();
      } else if Lost() {
        LostIsRefused();
      }
    }

    lemma SafetyInDoubt()
      ensures inDoubt ==> (CrashSafe() <==> SafeInDoubt(Committed(), attempted))
    {
    }

    lemma ActiveIsSafe()
      requires !inDoubt
      ensures CrashSafe() <==> Safe(Committed())
    {
    }

    /** The checks that commit makes before it touches anything. */
    method CheckCommit() returns (r: Outcome)
      requires Valid()
      ensures r == if closed then Failed(InvalidArgument)
        else if transaction.status != Active || !Settled(ViewOf()) then Failed(TransactionError) else Done
    {
      if closed {
        return Failed(InvalidArgument);
      }
      if !transaction.InTransaction() || transaction.IsFailed() || transaction.IsUnresolved() {
        return Failed(TransactionError);
      }
      var order := Listed(transaction.dirtyPageIds);
      r := CheckReleased(order);
    }

    /** The rest of commit_transaction once no client holds a changed page. */
    method CommitChanges() returns (r: Outcome)
      requires Valid() && Workable() && Settled(ViewOf()) && transaction.status == Active
      modifies this`recovered, this`committedHeader, this`transaction, this`inDoubt, this`attempted, this`logImages,
        this`sources, pool, pool.lru, wal
      ensures Valid() && Workable() && Working() == old(Working())
      ensures r.Done? ==> Committed() == old(Working()) && transaction == NO_TRANSACTION && !inDoubt
      ensures r.Done? ==> Acknowledged(old(Follows(Committed()) && wal.Aligned()))
      ensures r.Failed? ==>
        Committed() == old(Committed()) && transaction.IsUnresolved() && attempted == old(Working()) && inDoubt
      ensures r.Failed? && old(GuardedFiles(Committed())) ==> SafeInDoubt(Committed(), attempted)
      ensures r.Failed? && old(Lost()) ==> AllRefused(disk.possible, wal.recent, wal.older)
      ensures r.Failed? ==> forall db :: db in sources ==> db in old(sources) || db == old(Working())
      ensures old(Safe(Committed())) ==> old(GuardedFiles(Committed()))
      ensures r.Failed? && old(Safe(Committed()) && wal.Aligned() && wal.Level()) ==>
        InTheLog(old(wal.log.size), attempted)
      ensures r.Failed? ==> r.code == IoError
    {
      hide Safe, CrashSafe, Lost, AllRefused, Acknowledged, WorkingImage, InTheLog, Workable, GuardedFiles, Follows;
      hide Consistent;
      hide SafeInDoubt, WalManager.Level, WalManager.Aligned;
      ghost var v := ViewOf();
      var order := Listed(transaction.dirtyPageIds);
      var frames := Snapshots(order);
      CopiesAreChanges(v, frames, order);
      SafeIsGuarded();
      r := CommitFrames(frames, v);
    }

    lemma SafeIsGuarded()
      requires Workable()
      ensures Safe(Committed()) ==> GuardedFiles(Committed())
    {
    }

    /** What an acknowledged commit is worth. */
    ghost predicate Acknowledged(safe: bool)
      reads this`committedHeader, this`recovered, this`logImages, this`inDoubt, this`attempted, this`sources, disk, wal
    {
      && wal.Aligned() && (CrashSafe() <==> safe) && (safe ==> wal.Level() && sources == iset{Committed()})
      && (!safe ==> Lost() && AllRefused(disk.possible, wal.recent, wal.older))
    }

    method CommitFrames(frames: seq<Frame>, ghost v: View) returns (r: Outcome)
      requires Valid() && Workable() && !inDoubt && v == ViewOf() && Settled(v) && transaction.status == Active
      requires Overlaid(map[], frames) == Changes(v) &&
        (forall i :: 0 <= i < |frames| ==> Unheld(frames[i].page, v.cached))
      modifies this`recovered, this`committedHeader, this`transaction, this`inDoubt, this`attempted, this`logImages,
        this`sources, pool, pool.lru, wal
      ensures Valid() && Workable() && Working() == WorkingDb(v)
      ensures r.Done? ==> Committed() == WorkingDb(v) && transaction == NO_TRANSACTION && !inDoubt
      ensures r.Done? ==> Acknowledged(old(Follows(Committed()) && wal.Aligned()))
      ensures r.Failed? ==>
        Committed() == CommittedDb(v.store) && transaction.IsUnresolved() && attempted == WorkingDb(v) && inDoubt
      ensures r.Failed? && old(GuardedFiles(Committed())) ==> SafeInDoubt(Committed(), attempted)
      ensures r.Failed? && old(Lost()) ==> AllRefused(disk.possible, wal.recent, wal.older)
      ensures r.Failed? ==> forall db :: db in sources ==> db in old(sources) || db == WorkingDb(v)
      ensures r.Failed? && old(Safe(Committed()) && wal.Aligned() && wal.Level()) ==>
        InTheLog(old(wal.log.size), attempted)
      ensures r.Failed? ==> r.code == IoError
    {
      hide Safe, Lost, CrashSafe, Consistent, Acknowledged, Logged, AllRefused, InTheLog, GuardedFiles, SafeInDoubt;
      hide WalManager.Aligned, WalManager.Level, Follows, Tracked, Doubtful, Workable;
      ghost var safe := Follows(Committed()) && wal.Aligned();
      r := LogTransaction(frames, v);
      if r.Failed? {
        assert forall i :: 0 <= i < |frames| ==> Unheld(frames[i].page, v.cached);
        LeaveUnresolved(v);
        return;
      }
      Acknowledge(frames, v, safe);
    }

    method Acknowledge(frames: seq<Frame>, ghost v: View, ghost safe: bool)
      requires Valid() && !inDoubt && v == ViewOf() && Settled(v)
      requires Overlaid(map[], frames) == Changes(v) &&
        (forall i :: 0 <= i < |frames| ==> Unheld(frames[i].page, v.cached))
      requires Logged(WorkingDb(v), safe)
      modifies this`recovered, this`committedHeader, this`transaction, pool, pool.lru
      ensures Valid() && Workable() && Acknowledged(safe) && Working() == WorkingDb(v) && Committed() == WorkingDb(v)
      ensures transaction == NO_TRANSACTION
    {
      hide Safe, CrashSafe, Acknowledged, Logged, Workable;
      FinishCommit(frames, v);
      CommitIsSafe(WorkingDb(v), safe);
    }

    /** The log has acknowledged the transaction that makes the database db. */
    ghost predicate Logged(db: Db, safe: bool)
      reads this`logImages, this`sources, disk, wal
    {
      && wal.Aligned() && (Safe(db) <==> safe) && Tracked(db) && (Follows(db) || Lost())
      && (safe ==> wal.Level() && sources == iset{db})
      && (!safe ==> Lost() && AllRefused(disk.possible, wal.recent, wal.older))
    }

    method LeaveUnresolved(ghost v: View)
      requires pool.Valid() && disk.Valid() && v == ViewOf() && Consistent(v) && v.transaction.status == Active
      requires Tracked(Committed()) && Doubtful(Committed(), WorkingDb(v))
      modifies this`transaction, this`inDoubt, this`attempted
      ensures Valid() && Workable() && Working() == WorkingDb(v) && transaction == v.transaction.(status := Unresolved)
      ensures inDoubt && attempted == WorkingDb(v)
    {
      hide StoreOk, TransactionOk, CacheOk, PinsOk, WorkingImage, Tracked, Doubtful;
      StatusChanged(v, Unresolved);
      transaction := transaction.(status := Unresolved);
      inDoubt, attempted := true, WorkingDb(v);
      assert ViewOf() == v.(transaction := v.transaction.(status := Unresolved));
    }

    /** The rest of commit_transaction once the log has acknowledged the transaction. */
    method FinishCommit(frames: seq<Frame>, ghost v: View)
      requires pool.Valid() && disk.Valid() && v == ViewOf() && Consistent(v) && Settled(v) && !inDoubt
      requires Overlaid(map[], frames) == Changes(v) &&
        (forall i :: 0 <= i < |frames| ==> Unheld(frames[i].page, v.cached))
      modifies this`recovered, this`committedHeader, this`transaction, pool, pool.lru
      ensures Valid() && Working() == WorkingDb(v) && Committed() == WorkingDb(v) && transaction == NO_TRANSACTION
      ensures committedHeader == header
    {
      hide WorkingImage, Consistent, Settled, Changes;
      HeaderApart(v);
      PublishFrames(frames);
      transaction := NO_TRANSACTION;
      CommitPublishes(v);
      assert ViewOf() == AfterCommit(v);
    }

    lemma CommitIsSafe(db: Db, safe: bool)
      requires !inDoubt && Logged(db, safe) && Committed() == db
      ensures Acknowledged(safe) && Workable()
    {
    }

    ghost predicate InPool(p: PageId)
      requires pool.Valid()
      reads pool, pool.lru
    {
      p != INVALID_PAGE_ID && p in pool.Cached()
    }

    /** Checks that no client holds one of the pages. */
    method CheckReleased(order: seq<PageId>) returns (r: Outcome)
      requires pool.Valid()
      ensures r.Done? == forall p :: p in order ==> Unheld(p, pool.Cached())
      ensures r.Failed? && (forall p :: p in order && p != HEADER_PAGE_ID ==> InPool(p)) ==> r.code == TransactionError
    {
      for i := 0 to |order|
        invariant forall j :: 0 <= j < i ==> Unheld(order[j], pool.Cached())
      {
        assert order[i] in order;
        if order[i] != HEADER_PAGE_ID {
          var unpinned := pool.IsUnpinned(order[i]);
          if unpinned.Err? {
            return Failed(unpinned.code);
          }
          if !unpinned.value {
            return Failed(TransactionError);
          }
        }
      }
      r := Done;
    }

    /** Copies the listed pages as they are now. */
    method Snapshots(order: seq<PageId>) returns (frames: seq<Frame>)
      requires pool.Valid()
      requires forall p :: p in order ==> Unheld(p, pool.Cached())
      modifies pool, pool.lru
      ensures pool.Valid() && pool.Cached() == old(pool.Cached()) && |frames| == |order|
      ensures forall i :: 0 <= i < |order| ==> Copied(frames[i], order[i], header, pool.Cached())
    {
      frames := [];
      ghost var cached := pool.Cached();
      for i := 0 to |order|
        invariant pool.Valid() && pool.Cached() == cached && |frames| == i
        invariant forall j :: 0 <= j < i ==> Copied(frames[j], order[j], header, cached)
      {
        assert order[i] in order;
        var image := HeaderImage(header);
        if order[i] != HEADER_PAGE_ID {
          image := Peek(order[i]);
        }
        frames := frames + [Frame(order[i], image)];
      }
    }

    /** Writes the frames of view v's changes to the log. */
    method LogTransaction(frames: seq<Frame>, ghost v: View) returns (r: Outcome)
      requires Workable() && !inDoubt && v.store == StoreView() && v.header == header && Consistent(v)
      requires Overlaid(map[], frames) == Changes(v)
      modifies wal, this`logImages, this`sources
      ensures r.Done? ==> Logged(WorkingDb(v), old(Follows(Committed()) && wal.Aligned()))
      ensures r.Failed? ==> Tracked(Committed()) && Doubtful(Committed(), WorkingDb(v))
      ensures r.Failed? && old(GuardedFiles(Committed())) ==> SafeInDoubt(Committed(), WorkingDb(v))
      ensures r.Failed? && old(Lost()) ==> AllRefused(disk.possible, wal.recent, wal.older)
      ensures r.Failed? ==> forall db :: db in sources ==> db in old(sources) || db == WorkingDb(v)
      ensures r.Failed? && old(Safe(Committed()) && wal.Aligned() && wal.Level()) ==>
        InTheLog(old(wal.log.size), WorkingDb(v))
      ensures wal.AppendFails(frames, r)
    {
      hide Consistent, EitherShown, EitherSecure, Gives, ScanOf, Shows, Stemming, StemsFrom, AllSecure, AllShow;
      hide AllRefused;
      hide Safe, Lost, Logged, Follows, Tracked, Doubtful, SafeInDoubt, GuardedFiles, AllTraced, Gap, InTheLog;
      hide WholeRead, Ours;
      hide WalManager.FilesFit, WalManager.Gapped, WalManager.Resting, WalManager.Aligned, WalManager.Level, Applicable;
      ghost var recent, base, db, changes := wal.recent, wal.log, Committed(), Changes(v);
      ghost var lost, safe, guarded := Lost(), Safe(db), GuardedFiles(db);
      ghost var follows, aligned, level := Follows(db), wal.Aligned(), wal.Level();
      ChangesApply(v);
      BeforeLogging(db, changes);
      r := wal.CommitTransaction(transaction.transactionId, frames, logImages);
      if r.Done? {
        if follows && aligned {
          CommitAllShow(disk.possible, logImages, changes, db);
          logImages := logImages + changes;
          sources := iset{WorkingDb(v)};
        } else {
          sources := sources + iset{WorkingDb(v)};
        }
        NowLogged(WorkingDb(v), follows && aligned);
      } else {
        AddSource(recent, db, changes);
        NowDoubtful(base, changes, db, follows);
        if guarded {
          NowGuarded(recent, changes, db);
        }
        if lost {
          GapsRefused(disk.possible, wal.recent, wal.databaseId);
        }
        if safe && aligned && level {
          NowInTheLog(recent, base, changes, db);
        }
      }
    }

    lemma BeforeLogging(db: Db, changes: map<PageId, Image>)
      requires Tracked(db) && (Follows(db) || Lost()) && Applicable(db, changes)
      ensures wal.databaseId == db.header.databaseId == Recovery.Committed(db, changes).header.databaseId
      ensures SameId(disk.possible, wal.databaseId) && Ours(wal.recent, wal.databaseId)
      ensures wal.FilesFit() && db in sources && wal.log in wal.recent
      ensures AllTraced(disk.possible, wal.recent, wal.databaseId, sources)
      ensures AllTraced(disk.possible, wal.older, wal.databaseId, sources)
      ensures Follows(db) ==> !Lost() && wal.Resting(logImages) && AllShow(disk.possible, logImages, db)
      ensures Lost() ==>
        wal.Gapped() && wal.older == iset{} && !wal.Resting(logImages) && Unreadable(wal.log, wal.databaseId)
      ensures GuardedFiles(db) ==>
        AllGuarded(disk.possible, wal.recent, wal.databaseId, db) &&
          AllGuarded(disk.possible, wal.older, wal.databaseId, db)
      ensures Safe(db) ==>
        Follows(db) && GuardedFiles(db) && AllSecure(disk.possible, wal.recent, wal.databaseId, db) &&
        AllSecure(disk.possible, wal.older, wal.databaseId, db)
      ensures Follows(db) ==> wal.log.size >= WAL_HEADER_SIZE
    {
      if Lost() {
        wal.StartsAppendable(logImages);
        LostIsRefused();
        GapUnreadable(wal.log, wal.databaseId);
      }
      if Safe(db) {
        SafeParts(db);
      }
    }

    /** The files that a failed commit left may hold pages of the database that it was to produce. */
    ghost method AddSource(recent: iset<Log>, db: Db, changes: map<PageId, Image>)
      requires wal.FilesFit() && Ours(wal.recent, wal.databaseId) && db in sources
      requires SameId(disk.possible, wal.databaseId) && wal.databaseId == db.header.databaseId
      requires Stemming(recent, wal.recent, wal.databaseId, changes) && Applicable(db, changes)
      requires AllTraced(disk.possible, recent, wal.databaseId, sources)
      requires AllTraced(disk.possible, wal.older, wal.databaseId, sources)
      modifies this`sources
      ensures Tracked(db) && Recovery.Committed(db, changes) in sources
      ensures forall s :: s in sources ==> s in old(sources) || s == Recovery.Committed(db, changes)
    {
      hide Stemming, Applicable, Ours, WalManager.FilesFit, SameId;
      ghost var before := sources;
      sources := sources + iset{Recovery.Committed(db, changes)};
      AllTracedMore(disk.possible, recent, wal.databaseId, before, sources);
      AllTracedMore(disk.possible, wal.older, wal.databaseId, before, sources);
      hide AllTraced;
      StemmingTraced(disk.possible, recent, wal.recent, wal.databaseId, changes, db, sources);
    }

    lemma NowDoubtful(base: Log, changes: map<PageId, Image>, db: Db, follows: bool)
      requires StemsFrom(base, wal.log, wal.databaseId, changes) && wal.databaseId == db.header.databaseId
      requires Recovery.Committed(db, changes) in sources && Applicable(db, changes)
      requires Recovery.Committed(db, changes).header.databaseId == wal.databaseId
      requires if follows then Gives(base, wal.databaseId, logImages) && AllShow(disk.possible, logImages, db)
        else Unreadable(base, wal.databaseId)
      ensures Doubtful(db, Recovery.Committed(db, changes))
    {
      hide Gives, Applicable, Undecided, Unreadable;
      if follows {
        UndecidedShown(disk.possible, wal.log, logImages, changes, db);
      }
    }

    lemma NowGuarded(recent: iset<Log>, changes: map<PageId, Image>, db: Db)
      requires Stemming(recent, wal.recent, wal.databaseId, changes) && Applicable(db, changes) && Tracked(db)
      requires Recovery.Committed(db, changes).header.databaseId == wal.databaseId
      requires AllGuarded(disk.possible, recent, wal.databaseId, db) &&
        AllGuarded(disk.possible, wal.older, wal.databaseId, db)
      ensures SafeInDoubt(db, Recovery.Committed(db, changes))
    {
      hide Stemming, Applicable, AllGuarded, EitherShown, AllTraced;
      UndecidedAll(disk.possible, recent, wal.recent, wal.older, changes, db);
    }

    /** What a commit that failed, and was to make the database after, left of a log of the given size that
        was safe before. Nothing of it may be on the medium. If the file is as long as it was, nothing of
        it is in the file either; if the file can be read up to its end, all of it is. */
    ghost predicate InTheLog(size: nat, after: Db)
      reads this`committedHeader, this`recovered, disk, wal
    {
      && WAL_HEADER_SIZE <= size <= wal.log.size && Committed().header.databaseId == wal.databaseId
      && AllSecure(disk.possible, wal.older, wal.databaseId, Committed())
      && (exists l :: l in wal.recent && Secure(disk.possible, l, wal.databaseId, Committed()))
      && (wal.log.size == size ==> wal.Level() && AllSecure(disk.possible, wal.recent, wal.databaseId, Committed()))
      && (wal.log.size != size && WholeRead(wal.log, wal.databaseId) ==>
          Secure(disk.possible, wal.log, wal.databaseId, after))
    }

    lemma NowInTheLog(recent: iset<Log>, base: Log, changes: map<PageId, Image>, db: Db)
      requires db == Committed() && wal.databaseId == db.header.databaseId && base.size >= WAL_HEADER_SIZE
      requires wal.FilesFit() && base in recent && base in wal.recent && Applicable(db, changes)
      requires AllSecure(disk.possible, recent, wal.databaseId, db) &&
        AllSecure(disk.possible, wal.older, wal.databaseId, db)
      requires AllShow(disk.possible, logImages, db)
      requires wal.log.size == base.size ==> wal.Level() && GivenBefore(recent, wal.recent, wal.databaseId)
      requires wal.log.size != base.size && WholeRead(wal.log, wal.databaseId) ==>
        Gives(wal.log, wal.databaseId, logImages + changes)
      ensures InTheLog(base.size, Recovery.Committed(db, changes))
    {
      CommitAllShow(disk.possible, logImages, changes, db);
      hide Gives, ScanOf, AllShow, WholeRead, StoreOk, Applicable, WalManager.Level;
      if wal.log.size == base.size {
        GivenSecure(disk.possible, recent, wal.recent, wal.databaseId, db);
      }
    }

    lemma NowLogged(db: Db, safe: bool)
      requires wal.Aligned() && wal.recent == iset{wal.log} && wal.older == iset{} && wal.FilesFit()
      requires wal.databaseId == db.header.databaseId && SameId(disk.possible, wal.databaseId) &&
        Ours(wal.recent, wal.databaseId)
      requires safe ==> wal.Resting(logImages) && AllShow(disk.possible, logImages, db) && sources == iset{db}
      requires !safe ==> wal.Gapped() && db in sources
      ensures Logged(db, safe)
    {
      hide AllTraced;
      if safe {
        LogAlone(disk.possible, wal.log, logImages, wal.databaseId, db);
        PartsAreSafe(db);
        AllSecureTraced(disk.possible, wal.recent, wal.databaseId, db, sources);
        AllSecureTraced(disk.possible, wal.older, wal.databaseId, db, sources);
      } else {
        LostIsRefused();
      }
    }

    /** The committed frames become what recovered pages are read from, and their cached copies clean. */
    method PublishFrames(frames: seq<Frame>)
      requires pool.Valid() && HEADER_PAGE_ID !in pool.Cached()
      requires forall i :: 0 <= i < |frames| ==> Unheld(frames[i].page, pool.Cached())
      modifies this`recovered, this`committedHeader, pool, pool.lru
      ensures pool.Valid() && recovered == Published(old(recovered), frames)
      ensures pool.Cached() == Cleaned(old(pool.Cached()), Overlaid(map[], frames).Keys)
      ensures committedHeader == if HEADER_PAGE_ID in Overlaid(map[], frames) then header else old(committedHeader)
    {
      hide Overlaid, Published, Cleaned, CleanedOne, PoolOk;
      ghost var cached := pool.Cached();
      NothingPublished(recovered, cached);
      for i := 0 to |frames|
        invariant pool.Valid() && recovered == Published(old(recovered), frames[..i])
        invariant pool.Cached() == Cleaned(cached, Overlaid(map[], frames[..i]).Keys)
        invariant committedHeader == if HEADER_PAGE_ID in Overlaid(map[], frames[..i]) then header
          else old(committedHeader)
      {
        PublishedMore(old(recovered), frames, i);
        CleanedMore(cached, Overlaid(map[], frames[..i]), frames[i].page, frames[i].image);
        assert Unheld(frames[i].page, cached);
        PublishFrame(frames[i]);
      }
      assert frames[..|frames|] == frames;
    }

    method PublishFrame(frame: Frame)
      requires pool.Valid() && HEADER_PAGE_ID !in pool.Cached() && frame.page != INVALID_PAGE_ID
      requires frame.page != HEADER_PAGE_ID ==> frame.page in pool.Cached()
      modifies this`recovered, this`committedHeader, pool, pool.lru
      ensures pool.Valid() && pool.Cached() == CleanedOne(old(pool.Cached()), frame.page)
      ensures recovered == if frame.page == HEADER_PAGE_ID then old(recovered)
        else old(recovered)[frame.page := frame.image]
      ensures committedHeader == if frame.page == HEADER_PAGE_ID then header else old(committedHeader)
    {
      if frame.page == HEADER_PAGE_ID {
        committedHeader := header;
      } else {
        recovered := recovered[frame.page := frame.image];
        var cleared := pool.ClearDirty(frame.page);
        assert cleared.Done?;
      }
    }

    /** Undoes the transaction: every before-image is put back, every new page discarded, the header and
        page count restored. Its checks come first; when they fail nothing has changed, and once they
        pass nothing can fail any more. */
    method RollbackTransaction() returns (r: Outcome)
      requires Valid()
      modifies this`header, this`transaction, pool, pool.lru
      ensures Valid() && pins == old(pins)
      ensures r.Done? ==
        (!closed && old(transaction).InTransaction() && !old(transaction).IsUnresolved() && Settled(old(ViewOf())))
      ensures r.Done? ==> Working() == Committed() && transaction == NO_TRANSACTION
      ensures r.Failed? ==> unchanged(this) && unchanged(pool) && unchanged(pool.lru)
      ensures r.Failed? ==>
        r.code == if closed then InvalidArgument
        else if !transaction.InTransaction() || transaction.IsUnresolved() then TransactionError else InternalError
      ensures RollbackStep(old(Current()), Current(), r)
    {
      hide Consistent;
      r := CheckRollback();
      if r.Done? {
        UndoTransaction();
      }
    }

    /** The checks that rollback makes before it touches anything. */
    method CheckRollback() returns (r: Outcome)
      requires Valid()
      ensures r == if closed then Failed(InvalidArgument)
        else if !transaction.InTransaction() || transaction.IsUnresolved() then Failed(TransactionError)
        else if !Settled(ViewOf()) then Failed(InternalError) else Done
    {
      hide Consistent, CrashSafe, Safe;
      if closed {
        return Failed(InvalidArgument);
      }
      if !transaction.InTransaction() || transaction.IsUnresolved() {
        return Failed(TransactionError);
      }
      ghost var v := ViewOf();
      var originals := Listed(transaction.originalPages.Keys);
      OriginalsApart(v);
      for i := 0 to |originals|
        invariant forall j :: 0 <= j < i ==> Unheld(originals[j], v.cached)
      {
        var p := originals[i];
        assert p in originals;
        // The map key is the page's own id, and no before-image is that of a new page.
        assert p !in transaction.newPageIds;
        if p == HEADER_PAGE_ID {
          // The before-image of page 0 is an encoded header, so decoding it succeeds.
          assert transaction.originalPages[p].HeaderImage?;
        } else {
          var restorable := pool.CheckUnpinned(p);
          if restorable.Failed? {
            return restorable;
          }
        }
      }
      var newOrder := Listed(transaction.newPageIds);
      for i := 0 to |newOrder|
        invariant forall j :: 0 <= j < i ==> Unheld(newOrder[j], v.cached)
      {
        assert newOrder[i] in newOrder;
        var discardable := pool.CheckUnpinned(newOrder[i]);
        if discardable.Failed? {
          return discardable;
        }
      }
      r := Done;
    }

    /** The second phase of rollback. */
    method UndoTransaction()
      requires Valid() && Settled(ViewOf()) && !transaction.IsUnresolved()
      modifies this`header, this`transaction, pool, pool.lru
      ensures Valid() && Working() == Committed() && transaction == NO_TRANSACTION
    {
      ghost var v := ViewOf();
      OriginalsApart(v);
      RestoreOriginals();
      DiscardNewPages();
      RestoredAll(v, v.transaction.originalPages.Keys, v.transaction.newPageIds);
      transaction := NO_TRANSACTION;
      RollbackRestores(v);
      assert ViewOf() == AfterRollback(v);
    }

    method RestoreOriginals()
      requires pool.Valid() && HEADER_PAGE_ID !in pool.Cached() &&
        RestorableAll(transaction.originalPages, pool.Cached())
      modifies this`header, pool, pool.lru
      ensures pool.Valid()
      ensures pool.Cached() == Restored(old(pool.Cached()), transaction.originalPages, transaction.originalPages.Keys)
      ensures header == HeaderBefore(transaction.originalPages, old(header))
    {
      hide PoolOk;
      var order := Listed(transaction.originalPages.Keys);
      ghost var cached := pool.Cached();
      ghost var restoredHeader := HeaderBefore(transaction.originalPages, header);
      for i := 0 to |order|
        invariant pool.Valid() && pool.Cached() == Restored(cached, transaction.originalPages, SetOf(order[..i]))
        invariant header == if HEADER_PAGE_ID in order[..i] then restoredHeader else old(header)
      {
        var p := order[i];
        assert p in order && Restorable(transaction.originalPages, cached, p);
        SetOfMore(order, i);
        if p == HEADER_PAGE_ID {
          RestoredHeader(cached, transaction.originalPages, SetOf(order[..i]));
          header := transaction.originalPages[p].header;
        } else {
          RestoredMore(cached, transaction.originalPages, SetOf(order[..i]), p);
          var restored := pool.RestorePage(p, transaction.originalPages[p]);
          assert restored.Done?;
        }
      }
      SetOfAll(order, transaction.originalPages.Keys);
      assert order[..|order|] == order;
    }

    method DiscardNewPages()
      requires pool.Valid() &&
        (forall p :: p in transaction.newPageIds ==> p != HEADER_PAGE_ID && Unheld(p, pool.Cached()))
      modifies pool, pool.lru
      ensures pool.Valid() && pool.Cached() == old(pool.Cached()) - transaction.newPageIds
    {
      hide PoolOk;
      var order := Listed(transaction.newPageIds);
      ghost var cached := pool.Cached();
      for i := 0 to |order|
        invariant pool.Valid() && pool.Cached() == cached - SetOf(order[..i])
      {
        assert order[i] in order && order[i] !in order[..i];
        SetOfMore(order, i);
        DiscardedMore(cached, SetOf(order[..i]), order[i]);
        var discarded := pool.DiscardPage(order[i]);
        assert discarded.Done?;
      }
      SetOfAll(order, transaction.newPageIds);
    }

    // ---- Checkpoint ------------------------------------------------------------------------

    /** Copies everything committed into the database file and drops the log, also in the middle of a
        transaction: nothing uncommitted reaches the file, and whatever happens on the way, a crash that
        recovered the committed database still does. A checkpoint that finishes makes every run safe,
        also one whose last commit was lost; until it finishes, a crash after a lost commit leaves files
        that are refused or show the committed database. sizeUnknown says that dropping the log failed and
        that its size could not be read afterwards; then the commits to come are appended at the end of the
        log if and only if the log did keep its size. */
    method Checkpoint() returns (r: Outcome, sizeUnknown: bool)
      requires Valid() && Workable()
      modifies this`recovered, this`logImages, this`sources, disk, wal
      ensures Valid() && Workable() && Committed() == old(Committed()) && Working() == old(Working())
      ensures r.Done? ==> CrashSafe() && wal.Level() && sources == iset{Committed()}
      ensures r.Done? ==> recovered == map[] && logImages == map[]
      ensures old(CrashSafe()) ==> CrashSafe()
      ensures old(!inDoubt && GuardedFiles(Committed())) ==> GuardedFiles(Committed())
      ensures old(!inDoubt && Lost()) ==> GuardedFiles(Committed()) && (Lost() || Follows(Committed()))
      ensures old(!inDoubt && Follows(Committed())) ==> Follows(Committed())
      ensures old(wal.Level()) ==> wal.Level()
      ensures forall db :: db in sources ==> db in old(sources)
      ensures sizeUnknown ==> r.Failed? && (wal.Aligned() <==> wal.log.size == old(wal.appendOffset))
      ensures !sizeUnknown ==> wal.Aligned() || (r.Failed? && unchanged(wal))
      ensures inDoubt ==> r == Failed(TransactionError) && unchanged(this) && unchanged(disk) && unchanged(wal)
      ensures r.Failed? && !inDoubt ==> r.code == IoError
    {
      hide Consistent, GuardedFiles, Tracked, Follows, Lost, Doubtful, Safe, SafeInDoubt;
      if transaction.IsUnresolved() {
        return Failed(TransactionError), false;
      }
      ghost var f := Footing(Lost(), Safe(Committed()), GuardedFiles(Committed()));
      StartOnFooting(Committed());
      r, sizeUnknown := CheckpointCommitted(ViewOf(), Committed(), f);
      EndOnFooting(Committed(), if r.Done? then Footing(false, true, true) else f);
    }

    lemma StartOnFooting(db: Db)
      requires disk.Valid() && !inDoubt && Committed() == db && Workable()
      ensures var f := Footing(Lost(), Safe(db), GuardedFiles(db));
        OnFooting(disk.possible, db, f) && (f.lost ==> !f.safe && f.guarded && !Follows(db))
      ensures Follows(db) ==> !Lost()
    {
      if Lost() {
        LostIsRefused();
      }
    }

    lemma EndOnFooting(db: Db, f: Footing)
      requires disk.Valid() && !inDoubt && Committed() == db
      requires OnFooting(disk.possible, db, f) || (f.lost && OnFooting(disk.possible, db, f.(lost := false)))
      ensures Workable() && (f.lost ==> Lost() || Follows(db)) && (!f.lost ==> Follows(db))
      ensures (f.safe && !f.lost ==> Safe(db)) && (f.guarded ==> GuardedFiles(db))
    {
    }

    method CheckpointCommitted(ghost v: View, ghost db: Db, ghost f: Footing) returns (r: Outcome, sizeUnknown: bool)
      requires Valid() && OnFooting(disk.possible, db, f) && !inDoubt && v == ViewOf() && db == Committed()
      modifies this`recovered, this`logImages, this`sources, disk, wal
      ensures Valid() && Committed() == db && Working() == WorkingDb(v)
      ensures if r.Done? then OnFooting(disk.possible, db, Footing(false, true, true))
        else OnFooting(disk.possible, db, f) || (f.lost && OnFooting(disk.possible, db, f.(lost := false)))
      ensures r.Done? ==> wal.Level() && sources == iset{db} && recovered == map[] && logImages == map[]
      ensures old(wal.Level()) ==> wal.Level()
      ensures forall s :: s in sources ==> s in old(sources)
      ensures sizeUnknown ==> r.Failed? && (wal.Aligned() <==> wal.log.size == old(wal.appendOffset))
      ensures !sizeUnknown ==> wal.Aligned() || (r.Failed? && unchanged(wal))
      ensures r.Failed? ==> r.code == IoError
    {
      hide WorkingImage, OnFooting, TransactionOk, CacheOk, PinsOk, WalManager.Aligned, WalManager.Level;
      r := WriteCommitted(db, f);
      sizeUnknown := false;
      if r.Done? {
        r, sizeUnknown := DropLog(db, f);
      }
      SameStore(v, StoreView());
      assert ViewOf() == v.(store := StoreView());
    }

    /** A checkpoint and then a commit, in a run that follows its committed database. kept says whether the
        checkpoint left the log as long as it was: when the size of the log could not be read, the
        acknowledged commit survives a crash if and only if it did. */
    method CommitAfterCheckpoint()
      returns (checkpointed: Outcome, sizeUnknown: bool, ghost kept: bool, committed: Outcome)
      requires Valid() && Workable() && !inDoubt && Follows(Committed()) && wal.Aligned()
      modifies this, disk, pool, pool.lru, wal
      ensures Valid() && Workable() && Working() == old(Working())
      ensures committed.Done? ==> Committed() == old(Working()) && !inDoubt && (CrashSafe() <==> !sizeUnknown || kept)
      ensures committed.Done? && sizeUnknown && !kept ==>
        checkpointed.Failed? && AllRefused(disk.possible, wal.recent, wal.older)
    {
      hide Consistent, CrashSafe, Lost, AllRefused, Workable, Follows, GuardedFiles, WalManager.Level, InTheLog;
      checkpointed, sizeUnknown := Checkpoint();
      kept := wal.log.size == old(wal.log.size);
      committed := CommitTransaction();
    }

    /** What is known of the files, the database file being any of ds: whether a commit was lost, and
        whether they are safe or guarded for db. */
    ghost predicate OnFooting(ds: iset<Disk>, db: Db, f: Footing)
      reads this`logImages, this`sources, wal
    {
      && wal.databaseId == db.header.databaseId && SameId(ds, wal.databaseId)
      && wal.FilesFit() && Ours(wal.recent, wal.databaseId) && db in sources
      && AllTraced(ds, wal.recent, wal.databaseId, sources) && AllTraced(ds, wal.older, wal.databaseId, sources)
      && (if f.lost then wal.Gapped() && wal.older == iset{} else wal.Resting(logImages) && AllShow(ds, logImages, db))
      && (f.safe ==> AllSecure(ds, wal.recent, wal.databaseId, db) && AllSecure(ds, wal.older, wal.databaseId, db))
      && (f.guarded ==> AllGuarded(ds, wal.recent, wal.databaseId, db) && AllGuarded(ds, wal.older, wal.databaseId, db))
    }

    /** What every step of a checkpoint keeps. */
    ghost predicate Steady(db: Db, f: Footing)
      reads this`committedHeader, this`recovered, this`logImages, this`sources, disk, wal
    {
      disk.Valid() && StoreOk(StoreView()) && Committed() == db && OnFooting(disk.possible, db, f)
    }

    /** The writes kept what the two files are worth. */
    lemma WritesKeepFooting(before: iset<Disk>, db: Db, f: Footing)
      requires OnFooting(before, db, f) && OnlyCommittedWrites(before, disk.possible, db)
      ensures OnFooting(disk.possible, db, f)
    {
      hide AllShow, AllSecure, AllGuarded, AllTraced, OnlyCommittedWrites, WalManager.Resting, WalManager.Gapped, Ours;
      WritesSameId(before, disk.possible, wal.databaseId, db);
      WritesTraced(before, disk.possible, wal.recent, wal.databaseId, db, sources);
      WritesTraced(before, disk.possible, wal.older, wal.databaseId, db, sources);
      if !f.lost {
        CommittedWritesShow(before, disk.possible, logImages, db);
      }
      if f.safe {
        CommittedWritesSecure(before, disk.possible, wal.recent, wal.databaseId, db);
        CommittedWritesSecure(before, disk.possible, wal.older, wal.databaseId, db);
      }
      if f.guarded {
        CommittedWritesGuarded(before, disk.possible, wal.recent, wal.databaseId, db);
        CommittedWritesGuarded(before, disk.possible, wal.older, wal.databaseId, db);
      }
    }

    /** The file has its full size and holds the recovered images of the listed pages. */
    ghost predicate FileHolds(pages: set<PageId>)
      reads this`committedHeader, this`recovered, disk
    {
      && disk.disk.pageCount == committedHeader.pageCount
      && forall p :: p in pages ==> p in recovered && p in disk.disk.pages && disk.disk.pages[p] == recovered[p]
    }

    /** Brings the database file up to date and makes sure of it. */
    method WriteCommitted(ghost db: Db, ghost f: Footing) returns (r: Outcome)
      requires Steady(db, f)
      modifies disk
      ensures Steady(db, f)
      ensures r.Done? ==> AllShow(disk.possible, map[], db)
      ensures r.Done? ==>
        StoreOk(StoreView().(recovered := map[])) && CommittedDb(StoreView().(recovered := map[])) == db
      ensures r.Failed? ==> r.code == IoError
    {
      hide OnFooting, CommittedDb, StoreOk;
      r := WriteUnsynced(db, f);
      if r.Done? {
        r := SyncFile(db, f);
      }
    }

    /** Everything a checkpoint writes before it syncs. For a database that has grown, a crash may now keep
        the header and not the new size of the file: then reopening refuses the file, although both files
        are whole and show the committed database. */
    method WriteUnsynced(ghost db: Db, ghost f: Footing) returns (r: Outcome)
      requires Steady(db, f)
      modifies disk
      ensures Steady(db, f)
      ensures r.Done? ==> FileHolds(recovered.Keys) && disk.disk.header == committedHeader
      ensures r.Done? && !f.lost && old(disk.disk.pageCount) < committedHeader.pageCount ==>
        GrownAndRefused(old(disk.disk), db)
      ensures r.Failed? ==> r.code == IoError
    {
      hide OnFooting, CommittedDb, StoreOk, Recover, Shown;
      r := ExtendFile(db, f);
      if r.Done? {
        r := WriteRecovered(db, f);
      }
      if r.Done? {
        ghost var possible := disk.possible;
        r := WriteDatabaseHeader(db, f);
        if !f.lost && old(disk.disk.pageCount) < committedHeader.pageCount {
          NotExtended(old(disk.disk), db, f);
        }
      }
    }

    /** A crash may leave d with the committed header, which shows db together with the log and which
        reopening refuses. */
    ghost predicate GrownAndRefused(d: Disk, db: Db)
      reads this`committedHeader, disk, wal
    {
      var left := PutHeader(d, committedHeader);
      left in disk.possible && Shown(left, wal.log, db) && Recover(left, wal.log) == Err(Corruption)
    }

    lemma NotExtended(d: Disk, db: Db, f: Footing)
      requires OnFooting(disk.possible, db, f) && !f.lost
      requires d.pageCount < committedHeader.pageCount && PutHeader(d, committedHeader) in disk.possible
      ensures GrownAndRefused(d, db)
    {
      GivesSecure(disk.possible, wal.log, logImages, wal.databaseId, db);
      SecureShown(disk.possible, db, PutHeader(d, committedHeader), wal.log);
    }

    method ExtendFile(ghost db: Db, ghost f: Footing) returns (r: Outcome)
      requires Steady(db, f)
      modifies disk
      ensures Steady(db, f) && (r.Done? ==> FileHolds({}))
      ensures forall d :: d in old(disk.possible) ==> d in disk.possible
      ensures r.Failed? ==> r.code == IoError
    {
      ghost var before, s := disk.possible, StoreView();
      r := disk.ResizeToPageCount(committedHeader.pageCount);
      ExtendedStore(s);
      ExtensionsAreCommitted(before, db);
      WritesKeepFooting(before, db, f);
    }

    method WriteRecovered(ghost db: Db, ghost f: Footing) returns (r: Outcome)
      requires Steady(db, f) && FileHolds({})
      modifies disk
      ensures Steady(db, f) && (r.Done? ==> FileHolds(recovered.Keys))
      ensures forall d :: d in old(disk.possible) ==> d in disk.possible
      ensures r.Failed? ==> r.code == IoError
    {
      var order := Listed(recovered.Keys);
      for i := 0 to |order|
        invariant Steady(db, f) && FileHolds(SetOf(order[..i]))
        invariant forall d :: d in old(disk.possible) ==> d in disk.possible
      {
        assert order[i] in order;
        SetOfMore(order, i);
        r := WriteOne(order[i], SetOf(order[..i]), db, f);
        if r.Failed? {
          return;
        }
      }
      SetOfAll(order, recovered.Keys);
      r := Done;
    }

    method WriteOne(p: PageId, ghost written: set<PageId>, ghost db: Db, ghost f: Footing) returns (r: Outcome)
      requires Steady(db, f) && FileHolds(written) && p in recovered
      modifies disk
      ensures Steady(db, f) && (r.Done? ==> FileHolds(written + {p}))
      ensures forall d :: d in old(disk.possible) ==> d in disk.possible
      ensures r.Failed? ==> r.code == IoError
    {
      ghost var before, s := disk.possible, StoreView();
      PutStore(s, p);
      r := disk.WritePage(p, recovered[p]);
      PutsAreCommitted(before, p, db);
      WritesKeepFooting(before, db, f);
    }

    method WriteDatabaseHeader(ghost db: Db, ghost f: Footing) returns (r: Outcome)
      requires Steady(db, f) && FileHolds(recovered.Keys)
      modifies disk
      ensures Steady(db, f) && (r.Done? ==> FileHolds(recovered.Keys) && disk.disk.header == committedHeader)
      ensures forall d :: d in old(disk.possible) ==> PutHeader(d, committedHeader) in disk.possible
      ensures r.Failed? ==> r.code == IoError
    {
      ghost var before, s := disk.possible, StoreView();
      PutHeaderStore(s);
      r := disk.WriteHeader(committedHeader);
      HeadersAreCommitted(before, db);
      WritesKeepFooting(before, db, f);
    }

    method SyncFile(ghost db: Db, ghost f: Footing) returns (r: Outcome)
      requires Steady(db, f) && FileHolds(recovered.Keys) && disk.disk.header == committedHeader
      modifies disk
      ensures Steady(db, f)
      ensures r.Done? ==> AllShow(disk.possible, map[], db)
      ensures r.Done? ==>
        StoreOk(StoreView().(recovered := map[])) && CommittedDb(StoreView().(recovered := map[])) == db
      ensures r.Failed? ==> r.code == IoError
    {
      ghost var before, s := disk.possible, StoreView();
      WrittenShows(s);
      r := disk.Sync();
      WritesKeepFooting(before, db, f);
    }

    /** Drops the log once the file alone shows everything committed. */
    method DropLog(ghost db: Db, ghost f: Footing) returns (r: Outcome, sizeUnknown: bool)
      requires Steady(db, f) && AllShow(disk.possible, map[], db)
      requires StoreOk(StoreView().(recovered := map[])) && CommittedDb(StoreView().(recovered := map[])) == db
      modifies this`recovered, this`logImages, this`sources, wal
      ensures StoreOk(StoreView()) && Committed() == db
      ensures if r.Done? then OnFooting(disk.possible, db, Footing(false, true, true))
        else OnFooting(disk.possible, db, f) || (f.lost && OnFooting(disk.possible, db, f.(lost := false)))
      ensures r.Done? ==> wal.Level() && sources == iset{db} && recovered == map[] && logImages == map[]
      ensures old(wal.Level()) ==> wal.Level()
      ensures forall s :: s in sources ==> s in old(sources)
      ensures sizeUnknown ==> r.Failed? && (wal.Aligned() <==> wal.log.size == old(wal.appendOffset))
      ensures !sizeUnknown ==> wal.Aligned()
      ensures r.Failed? ==> r.code == IoError
    {
      hide StoreOk, CommittedDb, AllSecure, AllShow, AllGuarded, AllTraced, DroppedFrom, SameId, WalManager.Resting;
      hide WalManager.Gapped, Levelled;
      ghost var recent, older := wal.recent, wal.older;
      r, sizeUnknown := wal.Reset(logImages);
      ResetSecure(disk.possible, recent, older, wal.recent, wal.older, wal.databaseId, db);
      DroppedTraced(disk.possible, recent, older, wal.recent, wal.older, wal.databaseId, db, sources);
      if wal.Resting(map[]) {
        logImages := map[];
      }
      if r.Done? {
        recovered := map[];
        sources := iset{db};
        SyncedFooting(db);
      }
    }

    /** An empty log on the medium, with a file that alone shows db. */
    lemma SyncedFooting(db: Db)
      requires wal.databaseId == db.header.databaseId && SameId(disk.possible, wal.databaseId) && wal.Resting(map[])
      requires wal.recent == iset{wal.log} && wal.older == iset{} && AllShow(disk.possible, map[], db)
      requires logImages == map[] && db in sources && Ours(wal.recent, wal.databaseId)
      ensures OnFooting(disk.possible, db, Footing(false, true, true)) && wal.Level()
    {
      LogAlone(disk.possible, wal.log, map[], wal.databaseId, db);
      hide AllTraced, Gives, ScanOf, AllShow;
      AllSecureTraced(disk.possible, wal.recent, wal.databaseId, db, sources);
      AllSecureTraced(disk.possible, wal.older, wal.databaseId, db, sources);
    }
  }

  /** What is known of a pager's files. */
  datatype Footing = Footing(lost: bool, safe: bool, guarded: bool)

  /** The header as the before-images have it. */
  ghost function HeaderBefore(originals: map<PageId, Image>, header: DatabaseHeader): DatabaseHeader {
    if HEADER_PAGE_ID in originals && originals[HEADER_PAGE_ID].HeaderImage? then originals[HEADER_PAGE_ID].header
    else header
  }

  /** The before-image of page p can be put back. */
  ghost predicate Restorable(originals: map<PageId, Image>, cached: map<PageId, Slot>, p: PageId)
    requires p in originals
  {
    if p == HEADER_PAGE_ID then originals[p].HeaderImage?
    else p != INVALID_PAGE_ID && p in cached && cached[p].pinCount == 0
  }

  ghost predicate RestorableAll(originals: map<PageId, Image>, cached: map<PageId, Slot>) {
    forall p :: p in originals ==> Restorable(originals, cached, p)
  }

  /** Before-images and new pages are apart, and page 0 has neither a cached copy nor a new page. */
  lemma OriginalsApart(v: View)
    requires Consistent(v)
    ensures HEADER_PAGE_ID !in v.cached && HEADER_PAGE_ID !in v.transaction.newPageIds
    ensures forall p :: p in v.transaction.originalPages ==> p !in v.transaction.newPageIds
    ensures HEADER_PAGE_ID in v.transaction.originalPages ==> v.transaction.originalPages[HEADER_PAGE_ID].HeaderImage?
    ensures Settled(v) ==> RestorableAll(v.transaction.originalPages, v.cached)
    ensures Settled(v) ==> forall p :: p in v.transaction.newPageIds ==> Unheld(p, v.cached)
    ensures forall p :: p in v.transaction.dirtyPageIds <==>
      p in v.transaction.originalPages || p in v.transaction.newPageIds
    ensures forall p :: p in v.transaction.dirtyPageIds && p != HEADER_PAGE_ID ==>
      p != INVALID_PAGE_ID && p in v.cached
  {
    if Settled(v) {
      forall p | p in v.transaction.originalPages ensures Restorable(v.transaction.originalPages, v.cached, p) {
        assert p in v.transaction.dirtyPageIds;
        assert Unheld(p, v.cached);
      }
      forall p | p in v.transaction.newPageIds ensures Unheld(p, v.cached) {
        assert p in v.transaction.dirtyPageIds;
      }
    }
  }
}
