/** The owner of the log file: opening it, appending transactions, and resetting it after a checkpoint. */
module WalManagers {
  import opened PageIds
  import opened PageImages
  import opened Status
  import opened WalFormat
  import opened WalScanner
  import opened LogScans
  import opened Recovery
  import opened LogWrites

  /** A log file with nothing after its header. */
  function EmptyLog(databaseId: nat): Log {
    Log(WAL_HEADER_SIZE, Some(databaseId), map[], map[])
  }

  class WalManager {
    const databaseId: nat
    var appendOffset: nat
    /** The file as this process reads it back. */
    var log: Log
    /** What a crash may leave, if the last truncation reached the medium, and if it did not. Writes that
        follow a truncation never reach the medium before it. */
    ghost var recent: iset<Log>
    ghost var older: iset<Log>

    /** What a crash may leave since the last truncation is no longer than the file is now, which it may
        leave as well. */
    ghost predicate FilesFit()
      reads this
    {
      && log in recent && (forall l :: l in recent ==> Sound(l) && l.size <= log.size)
      && forall l :: l in older ==> Sound(l)
    }

    /** The next record goes to the end of the file. */
    ghost predicate Aligned()
      reads this
    {
      appendOffset == log.size
    }

    /** Where the next record goes: to the end of the file, or, once a reset lost track of that, beyond the
        end of a file without transactions, by at least one record. */
    ghost predicate Placed()
      reads this
    {
      Aligned() || (log.size == WAL_HEADER_SIZE && WAL_HEADER_SIZE + WAL_COMMIT_RECORD_SIZE <= appendOffset)
    }

    /** The file gives images and has whole transactions up to its end. */
    ghost predicate Resting(images: map<PageId, Image>)
      reads this
    {
      && log.header == Some(databaseId) && Gives(log, databaseId, images)
      && ScanOf(log, databaseId).value.validEnd == log.size && FilesFit() && Placed()
    }

    /** A commit went beyond the end of the file: every scan refuses what a crash may leave of it. */
    ghost predicate Gapped()
      reads this
    {
      && FilesFit() && Aligned() && forall l :: l in recent ==> Gap(l, databaseId)
    }

    constructor (databaseId: nat, log: Log, ghost recent: iset<Log>, ghost older: iset<Log>)
      ensures this.databaseId == databaseId && this.log == log && appendOffset == log.size
      ensures this.recent == recent && this.older == older
    {
      this.databaseId, this.log, appendOffset, this.recent, this.older := databaseId, log, log.size, recent, older;
    }

    /** Opens the log file: creates its header if it is empty, and cuts off whatever follows the last
        accepted transaction. recent and older are what a crash might leave of the file at this point.
        Only cutting syncs the file; otherwise all of that may still be left afterwards. left is the file
        afterwards; when the cut was made but could not be confirmed, the next attempt finds a file that
        gives the same images. */
    static method OpenOrCreate(file: Log, databaseId: nat, ghost recent: iset<Log>, ghost older: iset<Log>)
        returns (r: Result<WalManager>, left: Log)
      requires file in recent && (forall l :: l in recent ==> Sound(l) && l.size <= file.size) &&
        (forall l :: l in older ==> Sound(l))
      ensures r.Ok? ==> fresh(r.value) && r.value.databaseId == databaseId && r.value.log == left && r.value.Aligned()
      ensures r.Ok? ==> OpenImages(file, databaseId).Ok? && r.value.Resting(OpenImages(file, databaseId).value)
      ensures r.Ok? ==> r.value.recent == RecentOpened(file, databaseId, left, recent)
      ensures r.Ok? ==> r.value.older == OlderOpened(file, databaseId, older)
      ensures r.Ok? ==> file.size == 0 || CutAtOpening(file, databaseId) || left == file
      ensures r == Err(Corruption) <==> OpenImages(file, databaseId).Err?
      ensures r.Err? && r.code != Corruption ==> r.code == IoError
      ensures r == Err(IoError) && file.size != 0 ==>
        left.header.Some? && Gives(left, databaseId, OpenImages(file, databaseId).value)
    {
      hide Sound, AllFit;
      if file.size == 0 {
        r, left := WriteFirstHeader(file, databaseId, recent, older);
        return;
      }
      left := file;
      if file.size < WAL_HEADER_SIZE {
        return Err(Corruption), left;
      }
      if file.header != Some(databaseId) {
        return Err(Corruption), left;
      }
      var scan := Scan(file, databaseId);
      if scan.Err? {
        return Err(scan.code), left;
      }
      var cut;
      cut, left := CutTrailing(file, databaseId, scan.value);
      if cut.Failed? {
        return Err(cut.code), left;
      }
      var manager := new WalManager(databaseId, left, RecentOpened(file, databaseId, left, recent),
                                    OlderOpened(file, databaseId, older));
      r := Ok(manager);
    }

    /** Gives an empty file its header. */
    static method WriteFirstHeader(file: Log, databaseId: nat, ghost recent: iset<Log>, ghost older: iset<Log>)
        returns (r: Result<WalManager>, left: Log)
      requires file.size == 0 && file in recent && (forall l :: l in older ==> Sound(l))
      ensures r.Ok? ==> fresh(r.value) && r.value.databaseId == databaseId && r.value.log == left && r.value.Aligned()
      ensures r.Ok? ==> r.value.Resting(map[]) && r.value.recent == Created(left) && r.value.older == older
      ensures r.Err? ==> r.code == IoError
    {
      var ok: bool := *;
      if !ok {
        var size: nat := *;
        left := if size <= WAL_HEADER_SIZE then Log(size, None, map[], map[]) else file;
        return Err(IoError), left;
      }
      left := EmptyLog(databaseId);
      EmptyGives(databaseId);
      var manager := new WalManager(databaseId, left, Created(left), older);
      r := Ok(manager);
    }

    /** Cuts off what the scan ignored, and makes sure of it. */
    static method CutTrailing(file: Log, databaseId: nat, scan: ScanResult) returns (r: Outcome, left: Log)
      requires Sound(file) && file.size >= WAL_HEADER_SIZE && ScanOf(file, databaseId) == Ok(scan)
      ensures Sound(left) && left.header == Some(databaseId) && Gives(left, databaseId, ImagesOf(file, scan.latest))
      ensures r.Done? ==> ScanOf(left, databaseId).value.validEnd == left.size && (scan.ignoredTrailing || left == file)
      ensures r.Failed? ==> r.code == IoError
    {
      left := file;
      ScanAccepts(file, databaseId);
      TruncationGives(file, databaseId);
      if scan.ignoredTrailing {
        var resized, reported, synced: bool := *, *, *;
        if resized || reported {
          left := Resized(file, scan.validEnd);
        }
        if !reported || !synced {
          return Failed(IoError), left;
        }
      }
      r := Done;
    }

    // ---- Appending -------------------------------------------------------------------------

    /** One write at the append offset. */
    method WriteRecord(record: Record) returns (r: Outcome)
      requires WAL_HEADER_SIZE <= log.size <= appendOffset && Sound(log)
      modifies this`log, this`recent
      ensures MayLeave(old(log), appendOffset, record, log) && (r.Done? ==> appendOffset in log.records)
      ensures recent == AfterWrite(old(recent), appendOffset, record, log.size)
      ensures r.Failed? ==> r.code == IoError
    {
      var landed, reported: bool := *, *;
      var size: nat := *;
      var junk: Log := *;
      if !(log.size <= size <= appendOffset + Size(record)) {
        size := log.size;
      }
      RemainsMayLeave(log, appendOffset, record, landed || reported, size, junk);
      log := Remains(log, appendOffset, record, landed || reported, size, junk);
      recent := AfterWrite(recent, appendOffset, record, log.size);
      r := if reported then Done else Failed(IoError);
    }

    /** In the middle of appending t at offset o to base, where a crash might have left one of bases: i
        records were written. */
    ghost predicate Appending(base: Log, bases: iset<Log>, o: nat, t: Transaction, i: nat)
      reads this
      requires i <= |t.frames| + 1
    {
      && WAL_HEADER_SIZE <= base.size <= o && Partial(base, log, o, t, i) && appendOffset == Until(o, t, i)
      && log.size == (if i == 0 then base.size else Until(o, t, i))
      && (forall j :: 0 <= j < i ==> RecordIntact(log, o, t, j))
      && (i > 0 && base.size + RECORD_TYPE_FIELD_SIZE <= o ==> TypeAt(log, base.size) == 0)
      && (forall b :: b in bases ==> Sound(b) && b.size <= base.size <= log.size)
      && FilesFit() && Covered(recent, bases, o, t, i)
    }

    /** Appends record i of t. */
    method AppendRecord(record: Record, ghost base: Log, ghost bases: iset<Log>, ghost o: nat, ghost t: Transaction,
                        ghost i: nat)
        returns (r: Outcome)
      requires i <= |t.frames| && record == RecordOf(t, i) && Appending(base, bases, o, t, i)
      modifies this`log, this`recent, this`appendOffset
      ensures r.Done? ==> Appending(base, bases, o, t, i + 1)
      ensures FilesFit() && Partial(base, log, o, t, i + 1) && Covered(recent, bases, o, t, i + 1)
      ensures r.Failed? ==> r.code == IoError
    {
      hide MayLeave, Partial, Covered;
      ghost var before, possible := log, recent;
      RecordRoom(o, t, i);
      r := WriteRecord(record);
      WrittenFits(before, RecordOffset(o, i), record, possible);
      AfterWriteCovered(possible, bases, o, t, i, log.size);
      PartialGrows(base, before, o, t, i, log);
      if r.Failed? {
        return;
      }
      appendOffset := appendOffset + Size(record);
      RecordsGrow(before, o, t, i, log);
    }

    /** A write leaves files that fit again. */
    lemma WrittenFits(before: Log, o: nat, record: Record, possible: iset<Log>)
      requires before in possible && MayLeave(before, o, record, log) &&
        recent == AfterWrite(possible, o, record, log.size)
      requires forall l :: l in older ==> Sound(l)
      ensures FilesFit()
    {
    }

    method AppendPageFrame(frame: Frame, ghost base: Log, ghost bases: iset<Log>, ghost o: nat, ghost i: nat,
                           t: Transaction)
        returns (r: Outcome)
      requires i < |t.frames| && frame == t.frames[i] && Appending(base, bases, o, t, i)
      modifies this`log, this`recent, this`appendOffset
      ensures r.Done? ==> Appending(base, bases, o, t, i + 1)
      ensures FilesFit() && Partial(base, log, o, t, i + 1) && Covered(recent, bases, o, t, i + 1)
      ensures r == Failed(InvalidArgument) <==> frame.page == INVALID_PAGE_ID
      ensures r.Failed? ==> r.code == InvalidArgument || r.code == IoError
    {
      hide Covered, Partial, Sound;
      if frame.page == INVALID_PAGE_ID {
        CoveredLater(recent, bases, o, t, i, i + 1);
        PartialLater(base, log, o, t, i, i + 1);
        return Failed(InvalidArgument);
      }
      r := AppendRecord(FrameRecord(t.id, frame.page, frame.image), base, bases, o, t, i);
    }

    /** Appends a transaction and syncs the file. Acknowledged, it is on the medium: no crash can lose it
        any more, provided that its records went to the end of the file. If they went beyond it, the log
        is one that every scan refuses, and it stays one, whatever is appended later. Not acknowledged, a
        crash leaves a log that gives what was there before, that and the whole transaction, or that is
        refused. */
    method CommitTransaction(transactionId: nat, pages: seq<Frame>, ghost images: map<PageId, Image>)
      returns (r: Outcome)
      requires Resting(images) || Gapped()
      modifies this
      ensures FilesFit()
      ensures r.Done? ==> recent == iset{log} && older == iset{} && Aligned()
      ensures r.Done? && old(Resting(images) && Aligned()) ==> Resting(images + Overlaid(map[], pages))
      ensures r.Done? && !old(Resting(images) && Aligned()) ==> Gapped()
      ensures r.Failed? ==> older == old(older) && Stemming(old(recent), recent, databaseId, Overlaid(map[], pages))
      ensures old(Gapped()) ==> forall l :: l in recent ==> Gap(l, databaseId)
      ensures r.Failed? ==> forall l :: l in old(recent) ==> l in recent
      ensures r.Failed? ==> StemsFrom(old(log), log, databaseId, Overlaid(map[], pages))
      ensures old(Ours(recent, databaseId)) ==> Ours(recent, databaseId)
      ensures r.Failed? && old(Level()) && log.size == old(log.size) ==>
        Level() && GivenBefore(old(recent), recent, databaseId)
      ensures r.Failed? && old(Resting(images) && Aligned()) && log.size != old(log.size) ==>
        (WholeRead(log, databaseId) ==> Gives(log, databaseId, images + Overlaid(map[], pages)))
      ensures AppendFails(pages, r)
    {
      hide Covered, Undecided, Appending, Gives, ScanOf, Stemming, StemsFrom, Gap, Partial, Levelled, WholeRead;
      hide GivenBefore;
      ghost var base, bases, o := log, recent, appendOffset;
      ghost var t := Transaction(transactionId, pages);
      StartsAppendable(images);
      ghost var gapped, level, ours := Gapped(), Level(), Ours(recent, databaseId);
      r := AppendTransaction(transactionId, pages);
      CoveredStems(recent, bases, databaseId, o, t, |pages| + 1);
      PartialStems(base, log, databaseId, o, t, |pages| + 1);
      CoveredKeeps(recent, bases, o, t, |pages| + 1);
      if gapped {
        CoveredGaps(recent, bases, databaseId, o, t, |pages| + 1);
      }
      if ours {
        CoveredOurs(recent, bases, databaseId, o, t, |pages| + 1);
      }
      if level && log.size == base.size {
        NothingAppended(bases, o, t, |pages| + 1);
      }
      if old(Resting(images) && Aligned()) {
        AllAppended(base, t, |pages| + 1, images);
      }
      if r.Done? {
        WholeIsAligned(base, bases, o, t);
        if !gapped {
          TransactionLanded(base, bases, o, t, images);
        }
        r := Sync();
      }
    }

    /** Whatever a crash may leave of the file has no header yet, or it is as long as the file is and has
        whole transactions up to its end. */
    ghost predicate Level()
      reads this
    {
      forall l :: l in recent ==> Levelled(l, databaseId, log.size)
    }

    /** While the file is as long as it was, whatever a crash may leave of it gives what it gave before. */
    lemma NothingAppended(bases: iset<Log>, o: nat, t: Transaction, i: nat)
      requires i <= |t.frames| + 1 && Covered(recent, bases, o, t, i) && forall l :: l in recent ==> l.size <= log.size
      requires forall b :: b in bases ==> Levelled(b, databaseId, log.size)
      ensures Level() && GivenBefore(bases, recent, databaseId)
    {
      hide Sound, Partial, Levelled, GivesSame;
      forall l | l in recent
        ensures Levelled(l, databaseId, log.size) && exists b :: b in bases && GivesSame(b, l, databaseId)
      {
        var b :| b in bases && Partial(b, l, o, t, i);
        SameSizeGives(b, l, databaseId, o, t, i, log.size);
      }
    }

    /** A longer file that has whole transactions up to its end has all of the new one. */
    lemma AllAppended(base: Log, t: Transaction, i: nat, images: map<PageId, Image>)
      requires i <= |t.frames| + 1 && Partial(base, log, base.size, t, i)
      requires base.header == Some(databaseId) && Gives(base, databaseId, images)
      requires ScanOf(base, databaseId).value.validEnd == base.size
      ensures log.size != base.size && WholeRead(log, databaseId) ==>
        Gives(log, databaseId, images + Overlaid(map[], t.frames))
    {
      hide Gives, Partial;
      if log.size != base.size && WholeRead(log, databaseId) {
        LongerHasAll(base, log, databaseId, t, i, images);
      }
    }

    lemma StartsAppendable(images: map<PageId, Image>)
      requires Resting(images) || Gapped()
      ensures Appendable() && !(Resting(images) && Gapped())
    {
      if Gapped() {
        GapIsRefused(log, databaseId);
      }
    }

    lemma WholeIsAligned(base: Log, bases: iset<Log>, o: nat, t: Transaction)
      requires Appending(base, bases, o, t, |t.frames| + 1)
      ensures Aligned()
    {
    }

    /** With all its records in the file, the log gives the transaction, or has a gap before it. */
    lemma TransactionLanded(base: Log, bases: iset<Log>, o: nat, t: Transaction, images: map<PageId, Image>)
      requires base.header == Some(databaseId) && Gives(base, databaseId, images) &&
        ScanOf(base, databaseId).value.validEnd == base.size
      requires base.size == o || (base.size == WAL_HEADER_SIZE && WAL_HEADER_SIZE + WAL_COMMIT_RECORD_SIZE <= o)
      requires Appending(base, bases, o, t, |t.frames| + 1)
      ensures FilesFit() && log.header == Some(databaseId) && Aligned()
      ensures o == base.size ==> Gives(log, databaseId, images + Overlaid(map[], t.frames))
      ensures o == base.size ==> ScanOf(log, databaseId).value.validEnd == log.size
      ensures o != base.size ==> Gap(log, databaseId)
    {
      hide Covered;
      if o == base.size {
        AllLanded(base, log, databaseId, t, images);
      }
    }

    /** The file can be appended to. */
    ghost predicate Appendable()
      reads this
    {
      WAL_HEADER_SIZE <= log.size <= appendOffset && FilesFit()
    }

    method AppendTransaction(transactionId: nat, pages: seq<Frame>) returns (r: Outcome)
      requires Appendable()
      modifies this`log, this`recent, this`appendOffset
      ensures var t := Transaction(transactionId, pages);
        && (r.Done? ==> Appending(old(log), old(recent), old(appendOffset), t, |pages| + 1))
        && FilesFit() && Partial(old(log), log, old(appendOffset), t, |pages| + 1)
        && Covered(recent, old(recent), old(appendOffset), t, |pages| + 1)
      ensures AppendFails(pages, r)
    {
      hide Appending, Appendable, Covered, FilesFit, Partial;
      var t := Transaction(transactionId, pages);
      ReadyToAppend(t);
      ghost var o := appendOffset;
      r := AppendPageFrames(t, log, recent, appendOffset);
      if r.Failed? {
        return;
      }
      r := AppendRecord(CommitRecord(transactionId, |pages|), old(log), old(recent), o, t, |pages|);
    }

    /** Only a page without an id is refused before it is written. */
    ghost predicate AppendFails(pages: seq<Frame>, r: Outcome) {
      && ((exists i :: 0 <= i < |pages| && pages[i].page == INVALID_PAGE_ID) ==> r.Failed?)
      && (r == Failed(InvalidArgument) ==> exists i :: 0 <= i < |pages| && pages[i].page == INVALID_PAGE_ID)
      && (r.Failed? ==> r.code == InvalidArgument || r.code == IoError)
    }

    method AppendPageFrames(t: Transaction, ghost base: Log, ghost bases: iset<Log>, ghost o: nat) returns (r: Outcome)
      requires Appending(base, bases, o, t, 0)
      modifies this`log, this`recent, this`appendOffset
      ensures r.Done? ==> Appending(base, bases, o, t, |t.frames|)
      ensures FilesFit() && Partial(base, log, o, t, |t.frames| + 1) && Covered(recent, bases, o, t, |t.frames| + 1)
      ensures AppendFails(t.frames, r)
    {
      hide Partial, Covered, Sound;
      for i := 0 to |t.frames|
        invariant Appending(base, bases, o, t, i)
        invariant forall j :: 0 <= j < i ==> t.frames[j].page != INVALID_PAGE_ID
      {
        r := AppendPageFrame(t.frames[i], base, bases, o, i, t);
        if r.Failed? {
          CoveredLater(recent, bases, o, t, i + 1, |t.frames| + 1);
          PartialLater(base, log, o, t, i + 1, |t.frames| + 1);
          return;
        }
      }
      CoveredLater(recent, bases, o, t, |t.frames|, |t.frames| + 1);
      PartialLater(base, log, o, t, |t.frames|, |t.frames| + 1);
      r := Done;
    }

    lemma ReadyToAppend(t: Transaction)
      requires Appendable()
      ensures Appending(log, recent, appendOffset, t, 0)
    {
      hide Partial;
      forall l | l in recent ensures Partial(l, l, appendOffset, t, 0) {
        PartialStarts(l, appendOffset, t);
      }
    }

    /** After a successful sync a crash leaves exactly what was written. */
    method Sync() returns (r: Outcome)
      modifies this`recent, this`older
      ensures r.Done? ==> recent == iset{log} && older == iset{}
      ensures r.Failed? ==> unchanged(this) && r.code == IoError
    {
      var reported: bool := *;
      if reported {
        recent, older := iset{log}, iset{};
      }
      r := if reported then Done else Failed(IoError);
    }

    // ---- Resetting -------------------------------------------------------------------------

    /** Drops all transactions. While the truncation is not known to be on the medium a crash may bring
        the old log back whole. The append offset follows the file except in one case: the truncation
        took effect, was reported as failed, and the size of the file could not be read back either.
        sizeUnknown says that it could not be read. */
    method Reset(ghost images: map<PageId, Image>) returns (r: Outcome, sizeUnknown: bool)
      requires (Resting(images) || Gapped()) && Ours(recent, databaseId)
      modifies this
      ensures r.Done? ==> Resting(map[]) && recent == iset{log} && older == iset{}
      ensures r.Failed? && old(Resting(images)) ==> Resting(images) || Resting(map[])
      ensures r.Failed? && old(Gapped()) ==> Resting(map[]) || (Gapped() && older == old(older))
      ensures (sizeUnknown ==> r.Failed?) && (r.Failed? ==> r.code == IoError)
      ensures Aligned() <==> !sizeUnknown || log.size == old(appendOffset)
      ensures DroppedFrom(old(recent), old(older), recent, older, databaseId)
      ensures FilesFit() && Ours(recent, databaseId) && (old(Level()) ==> Level())
    {
      hide ScanOf, Gives, DroppedFrom, CutBack, Gap, Levelled;
      sizeUnknown := false;
      var truncated := TruncateToHeader(images);
      if truncated.Failed? {
        sizeUnknown := *;
        if !sizeUnknown && log.size == WAL_HEADER_SIZE {
          appendOffset := WAL_HEADER_SIZE;
        }
        return truncated, sizeUnknown;
      }
      appendOffset := WAL_HEADER_SIZE;
      // Writing the header over an identical header leaves the file as it is.
      var written: bool := *;
      if !written {
        return Failed(IoError), false;
      }
      r := Sync();
      if r.Done? {
        DroppedEmpty(old(recent), old(older), recent, older, log, databaseId);
      }
    }

    /** Whatever becomes of the truncation, the file is as it was or gives nothing. */
    method TruncateToHeader(ghost images: map<PageId, Image>) returns (r: Outcome)
      requires (Resting(images) || Gapped()) && Ours(recent, databaseId)
      modifies this`log, this`recent, this`older
      ensures r.Failed? ==> r.code == IoError && (unchanged(this) || Resting(map[]))
      ensures r.Done? ==> Resting(map[]) && log.size == WAL_HEADER_SIZE
      ensures DroppedFrom(old(recent), old(older), recent, older, databaseId)
      ensures Ours(recent, databaseId) && (old(Level()) ==> Level())
    {
      hide ScanOf, Gives, DroppedFrom, CutBack, FilesFit, Gap, Levelled;
      var resized, reported: bool := *, *;
      if !resized && !reported {
        DroppedSame(recent, older, databaseId);
        return Failed(IoError);
      }
      PlacedAfterCut(images);
      ReadyToCut(images);
      CutToHeader();
      r := if reported then Done else Failed(IoError);
    }

    /** A log that holds a transaction is longer than its header by at least a commit record. */
    lemma PlacedAfterCut(images: map<PageId, Image>)
      requires Resting(images) || Gapped()
      ensures appendOffset == WAL_HEADER_SIZE || WAL_HEADER_SIZE + WAL_COMMIT_RECORD_SIZE <= appendOffset
    {
      if Resting(images) {
        Accepted(log, Clean(WAL_HEADER_SIZE, map[]));
      }
    }

    lemma ReadyToCut(images: map<PageId, Image>)
      requires (Resting(images) || Gapped()) && Ours(recent, databaseId)
      ensures CutBack(Resized(log, WAL_HEADER_SIZE), ResizedAll(recent, WAL_HEADER_SIZE), databaseId)
      ensures DroppedFrom(recent, older, ResizedAll(recent, WAL_HEADER_SIZE), older + recent, databaseId)
      ensures forall l :: l in older + recent ==> Sound(l)
    {
      hide ScanOf, Gives;
      ResetGives(recent, log, databaseId);
      CutBackDrops(recent, older, Resized(log, WAL_HEADER_SIZE), ResizedAll(recent, WAL_HEADER_SIZE), databaseId);
    }

    method CutToHeader()
      requires CutBack(Resized(log, WAL_HEADER_SIZE), ResizedAll(recent, WAL_HEADER_SIZE), databaseId)
      requires DroppedFrom(recent, older, ResizedAll(recent, WAL_HEADER_SIZE), older + recent, databaseId)
      requires forall l :: l in older + recent ==> Sound(l)
      modifies this`log, this`recent, this`older
      ensures log.size == WAL_HEADER_SIZE && (Placed() ==> Resting(map[])) && Ours(recent, databaseId) && Level()
      ensures DroppedFrom(old(recent), old(older), recent, older, databaseId)
    {
      older := older + recent;
      recent := ResizedAll(recent, WAL_HEADER_SIZE);
      log := Resized(log, WAL_HEADER_SIZE);
    }
  }

  /** Every log that a crash may leave afterwards was one before, or holds no transaction. */
  ghost predicate DroppedFrom(recent: iset<Log>, older: iset<Log>, recent': iset<Log>, older': iset<Log>,
                              databaseId: nat) {
    && (forall l :: l in recent' ==> l in recent || l in older || Gives(l, databaseId, map[]))
    && (forall l :: l in older' ==> l in recent || l in older || Gives(l, databaseId, map[]))
  }

  lemma DroppedSame(recent: iset<Log>, older: iset<Log>, databaseId: nat)
    ensures DroppedFrom(recent, older, recent, older, databaseId)
  {
  }

  lemma DroppedEmpty(recent: iset<Log>, older: iset<Log>, recent': iset<Log>, older': iset<Log>, log: Log,
                     databaseId: nat)
    requires recent' == iset{log} && older' == iset{} && Gives(log, databaseId, map[])
    ensures DroppedFrom(recent, older, recent', older', databaseId)
  {
  }

  lemma CutBackDrops(recent: iset<Log>, older: iset<Log>, cut: Log, cuts: iset<Log>, databaseId: nat)
    requires CutBack(cut, cuts, databaseId)
    ensures DroppedFrom(recent, older, cuts, older + recent, databaseId)
  {
  }

  /** The file is a header and nothing else; so is what a crash may leave of it, once the truncation is
      on the medium. */
  ghost predicate CutBack(log: Log, logs: iset<Log>, databaseId: nat) {
    && log.header == Some(databaseId) && log.size == WAL_HEADER_SIZE && log in logs
    && Gives(log, databaseId, map[]) && ScanOf(log, databaseId).value.validEnd == log.size
    && Ours(logs, databaseId)
    && (forall l :: l in logs ==> Sound(l) && Gives(l, databaseId, map[]) && l.size == WAL_HEADER_SIZE)
    && forall l :: l in logs ==> Levelled(l, databaseId, WAL_HEADER_SIZE)
  }

  ghost function ResizedAll(logs: iset<Log>, n: nat): iset<Log> {
    iset l | l in logs :: Resized(l, n)
  }

  /** Every log that has a header has it from this database. */
  ghost predicate Ours(logs: iset<Log>, databaseId: nat) {
    forall l :: l in logs && l.header.Some? ==> l.header == Some(databaseId)
  }

  lemma ResizedGives(l: Log, databaseId: nat)
    requires Sound(l) && (l.header.Some? ==> l.header == Some(databaseId))
    ensures Sound(Resized(l, WAL_HEADER_SIZE)) && Resized(l, WAL_HEADER_SIZE).header == l.header
    ensures Resized(l, WAL_HEADER_SIZE).size == WAL_HEADER_SIZE
    ensures Gives(Resized(l, WAL_HEADER_SIZE), databaseId, map[])
    ensures Levelled(Resized(l, WAL_HEADER_SIZE), databaseId, WAL_HEADER_SIZE)
  {
    assert Run(Resized(l, WAL_HEADER_SIZE), Clean(WAL_HEADER_SIZE, map[])).Ok?;
  }

  /** Logs cut back to their header hold no transaction. */
  lemma ResetGives(logs: iset<Log>, log: Log, databaseId: nat)
    requires log.header == Some(databaseId) && log in logs
    requires Ours(logs, databaseId) && forall l :: l in logs ==> Sound(l)
    ensures CutBack(Resized(log, WAL_HEADER_SIZE), ResizedAll(logs, WAL_HEADER_SIZE), databaseId)
  {
    ResizedWhole(log, databaseId);
    hide Gives, Sound, ScanOf, Resized, Levelled;
    forall l | l in logs
      ensures Resized(l, WAL_HEADER_SIZE).size == WAL_HEADER_SIZE && Resized(l, WAL_HEADER_SIZE).header == l.header
      ensures Sound(Resized(l, WAL_HEADER_SIZE)) && Gives(Resized(l, WAL_HEADER_SIZE), databaseId, map[])
      ensures Levelled(Resized(l, WAL_HEADER_SIZE), databaseId, WAL_HEADER_SIZE)
    {
      ResizedGives(l, databaseId);
    }
  }

  lemma ResizedWhole(log: Log, databaseId: nat)
    requires Sound(log) && log.header == Some(databaseId)
    ensures ScanOf(Resized(log, WAL_HEADER_SIZE), databaseId).Ok?
    ensures ScanOf(Resized(log, WAL_HEADER_SIZE), databaseId).value.validEnd == WAL_HEADER_SIZE
  {
    ResizedGives(log, databaseId);
  }

  // ---- The logs a crash may leave while a transaction is appended ----------------------------

  /** What a crash may leave after a write, the file being limit bytes long. */
  ghost function AfterWrite(logs: iset<Log>, o: nat, r: Record, limit: nat): iset<Log> {
    iset l, after | l in logs && MayLeave(l, o, r, after) && after.size <= limit :: after
  }

  /** Every log is one of bases with at most the remains of the first i records of t after it; nothing
      of them at all may remain. */
  ghost predicate Covered(logs: iset<Log>, bases: iset<Log>, o: nat, t: Transaction, i: nat)
    requires i <= |t.frames| + 1
  {
    && (forall l :: l in logs ==> exists b :: b in bases && Partial(b, l, o, t, i))
    && (forall b :: b in bases ==> b in logs)
  }

  lemma AfterWriteCovered(logs: iset<Log>, bases: iset<Log>, o: nat, t: Transaction, i: nat, limit: nat)
    requires i <= |t.frames| && Covered(logs, bases, o, t, i)
    requires forall b :: b in bases ==> Sound(b) && b.size <= o && b.size <= limit
    ensures Covered(AfterWrite(logs, RecordOffset(o, i), RecordOf(t, i), limit), bases, o, t, i + 1)
  {
    forall b | b in bases ensures MayLeave(b, RecordOffset(o, i), RecordOf(t, i), b) {
      MayLeaveNothing(b, RecordOffset(o, i), RecordOf(t, i));
    }
    hide MayLeave, Partial, Sound;
    forall l, after | l in logs && MayLeave(l, RecordOffset(o, i), RecordOf(t, i), after)
      ensures exists b :: b in bases && Partial(b, after, o, t, i + 1)
    {
      var b :| b in bases && Partial(b, l, o, t, i);
      PartialGrows(b, l, o, t, i, after);
    }
  }

  lemma CoveredLater(logs: iset<Log>, bases: iset<Log>, o: nat, t: Transaction, i: nat, j: nat)
    requires i <= j <= |t.frames| + 1 && Covered(logs, bases, o, t, i)
    ensures Covered(logs, bases, o, t, j)
  {
    hide Partial;
    forall l | l in logs ensures exists b :: b in bases && Partial(b, l, o, t, j) {
      var b :| b in bases && Partial(b, l, o, t, i);
      PartialLater(b, l, o, t, i, j);
    }
  }

  /** Each log afterwards comes from one before: it gives what that one gave, that and the changes, or it
      is refused. */
  ghost predicate Stemming(before: iset<Log>, after: iset<Log>, databaseId: nat, changes: map<PageId, Image>) {
    forall l :: l in after ==> exists b :: b in before && StemsFrom(b, l, databaseId, changes)
  }

  ghost predicate StemsFrom(b: Log, l: Log, databaseId: nat, changes: map<PageId, Image>) {
    && (forall images :: Gives(b, databaseId, images) ==> Undecided(l, databaseId, images, images + changes))
    && (Unreadable(b, databaseId) ==> Unreadable(l, databaseId))
  }

  lemma PartialStems(b: Log, l: Log, databaseId: nat, o: nat, t: Transaction, i: nat)
    requires i <= |t.frames| + 1 && Partial(b, l, o, t, i) && Sound(b)
    ensures StemsFrom(b, l, databaseId, Overlaid(map[], t.frames))
  {
    hide Partial, Undecided, Gives, Unreadable;
    forall images | Gives(b, databaseId, images)
      ensures Undecided(l, databaseId, images, images + Overlaid(map[], t.frames))
    {
      PartialUndecided(b, l, databaseId, o, t, i, images);
    }
    if Unreadable(b, databaseId) {
      UnreadableStays(b, l, databaseId, o, t, i);
    }
  }

  lemma CoveredStems(logs: iset<Log>, bases: iset<Log>, databaseId: nat, o: nat, t: Transaction, i: nat)
    requires i <= |t.frames| + 1 && Covered(logs, bases, o, t, i) && forall b :: b in bases ==> Sound(b)
    ensures Stemming(bases, logs, databaseId, Overlaid(map[], t.frames))
  {
    hide Partial, StemsFrom, Sound;
    forall l | l in logs ensures exists b :: b in bases && StemsFrom(b, l, databaseId, Overlaid(map[], t.frames)) {
      var b :| b in bases && Partial(b, l, o, t, i);
      PartialStems(b, l, databaseId, o, t, i);
    }
  }

  /** Each log gives whatever some log before it gave. */
  ghost predicate GivenBefore(before: iset<Log>, after: iset<Log>, databaseId: nat) {
    forall l :: l in after ==> exists b :: b in before && GivesSame(b, l, databaseId)
  }

  lemma CoveredKeeps(logs: iset<Log>, bases: iset<Log>, o: nat, t: Transaction, i: nat)
    requires i <= |t.frames| + 1 && Covered(logs, bases, o, t, i)
    ensures forall b :: b in bases ==> b in logs
  {
  }

  lemma CoveredOurs(logs: iset<Log>, bases: iset<Log>, databaseId: nat, o: nat, t: Transaction, i: nat)
    requires i <= |t.frames| + 1 && Covered(logs, bases, o, t, i) && Ours(bases, databaseId)
    ensures Ours(logs, databaseId)
  {
  }

  lemma CoveredGaps(logs: iset<Log>, bases: iset<Log>, databaseId: nat, o: nat, t: Transaction, i: nat)
    requires i <= |t.frames| + 1 && Covered(logs, bases, o, t, i) && forall b :: b in bases ==> Gap(b, databaseId)
    ensures forall l :: l in logs ==> Gap(l, databaseId)
  {
    hide Partial, Gap;
    forall l | l in logs ensures Gap(l, databaseId) {
      var b :| b in bases && Partial(b, l, o, t, i);
      GapStays(b, l, databaseId, o, t, i);
    }
  }

  lemma RecordRoom(o: nat, t: Transaction, i: nat)
    requires i <= |t.frames|
    ensures Until(o, t, i) == RecordOffset(o, i) && Until(o, t, i + 1) == RecordOffset(o, i) + Size(RecordOf(t, i))
  {
  }

  /** Once record i was written, the first i + 1 records are whole. */
  lemma RecordsGrow(log: Log, o: nat, t: Transaction, i: nat, after: Log)
    requires i <= |t.frames| && MayLeave(log, RecordOffset(o, i), RecordOf(t, i), after) &&
      RecordOffset(o, i) in after.records
    requires forall j :: 0 <= j < i ==> RecordIntact(log, o, t, j)
    ensures after.size == Until(o, t, i + 1)
    ensures forall j :: 0 <= j < i + 1 ==> RecordIntact(after, o, t, j)
  {
    forall j | 0 <= j < i + 1 ensures RecordIntact(after, o, t, j) {
      assert j < i ==> RecordIntact(log, o, t, j) && RecordOffset(o, j) < RecordOffset(o, i);
    }
  }

  /** The images that opening a log file is about to give its reader. */
  ghost function OpenImages(file: Log, databaseId: nat): Result<map<PageId, Image>> {
    if file.size == 0 then Ok(map[])
    else
      match ScanOf(file, databaseId)
      case Err(code) => Err(code)
      case Ok(scan) => Ok(ImagesOf(file, scan.latest))
  }

  /** What a crash may leave of a file that was empty and then given its header. */
  ghost function Created(log: Log): iset<Log> {
    iset l: Log | l == log || (l.header.None? && l.records == map[] && l.size <= WAL_HEADER_SIZE && Sound(l))
  }

  /** The scan ignored trailing bytes: opening cuts them off and syncs the file. */
  ghost predicate CutAtOpening(file: Log, databaseId: nat) {
    file.size != 0 && ScanOf(file, databaseId).Ok? && ScanOf(file, databaseId).value.ignoredTrailing
  }

  /** What a crash may leave of the log file once it was opened. */
  ghost function RecentOpened(file: Log, databaseId: nat, left: Log, recent: iset<Log>): iset<Log> {
    if file.size == 0 then Created(left) else if CutAtOpening(file, databaseId) then iset{left} else recent
  }

  ghost function OlderOpened(file: Log, databaseId: nat, older: iset<Log>): iset<Log> {
    if CutAtOpening(file, databaseId) then iset{} else older
  }

  lemma EmptyGives(databaseId: nat)
    ensures Gives(EmptyLog(databaseId), databaseId, map[])
    ensures ScanOf(EmptyLog(databaseId), databaseId).value.validEnd == WAL_HEADER_SIZE
  {
    assert Run(EmptyLog(databaseId), Clean(WAL_HEADER_SIZE, map[])).Ok?;
  }

  lemma TruncationGives(log: Log, databaseId: nat)
    requires Sound(log) && ScanOf(log, databaseId).Ok?
    ensures var scan := ScanOf(log, databaseId).value;
      var cut := Resized(log, scan.validEnd);
      && scan.validEnd >= WAL_HEADER_SIZE && Sound(cut) && cut.header == Some(databaseId)
      && Gives(cut, databaseId, ImagesOf(log, scan.latest)) && ScanOf(cut, databaseId).value.validEnd == cut.size
  {
    var scan := ScanOf(log, databaseId).value;
    ScanAccepts(log, databaseId);
    TruncationKeepsScan(log, databaseId);
    ResizedAgrees(log, scan.validEnd);
    ImagesAgree(log, Resized(log, scan.validEnd), scan.latest, scan.validEnd);
  }
}
