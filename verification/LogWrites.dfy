/** What writes to the end of a log may leave of it, whether they fail, land, or are caught by a crash. */
module LogWrites {
  import opened PageIds
  import opened PageImages
  import opened Status
  import opened WalFormat
  import opened WalScanner
  import opened LogScans
  import opened Recovery

  ghost predicate AllFit(log: Log) {
    forall x :: x in log.records ==> x + Size(log.records[x]) <= log.size
  }

  /** A log file has no content beyond its end, and no header if it is too short for one. */
  ghost predicate Sound(log: Log) {
    && AllFit(log) && (forall x :: x in log.types ==> x + RECORD_TYPE_FIELD_SIZE <= log.size)
    && (log.size < WAL_HEADER_SIZE ==> log.header.None? && log.records == map[])
  }

  /** after is what writing record r at offset o, not before the end of the file, may leave of log: the
      record whole, or a file of some size in between whose bytes from o on are anything but a record that
      decodes at o. A gap between the old end and o reads as zeros. */
  ghost predicate MayLeave(log: Log, o: nat, r: Record, after: Log) {
    && after.header == log.header && log.size <= after.size <= o + Size(r) && Sound(after)
    && (forall x :: x < o ==> (x in after.records <==> x in log.records))
    && (forall x :: x in log.records && x < o ==> x in after.records && after.records[x] == log.records[x])
    && (o in after.records ==> after.records[o] == r)
    && (forall x: nat :: x + RECORD_TYPE_FIELD_SIZE <= log.size && x + RECORD_TYPE_FIELD_SIZE <= o ==>
        TypeAt(after, x) == TypeAt(log, x))
    && (forall x: nat :: log.size <= x && x + RECORD_TYPE_FIELD_SIZE <= o ==> TypeAt(after, x) == 0)
  }

  /** The file after a write that landed whole, or that left size bytes with junk from o on. */
  function Remains(log: Log, o: nat, r: Record, landed: bool, size: nat, junk: Log): Log {
    if landed then Landed(log, o, r) else Spoiled(log, o, size, junk)
  }

  function Below<T>(m: map<nat, T>, o: nat): map<nat, T> {
    map x | x in m && x < o :: m[x]
  }

  function Landed(log: Log, o: nat, r: Record): Log {
    Log(o + Size(r), log.header, Below(log.records, o)[o := r], Below(log.types, o))
  }

  function Spoiled(log: Log, o: nat, size: nat, junk: Log): Log {
    Log(size, log.header,
        Below(log.records, o) +
          map x | x in junk.records && x > o && x + Size(junk.records[x]) <= size :: junk.records[x],
        Below(log.types, o) + map x | x in junk.types && x >= o && x + RECORD_TYPE_FIELD_SIZE <= size :: junk.types[x])
  }

  lemma RemainsMayLeave(log: Log, o: nat, r: Record, landed: bool, size: nat, junk: Log)
    requires WAL_HEADER_SIZE <= log.size <= o && Sound(log) && log.size <= size <= o + Size(r)
    ensures MayLeave(log, o, r, Remains(log, o, r, landed, size, junk))
  {
    hide MayLeave, Sound, Landed, Spoiled;
    if landed {
      LandedMayLeave(log, o, r);
    } else {
      SpoiledMayLeave(log, o, r, size, junk);
    }
  }

  lemma LandedMayLeave(log: Log, o: nat, r: Record)
    requires WAL_HEADER_SIZE <= log.size <= o && Sound(log)
    ensures MayLeave(log, o, r, Landed(log, o, r))
  {
  }

  lemma SpoiledMayLeave(log: Log, o: nat, r: Record, size: nat, junk: Log)
    requires WAL_HEADER_SIZE <= log.size <= o && Sound(log) && log.size <= size <= o + Size(r)
    ensures MayLeave(log, o, r, Spoiled(log, o, size, junk))
  {
  }

  /** base and, from offset o on, at most the remains of the first i records of t. */
  ghost predicate Partial(base: Log, log: Log, o: nat, t: Transaction, i: nat)
    requires i <= |t.frames| + 1
  {
    && base.size <= o && log.size <= Until(o, t, i) && Agree(base, log, base.size) && Sound(log)
    && (forall x :: x in log.records && x < o ==> x in base.records && base.records[x] == log.records[x])
    && forall j :: 0 <= j <= |t.frames| && RecordOffset(o, j) in log.records ==>
         log.records[RecordOffset(o, j)] == RecordOf(t, j)
  }

  /** Where the first i records of a transaction at offset o end. */
  function Until(o: nat, t: Transaction, i: nat): nat
    requires i <= |t.frames| + 1
  {
    if i <= |t.frames| then RecordOffset(o, i) else EndOf(o, t)
  }

  lemma PartialStarts(base: Log, o: nat, t: Transaction)
    requires Sound(base) && base.size <= o
    ensures Partial(base, base, o, t, 0)
  {
  }

  /** Writing from the end of base on leaves what base had. */
  lemma AgreeStays(base: Log, log: Log, o: nat, r: Record, after: Log)
    requires Agree(base, log, base.size) && base.size <= o && Sound(log) && MayLeave(log, o, r, after)
    ensures Agree(base, after, base.size) && Sound(after)
  {
  }

  lemma PartialGrows(base: Log, log: Log, o: nat, t: Transaction, i: nat, after: Log)
    requires i <= |t.frames| && Partial(base, log, o, t, i)
    requires MayLeave(log, RecordOffset(o, i), RecordOf(t, i), after)
    ensures Partial(base, after, o, t, i + 1)
  {
    AgreeStays(base, log, RecordOffset(o, i), RecordOf(t, i), after);
    hide Agree, Sound;
    forall j | 0 <= j <= |t.frames| && RecordOffset(o, j) in after.records
      ensures after.records[RecordOffset(o, j)] == RecordOf(t, j)
    {
      if j < i {
        assert RecordOffset(o, j) < RecordOffset(o, i);
      }
    }
  }

  /** The log has a header and every scan refuses it. */
  ghost predicate Unreadable(log: Log, databaseId: nat) {
    log.header == Some(databaseId) && log.size >= WAL_HEADER_SIZE && ScanOf(log, databaseId) == Err(Corruption)
  }

  /** What recovery may make of a log after a commit that was not acknowledged: the state before it, the
      state after it, or a refusal. */
  ghost predicate Undecided(log: Log, databaseId: nat, before: map<PageId, Image>, after: map<PageId, Image>) {
    Gives(log, databaseId, before) || Gives(log, databaseId, after) || Unreadable(log, databaseId)
  }

  /** A scan that reaches offset o with frames pending cannot accept t: t's frames join the pending ones,
      and its commit record then counts too few. */
  lemma {:induction false} Joined(log: Log, s: ScanState, o: nat, t: Transaction, j: nat)
    requires j <= |t.frames| && s.offset == RecordOffset(o, j) && !s.damaged && s.pendingTransaction.Some? &&
      j < |s.pending|
    requires AllFit(log)
    requires forall k :: 0 <= k <= |t.frames| && RecordOffset(o, k) in log.records ==>
      log.records[RecordOffset(o, k)] == RecordOf(t, k)
    ensures Run(log, s) == Err(Corruption) || Run(log, s) == Ok(Finish(log, s))
    decreases |t.frames| - j
  {
    if s.offset !in log.records {
      Stuck(log, s);
    } else {
      assert log.records[s.offset] == RecordOf(t, j);
      if j < |t.frames| && Step(log, s).Next? {
        var next := Step(log, s).state;
        assert next.offset == RecordOffset(o, j + 1);
        Joined(log, next, o, t, j + 1);
      }
    }
  }

  /** What follows the last accepted transaction of base keeps anything appended later from being
      accepted, unless the scan ends cleanly right where the new records begin. */
  lemma {:induction false} Barred(base: Log, log: Log, s: ScanState, o: nat, t: Transaction, i: nat)
    requires i <= |t.frames| + 1 && Partial(base, log, o, t, i) && AllFit(base) && Sane(base, s) &&
      s.offset <= base.size
    requires s.damaged || s.pending != [] || s.offset < o
    requires Run(base, s).Ok? && Run(base, s).value.validEnd == s.validEnd
    ensures Run(log, s) == Err(Corruption) || Run(log, s) == Ok(Finish(log, s))
    decreases base.size - s.offset
  {
    if s.damaged {
      DamageLasts(log, s);
    } else if s.offset !in log.records {
      Stuck(log, s);
    } else if s.offset < base.size {
      BarredStep(base, log, s, o, t, i);
      Barred(base, log, Step(base, s).state, o, t, i);
    } else {
      assert s.offset == RecordOffset(o, 0);
      Joined(log, s, o, t, 0);
    }
  }

  lemma BarredStep(base: Log, log: Log, s: ScanState, o: nat, t: Transaction, i: nat)
    requires i <= |t.frames| + 1 && Partial(base, log, o, t, i) && AllFit(base) && Sane(base, s) && s.offset < base.size
    requires !s.damaged && s.offset in log.records
    requires Run(base, s).Ok? && Run(base, s).value.validEnd == s.validEnd
    ensures s.offset in base.records && base.records[s.offset] == log.records[s.offset]
    ensures Step(base, s).Next? && Step(log, s) == Step(base, s)
    ensures var next := Step(base, s).state;
      Sane(base, next) && next.offset <= base.size && next.latest == s.latest && next.validEnd == s.validEnd &&
        (next.damaged || next.pending != [])
  {
    assert Step(base, s).Next?;
    var next := Step(base, s).state;
    StepSane(base, s);
    Accepted(base, next);
  }

  lemma PartialLater(base: Log, log: Log, o: nat, t: Transaction, i: nat, j: nat)
    requires i <= j <= |t.frames| + 1 && Partial(base, log, o, t, i)
    ensures Partial(base, log, o, t, j)
  {
  }

  /** A write may leave nothing at all. */
  lemma MayLeaveNothing(log: Log, o: nat, r: Record)
    requires Sound(log) && log.size <= o
    ensures MayLeave(log, o, r, log)
  {
  }

  lemma PartialIsTorn(base: Log, log: Log, t: Transaction, i: nat)
    requires i <= |t.frames| + 1 && Partial(base, log, base.size, t, i)
    ensures Torn(log, base.size, t)
  {
    forall j | 0 <= j <= |t.frames| && RecordOffset(base.size, j) in log.records
      ensures RecordIntact(log, base.size, t, j)
    {
      assert log.records[RecordOffset(base.size, j)] == RecordOf(t, j);
    }
  }

  /** Whatever a failed commit left behind any log that can be read: the state before, the state after, or
      a log that is refused. */
  lemma PartialUndecided(base: Log, log: Log, databaseId: nat, o: nat, t: Transaction, i: nat,
                         images: map<PageId, Image>)
    requires Gives(base, databaseId, images) && AllFit(base) && i <= |t.frames| + 1 && Partial(base, log, o, t, i)
    ensures Undecided(log, databaseId, images, images + Overlaid(map[], t.frames))
  {
    if base.header.Some? {
      var latest, e := ScanOf(base, databaseId).value.latest, ScanOf(base, databaseId).value.validEnd;
      ScanAccepts(base, databaseId);
      AgreeBelow(base, log, e);
      ScanResumes(base, log, databaseId);
      ImagesAgree(base, log, latest, e);
      if e == o {
        PartialIsTorn(base, log, t, i);
        TornUndecided(log, databaseId, e, latest, t, images);
      } else {
        AgreeBelow(base, base, e);
        ScanResumes(base, base, databaseId);
        Barred(base, log, Clean(e, latest), o, t, i);
      }
    }
  }

  /** A log that is refused stays so, whatever is appended. */
  lemma UnreadableStays(base: Log, log: Log, databaseId: nat, o: nat, t: Transaction, i: nat)
    requires i <= |t.frames| + 1 && Partial(base, log, o, t, i) && AllFit(base) && Unreadable(base, databaseId)
    ensures Unreadable(log, databaseId)
  {
    RefusalStays(base, log, Clean(WAL_HEADER_SIZE, map[]), o, t, i);
  }

  lemma {:induction false} RefusalStays(base: Log, log: Log, s: ScanState, o: nat, t: Transaction, i: nat)
    requires i <= |t.frames| + 1 && Partial(base, log, o, t, i) && AllFit(base) && Run(base, s).Err?
    ensures Run(log, s).Err?
    decreases base.size - s.offset
  {
    assert Step(log, s) == Step(base, s);
    if Step(base, s).Next? {
      RefusalStays(base, log, Step(base, s).state, o, t, i);
    }
  }

  /** Everything that a gives, b gives as well. */
  ghost predicate GivesSame(a: Log, b: Log, databaseId: nat) {
    forall images :: Gives(a, databaseId, images) ==> Gives(b, databaseId, images)
  }

  /** The log can be read and has whole transactions up to its end. */
  ghost predicate WholeRead(log: Log, databaseId: nat) {
    ScanOf(log, databaseId).Ok? && ScanOf(log, databaseId).value.validEnd == log.size
  }

  /** The log has no header yet, or it has whole transactions up to size bytes, where it ends. */
  ghost predicate Levelled(log: Log, databaseId: nat, size: nat) {
    log.header.None? || (log.size == size && WholeRead(log, databaseId))
  }

  /** As long as the file is as long as it was, it gives what it gave. */
  lemma SameSizeGives(base: Log, log: Log, databaseId: nat, o: nat, t: Transaction, i: nat, size: nat)
    requires i <= |t.frames| + 1 && Partial(base, log, o, t, i) && log.size <= size
    requires Levelled(base, databaseId, size)
    ensures GivesSame(base, log, databaseId) && Levelled(log, databaseId, size)
  {
    if base.header.Some? {
      var latest, e := ScanOf(base, databaseId).value.latest, base.size;
      ScanAccepts(base, databaseId);
      ScanResumes(base, log, databaseId);
      ImagesAgree(base, log, latest, e);
    }
  }

  /** A log that can be read and has whole transactions up to its end, longer than before, has the new one. */
  lemma LongerHasAll(base: Log, log: Log, databaseId: nat, t: Transaction, i: nat, images: map<PageId, Image>)
    requires i <= |t.frames| + 1 && Partial(base, log, base.size, t, i)
    requires base.header == Some(databaseId) && Gives(base, databaseId, images)
    requires ScanOf(base, databaseId).value.validEnd == base.size
    requires ScanOf(log, databaseId).Ok? && ScanOf(log, databaseId).value.validEnd == log.size != base.size
    ensures Gives(log, databaseId, images + Overlaid(map[], t.frames))
  {
    var latest, e := ScanOf(base, databaseId).value.latest, base.size;
    ScanAccepts(base, databaseId);
    AgreeBelow(base, log, e);
    ScanResumes(base, log, databaseId);
    ImagesAgree(base, log, latest, e);
    PartialIsTorn(base, log, t, i);
    TornScan(log, e, latest, t);
    ImagesWith(log, e, latest, t);
    OverlaidMerges(images, t.frames);
  }

  lemma AgreeBelow(a: Log, b: Log, e: nat)
    requires (a == b || Agree(a, b, a.size)) && e <= a.size
    ensures Agree(a, b, e)
  {
  }

  lemma TornUndecided(log: Log, databaseId: nat, e: nat, latest: map<PageId, nat>, t: Transaction,
                      images: map<PageId, Image>)
    requires log.header == Some(databaseId) && WAL_HEADER_SIZE <= e && Torn(log, e, t)
    requires LatestFrames(log, latest, e) && images == ImagesOf(log, latest)
    requires ScanOf(log, databaseId) == Run(log, Clean(e, latest))
    ensures Undecided(log, databaseId, images, images + Overlaid(map[], t.frames))
  {
    TornScan(log, e, latest, t);
    if Intact(log, e, t) {
      ImagesWith(log, e, latest, t);
      OverlaidMerges(images, t.frames);
    }
  }

  /** A transaction all of whose records landed at the end of base. */
  lemma AllLanded(base: Log, log: Log, databaseId: nat, t: Transaction, images: map<PageId, Image>)
    requires base.header == Some(databaseId) && Gives(base, databaseId, images)
    requires ScanOf(base, databaseId).value.validEnd == base.size
    requires Agree(base, log, base.size) && Intact(log, base.size, t) && log.size == EndOf(base.size, t)
    ensures Gives(log, databaseId, images + Overlaid(map[], t.frames))
    ensures ScanOf(log, databaseId).value.validEnd == log.size
  {
    ScanAccepts(base, databaseId);
    AppendOverrides(base, log, databaseId, t);
    OverlaidMerges(images, t.frames);
  }

  /** A record was appended beyond the end of a file without transactions: between the two are zeros. */
  ghost predicate Gap(log: Log, databaseId: nat) {
    log.header == Some(databaseId) && log.size >= WAL_HEADER_SIZE + WAL_COMMIT_RECORD_SIZE &&
      TypeAt(log, WAL_HEADER_SIZE) == 0
  }

  /** Whatever is appended, the gap stays. */
  lemma GapStays(base: Log, log: Log, databaseId: nat, o: nat, t: Transaction, i: nat)
    requires i <= |t.frames| + 1 && Partial(base, log, o, t, i) && Gap(base, databaseId)
    ensures Gap(log, databaseId)
  {
  }

  /** Every scan refuses such a file. */
  lemma GapIsRefused(log: Log, databaseId: nat)
    requires Gap(log, databaseId)
    ensures ScanOf(log, databaseId) == Err(Corruption)
  {
    var s := Clean(WAL_HEADER_SIZE, map[]);
    assert Step(log, s) == Refuse;
  }
}
