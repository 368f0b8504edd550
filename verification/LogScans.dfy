/** What a log scan accepts: whole transactions, in order, and nothing after the first damage. */
module LogScans {
  import opened PageIds
  import opened PageImages
  import opened Status
  import opened WalFormat
  import opened WalScanner

  // ---- Facts about every scan --------------------------------------------------------------

  /** What the loop variables always satisfy. */
  ghost predicate Sane(log: Log, s: ScanState) {
    && s.validEnd <= s.offset && s.validEnd <= log.size
    && (s.pending == [] <==> s.pendingTransaction.None?)
    && (!s.damaged && s.pending == [] ==> s.validEnd == s.offset)
    && (s.pending != [] ==> s.validEnd < s.offset)
    && (forall i :: 0 <= i < |s.pending| ==>
          FramePage(log, s.pending[i].offset, s.pending[i].page) &&
          s.pending[i].offset + WAL_PAGE_FRAME_RECORD_SIZE <= s.offset)
    && LatestFrames(log, s.latest, s.validEnd)
  }

  ghost predicate FramePage(log: Log, o: nat, page: PageId) {
    FrameAt(log, o) && log.records[o].page == page
  }

  /** Every accepted offset is that of an intact frame of the page it is recorded for, below e. */
  ghost predicate LatestFrames(log: Log, latest: map<PageId, nat>, e: nat) {
    forall p :: p in latest ==> FramePage(log, latest[p], p) && latest[p] + WAL_PAGE_FRAME_RECORD_SIZE <= e
  }

  lemma {:induction false} PromotedFrames(log: Log, latest: map<PageId, nat>, pending: seq<PendingFrame>, e: nat)
    requires LatestFrames(log, latest, e)
    requires forall i :: 0 <= i < |pending| ==>
      FramePage(log, pending[i].offset, pending[i].page) && pending[i].offset + WAL_PAGE_FRAME_RECORD_SIZE <= e
    ensures LatestFrames(log, Promoted(latest, pending), e)
  {
    if pending != [] {
      PromotedFrames(log, latest, pending[..|pending| - 1], e);
    }
  }

  lemma StepSane(log: Log, s: ScanState)
    requires Sane(log, s) && s.offset < log.size && Step(log, s).Next?
    ensures Sane(log, Step(log, s).state)
  {
    if CommitAt(log, s.offset) && !s.damaged && s.pending != [] {
      PromotedFrames(log, s.latest, s.pending, s.offset + WAL_COMMIT_RECORD_SIZE);
    }
  }

  /** A scan accepts nothing more once it met damage, and what it accepts later ends later. */
  lemma {:induction false} Accepted(log: Log, s: ScanState)
    requires Sane(log, s) && Run(log, s).Ok?
    ensures var r := Run(log, s).value;
      && ((r.latest == s.latest && r.validEnd == s.validEnd) ||
          (!s.damaged && s.offset + WAL_COMMIT_RECORD_SIZE <= r.validEnd))
      && r.validEnd <= log.size && r.ignoredTrailing == (r.validEnd != log.size)
      && LatestFrames(log, r.latest, r.validEnd)
    decreases log.size - s.offset
  {
    if s.offset < log.size && Step(log, s).Next? {
      StepSane(log, s);
      Accepted(log, Step(log, s).state);
    }
  }

  /** Every offset that recovery reads back holds an intact frame of the page it is recorded for. */
  lemma ScanAccepts(log: Log, databaseId: nat)
    requires ScanOf(log, databaseId).Ok?
    ensures var r := ScanOf(log, databaseId).value;
      && WAL_HEADER_SIZE <= r.validEnd <= log.size && r.ignoredTrailing == (r.validEnd != log.size)
      && LatestFrames(log, r.latest, r.validEnd)
  {
    Accepted(log, Clean(WAL_HEADER_SIZE, map[]));
  }

  // ---- Composition -------------------------------------------------------------------------

  lemma StepAgrees(a: Log, b: Log, s: ScanState, e: nat)
    requires Agree(a, b, e) && Sane(a, s) && !s.damaged && s.offset < a.size && s.offset < b.size
    requires Step(a, s).Next? && !Step(a, s).state.damaged && Step(a, s).state.offset <= e
    ensures Step(b, s) == Step(a, s)
  {
  }

  /** Up to the end e of what a accepts, a log that reads the same below e is scanned the same. */
  lemma {:induction false} Resumes(a: Log, b: Log, s: ScanState, e: nat)
    requires Sane(a, s) && !s.damaged && s.offset <= e && Agree(a, b, e)
    requires Run(a, s).Ok? && Run(a, s).value.validEnd == e
    ensures Run(b, s) == Run(b, Clean(e, Run(a, s).value.latest))
    decreases a.size - s.offset
  {
    Accepted(a, s);
    if s.offset < e {
      var t := Step(a, s).state;
      StepSane(a, s);
      Accepted(a, t);
      StepAgrees(a, b, s, e);
      Resumes(a, b, t, e);
    }
  }

  lemma ScanResumes(a: Log, b: Log, databaseId: nat)
    requires ScanOf(a, databaseId).Ok?
    requires Agree(a, b, ScanOf(a, databaseId).value.validEnd)
    ensures var r := ScanOf(a, databaseId).value;
      ScanOf(b, databaseId) == Run(b, Clean(r.validEnd, r.latest))
  {
    ScanAccepts(a, databaseId);
    Resumes(a, b, Clean(WAL_HEADER_SIZE, map[]), ScanOf(a, databaseId).value.validEnd);
  }

  /** Cutting off what a scan ignored changes nothing that it accepted, and leaves nothing to ignore. */
  lemma TruncationKeepsScan(log: Log, databaseId: nat)
    requires ScanOf(log, databaseId).Ok?
    ensures var r := ScanOf(log, databaseId).value;
      ScanOf(Resized(log, r.validEnd), databaseId) == Ok(ScanResult(r.latest, r.validEnd, false))
  {
    ScanAccepts(log, databaseId);
    var r := ScanOf(log, databaseId).value;
    ResizedAgrees(log, r.validEnd);
    ScanResumes(log, Resized(log, r.validEnd), databaseId);
  }

  // ---- One transaction ---------------------------------------------------------------------

  function PendingOf(e: nat, t: Transaction, i: nat): (ps: seq<PendingFrame>)
    requires i <= |t.frames|
    ensures |ps| == i
  {
    seq(i, j requires 0 <= j < i => PendingFrame(RecordOffset(e, j), t.frames[j].page))
  }

  /** The scan after the first i frames of t. */
  function Midway(e: nat, latest: map<PageId, nat>, t: Transaction, i: nat): ScanState
    requires i <= |t.frames|
  {
    ScanState(RecordOffset(e, i), PendingOf(e, t, i), if i == 0 then None else Some(t.id), false, latest, e)
  }

  /** The accepted offsets once t, at offset e, is accepted as well. */
  function With(e: nat, latest: map<PageId, nat>, t: Transaction): map<PageId, nat> {
    Promoted(latest, PendingOf(e, t, |t.frames|))
  }

  lemma {:induction false} FramesTaken(log: Log, e: nat, latest: map<PageId, nat>, t: Transaction, i: nat)
    requires i <= |t.frames| && forall j :: 0 <= j < i ==> RecordIntact(log, e, t, j)
    ensures Run(log, Clean(e, latest)) == Run(log, Midway(e, latest, t, i))
  {
    if i == 0 {
      assert PendingOf(e, t, 0) == [];
    } else {
      FramesTaken(log, e, latest, t, i - 1);
      assert RecordIntact(log, e, t, i - 1);
      assert PendingOf(e, t, i) ==
        PendingOf(e, t, i - 1) + [PendingFrame(RecordOffset(e, i - 1), t.frames[i - 1].page)];
      assert Step(log, Midway(e, latest, t, i - 1)) == Next(Midway(e, latest, t, i));
    }
  }

  /** A whole transaction overrides the accepted offsets with those of its own frames, and nothing else. */
  lemma TransactionTaken(log: Log, e: nat, latest: map<PageId, nat>, t: Transaction)
    requires Intact(log, e, t)
    ensures Run(log, Clean(e, latest)) == Run(log, Clean(EndOf(e, t), With(e, latest, t)))
  {
    var n := |t.frames|;
    FramesTaken(log, e, latest, t, n);
    assert RecordIntact(log, e, t, n);
    var s := Midway(e, latest, t, n);
    assert Step(log, s) == Next(Clean(EndOf(e, t), With(e, latest, t)));
  }

  // ---- Cut and damaged tails ---------------------------------------------------------------

  /** From offset e on, the file holds at most remains of t: no record of t is altered and still decodes,
      and the file does not extend beyond the transaction. */
  ghost predicate Torn(log: Log, e: nat, t: Transaction) {
    && e <= log.size <= EndOf(e, t)
    && forall i :: 0 <= i <= |t.frames| && RecordOffset(e, i) in log.records ==> RecordIntact(log, e, t, i)
  }

  /** After damage nothing more is accepted. */
  lemma {:induction false} DamageLasts(log: Log, s: ScanState)
    requires s.damaged
    ensures Run(log, s) == Err(Corruption) || Run(log, s) == Ok(Finish(log, s))
    decreases log.size - s.offset
  {
    if s.offset < log.size && Step(log, s).Next? {
      DamageLasts(log, Step(log, s).state);
    }
  }

  /** A scan that meets a record that does not decode refuses the log or accepts nothing more. */
  lemma Stuck(log: Log, s: ScanState)
    requires s.offset !in log.records
    ensures Run(log, s) == Err(Corruption) || Run(log, s) == Ok(Finish(log, s))
  {
    if s.damaged {
      DamageLasts(log, s);
    } else if s.offset < log.size && Step(log, s).Next? {
      DamageLasts(log, Step(log, s).state);
    }
  }

  lemma MidwaySane(log: Log, e: nat, latest: map<PageId, nat>, t: Transaction, i: nat)
    requires i <= |t.frames| && e <= log.size && LatestFrames(log, latest, e)
    requires forall j :: 0 <= j < i ==> RecordIntact(log, e, t, j)
    ensures Sane(log, Midway(e, latest, t, i))
  {
    var s := Midway(e, latest, t, i);
    forall j | 0 <= j < |s.pending| ensures FramePage(log, s.pending[j].offset, s.pending[j].page) {
      assert RecordIntact(log, e, t, j);
    }
  }

  /** The first i records of t are intact. */
  lemma {:induction false} FirstLoss(log: Log, e: nat, t: Transaction, i: nat) returns (k: nat)
    requires i <= |t.frames| + 1 && forall j :: 0 <= j < i ==> RecordIntact(log, e, t, j)
    ensures k <= |t.frames| + 1 && forall j :: 0 <= j < k ==> RecordIntact(log, e, t, j)
    ensures k <= |t.frames| ==> !RecordIntact(log, e, t, k)
    decreases |t.frames| + 1 - i
  {
    if i <= |t.frames| && RecordIntact(log, e, t, i) {
      k := FirstLoss(log, e, t, i + 1);
    } else {
      k := i;
    }
  }

  /** All or nothing: whatever a crash leaves of the last transaction, the scan refuses the log, accepts
      the transaction whole, or accepts none of it. */
  lemma TornScan(log: Log, e: nat, latest: map<PageId, nat>, t: Transaction)
    requires Torn(log, e, t) && LatestFrames(log, latest, e)
    ensures var r := Run(log, Clean(e, latest));
      || r == Err(Corruption)
      || r == Ok(ScanResult(latest, e, e != log.size))
      || (Intact(log, e, t) && r == Ok(ScanResult(With(e, latest, t), EndOf(e, t), false)))
  {
    var k := FirstLoss(log, e, t, 0);
    if k <= |t.frames| {
      FramesTaken(log, e, latest, t, k);
      MidwaySane(log, e, latest, t, k);
      Stuck(log, Midway(e, latest, t, k));
    } else {
      TransactionTaken(log, e, latest, t);
    }
  }

  /** From offset e on, the file is the beginning of t and nothing else. */
  ghost predicate CutShort(log: Log, e: nat, t: Transaction) {
    && e <= log.size <= EndOf(e, t)
    && forall i :: 0 <= i <= |t.frames| ==>
         var o := RecordOffset(e, i);
         if o + Size(RecordOf(t, i)) <= log.size then RecordIntact(log, e, t, i)
         else o !in log.records && (o + RECORD_TYPE_FIELD_SIZE <= log.size ==> TypeAt(log, o) == TypeOf(RecordOf(t, i)))
  }

  /** A log that was only cut is never refused: the transaction counts exactly when all of it is there. */
  lemma CutScan(log: Log, e: nat, latest: map<PageId, nat>, t: Transaction)
    requires CutShort(log, e, t) && LatestFrames(log, latest, e)
    ensures Run(log, Clean(e, latest)) ==
      (if log.size == EndOf(e, t) then Ok(ScanResult(With(e, latest, t), EndOf(e, t), false))
       else Ok(ScanResult(latest, e, e != log.size)))
  {
    var k := FirstLoss(log, e, t, 0);
    if k <= |t.frames| {
      FramesTaken(log, e, latest, t, k);
    } else {
      assert RecordIntact(log, e, t, |t.frames|);
      TransactionTaken(log, e, latest, t);
    }
  }

  // ---- Page images -------------------------------------------------------------------------

  /** The page images that recovery reads back from the accepted offsets. */
  ghost function ImagesOf(log: Log, latest: map<PageId, nat>): map<PageId, Image> {
    map p | p in latest && FrameAt(log, latest[p]) :: log.records[latest[p]].image
  }

  lemma ImagesAgree(a: Log, b: Log, latest: map<PageId, nat>, e: nat)
    requires LatestFrames(a, latest, e) && Agree(a, b, e)
    ensures LatestFrames(b, latest, e) && ImagesOf(a, latest) == ImagesOf(b, latest)
  {
    forall p | p in latest ensures FramePage(b, latest[p], p) && b.records[latest[p]] == a.records[latest[p]] {
      assert FramePage(a, latest[p], p);
    }
  }

  lemma ImagesWith(log: Log, e: nat, latest: map<PageId, nat>, t: Transaction)
    requires Intact(log, e, t)
    ensures ImagesOf(log, With(e, latest, t)) == Overlaid(ImagesOf(log, latest), t.frames)
  {
    ImagesPromoted(log, e, latest, t, |t.frames|);
    assert t.frames[..|t.frames|] == t.frames;
  }

  lemma {:induction false} ImagesPromoted(log: Log, e: nat, latest: map<PageId, nat>, t: Transaction, i: nat)
    requires i <= |t.frames| && Intact(log, e, t)
    ensures ImagesOf(log, Promoted(latest, PendingOf(e, t, i))) == Overlaid(ImagesOf(log, latest), t.frames[..i])
  {
    if i > 0 {
      ImagesPromoted(log, e, latest, t, i - 1);
      assert PendingOf(e, t, i)[..i - 1] == PendingOf(e, t, i - 1);
      assert t.frames[..i][..i - 1] == t.frames[..i - 1];
      assert RecordIntact(log, e, t, i - 1);
    }
  }

  /** Reopening and committing: whatever trailing bytes a log carried, once they are cut off and t is
      appended at the accepted end, t's frames override the accepted images and no leftover joins them. */
  lemma AppendOverrides(log: Log, b: Log, databaseId: nat, t: Transaction)
    requires ScanOf(log, databaseId).Ok?
    requires var e := ScanOf(log, databaseId).value.validEnd;
      Agree(log, b, e) && Intact(b, e, t) && b.size == EndOf(e, t)
    ensures var r := ScanOf(log, databaseId).value;
      var after := With(r.validEnd, r.latest, t);
      && ScanOf(b, databaseId) == Ok(ScanResult(after, b.size, false))
      && ImagesOf(b, after) == Overlaid(ImagesOf(log, r.latest), t.frames)
  {
    var r := ScanOf(log, databaseId).value;
    ScanAccepts(log, databaseId);
    ScanResumes(log, b, databaseId);
    TransactionTaken(b, r.validEnd, r.latest, t);
    ImagesAgree(log, b, r.latest, r.validEnd);
    ImagesWith(b, r.validEnd, r.latest, t);
  }

  // ---- Whole histories ---------------------------------------------------------------------

  /** The transactions lie in the log one after the other from offset e on. */
  ghost predicate History(log: Log, e: nat, ts: seq<Transaction>)
    decreases ts
  {
    ts == [] || (Intact(log, e, ts[0]) && History(log, EndOf(e, ts[0]), ts[1..]))
  }

  function HistoryEnd(e: nat, ts: seq<Transaction>): (r: nat)
    ensures e <= r
    decreases ts
  {
    if ts == [] then e else HistoryEnd(EndOf(e, ts[0]), ts[1..])
  }

  /** The page images after the transactions, in order. */
  function After(images: map<PageId, Image>, ts: seq<Transaction>): map<PageId, Image>
    decreases ts
  {
    if ts == [] then images else After(Overlaid(images, ts[0].frames), ts[1..])
  }

  ghost function HistoryLatest(e: nat, latest: map<PageId, nat>, ts: seq<Transaction>): map<PageId, nat>
    decreases ts
  {
    if ts == [] then latest else HistoryLatest(EndOf(e, ts[0]), With(e, latest, ts[0]), ts[1..])
  }

  lemma {:induction false} HistoryTaken(log: Log, e: nat, latest: map<PageId, nat>, ts: seq<Transaction>)
    requires History(log, e, ts) && LatestFrames(log, latest, e)
    ensures var f, after := HistoryEnd(e, ts), HistoryLatest(e, latest, ts);
      && Run(log, Clean(e, latest)) == Run(log, Clean(f, after))
      && LatestFrames(log, after, f) && ImagesOf(log, after) == After(ImagesOf(log, latest), ts)
    decreases ts
  {
    if ts != [] {
      TransactionTaken(log, e, latest, ts[0]);
      WithFrames(log, e, latest, ts[0]);
      ImagesWith(log, e, latest, ts[0]);
      HistoryTaken(log, EndOf(e, ts[0]), With(e, latest, ts[0]), ts[1..]);
    }
  }

  lemma WithFrames(log: Log, e: nat, latest: map<PageId, nat>, t: Transaction)
    requires Intact(log, e, t) && LatestFrames(log, latest, e)
    ensures LatestFrames(log, With(e, latest, t), EndOf(e, t))
  {
    var pending := PendingOf(e, t, |t.frames|);
    forall i | 0 <= i < |pending|
      ensures FramePage(log, pending[i].offset, pending[i].page) &&
        pending[i].offset + WAL_PAGE_FRAME_RECORD_SIZE <= EndOf(e, t)
    {
      assert RecordIntact(log, e, t, i);
    }
    PromotedFrames(log, latest, pending, EndOf(e, t));
  }

  /** Crash atomicity and durability of the log: after any run of committed transactions ts and a crash
      in the middle of writing t, recovery refuses the log or reads back exactly the images after ts, or
      after ts and t; and it refuses nothing that was only cut. */
  lemma CrashRecovery(log: Log, databaseId: nat, ts: seq<Transaction>, t: Transaction)
    requires log.header == Some(databaseId) && History(log, WAL_HEADER_SIZE, ts)
    requires Torn(log, HistoryEnd(WAL_HEADER_SIZE, ts), t)
    ensures var r, e := ScanOf(log, databaseId), HistoryEnd(WAL_HEADER_SIZE, ts);
      && (r == Err(Corruption)
          || (r.Ok? && r.value.validEnd == e && ImagesOf(log, r.value.latest) == After(map[], ts))
          || (r.Ok? && Intact(log, e, t) && ImagesOf(log, r.value.latest) == Overlaid(After(map[], ts), t.frames)))
      && (CutShort(log, e, t) ==> r.Ok?)
  {
    var e, latest := HistoryEnd(WAL_HEADER_SIZE, ts), HistoryLatest(WAL_HEADER_SIZE, map[], ts);
    HistoryTaken(log, WAL_HEADER_SIZE, map[], ts);
    TornScan(log, e, latest, t);
    if Intact(log, e, t) {
      ImagesWith(log, e, latest, t);
    }
    if CutShort(log, e, t) {
      CutScan(log, e, latest, t);
    }
  }
}
