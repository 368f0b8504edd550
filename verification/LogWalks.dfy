/** What it takes for a log to be accepted, said of its records and not of the scan: which commits it must not
    hold, and what an accepted log has committed. */
module LogWalks {
  import opened PageIds
  import opened Status
  import opened WalFormat
  import opened WalScanner

  // ---- The records of a log ------------------------------------------------------------------

  /** The size that the stored type field announces, if it is that of a record. */
  function AnnouncedSize(log: Log, o: nat): nat {
    if TypeAt(log, o) == WAL_PAGE_FRAME_RECORD_TYPE then WAL_PAGE_FRAME_RECORD_SIZE
    else if TypeAt(log, o) == WAL_COMMIT_RECORD_TYPE then WAL_COMMIT_RECORD_SIZE
    else 0
  }

  /** A record is announced at o, and the file goes on long enough for it. */
  predicate RoomAt(log: Log, o: nat) {
    o + RECORD_TYPE_FIELD_SIZE <= log.size && AnnouncedSize(log, o) > 0 && o + AnnouncedSize(log, o) <= log.size
  }

  /** Where records are, walking from o by the stored type fields. */
  function Walk(log: Log, o: nat): (ws: seq<nat>)
    decreases log.size - o
  {
    if RoomAt(log, o) then [o] + Walk(log, o + AnnouncedSize(log, o)) else []
  }

  /** Where that walk ends. */
  function WalkEnd(log: Log, o: nat): nat
    decreases log.size - o
  {
    if RoomAt(log, o) then WalkEnd(log, o + AnnouncedSize(log, o)) else o
  }

  /** What stops the walk is too short for the smallest record, or a record that the file cuts off. */
  predicate EndsWell(log: Log, e: nat) {
    e + WAL_COMMIT_RECORD_SIZE <= log.size ==> AnnouncedSize(log, e) > 0
  }

  // ---- Accepted logs -------------------------------------------------------------------------

  ghost predicate AllDecode(log: Log, ws: seq<nat>, n: nat) {
    forall k :: 0 <= k < n && k < |ws| ==> ws[k] in log.records
  }

  /** Commit j closes exactly the frames that follow the commit before it, all of its own transaction. */
  ghost predicate Closes(log: Log, ws: seq<nat>, j: nat)
    requires j < |ws| && CommitAt(log, ws[j])
  {
    var commit := log.records[ws[j]];
    var first := j - commit.frameCount;
    && 0 <= first && (first == 0 || CommitAt(log, ws[first - 1]))
    && forall k :: first <= k < j ==> FrameOf(log, ws[k], commit.transactionId)
  }

  ghost predicate FrameOf(log: Log, o: nat, transactionId: nat) {
    FrameAt(log, o) && log.records[o].transactionId == transactionId
  }

  /** A commit comes after nothing damaged and closes its frames. Frames that follow each other, with nothing
      damaged before them, are of one transaction. */
  ghost predicate RecordOk(log: Log, ws: seq<nat>, j: nat)
    requires j < |ws|
  {
    && (CommitAt(log, ws[j]) ==> AllDecode(log, ws, j) && Closes(log, ws, j))
    && (FrameAt(log, ws[j]) && j > 0 && FrameAt(log, ws[j - 1]) && AllDecode(log, ws, j) ==>
          FrameOf(log, ws[j], log.records[ws[j - 1]].transactionId))
  }

  ghost predicate AllOk(log: Log, ws: seq<nat>, lo: nat) {
    forall j :: lo <= j < |ws| ==> RecordOk(log, ws, j)
  }

  /** e is the end of the last commit among the first n records, or of the header if there is none. */
  ghost predicate LastCommitEnds(log: Log, ws: seq<nat>, n: nat, e: nat)
    requires n <= |ws|
  {
    && (forall j :: 0 <= j < n && CommitAt(log, ws[j]) ==> ws[j] + WAL_COMMIT_RECORD_SIZE <= e)
    && (e == WAL_HEADER_SIZE ||
        exists j :: 0 <= j < n && CommitAt(log, ws[j]) && ws[j] + WAL_COMMIT_RECORD_SIZE == e)
  }

  ghost predicate PageFrameAt(log: Log, o: nat, page: PageId) {
    FrameAt(log, o) && log.records[o].page == page
  }

  /** latest has for each page its last frame before e. */
  ghost predicate LastFrames(log: Log, ws: seq<nat>, e: nat, latest: map<PageId, nat>) {
    && (forall j, p :: 0 <= j < |ws| && ws[j] < e && PageFrameAt(log, ws[j], p) ==> p in latest && ws[j] <= latest[p])
    && (forall p :: p in latest ==> latest[p] in ws && latest[p] < e && PageFrameAt(log, latest[p], p))
  }

  // ---- The scan ------------------------------------------------------------------------------

  /** ws is the walk of the log, and the scan has come to its i-th stop, at offset o. */
  ghost predicate At(log: Log, ws: seq<nat>, i: nat, o: nat) {
    && i <= |ws| && ws[i..] == Walk(log, o)
    && (forall k :: 0 <= k < i ==> ws[k] < o)
    && (forall j, k :: 0 <= j < k < |ws| ==> ws[j] < ws[k])
  }

  /** What the scan's state says of the first i records. */
  ghost predicate Tracks(log: Log, ws: seq<nat>, i: nat, s: ScanState)
    requires i <= |ws|
  {
    && (s.damaged <==> !AllDecode(log, ws, i))
    && LastCommitEnds(log, ws, i, s.validEnd) && s.validEnd <= s.offset
    && LastFrames(log, ws[..i], s.validEnd, s.latest)
    && (!s.damaged ==> Pends(log, ws, i, s))
  }

  ghost predicate PendingAt(log: Log, o: nat, f: PendingFrame) {
    f.offset == o && PageFrameAt(log, o, f.page)
  }

  /** The pending frames are those since the last commit. */
  ghost predicate Pends(log: Log, ws: seq<nat>, i: nat, s: ScanState)
    requires i <= |ws|
  {
    var first := i - |s.pending|;
    && 0 <= first && (first == 0 || CommitAt(log, ws[first - 1]))
    && (first == 0 ==> s.validEnd == WAL_HEADER_SIZE)
    && (first > 0 ==> s.validEnd == ws[first - 1] + WAL_COMMIT_RECORD_SIZE)
    && (s.pendingTransaction.None? <==> s.pending == [])
    && forall k :: first <= k < i ==>
         PendingAt(log, ws[k], s.pending[k - first]) && FrameOf(log, ws[k], s.pendingTransaction.value)
  }

  /** The walk goes up. */
  lemma {:induction false} WalkGoesUp(log: Log, o: nat)
    ensures forall k :: 0 <= k < |Walk(log, o)| ==> Walk(log, o)[k] >= o
    ensures forall j, k :: 0 <= j < k < |Walk(log, o)| ==> Walk(log, o)[j] < Walk(log, o)[k]
    decreases log.size - o
  {
    if RoomAt(log, o) {
      WalkGoesUp(log, o + AnnouncedSize(log, o));
    }
  }

  /** The offset is that of a pending frame of the page. */
  ghost predicate Pending(pending: seq<PendingFrame>, o: nat, p: PageId) {
    exists k :: 0 <= k < |pending| && pending[k] == PendingFrame(o, p)
  }

  ghost predicate OffsetsGoUp(pending: seq<PendingFrame>) {
    forall j, k :: 0 <= j < k < |pending| ==> pending[j].offset < pending[k].offset
  }

  /** Promoting gives a page the offset of its last pending frame, or leaves the one it had. */
  lemma {:induction false} PromotedLast(latest: map<PageId, nat>, pending: seq<PendingFrame>, p: PageId)
    requires OffsetsGoUp(pending)
    ensures var r := Promoted(latest, pending);
      && (forall k :: 0 <= k < |pending| && pending[k].page == p ==> p in r && pending[k].offset <= r[p])
      && (p in r ==> (p in latest && r[p] == latest[p]) || Pending(pending, r[p], p))
      && (p in latest ==> p in r && (r[p] == latest[p] || Pending(pending, r[p], p)))
  {
    if pending != [] {
      var n := |pending| - 1;
      assert pending == pending[..n] + [pending[n]];
      PromotedLast(latest, pending[..n], p);
      var before, r := Promoted(latest, pending[..n]), Promoted(latest, pending);
      if pending[n].page == p {
        assert pending[n] == PendingFrame(r[p], p);
      } else if p in r && Pending(pending[..n], r[p], p) {
        var k :| 0 <= k < n && pending[..n][k] == PendingFrame(r[p], p);
        assert pending[k] == PendingFrame(r[p], p);
      }
      forall k | 0 <= k < |pending| && pending[k].page == p ensures p in r && pending[k].offset <= r[p] {
        if k < n {
          assert pending[..n][k] == pending[k];
        }
      }
    }
  }

  /** Passing the record at the next stop. */
  lemma AtNext(log: Log, ws: seq<nat>, i: nat, o: nat)
    requires At(log, ws, i, o) && RoomAt(log, o)
    ensures i < |ws| && ws[i] == o && At(log, ws, i + 1, o + AnnouncedSize(log, o))
  {
    assert ws[i..][0] == o && ws[i..][1..] == ws[i + 1..];
  }

  lemma OneMoreDecodes(log: Log, ws: seq<nat>, i: nat)
    requires i < |ws|
    ensures AllDecode(log, ws, i + 1) <==> AllDecode(log, ws, i) && ws[i] in log.records
  {
  }

  lemma FrameKeepsCommits(log: Log, ws: seq<nat>, i: nat, e: nat, latest: map<PageId, nat>)
    requires i < |ws| && LastCommitEnds(log, ws, i, e) && LastFrames(log, ws[..i], e, latest) && e <= ws[i] &&
      !CommitAt(log, ws[i])
    ensures LastCommitEnds(log, ws, i + 1, e) && LastFrames(log, ws[..i + 1], e, latest)
  {
    assert ws[..i + 1] == ws[..i] + [ws[i]];
  }

  lemma FrameStep(log: Log, ws: seq<nat>, i: nat, s: ScanState)
    requires s.offset < log.size && At(log, ws, i, s.offset) && Tracks(log, ws, i, s) && RoomAt(log, s.offset)
    requires TypeAt(log, s.offset) == WAL_PAGE_FRAME_RECORD_TYPE
    ensures i < |ws| && (StepFrame(log, s).Refuse? <==> !RecordOk(log, ws, i))
    ensures StepFrame(log, s).Next? ==> Tracks(log, ws, i + 1, StepFrame(log, s).state)
    ensures !StepFrame(log, s).Stop?
  {
    AtNext(log, ws, i, s.offset);
    OneMoreDecodes(log, ws, i);
    FrameKeepsCommits(log, ws, i, s.validEnd, s.latest);
    if !s.damaged && FrameAt(log, s.offset) {
      if s.pending != [] {
        assert FrameOf(log, ws[i - 1], s.pendingTransaction.value);
      }
    }
  }

  lemma CommitStep(log: Log, ws: seq<nat>, i: nat, s: ScanState)
    requires s.offset < log.size && At(log, ws, i, s.offset) && Tracks(log, ws, i, s) && RoomAt(log, s.offset)
    requires TypeAt(log, s.offset) == WAL_COMMIT_RECORD_TYPE
    ensures i < |ws| && (StepCommit(log, s).Refuse? <==> !RecordOk(log, ws, i))
    ensures StepCommit(log, s).Next? ==> Tracks(log, ws, i + 1, StepCommit(log, s).state)
    ensures !StepCommit(log, s).Stop?
  {
    AtNext(log, ws, i, s.offset);
    OneMoreDecodes(log, ws, i);
    if !CommitAt(log, s.offset) {
      FrameKeepsCommits(log, ws, i, s.validEnd, s.latest);
    } else if !s.damaged {
      PendingCloses(log, ws, i, s);
      if StepCommit(log, s).Next? {
        CommitPromotes(log, ws, i, s);
      }
    }
  }

  /** The checks on a commit are that it closes its frames. */
  lemma PendingCloses(log: Log, ws: seq<nat>, i: nat, s: ScanState)
    requires i < |ws| && CommitAt(log, ws[i]) && Pends(log, ws, i, s)
    ensures var commit := log.records[ws[i]];
      Closes(log, ws, i) <==>
      commit.frameCount == |s.pending| && (s.pending == [] || s.pendingTransaction == Some(commit.transactionId))
  {
    var commit, first := log.records[ws[i]], i - |s.pending|;
    if Closes(log, ws, i) {
      SameStart(log, ws, i, first, i - commit.frameCount);
      if s.pending != [] {
        assert FrameOf(log, ws[first], s.pendingTransaction.value) && FrameOf(log, ws[first], commit.transactionId);
      }
    }
  }

  /** There is one place from which only frames lead up to record i. */
  lemma SameStart(log: Log, ws: seq<nat>, i: nat, a: nat, b: nat)
    requires a <= i <= |ws| && b <= i
    requires (a == 0 || CommitAt(log, ws[a - 1])) && (b == 0 || CommitAt(log, ws[b - 1]))
    requires forall k :: a <= k < i ==> FrameAt(log, ws[k])
    requires forall k :: b <= k < i ==> FrameAt(log, ws[k])
    ensures a == b
  {
    assert forall k :: a <= k < i ==> !CommitAt(log, ws[k]);
    assert forall k :: b <= k < i ==> !CommitAt(log, ws[k]);
  }

  lemma CommitPromotes(log: Log, ws: seq<nat>, i: nat, s: ScanState)
    requires s.offset < log.size && At(log, ws, i, s.offset) && Tracks(log, ws, i, s) && RoomAt(log, s.offset)
    requires i < |ws| && ws[i] == s.offset && CommitAt(log, s.offset) && !s.damaged && StepCommit(log, s).Next?
    ensures Tracks(log, ws, i + 1, StepCommit(log, s).state)
  {
    var t := StepCommit(log, s).state;
    OneMoreDecodes(log, ws, i);
    assert t.latest == Promoted(s.latest, s.pending);
    var first := i - |s.pending|;
    forall k | 0 <= k < |s.pending| ensures PendingAt(log, ws[first + k], s.pending[k]) {
      assert PendingAt(log, ws[first + k], s.pending[first + k - first]);
    }
    PromotesFrames(log, ws, i, s);
  }

  lemma PromotesFrames(log: Log, ws: seq<nat>, i: nat, s: ScanState)
    requires i < |ws| && CommitAt(log, ws[i]) && |s.pending| <= i && s.validEnd <= ws[i]
    requires forall j, k :: 0 <= j < k < |ws| ==> ws[j] < ws[k]
    requires forall k :: 0 <= k < |s.pending| ==> PendingAt(log, ws[i - |s.pending| + k], s.pending[k])
    requires i == |s.pending| ==> s.validEnd == WAL_HEADER_SIZE
    requires i > |s.pending| ==> ws[i - |s.pending| - 1] < s.validEnd
    requires LastFrames(log, ws[..i], s.validEnd, s.latest)
    ensures LastFrames(log, ws[..i + 1], ws[i] + WAL_COMMIT_RECORD_SIZE, Promoted(s.latest, s.pending))
  {
    var before, more, r := ws[..i], ws[..i + 1], Promoted(s.latest, s.pending);
    assert OffsetsGoUp(s.pending);
    forall j: nat, p | j < |more| && PageFrameAt(log, more[j], p) ensures p in r && more[j] <= r[p] {
      PromotesFrame(log, ws, i, s, j, p);
    }
    forall p | p in r ensures r[p] in more && r[p] < ws[i] && PageFrameAt(log, r[p], p) {
      PromotedLast(s.latest, s.pending, p);
      if Pending(s.pending, r[p], p) {
        var k :| 0 <= k < |s.pending| && s.pending[k] == PendingFrame(r[p], p);
        assert PendingAt(log, ws[i - |s.pending| + k], s.pending[k]) && more[i - |s.pending| + k] == r[p];
      } else {
        assert r[p] in before;
      }
    }
  }

  lemma PromotesFrame(log: Log, ws: seq<nat>, i: nat, s: ScanState, j: nat, p: PageId)
    requires i < |ws| && CommitAt(log, ws[i]) && |s.pending| <= i && s.validEnd <= ws[i]
    requires forall j, k :: 0 <= j < k < |ws| ==> ws[j] < ws[k]
    requires forall k :: 0 <= k < |s.pending| ==> PendingAt(log, ws[i - |s.pending| + k], s.pending[k])
    requires i > |s.pending| ==> ws[i - |s.pending| - 1] < s.validEnd
    requires LastFrames(log, ws[..i], s.validEnd, s.latest) && OffsetsGoUp(s.pending)
    requires j <= i && PageFrameAt(log, ws[j], p)
    ensures var r := Promoted(s.latest, s.pending);
      p in r && ws[j] <= r[p]
  {
    hide Promoted;
    var first, r := i - |s.pending|, Promoted(s.latest, s.pending);
    PromotedLast(s.latest, s.pending, p);
    if j < first {
      assert ws[..i][j] == ws[j] && ws[j] <= ws[first - 1];
      if Pending(s.pending, r[p], p) {
        var k :| 0 <= k < |s.pending| && s.pending[k] == PendingFrame(r[p], p);
        assert PendingAt(log, ws[first + k], s.pending[k]);
      }
    } else {
      assert j < i && PendingAt(log, ws[first + (j - first)], s.pending[j - first]);
    }
  }

  // ---- What a scan accepts ---------------------------------------------------------------------

  /** From any stop on: the scan goes on exactly over records that are in order, and ends well. */
  lemma {:induction false} RunExact(log: Log, ws: seq<nat>, i: nat, s: ScanState)
    requires At(log, ws, i, s.offset) && Tracks(log, ws, i, s)
    ensures Run(log, s).Ok? <==> AllOk(log, ws, i) && EndsWell(log, WalkEnd(log, s.offset))
    ensures Run(log, s).Ok? ==> var r := Run(log, s).value;
      && LastCommitEnds(log, ws, |ws|, r.validEnd) && LastFrames(log, ws, r.validEnd, r.latest)
      && (r.ignoredTrailing <==> r.validEnd != log.size)
    decreases log.size - s.offset
  {
    hide Tracks, RecordOk;
    if !RoomAt(log, s.offset) {
      assert ws[i..] == [] && ws[..i] == ws;
      TracksEnd(log, ws, s);
    } else {
      AtNext(log, ws, i, s.offset);
      if TypeAt(log, s.offset) == WAL_PAGE_FRAME_RECORD_TYPE {
        FrameStep(log, ws, i, s);
      } else {
        CommitStep(log, ws, i, s);
      }
      if Step(log, s).Next? {
        RunExact(log, ws, i + 1, Step(log, s).state);
      }
    }
  }

  lemma TracksEnd(log: Log, ws: seq<nat>, s: ScanState)
    requires Tracks(log, ws, |ws|, s)
    ensures LastCommitEnds(log, ws, |ws|, s.validEnd) && LastFrames(log, ws, s.validEnd, s.latest)
  {
    assert ws[..|ws|] == ws;
  }

  /** Everything about an accepted log, without the scan. Its header is the database's. Every commit that
      decodes, at any record boundary of the file, closes the frames right before it, all of its transaction and
      as many as it counts, and nothing damaged comes before it. Frames in a row before anything damaged are of
      one transaction. The walk over the records ends in what is too short to be one. */
  ghost predicate WellFormed(log: Log, databaseId: nat) {
    && log.size >= WAL_HEADER_SIZE && log.header == Some(databaseId)
    && AllOk(log, Walk(log, WAL_HEADER_SIZE), 0) && EndsWell(log, WalkEnd(log, WAL_HEADER_SIZE))
  }

  /** A scan accepts exactly the well-formed logs. What it gives goes to the end of the last commit in the file,
      and has for each page its last frame before that. So no commit in the file is left out. */
  lemma ScanExact(log: Log, databaseId: nat)
    ensures ScanOf(log, databaseId).Ok? <==> WellFormed(log, databaseId)
    ensures ScanOf(log, databaseId).Ok? ==>
      var r, ws := ScanOf(log, databaseId).value, Walk(log, WAL_HEADER_SIZE);
      && LastCommitEnds(log, ws, |ws|, r.validEnd) && LastFrames(log, ws, r.validEnd, r.latest)
      && (r.ignoredTrailing <==> r.validEnd != log.size)
  {
    if log.size >= WAL_HEADER_SIZE && log.header == Some(databaseId) {
      var ws := Walk(log, WAL_HEADER_SIZE);
      WalkGoesUp(log, WAL_HEADER_SIZE);
      assert ws[0..] == ws && ws[..0] == [];
      RunExact(log, ws, 0, Clean(WAL_HEADER_SIZE, map[]));
    }
  }
}
