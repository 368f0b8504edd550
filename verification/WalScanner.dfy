/** The log scan that decides which page images a log has committed. */
module WalScanner {
  import opened PageIds
  import opened Status
  import opened WalFormat

  datatype PendingFrame = PendingFrame(offset: nat, page: PageId)

  datatype ScanResult = ScanResult(latest: map<PageId, nat>, validEnd: nat, ignoredTrailing: bool)

  /** Where a scan stands; pendingTransaction is None while no frame is pending. */
  datatype ScanState = ScanState(offset: nat, pending: seq<PendingFrame>, pendingTransaction: Option<nat>,
                                 damaged: bool,
                                 latest: map<PageId, nat>, validEnd: nat)

  datatype Verdict = Next(state: ScanState) | Stop | Refuse

  /** The state between two transactions, with everything up to offset e accepted. */
  function Clean(e: nat, latest: map<PageId, nat>): ScanState {
    ScanState(e, [], None, false, latest, e)
  }

  function Promoted(latest: map<PageId, nat>, pending: seq<PendingFrame>): map<PageId, nat> {
    if pending == [] then latest
    else Promoted(latest, pending[..|pending| - 1])[pending[|pending| - 1].page := pending[|pending| - 1].offset]
  }

  /** One turn of the scan loop. */
  function Step(log: Log, s: ScanState): (v: Verdict)
    requires s.offset < log.size
    ensures v.Next? ==> s.offset < v.state.offset <= log.size
  {
    var remaining := log.size - s.offset;
    if remaining < RECORD_TYPE_FIELD_SIZE then Stop
    else if TypeAt(log, s.offset) == WAL_PAGE_FRAME_RECORD_TYPE then
      if remaining < WAL_PAGE_FRAME_RECORD_SIZE then Stop
      else StepFrame(log, s)
    else if TypeAt(log, s.offset) == WAL_COMMIT_RECORD_TYPE then
      if remaining < WAL_COMMIT_RECORD_SIZE then Stop
      else StepCommit(log, s)
    else if remaining < WAL_COMMIT_RECORD_SIZE then Stop
    else Refuse
  }

  function Skipped(s: ScanState, n: nat): ScanState {
    s.(offset := s.offset + n)
  }

  function Damaged(s: ScanState, n: nat): ScanState {
    s.(offset := s.offset + n, pending := [], pendingTransaction := None, damaged := true)
  }

  function StepFrame(log: Log, s: ScanState): (v: Verdict)
    ensures v.Next? ==> v.state.offset == s.offset + WAL_PAGE_FRAME_RECORD_SIZE
  {
    if s.damaged then Next(Skipped(s, WAL_PAGE_FRAME_RECORD_SIZE))
    else if !FrameAt(log, s.offset) then Next(Damaged(s, WAL_PAGE_FRAME_RECORD_SIZE))
    else
      var frame := log.records[s.offset];
      if s.pendingTransaction.Some? && s.pendingTransaction.value != frame.transactionId then Refuse
      else Next(s.(offset := s.offset + WAL_PAGE_FRAME_RECORD_SIZE, pendingTransaction := Some(frame.transactionId),
                   pending := s.pending + [PendingFrame(s.offset, frame.page)]))
  }

  function StepCommit(log: Log, s: ScanState): (v: Verdict)
    ensures v.Next? ==> v.state.offset == s.offset + WAL_COMMIT_RECORD_SIZE
  {
    var after := s.offset + WAL_COMMIT_RECORD_SIZE;
    if s.damaged then
      if CommitAt(log, s.offset) then Refuse else Next(Skipped(s, WAL_COMMIT_RECORD_SIZE))
    else if !CommitAt(log, s.offset) then Next(Damaged(s, WAL_COMMIT_RECORD_SIZE))
    else
      var commit := log.records[s.offset];
      if s.pendingTransaction.None? && commit.frameCount == 0 then
        Next(s.(offset := after, validEnd := after))
      else if s.pendingTransaction != Some(commit.transactionId) || commit.frameCount != |s.pending| then Refuse
      else Next(Clean(after, Promoted(s.latest, s.pending)))
  }

  function Finish(log: Log, s: ScanState): ScanResult {
    ScanResult(s.latest, s.validEnd, s.validEnd != log.size)
  }

  /** The scan from a given state to the end of the file. */
  function Run(log: Log, s: ScanState): (r: Result<ScanResult>)
    ensures r.Err? ==> r.code == Corruption
    decreases log.size - s.offset
  {
    if s.offset >= log.size then Ok(Finish(log, s))
    else
      match Step(log, s)
      case Next(t) => Run(log, t)
      case Stop => Ok(Finish(log, s))
      case Refuse => Err(Corruption)
  }

  /** What a scan of the whole file gives; Scan below computes it with a loop. */
  function ScanOf(log: Log, databaseId: nat): Result<ScanResult> {
    if log.size < WAL_HEADER_SIZE || log.header != Some(databaseId) then Err(Corruption)
    else Run(log, Clean(WAL_HEADER_SIZE, map[]))
  }

  method Scan(log: Log, databaseId: nat) returns (r: Result<ScanResult>)
    ensures r == ScanOf(log, databaseId)
  {
    if log.size < WAL_HEADER_SIZE {
      return Err(Corruption);
    }
    if log.header != Some(databaseId) {
      return Err(Corruption);
    }
    var pending: seq<PendingFrame> := [];
    var pendingTransaction: Option<nat> := None;
    var latest: map<PageId, nat> := map[];
    var validEnd: nat := WAL_HEADER_SIZE;
    var damaged := false;
    var offset: nat := WAL_HEADER_SIZE;
    while offset < log.size
      invariant Run(log, ScanState(offset, pending, pendingTransaction, damaged, latest, validEnd)) ==
        ScanOf(log, databaseId)
      decreases log.size - offset
    {
      var remaining := log.size - offset;
      if remaining < RECORD_TYPE_FIELD_SIZE { break; }
      var recordType := TypeAt(log, offset);
      if recordType == WAL_PAGE_FRAME_RECORD_TYPE {
        if remaining < WAL_PAGE_FRAME_RECORD_SIZE { break; }
        if damaged {
          offset := offset + WAL_PAGE_FRAME_RECORD_SIZE;
          continue;
        }
        if !FrameAt(log, offset) {
          damaged, pending, pendingTransaction := true, [], None;
          offset := offset + WAL_PAGE_FRAME_RECORD_SIZE;
          continue;
        }
        var frame := log.records[offset];
        if pendingTransaction.None? {
          pendingTransaction := Some(frame.transactionId);
        } else if pendingTransaction.value != frame.transactionId {
          return Err(Corruption);
        }
        pending := pending + [PendingFrame(offset, frame.page)];
        offset := offset + WAL_PAGE_FRAME_RECORD_SIZE;
      } else if recordType == WAL_COMMIT_RECORD_TYPE {
        if remaining < WAL_COMMIT_RECORD_SIZE { break; }
        if damaged {
          if CommitAt(log, offset) {
            return Err(Corruption);
          }
          offset := offset + WAL_COMMIT_RECORD_SIZE;
          continue;
        }
        if !CommitAt(log, offset) {
          damaged, pending, pendingTransaction := true, [], None;
          offset := offset + WAL_COMMIT_RECORD_SIZE;
          continue;
        }
        var commit := log.records[offset];
        if pendingTransaction.None? && commit.frameCount == 0 {
          offset := offset + WAL_COMMIT_RECORD_SIZE;
          validEnd := offset;
          continue;
        }
        if pendingTransaction.None? || commit.transactionId != pendingTransaction.value ||
          commit.frameCount != |pending| {
          return Err(Corruption);
        }
        latest := Promote(latest, pending);
        pending, pendingTransaction := [], None;
        offset := offset + WAL_COMMIT_RECORD_SIZE;
        validEnd := offset;
      } else if remaining < WAL_COMMIT_RECORD_SIZE {
        break;
      } else {
        return Err(Corruption);
      }
    }
    r := Ok(ScanResult(latest, validEnd, validEnd != log.size));
  }

  method Promote(before: map<PageId, nat>, pending: seq<PendingFrame>) returns (latest: map<PageId, nat>)
    ensures latest == Promoted(before, pending)
  {
    latest := before;
    for i := 0 to |pending|
      invariant latest == Promoted(before, pending[..i])
    {
      latest := latest[pending[i].page := pending[i].offset];
      assert pending[..i + 1][..i] == pending[..i];
    }
    assert pending[..|pending|] == pending;
  }
}
