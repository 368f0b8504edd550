/** The write-ahead log file: a 64-byte header, then page frames and commit records. */
module WalFormat {
  import opened PageIds
  import opened PageImages
  import opened Status

  const WAL_HEADER_SIZE: nat := 64
  const WAL_PAGE_FRAME_RECORD_TYPE: nat := 1
  const WAL_COMMIT_RECORD_TYPE: nat := 2
  const WAL_PAGE_FRAME_RECORD_SIZE: nat := PAGE_SIZE + 40
  const WAL_COMMIT_RECORD_SIZE: nat := 32
  const RECORD_TYPE_FIELD_SIZE: nat := 4

  datatype Record =
    | FrameRecord(transactionId: nat, page: PageId, image: Image)
    | CommitRecord(transactionId: nat, frameCount: nat)

  function Size(r: Record): nat {
    if r.FrameRecord? then WAL_PAGE_FRAME_RECORD_SIZE else WAL_COMMIT_RECORD_SIZE
  }

  function TypeOf(r: Record): nat {
    if r.FrameRecord? then WAL_PAGE_FRAME_RECORD_TYPE else WAL_COMMIT_RECORD_TYPE
  }

  /** A log file as its readers see it: its size, the database id in its header if the header decodes,
      the record that decodes at each offset where one does, and the record type field stored at the
      other offsets (0 where nothing else was written). */
  datatype Log = Log(size: nat, header: Option<nat>, records: map<nat, Record>, types: map<nat, nat>)


  function TypeAt(log: Log, o: nat): nat {
    if o in log.records then TypeOf(log.records[o])
    else if o in log.types then log.types[o]
    else 0
  }

  predicate FrameAt(log: Log, o: nat) {
    o in log.records && log.records[o].FrameRecord?
  }

  predicate CommitAt(log: Log, o: nat) {
    o in log.records && log.records[o].CommitRecord?
  }

  /** Resizing the file to n bytes: what does not fit any more is gone, what is new reads as zeros. */
  function Resized(log: Log, n: nat): Log {
    Log(n, if n < WAL_HEADER_SIZE then None else log.header,
        map o | o in log.records && o + Size(log.records[o]) <= n :: log.records[o],
        map o | o in log.types.Keys + log.records.Keys && o + RECORD_TYPE_FIELD_SIZE <= n :: TypeAt(log, o))
  }

  /** The two logs read the same below offset e. */
  ghost predicate Agree(a: Log, b: Log, e: nat) {
    && e <= a.size && e <= b.size && a.header == b.header
    && (forall o: nat :: o + RECORD_TYPE_FIELD_SIZE <= e ==> TypeAt(a, o) == TypeAt(b, o))
    && (forall o :: o in a.records && o + Size(a.records[o]) <= e ==> o in b.records && b.records[o] == a.records[o])
    && (forall o :: o in b.records && o + Size(b.records[o]) <= e ==> o in a.records && a.records[o] == b.records[o])
  }

  lemma ResizedAgrees(log: Log, n: nat)
    requires WAL_HEADER_SIZE <= n <= log.size
    ensures Agree(log, Resized(log, n), n)
  {
  }

  // ---- Transactions in the log -------------------------------------------------------------

  datatype Frame = Frame(page: PageId, image: Image)

  /** A transaction as it is appended: the frames of its pages, then a commit record. */
  datatype Transaction = Transaction(id: nat, frames: seq<Frame>)

  /** Frame i of a transaction that starts at offset e; for i the number of frames, its commit record. */
  function RecordOffset(e: nat, i: nat): nat {
    e + i * WAL_PAGE_FRAME_RECORD_SIZE
  }

  function RecordOf(t: Transaction, i: nat): Record
    requires i <= |t.frames|
  {
    if i < |t.frames| then FrameRecord(t.id, t.frames[i].page, t.frames[i].image) else CommitRecord(t.id, |t.frames|)
  }

  /** Where a transaction that starts at offset e ends. */
  function EndOf(e: nat, t: Transaction): nat {
    RecordOffset(e, |t.frames|) + WAL_COMMIT_RECORD_SIZE
  }

  ghost predicate RecordIntact(log: Log, e: nat, t: Transaction, i: nat)
    requires i <= |t.frames|
  {
    var o := RecordOffset(e, i);
    o in log.records && log.records[o] == RecordOf(t, i) && o + Size(RecordOf(t, i)) <= log.size
  }

  /** The whole transaction is in the log at offset e. */
  ghost predicate Intact(log: Log, e: nat, t: Transaction) {
    forall i :: 0 <= i <= |t.frames| ==> RecordIntact(log, e, t, i)
  }

  /** base with the frames written over it in order. */
  function Overlaid(base: map<PageId, Image>, frames: seq<Frame>): map<PageId, Image> {
    if frames == [] then base
    else Overlaid(base, frames[..|frames| - 1])[frames[|frames| - 1].page := frames[|frames| - 1].image]
  }

  lemma {:induction false} OverlaidMerges(base: map<PageId, Image>, frames: seq<Frame>)
    ensures Overlaid(base, frames) == base + Overlaid(map[], frames)
  {
    if frames != [] {
      OverlaidMerges(base, frames[..|frames| - 1]);
    }
  }
}
