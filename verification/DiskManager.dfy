/** The database file, and what a crash may leave of it. */
module Disks {
  import opened PageIds
  import opened PageImages
  import opened Status

  const INITIAL_DATABASE_PAGE_COUNT: nat := 1

  /** A database file of pageCount whole pages: the header in page 0, and pages 1 to pageCount - 1. */
  datatype Disk = Disk(pageCount: nat, header: DatabaseHeader, pages: map<PageId, Image>)

  ghost predicate Whole(d: Disk) {
    d.pageCount >= 1 && forall p :: p in d.pages <==> 1 <= p < d.pageCount
  }

  /** Writing one page; a page outside the file is lost. Page writes are atomic. */
  function Put(d: Disk, p: PageId, image: Image): Disk {
    if p in d.pages then d.(pages := d.pages[p := image]) else d
  }

  function PutHeader(d: Disk, h: DatabaseHeader): Disk {
    d.(header := h)
  }

  /** Extending the file to n pages; the new pages read as zeros. */
  function Extended(d: Disk, n: nat): Disk {
    if n <= d.pageCount then d
    else Disk(n, d.header, map p | 1 <= p < n :: if p in d.pages then d.pages[p] else ZeroPage())
  }

  class DiskManager {
    /** The file as this process reads it back. */
    var disk: Disk
    /** The files that a crash may leave: any subset of the writes since the last sync may be missing. */
    ghost var possible: iset<Disk>

    ghost predicate Valid()
      reads this
    {
      disk in possible && forall d :: d in possible ==> Whole(d)
    }

    /** Opens a file. Nothing is synced: whatever a crash might have left of it before may still be left. */
    constructor (disk: Disk, ghost possible: iset<Disk>)
      requires disk in possible && forall d :: d in possible ==> Whole(d)
      ensures Valid() && this.disk == disk && this.possible == possible
    {
      this.disk, this.possible := disk, possible;
    }

    /** Reads a page; the system may fail to. */
    method ReadPage(p: PageId) returns (r: Result<Image>)
      requires Valid()
      ensures r.Ok? ==> p in disk.pages && r.value == disk.pages[p]
      ensures r.Err? ==> r.code == IoError || (r.code == InvalidArgument && p !in disk.pages)
    {
      if p == INVALID_PAGE_ID || p == HEADER_PAGE_ID {
        return Err(InvalidArgument);
      }
      var sized, read: bool := *, *;
      if !sized {
        return Err(IoError);
      }
      if p !in disk.pages {
        return Err(InvalidArgument);
      }
      r := if read then Ok(disk.pages[p]) else Err(IoError);
    }

    /** Writes a page. When the system reports a failure the write may have happened all the same. */
    method WritePage(p: PageId, image: Image) returns (r: Outcome)
      requires Valid()
      modifies this
      ensures Valid()
      ensures p !in old(disk).pages ==> r.Failed? && disk == old(disk) && possible == old(possible)
      ensures disk == Put(old(disk), p, image) || (r.Failed? && disk == old(disk))
      ensures r.Failed? && p in old(disk).pages ==> r.code == IoError
      ensures p in old(disk).pages ==> possible == old(possible) + iset d | d in old(possible) :: Put(d, p, image)
    {
      if p !in disk.pages {
        var sized: bool := *;
        return Failed(if sized then InvalidArgument else IoError);
      }
      possible := possible + iset d | d in possible :: Put(d, p, image);
      var written, reported: bool := *, *;
      if written || reported {
        disk := Put(disk, p, image);
      }
      r := if reported then Done else Failed(IoError);
    }

    method WriteHeader(h: DatabaseHeader) returns (r: Outcome)
      requires Valid()
      modifies this
      ensures Valid()
      ensures disk == PutHeader(old(disk), h) || (r.Failed? && disk == old(disk))
      ensures r.Failed? ==> r.code == IoError
      ensures possible == old(possible) + iset d | d in old(possible) :: PutHeader(d, h)
    {
      possible := possible + iset d | d in possible :: PutHeader(d, h);
      var written, reported: bool := *, *;
      if written || reported {
        disk := PutHeader(disk, h);
      }
      r := if reported then Done else Failed(IoError);
    }

    /** Grows the file to n pages; it never shrinks. */
    method ResizeToPageCount(n: nat) returns (r: Outcome)
      requires Valid()
      modifies this
      ensures Valid()
      ensures n < INITIAL_DATABASE_PAGE_COUNT || n < old(disk).pageCount ==>
        r.Failed? && disk == old(disk) && possible == old(possible)
      ensures disk == Extended(old(disk), n) || (r.Failed? && disk == old(disk))
      ensures r == Failed(InvalidArgument) <==> n < INITIAL_DATABASE_PAGE_COUNT
      ensures r == Failed(InternalError) <==> INITIAL_DATABASE_PAGE_COUNT <= n < old(disk).pageCount
      ensures r.Failed? ==> r.code == InvalidArgument || r.code == InternalError || r.code == IoError
      ensures possible == old(possible) || possible == old(possible) + iset d | d in old(possible) :: Extended(d, n)
    {
      if n < INITIAL_DATABASE_PAGE_COUNT {
        return Failed(InvalidArgument);
      }
      if disk.pageCount > n {
        return Failed(InternalError);
      }
      if disk.pageCount == n {
        return Done;
      }
      possible := possible + iset d | d in possible :: Extended(d, n);
      var resized, reported: bool := *, *;
      if resized || reported {
        disk := Extended(disk, n);
      }
      r := if reported then Done else Failed(IoError);
    }

    /** After a successful sync a crash leaves exactly what was written. */
    method Sync() returns (r: Outcome)
      requires Valid()
      modifies this
      ensures Valid() && disk == old(disk) && (r.Failed? ==> r.code == IoError)
      ensures possible == if r.Done? then iset{disk} else old(possible)
    {
      var reported: bool := *;
      if reported {
        possible := iset{disk};
      }
      r := if reported then Done else Failed(IoError);
    }
  }
}
