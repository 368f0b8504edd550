/** Opening a database: the pager over its two files, and the catalog over the pager. */
module Databases {
  import opened Status
  import opened Disks
  import opened WalFormat
  import opened Recovery
  import opened LogWrites
  import opened PagerCrash
  import opened Pagers
  import opened CatalogStates
  import opened CatalogLoader
  import opened CatalogSteps
  import opened Catalogs
  import opened SystemRows

  datatype Database = Database(pager: Pager, catalog: CatalogState)

  // ---- The catalog in the system tables ------------------------------------------------------------

  /** The system tables are those of the catalog state. */
  ghost predicate StoresState(cells: SystemCells, s: CatalogState) {
    exists m :: StoresMetadata(cells, m) && StateOk(s, m)
  }

  /** The system tables describe the tables ts, and the loader insists on nothing more. */
  ghost predicate AcceptsCells(cells: SystemCells, ts: TableMap) {
    exists m :: StoresMetadata(cells, m) && Accepts(m, ts)
  }

  /** The catalog c was loaded from the system tables of s: it knows the same tables, indexes and names. */
  ghost predicate LoadedFrom(c: CatalogState, s: CatalogState) {
    && c.tables == s.tables && c.schemas == s.schemas && c.idByName == s.idByName
    && c.nextTable <= s.nextTable && c.nextColumn <= s.nextColumn && c.nextIndex <= s.nextIndex
  }

  /** Catalog::load, from the entries of the four trees. It fails exactly when their bytes describe no
      acceptable tables. */
  method LoadStored(cells: SystemCells, ghost s: CatalogState) returns (r: Result<CatalogState>)
    ensures r.Ok? ==> AcceptsCells(cells, r.value.tables)
    ensures r.Err? ==> r.code == Corruption && forall ts :: !AcceptsCells(cells, ts)
    ensures StoresState(cells, s) ==> r.Ok? && LoadedFrom(r.value, s) && StoresState(cells, r.value)
  {
    hide StoresMetadata, Accepts, StateOk;
    var m := ReadMetadata(cells);
    if m.Err? {
      return Err(Corruption);
    }
    r := LoadCatalog(m.value, s);
    if r.Err? {
      forall n | StoresMetadata(cells, n) ensures n == m.value {
        MetadataOnce(cells, n, m.value);
      }
    }
    if StoresState(cells, s) {
      ghost var n :| StoresMetadata(cells, n) && StateOk(s, n);
      MetadataOnce(cells, n, m.value);
    }
  }

  /** The system tables of one state describe its tables and no others. */
  lemma StoredTables(cells: SystemCells, s: CatalogState, ts: TableMap)
    requires StoresState(cells, s)
    ensures AcceptsCells(cells, ts) <==> ts == s.tables
  {
    hide StoresMetadata;
    var m :| StoresMetadata(cells, m) && StateOk(s, m);
    if AcceptsCells(cells, ts) {
      var n :| StoresMetadata(cells, n) && Accepts(n, ts);
      MetadataOnce(cells, n, m);
      DescribedOnce(m, ts, s.tables);
    }
  }

  // ---- After a crash ---------------------------------------------------------------------------------

  /** The system tables of p's committed database, and of the one that a commit in doubt was to produce,
      are those of the catalog states given for them. */
  ghost predicate Described(p: Pager, cells: Db -> SystemCells, states: Db -> CatalogState)
    reads p, p.disk
  {
    && StoresState(cells(p.Committed()), states(p.Committed()))
    && (p.inDoubt ==> StoresState(cells(p.attempted), states(p.attempted)))
  }

  /** Whatever a crash leaves, the files recover to the committed database, and its system tables describe
      the tables of the committed catalog and no others; after a commit that was not acknowledged that may
      be the catalog after it. cells reads the system tables of a database. */
  lemma CatalogSurvives(p: Pager, d: Disk, log: Log, cells: Db -> SystemCells, states: Db -> CatalogState)
    requires p.CrashSafe() && d in p.disk.possible && (log in p.wal.recent || log in p.wal.older)
    requires Described(p, cells, states)
    ensures var r := Recover(d, log);
      && (r.Ok? ==> r.value == p.Committed() || (p.inDoubt && r.value == p.attempted))
      && (r.Ok? ==> forall ts :: AcceptsCells(cells(r.value), ts) <==> ts == states(r.value).tables)
      && (r.Ok? ==> Shown(d, log, r.value) && StoresState(cells(r.value), states(r.value)))
      && (!p.inDoubt ==> (r.Ok? <==> !HalfWritten(d, log)))
  {
    hide StoresState, AcceptsCells;
    p.CrashRecovers(d, log);
    var r := Recover(d, log);
    if r.Ok? {
      forall ts ensures AcceptsCells(cells(r.value), ts) <==> ts == states(r.value).tables {
        StoredTables(cells(r.value), states(r.value), ts);
      }
    }
  }

  lemma LeftFilesAreSound(p: Pager, d: Disk, log: Log)
    requires p.Valid() && p.CrashSafe() && d in p.disk.possible && (log in p.wal.recent || log in p.wal.older)
    ensures Whole(d) && Sound(log)
  {
    hide Sound;
  }

  /** open_or_create on the files that a crash of p's process left. It refuses only files that cannot be
      recovered, and otherwise gives a pager that can go on safely, and the catalog of its database. left is
      what its system tables hold. */
  method OpenAfterCrash(ghost p: Pager, d: Disk, log: Log, capacity: nat, left: SystemCells,
                        ghost cells: Db -> SystemCells, ghost states: Db -> CatalogState)
    returns (r: Result<Database>)
    requires p.Valid() && p.CrashSafe() && d in p.disk.possible && (log in p.wal.recent || log in p.wal.older)
    requires Described(p, cells, states) && capacity > 0
    requires Recover(d, log).Ok? ==> left == cells(Recover(d, log).value)
    ensures r.Ok? ==> Recover(d, log).Ok? && var db := Recover(d, log).value;
      && (db == p.Committed() || (p.inDoubt && db == p.attempted))
      && fresh(r.value.pager) && r.value.pager.Valid() && r.value.pager.CrashSafe()
      && r.value.pager.Committed() == db == r.value.pager.Working()
      && LoadedFrom(r.value.catalog, states(db)) && StoresState(cells(db), r.value.catalog)
    ensures r.Err? ==> r.code == IoError || (r.code == Corruption && Recover(d, log).Err?)
  {
    hide Pager.CrashSafe, Pager.Valid, Pager.Workable, Recover, Shown, Whole, Sound, StoresState, AcceptsCells;
    hide Described;
    hide Pager.Committed, Pager.Working;
    CatalogSurvives(p, d, log, cells, states);
    LeftFilesAreSound(p, d, log);
    ghost var db := if Recover(d, log).Ok? then Recover(d, log).value else p.Committed();
    var pager, file := Pager.OpenAfterCrash(d, log, capacity, db);
    if pager.Err? {
      return Err(pager.code);
    }
    var catalog := LoadStored(left, states(db));
    r := if catalog.Ok? then Ok(Database(pager.value, catalog.value)) else Err(Corruption);
  }
}
