# DanDB: storage, indexes and catalog

A Dafny model of the DanDB database engine, with proofs. `dafny verify dfyconfig.toml` checks all of it.

The model follows the engine's layers.

- **B+ tree** (`BTree*.dfy`, `PagedBTree.dfy`). Trees over a mutable store of pages named by id, with every split, borrow,
  merge, separator refresh, root split and root collapse. A tree refines a finite map. Its cursors list the leaf chain.
- **Page bytes** (`PageBytes.dfy`, `PageEdits.dfy`, `PageLayouts.dfy`). The same pages as arrays of 4096 bytes. The edits
  with their overlapping moves refine the typed edits that the trees are made of, and every page of a tree has its bytes.
- **Log** (`Wal*.dfy`, `LogScans.dfy`, `LogWalks.dfy`, `LogWrites.dfy`). The scan that decides what a log has committed, what
  it accepts said without it, the writes to the end of a log, and all that a crash may leave of them.
- **Files and crashes** (`DiskManager.dfy`, `Recovery.dfy`, `PagerCrash.dfy`). `possible`, `recent` and `older` are sets of
  files: what a crash may leave of the database file, of the log if its last truncation reached the medium, and of the log
  if it did not. Page writes are atomic, any subset of the writes since the last sync may be missing, and a record that was
  not written whole does not decode, or decodes as what was written.
- **Pager and buffer pool** (`Pager*.dfy`, `BufferPool.dfy`, `LRUReplacer.dfy`). They refine a pair of databases, the
  committed one and the one that the running transaction works on. Every run keeps `Valid` and `Workable`; on top of that a
  run is `CrashSafe` as long as whatever a crash leaves shows the committed database, or what a commit in doubt makes of it.
  A crash in the middle of an operation leaves what the operation leaves when it fails there.
- **Rows, keys and statements** (`Values.dfy`, `ValueOrders.dfy`, `Keys.dfy`, `RowCodec.dfy`, `Schemas.dfy`, `Tables.dfy`,
  `Access*.dfy`, `Literals.dfy`, `Predicates.dfy`, `Plans.dfy`, `StatementEffects.dfy`, `Statements.dfy`). Encodings, the
  numbers that DOUBLE bits stand for, literals, access paths over the real trees, and INSERT, UPDATE, DELETE, CREATE INDEX
  and SELECT with every secondary index kept and every failure under its code.
- **Catalog** (`Catalog*.dfy`, `IndexTrees.dfy`, `InternalNames.dfy`, `SystemRows.dfy`, `Databases.dfy`). Creating and
  dropping tables and indexes with their trees, staged and committed state, and loading the catalog back from the bytes of
  the system tables, also after a crash.

## Findings

Four promises do not hold as stated. Each is kept as the code has it, with its exact condition.

1. **A commit can be lost after a failed checkpoint.** `WalManager::reset` (`src/wal/WalManager.cpp:187-195`) sets the append
   offset only if the truncation is reported as done, or if the size of the file can be read afterwards. If the truncation
   took effect, was reported as failed and the size could not be read either, the offset stays beyond the end of the file.
   The next commit is acknowledged, and the log has zeros before it that every scan refuses. Proved: an acknowledged commit
   survives a crash if and only if the log followed the committed database and the append offset was its end
   (`Pagers.Pager.CommitTransaction`). After one that does not, every file a crash may leave is refused, and so it stays
   through later commits until a checkpoint finishes, which makes the run safe again. A checkpoint that does not finish
   leaves files that are refused or show the committed database (`Pagers.Pager.Checkpoint`,
   `Pagers.Pager.GuardedRecovers`). A reset leaves the offset at the end of the file if and only if the size could be read or
   the file kept its size (`WalManagers.WalManager.Reset`). `PagerCrash.AppendedBeyondTheEnd` is the concrete log.
2. **Closing and reopening does not settle an unresolved commit.** The engine tells its user to close and reopen
   (`src/execution/Database.cpp:525`), but opening syncs the log only when it cuts trailing bytes off
   (`src/wal/WalManager.cpp:97-107`). A commit whose sync failed may be read back whole while nothing of it is on the medium.
   Proved: the reopened pager is safe if and only if all files that a crash may still leave show the database that was read
   (`Pagers.Pager.Open`). After a failed commit that is the case if and only if opening cut something off or the log is no
   longer than before the commit (`Pagers.Pager.ReopenInDoubt`). A run that is not safe becomes so with its first
   acknowledged commit or finished checkpoint (`Pagers.Pager.CommitTransaction`, `Pagers.Pager.Checkpoint`). Until then a
   crash recovers to pages of the two databases, possibly of both, or to refused files (`Pagers.Pager.CrashTraces`).
   `Pagers.Pager.UnsyncedReopenMixes` is the concrete run: one page written by the new process, and a crash recovers to a
   database that never was committed.
3. **Files that nothing damaged can be refused.** A checkpoint extends the file, writes the pages and then the header, all
   before the first sync (`src/storage/Pager.cpp:559-579`), and opening compares the header's page count with the file size
   (`src/storage/DiskManager.cpp:75-79`). If the medium keeps the header and not the new size, both files are whole, they show
   the committed database, and they are refused (`Pagers.Pager.WriteUnsynced`). The same goes for a new log that lost part of
   its header, which is not synced either (`PagerCrash.LostHeaderIsRefused`, `src/wal/WalManager.cpp:35-50`). Proved: these
   two are the only refused files among those that show a database (`PagerCrash.ShownRecovers`).
4. **A predicate's outcome can depend on the indexes.** A text literal with a NUL character has no key, so a comparison with
   it is an error if the column is the primary key or has an index (`src/execution/Database.cpp:935-938`, `:965-968`), and an
   ordinary comparison if it is not. `AccessRuns.RunPath` has the exact condition, and `Predicates.IndexRefusesNul` a table,
   an index and a predicate for it.

## Model

| member | source | states |
|---|---|---|
| PagedBTree.BTree.Insert | src/btree/BTree.cpp:252-423 | The map gains exactly the entry, under the same root id, and the tree invariant holds (uniform depth, occupancy, exact separators, linked leaves, no page reached twice, and capacities that are as many entries as fill the 4032 bytes of a page). A present key is ConstraintViolation, a wrong size InvalidArgument, and neither changes a page. Pages of other trees stay as they are. |
| PagedBTree.BTree.InsertIntoLeaf | src/btree/BTree.cpp:2161-2374 | A new key splits the leaf exactly when the leaf holds as many entries as fit a page. |
| PagedBTree.LayoutFills | src/btree/BTree.cpp:25-56 | The capacities of a tree are the most leaf and internal entries that fit a page: they fit, and one more does not. |
| PagedBTree.BTree.Erase | src/btree/BTree.cpp:459-576 | The map loses exactly the key, through every borrow, merge and root collapse, with the same root id and the tree invariant. An absent key is NotFound and changes nothing. |
| PagedBTree.BTree.UpdateValue | src/btree/BTree.cpp:425-457 | The value of a present key is replaced and nothing else. An absent key is NotFound and changes nothing. |
| PagedBTree.BTree.Find | src/btree/BTree.cpp:160-211 | Gives the map's value, or NotFound exactly for an absent key. |
| PagedBTree.BTree.ScanRange | src/btree/BTree.cpp:584-662 | The cursor will list exactly the entries with lower <= key < upper in key order. A bound of the wrong size is refused. |
| BTreeCursors.BTreeCursor.Next | src/btree/BTreeCursor.cpp:27-82 | Gives the first remaining entry and leaves the others, across leaf borders and empty leaves, or nothing once none remain. |
| BTreeCursors.BTreeCursor.Consume | src/execution/Database.cpp:141-166 | Calling next until it gives nothing ends, and gives every remaining entry once and in order. |
| PageEdits.MoveBytes | include/dandb/btree/BTreeLeafPage.h:300-308 | Overlapping ranges or not, the target holds what the source held and no other byte changes. |
| PageEdits.BTreeLeafPage.InsertEntry | include/dandb/btree/BTreeLeafPage.h:251-316 | On the bytes it is insertion into the entry sequence of the page that the bytes denote, with the same refusals. A refused call changes no byte. |
| PageEdits.BTreeLeafPage.EraseEntry | include/dandb/btree/BTreeLeafPage.h:318-337 | On the bytes it is removal from the entry sequence, with the same refusals. |
| PageEdits.BTreeLeafPage.UpdateValue | include/dandb/btree/BTreeLeafPage.h:212-248 | On the bytes it replaces the value of the entry with the key and changes nothing else. |
| PageEdits.BTreeInternalPage.InsertEntry | include/dandb/btree/BTreeInternalPage.h:259-323 | On the bytes it is insertion of a separator and its right child. |
| PageEdits.BTreeInternalPage.EraseEntry | include/dandb/btree/BTreeInternalPage.h:325-344 | On the bytes it is removal of a separator and its right child. |
| PageEdits.FindInsertionPosition | include/dandb/btree/BTreeLeafPage.h:182-208 | The exact lower bound under memcmp: every earlier key is below the given one and no later one is. |
| PageEdits.ChildIndexForKey | include/dandb/btree/BTreeInternalPage.h:182-209 | The exact upper bound under memcmp: the given key is not below any earlier separator and below every later one. |
| PageLayouts.CapacityIsCaps | include/dandb/btree/BTreeLeafPage.h:130-142 | For bytes that validate as a page of the tree's key and value size, the tree's capacity is the page's. |
| PageLayouts.TreePageHasBytes | include/dandb/btree/BTreeInternalPage.h:134-146 | Every page of a tree, whatever was done to the tree, is what some 4096 bytes denote, of the tree's sizes and with the tree's capacity. |
| LogScans.CrashRecovery | src/wal/WalScanner.cpp:63-206 | For any run of committed transactions and any torn last one, the scan refuses the log or gives exactly the images before or after the last one. A log that was only cut is never refused. |
| LogScans.TornScan | src/wal/WalScanner.cpp:75-206 | Whatever is left of the last transaction, it is accepted whole, not at all, or the log is refused. |
| LogScans.CutScan | src/wal/WalScanner.cpp:75-206 | A cut transaction counts exactly when all of it is there, and is never a reason to refuse. |
| LogScans.AppendOverrides | src/wal/WalScanner.cpp:63-206 | A transaction appended where a scan ended overrides the accepted images with exactly its own frames. No leftover frame joins it, whatever its transaction id. |
| LogScans.TruncationKeepsScan | src/wal/WalScanner.cpp:198-206 | Cutting the log where the scan ended gives the same page offsets and leaves nothing to ignore. |
| WalScanner.Scan | src/wal/WalScanner.cpp:22-208 | The loop computes the fold that the lemmas on scans are about, and that `LogWalks.ScanExact` says without it. |
| LogWalks.ScanExact | src/wal/WalScanner.cpp:63-206 | A log is accepted if and only if, walking from record to record by the type fields alone, every commit record that decodes comes before anything that does not and closes frames of its own transaction that directly precede it, counting exactly them; so no commit is dropped. The accepted images are the last frame of each page before the last commit, and the end is the end of that commit. |
| LogWrites.PartialUndecided | src/wal/WalManager.cpp:101-117 | Whatever a failed commit left behind any log that could be read, wherever it was appended, the log gives the images before, those and the whole transaction, or is refused. |
| LogWrites.GapIsRefused | src/wal/WalScanner.cpp:75-206 | A log with zeros after its header and more behind them is refused by every scan. |
| LogWrites.GapStays | src/wal/WalManager.cpp:101-169 | Nothing that is appended later takes the zeros away. |
| LogWrites.UnreadableStays | src/wal/WalManager.cpp:119-169 | A log that the scan refuses is refused whatever is appended to it. |
| WalManagers.WalManager.CommitTransaction | src/wal/WalManager.cpp:101-175 | Acknowledged at the end of the file, the log gives the old images and the whole transaction, and a crash can leave nothing else. Acknowledged beyond the end, every log has a gap. Failed, each log that a crash may leave stems from one before it; on a synced log, a file of the old size gives the old images and a longer file that can be read to its end gives the new ones. |
| WalManagers.WalManager.Reset | src/wal/WalManager.cpp:177-206 | The log gives the old images or none, whatever fails. The append offset is the end of the file afterwards if and only if its size could be read or did not change. Done, the log is empty and synced. |
| WalManagers.WalManager.OpenOrCreate | src/wal/WalManager.cpp:20-99 | Refuses exactly the logs that cannot be scanned. Otherwise the manager stands at the end of whole transactions and gives what the scan accepted. What a crash may leave shrinks to one log only if trailing bytes were cut off. |
| Disks.DiskManager.WritePage | src/storage/DiskManager.cpp:155-186 | A crash may leave the old page or the new one. A reported failure may have written all the same. A page outside the file is refused. |
| Disks.DiskManager.ResizeToPageCount | src/storage/DiskManager.cpp:188-215 | The file grows by zero pages and never shrinks; a crash may keep the old size. |
| LRUReplacers.LRUReplacer.Victim | src/buffer/LRUReplacer.cpp:11-23 | Takes out the frame that became evictable first, or reports NotFound exactly when there is none. |
| BufferPool.BufferPoolManager.CachePage | src/buffer/BufferPoolManager.cpp:96-135 | Succeeds exactly for a valid, uncached page while some frame is free or holds an unpinned clean page. At most such a page is evicted; all others stay as they are. |
| BufferPool.BufferPoolManager.NoRoomMeansBusy | src/buffer/BufferPoolManager.cpp:96-135 | Without room every frame holds a pinned or dirty page. |
| BufferPool.BufferPoolManager.RoomMeansIdle | src/buffer/BufferPoolManager.cpp:96-135 | With room but no free frame, some cached page is unpinned and clean. |
| BufferPool.BufferPoolManager.UnpinPage | src/buffer/BufferPoolManager.cpp:43-68 | One pin less and dirty if it was or is now; the exact error for every other case, with nothing changed. |
| BufferPool.BufferPoolManager.DiscardPage | src/buffer/BufferPoolManager.cpp:182-204 | Removes exactly that page, and only if it is cached and unpinned. |
| BufferPool.BufferPoolManager.RestorePage | src/buffer/BufferPoolManager.cpp:228-247 | Puts back the image, clean, and only if the page is cached and unpinned. |
| Pagers.Pager.GetPage | src/storage/Pager.cpp:233-292 | Pins a page of the working database, which does not change whatever is evicted. Fails only for a closed pager or a page outside the database (InvalidArgument), a full pool (NotFound), or a page that is neither cached nor recovered and cannot be read (IoError). |
| Pagers.Pager.Read | src/storage/PageHandle.cpp:14-16 | A held page reads as the working image. |
| Pagers.Pager.MutablePage | src/storage/PageHandle.cpp:18-44 | Succeeds exactly in an active transaction; the working database is unchanged and the before-image recorded. |
| Pagers.Pager.NewPage | src/storage/Pager.cpp:294-338 | The working database grows by one zeroed page and its header by one in the page count. A failure changes nothing: InvalidArgument if closed, TransactionError outside an active transaction, NotFound if the pool has no room. |
| Pagers.Pager.BeginTransaction | src/storage/Pager.cpp:344-360 | Succeeds exactly outside a transaction, where the working database is the committed one; takes the step BeginStep. |
| Pagers.Pager.CommitTransaction | src/storage/Pager.cpp:362-436 | Done, from any run, the committed database is the working one. It is safe from crashes if and only if the log followed the committed database and the commit went to its end; if not, all that a crash may leave is refused. Failed, the committed database stays, and from files that are safe, or refused at worst, a crash gives it, the working one, or refused files. InvalidArgument exactly if closed, TransactionError exactly if no transaction is active or a changed page is held, and IoError leaves it unresolved. Takes the step CommitStep. |
| Pagers.Pager.RollbackTransaction | src/storage/Pager.cpp:438-519 | Done exactly when a settled transaction could be undone, and then the working database is the committed one, header and page count included. A failed check changes nothing, and nothing fails after the checks. TransactionError exactly if there is nothing to roll back, InternalError exactly if a page is held. Takes the step RollbackStep. |
| Pagers.Pager.MarkTransactionFailed | src/storage/Pager.cpp:533-551 | Only the status changes, by the step FailStep. |
| Pagers.Pager.Checkpoint | src/storage/Pager.cpp:553-590 | Also inside a transaction, both databases stay. Finished, any run is safe, also after a lost commit. Unfinished, safe files stay safe, and after a lost commit a crash leaves files that are refused or show the committed database. Afterwards the append offset is the end of the log if and only if the log's size could be read or did not change. TransactionError exactly while a commit is in doubt; any other failure is IoError. |
| Pagers.Pager.WriteUnsynced | src/storage/Pager.cpp:559-574 | Before the sync a crash may leave a file that shows the committed database and is refused, whenever the database has grown. |
| Pagers.Pager.CommitAfterCheckpoint | src/storage/Pager.cpp:362-590 | In a run that follows its committed database, a checkpoint and then a commit: the acknowledged commit survives crashes if and only if the log's size could be read or the log kept it. |
| Pagers.Pager.CrashRecovers | src/storage/Pager.cpp:114-220 | Every file and log that a crash may leave of a safe run recovers to the committed database, or, after an unresolved commit, to the one before or after it, or is refused. |
| Pagers.Pager.GuardedRecovers | src/storage/Pager.cpp:114-220 | After a lost commit and an unfinished checkpoint a crash leaves files that recover to the committed database or are refused. |
| Pagers.Pager.CrashTraces | src/storage/Pager.cpp:114-220 | Whatever a crash leaves of any run recovers to a header and pages of the databases that the run may bring back, or zeros, or is refused. After a finished checkpoint or a safe commit that is the committed database alone. |
| Pagers.Pager.Open | src/storage/Pager.cpp:114-220 | Refuses exactly what recovery refuses, and otherwise opens with the recovered database. The new pager is safe if and only if all files that a crash may still leave show that database. |
| Pagers.Pager.ReopenInDoubt | src/storage/Pager.cpp:114-220 | After a failed commit, the next process reads the database before or after the commit, and is safe if and only if it cut something off the log or the log has nothing of the commit. Either way it can commit and checkpoint. |
| Pagers.Pager.Reopen | src/storage/Pager.cpp:114-220 | Whatever run ended without a system crash, the next one has the committed database, or what a commit in doubt made of it, and can go on. It is safe if and only if the files show that database. After a lost commit there is nothing to open. |
| Pagers.Pager.OpenAfterCrash | src/storage/Pager.cpp:114-220 | The files that a crash left, if they show a database, are opened with it and safely, and a file is refused only if it cannot be recovered. |
| Pagers.Pager.UnsyncedReopenMixes | src/wal/WalManager.cpp:69-111 | The concrete run of finding 2: one page write by the new process and a crash recovers to a mixed database. |
| PagerCrash.ShownRecovers | src/storage/Pager.cpp:114-220 | Files that show a database recover to it exactly, except for the two half-written kinds, which are refused. |
| PagerCrash.ShownOnce | src/storage/Pager.cpp:152-206 | Two files show at most one database. |
| PagerTraces.TracedRecovers | src/storage/Pager.cpp:114-220 | Files whose log gives, over every file, only what some databases have recover to a header and pages of those, or zeros. |
| PagerCrash.LostHeaderIsRefused | src/wal/WalManager.cpp:35-57 | A new log may lose its unsynced header, and is refused then with every database file. |
| PagerCrash.AppendedBeyondTheEnd | src/wal/WalManager.cpp:119-169 | The concrete log of finding 1: a transaction whose records all landed whole, and that reopening refuses. |
| Keys.EncodeOrder | src/record/KeyCodec.cpp:12-90 | Byte order of the keys is the order of the values, strictly, for every indexable type. |
| Keys.NextKey | src/execution/Database.cpp:357-376 | Gives the least key of the same size above the given one; none exactly when all bytes are 0xff. |
| ValueOrders.FloatLessIsBelow | src/execution/Database.cpp:223-226 | One DOUBLE is less than another if and only if neither is a NaN and its number is below the other's: the number that sign, exponent and fraction denote, subnormal numbers included, with the infinities at the ends. |
| ValueOrders.MatchesTells | src/execution/Database.cpp:210-264 | The outcome of a comparison of two values of a type, for each operator, said by their numbers, texts or truth values. |
| AccessPaths.PrimaryPlanExact | src/execution/Database.cpp:378-468 | For each operator, the primary-key ranges visit exactly the matching rows, each once and in order. |
| AccessPaths.SecondaryPlanExact | src/execution/Database.cpp:470-492 | For each operator, the index ranges lead to exactly the matching rows, each once, for unique and non-unique indexes. |
| Plans.PlannedPath | src/execution/Database.cpp:110-137 | A range is chosen exactly when the compared column has a tree, and can be followed exactly when the literal has a key. |
| Plans.PlannedVisits | src/execution/Database.cpp:110-137 | The chosen path visits every row that the statement selects, no row twice, and over a range no other row. |
| Predicates.ResolvedMeans | src/execution/Database.cpp:268-355 | A predicate that resolves chooses exactly the rows that satisfy it, with nothing comparing with NULL. It resolves unless the literal is not a value of the column's type. |
| Predicates.IndexRefusesNul | src/execution/Database.cpp:935-938 | The concrete table, index and predicate of finding 4: with the index the statement is refused for want of a key, without it the same predicate compares. |
| Literals.ConvertTo | src/record/LiteralValue.cpp:15-130 | A literal becomes a value exactly if it is one of the column's type, unchanged. NULL for a NOT NULL column is the one ConstraintViolation. |
| AccessRuns.RunPath | src/execution/Database.cpp:905-990 | Over the real trees, the chosen path's cursors give the rows that the statement needs to see with what the table holds for them. It fails exactly for a literal without a key on a column with a tree. |
| AccessCursors.OpenCursors | src/execution/Database.cpp:378-453 | The cursors together list exactly the ranges of the operator; null tests are refused. |
| AccessCursors.ConsumeSecondaryIndexCursors | src/execution/Database.cpp:168-206 | Gives the row of every index entry in order, and fails exactly when one leads to no row. |
| StatementEffects.PlansAgree | src/execution/Database.cpp:905-990 | Any two paths select the same rows, each as often. |
| Statements.Session.ExecuteInsert | src/execution/Database.cpp:996-1142 | From literals: the table gains the row they write and every index its entry. A row that collides with a primary key or a unique value never gets in, and a violated constraint is reported only if there is a duplicate or the first literal refused is a NULL. InvalidArgument exactly if the literals make no row that can be stored. A failure leaves the state before it or a transaction that only ROLLBACK ends. |
| Statements.Session.ExecuteUpdate | src/execution/Database.cpp:1144-1434 | Over the planned path and the real trees, every row that satisfies the predicate is assigned, and the indexes follow. A violated constraint is reported only if a NULL is refused or the final table would hold a duplicate, and such a statement never succeeds, whatever the path. InvalidArgument only for a literal of another type, a predicate that does not resolve or a literal without a key that the path needs, or a row to be assigned while the column is the primary key or the value cannot be stored, and then never a violated constraint. Every other failure is one of storage. |
| Statements.Session.ExecuteDelete | src/execution/Database.cpp:1436-1674 | Over the planned path and the real trees, exactly the rows that satisfy the predicate and their index entries go. InvalidArgument only if the predicate does not resolve or its path cannot be followed; other failures are those of storage. |
| Statements.Session.ExecuteCreateIndex | src/execution/Database.cpp:679-812 | From a scan of the real table tree: the new index agrees with the table. A unique one exists only over distinct values, and a duplicate is reported only if there is one. Other failures are the catalog's or those of storage. |
| Statements.Session.ExecuteSelect | src/execution/Database.cpp:836-994 | Over the planned path and the real trees, gives the projected columns of each row that satisfies the predicate, once, and of no other. TransactionError exactly in a failed or unresolved transaction, and InvalidArgument only if the predicate does not resolve or its path cannot be followed. |
| Statements.Session.ExecuteRollback | src/execution/Database.cpp:1706-1722 | Ends an active or failed transaction with the state it began with. TransactionError exactly if there is none or it is unresolved. |
| Tables.AgreeingIsUnique | src/execution/Database.cpp:749-794 | A unique index that agrees with its table makes the column unique. |
| Tables.IndexKeyIsConcat | src/execution/Database.cpp:766-778 | The key of an index entry is the encoded column, with the encoded primary key behind it unless the index is unique. |
| RowCodec.Encode | src/record/RowCodec.cpp:15-115 | Encodes exactly the rows that fit the schema, as the one byte string that a row has. |
| RowCodec.Decode | src/record/RowCodec.cpp:117-275 | Accepts exactly the byte strings that encode a row, and gives that row. |
| RowCodec.RowRoundTrip | src/record/RowCodec.cpp:15-275 | Decoding what was encoded gives the row. |
| RowCodec.BytesRoundTrip | src/record/RowCodec.cpp:15-275 | Encoding what was decoded gives the bytes. |
| RowCodec.OneRow | src/record/RowCodec.cpp:117-275 | No byte string encodes two rows. |
| Schemas.Create | src/record/Schema.cpp:23-76 | Accepts exactly the column lists with distinct names and one primary key, and lays their columns out without overlap or gap after the null bitmap. |
| CatalogLoader.Load | src/catalog/CatalogLoader.cpp:26-603 | From decoded rows: succeeds exactly for system tables that some set of tables describes acceptably, and gives such a set with its schemas and names. |
| CatalogLoader.LoadGivesBack | src/catalog/CatalogLoader.cpp:26-752 | Of system tables that describe acceptable tables, loading gives exactly those. |
| CatalogStates.DescribedOnce | src/catalog/CatalogLoader.cpp:26-752 | The same system tables never describe two sets of tables. |
| Catalogs.LoadCatalog | src/catalog/CatalogLoader.cpp:26-58 | From the system tables of a state that the catalog keeps, loading rebuilds the same tables, schemas and names. The next ids may be lower, never higher. |
| Databases.LoadStored | src/catalog/CatalogLoader.cpp:26-752 | From the bytes in the four trees: fails exactly when they describe no acceptable tables, and gives back what a catalog stored. |
| SystemRows.ReadMetadata | src/catalog/CatalogLoader.cpp:60-603 | The catalog's rows are read exactly when every entry decodes, lies under the key that its row has, and no two have the same id. |
| SystemRows.MetadataOnce | src/catalog/CatalogLoader.cpp:60-603 | The entries of the four trees hold one set of catalog rows. |
| Databases.CatalogSurvives | src/execution/Database.cpp:503-520 | Whatever a crash leaves of a safe run, the recovered system tables describe the tables of the committed catalog and no others, or of the catalog after a commit in doubt. |
| Databases.OpenAfterCrash | src/execution/Database.cpp:503-520 | The database opened after a crash is safe and has the committed pages and the committed catalog. |
| Catalogs.Catalog.CreateTable | src/catalog/Catalog.cpp:113-450 | The visible state gains exactly the new table with its internal indexes, on new trees of the sizes of its keys and rows, and the system tables describe it. AlreadyExists exactly for a name in use, and InvalidArgument only for a name or column that is refused, a layout that no page admits, or a name that cannot be stored, and then never success. A failure leaves the committed and the staged state. |
| Catalogs.Catalog.CreateIndex | src/catalog/Catalog.cpp:452-657 | The visible state gains exactly the new index, under a name no other has, on a new tree of the sizes that `IndexTrees.KeysFitTree` is about. NotFound and AlreadyExists exactly for an unknown table and a name in use; InvalidArgument only if the column, the name or the layout of the tree is not admitted, and then never success. |
| Catalogs.Catalog.CheckNewIndex | src/catalog/Catalog.cpp:452-523 | The checks pass exactly for an index that can be created, and give the key and value size of its tree. |
| IndexTrees.KeysFitTree | src/catalog/Catalog.cpp:511-523 | In every state that the catalog keeps, the tree of a secondary index has keys as long as the index key's bytes, the encoded column with the encoded primary key behind it unless unique, and values as long as the encoded primary key. |
| IndexTrees.TableTreeSizes | src/catalog/Catalog.cpp:246-255 | The tree of a table has keys as long as its encoded primary keys and values as long as its encoded rows, and pages can hold them. |
| IndexTrees.MakeIndexTree | src/catalog/Catalog.cpp:574-577 | An empty tree of the sizes that the catalog asked for can be made, and is one that the statements can fill and follow. |
| Catalogs.Catalog.DropIndex | src/catalog/Catalog.cpp:659-763 | The visible state loses exactly the named index, which is not an internal one. NotFound exactly for an unknown name, InvalidArgument only for an internal index. |
| Catalogs.Catalog.DropTable | src/catalog/Catalog.cpp:765-918 | The visible state loses exactly the named table with its columns and indexes. NotFound exactly for an unknown name, InvalidArgument exactly for a system table. |
| Catalogs.Catalog.ExecuteCommit | src/execution/Database.cpp:1688-1704 | The visible state becomes the committed one, or the commit fails and the committed one stays. |
| Catalogs.Catalog.ExecuteRollback | src/execution/Database.cpp:1706-1722 | The visible state is the committed one again. |
| CatalogInitial.InitialStateOk | src/catalog/CatalogInitializer.cpp:47-500 | The system tables of a new database describe themselves acceptably. |
| InternalNames.UniqueNamesApart | src/catalog/IndexNames.cpp:13-15 | Internal unique indexes of different tables or columns have different names. |

## Left out

- Statements and catalog over the real pager and trees: they run on `Transactions.PagerSession` and `TreeCalls`, a session
  whose steps (`BeginStep`, `CommitStep`, `RollbackStep`, `FailStep`) `Pagers.Pager` also takes, and trees as finite maps
  whose calls may fail at any point and leave anything. Reading for a statement is modelled over the real trees
  (`AccessRuns`), writing is not.
- Statements.Session.ExecuteCreateIndex: what the catalog makes of the index, which `Catalogs.Catalog.CreateIndex` models, is
  a parameter.
- Pagers.Pager.ReopenInDoubt: for a commit that began in a safe run and would change the database. `Pagers.Pager.Reopen` is
  for every run, with the general condition.
- Databases.OpenAfterCrash: reading the system tables' trees out of the recovered pages is a parameter.
- Catalogs.LoadCatalog: next ids can be lower after loading, since ids of dropped objects are not remembered.
- Pager create and close, file locks and the Windows calls. A database file whose own header was torn is not modelled.
- Checksums and the parsing of log records and headers: a record decodes, or it does not.
- Buffer exhaustion inside B+ tree operations: the trees' store of pages always has room.
- Page reclamation: merged-away and dropped pages stay in the file, and nothing is claimed about them.
- Page handles as objects: a handle is a value, and the pins that clients hold are a multiset.
- Page ids, object ids and transaction ids are unbounded; the all-ones page and table ids are -1. Keys in trees are the
  big-endian numbers of their bytes.
- The SQL front end up to binding, error texts, row counts and column names of results, the command line and benchmarks.
- DOUBLE literals: how the parser rounds a decimal to 64 bits.
- CatalogLoader.Load: starts from decoded rows; `Databases.LoadStored` is for stored ones.
- Rows of user tables as bytes: the statements' trees have the keys of the rows, and that the values under them are the
  encoded rows is left to the row codec.
