# A verified model of a database engine

A Dafny 4.11 model of a storage engine written in C++: a B+-tree on pages with a
write-ahead log and ARIES-style recovery, a multi-version store with snapshot and
serializable isolation, a log-structured merge tree, the buffer pool under them and
a small SQL layer on top. `dafny verify dfyconfig.toml` checks the whole project.

## What is proved

- **Write-ahead log and recovery** (`Wal*.dfy`). A state machine over the single
  effects of every operation on log, tree, disk and meta page. A crash may fall
  between any two effects, also inside an abort, a checkpoint or a recovery, and
  leaves on disk, key by key, any value held since the last flush. Whatever happens,
  recovery ends in exactly the map of the committed transactions; it ends there from
  the checkpoint as well as from LSN 0, and for every order of undoing losers. Each
  update is compensated at most once. The engine's documentation promises more than
  its code gives: a transaction that overwrites another one's uncommitted write can
  lose its committed value. The exact condition is proved, for puts and for deletes.
  The paged log file is proved to be an append-only sequence that survives reopening
  after any page write, and recovery from its pages ends in the committed map.
- **B+-tree** (`BTree*.dfy`, `BPlusTree.dfy`). Insert, Remove, lookup and the leaf
  chain iterator refine a finite map, through cascading splits, borrowing and merging
  on both sides, root growth and root collapse at any depth. The invariant is stated
  page by page (key ranges, heights, parent links, leaf chain, occupancy between the
  minimum and the maximum); that it makes a tree is a theorem. Whatever adds, removes or
  moves entries of a page works in place on an array of the page's capacity, which is
  never exceeded.
- **Multi-version store** (`Mvcc*.dfy`). The version chains refine an ideal store that
  keeps only the commit history. From that: at every isolation level every reply is the
  one that the calls made and replies received before determine, commits included;
  garbage collection is unobservable and keeps exactly what can still be read; first
  committer wins, snapshot reads are repeatable, and histories of serializable
  transactions replay serially in commit order.
- **LSM tree** (`Lsm*.dfy`). For every interleaving of one client with flushes and
  two-step compactions the store is the client's map, tombstones dropped at the bottom
  included; the heap merge is the newest-wins union; the paged table with sparse index
  and Bloom filter, and the skip list over linked nodes, are the sorted run they hold,
  and lookups through them are lookups in the client's map.
- **Buffer pool** (`Buffer*.dfy`). For every pool size, every k and every run of calls,
  the pool answers as a plain map of pages with pin counts: frames, eviction and
  write-back do not show, as long as clients change only pinned pages and do not give
  up the last pin of a changed page without a word. Each operation states exactly when
  that care is kept and what is lost otherwise. Over every run the LRU-K victim, for
  every k, and the LRU victim are the ones that the calls and replies before name, and
  with k = 1 they are the same. When eviction reads an empty history is stated exactly, over every run.
- **SQL** (`Sql*.dfy`). Statements over tables that share one B+-tree act on relations:
  whatever access path the planner takes, exactly the matching rows come back or go
  away, and no other table is touched. What a comparison means and which rows are
  accepted is stated on the values alone. The two exceptions, key equalities out of range
  and the 65537th table, are stated exactly and shown to happen.

Classes carry the fields the code mutates and are proved against value-level state
machines and reference definitions; loops in the code are loops here. Keys are 64-bit
integers where their width matters (tree keys, storage keys of rows).

## Where code and documentation part

- `src/wal/wal_b_plus_tree_engine.h:48-52` promises that all operations of a committed
  transaction survive. `WalDirtyWrite.WriteIsSafeIffUnclaimed` says exactly when a
  write keeps that promise; the crash theorem assumes that no transaction overwrites
  another's uncommitted write.
- `src/sql/catalog.cpp:112-114` means to refuse a 65537th table, but compares a 16-bit
  counter with 65536. `SqlDatabase.Database.CreateTable` states when numbers stay
  distinct and what the table that reuses a number shows; `SqlDatabase.WrappedTableShares`
  gets there.
- `src/sql/catalog.h:38-40` masks primary keys. `SqlExecutor.AnsweredRightIff` says
  exactly when a clause is still answered correctly, `Select` and `Delete` carry the
  condition, and `SqlDatabase.StrayKeyMisleads` shows a statement that is not.
- `src/lsm/lsm_tree_engine.cpp:199-201` takes the memtable away before line 243 puts its
  table into a tier. `LsmModel.ReaderIsRightIff` says exactly when a second client
  notices; the engine theorems are for one client.
- `src/buffer/lru_k_replacer.cpp:30-31` allows marking a frame that was never accessed,
  but `Evict` then reads the first element of an empty history, which is undefined.
  `BufferReplacer.FaultsIff` says exactly when, over every run.
- `src/buffer/buffer_pool_manager.cpp:60-91` fetches a page that has not been allocated,
  and line 54 then gives the page a second frame. `BufferPool.Pool.NewPage` says exactly
  when the pool stays in order.

## Model

| member | source | states |
|---|---|---|
| `WalTheorems.CrashKeepsExactlyTheCommitted` | src/wal/wal_b_plus_tree_engine.cpp:354-452 | take any run, cut it anywhere, and let anything but a commit follow (crashes, recoveries that are cut off themselves, aborts, checkpoints): when the engine next stands idle with no transaction running, the tree is exactly the map of the transactions whose COMMIT was logged before the cut |
| `WalTheorems.SoundStep` | src/wal/wal_b_plus_tree_engine.cpp:124-348 | every effect of every operation keeps the invariant that ties log, undo stacks, checkpoint, tree and every possible disk image together, across reuse of transaction ids |
| `WalTheorems.RunSound` | src/wal/wal_b_plus_tree_engine.cpp:354-496 | hence the invariant holds after every run, with crashes anywhere in it |
| `WalTheorems.TreeShows` | src/wal/wal_b_plus_tree_engine.cpp:139-216 | between calls a key shows its committed value, or the running transaction's own last write where one has written it |
| `WalTheorems.IdleTreeIsCommitted` | src/wal/wal_b_plus_tree_engine.cpp:228-310 | with no transaction running the tree equals the committed map, key for key |
| `WalTheorems.CommittedStays` | src/wal/wal_b_plus_tree_engine.cpp:253-348 | runs without commits leave the committed map alone, whatever else they do |
| `WalUndo.RecoveryIsCanonical` | src/wal/wal_b_plus_tree_engine.cpp:360-452 | from any disk image a crash can leave, analysis, redo and undo give the committed map whether they start at the checkpoint's redo point with its listed transactions or at LSN 0 with none, and in whatever order losers are undone |
| `WalUndo.OneClrPerUpdate` | src/wal/wal_b_plus_tree_engine.cpp:272-300 | in every run, however often aborts and recoveries are interrupted, each CLR undoes an earlier UPDATE of its transaction with the inverse operation, and no two CLRs undo the same one |
| `WalUndo.RolledKey` | src/wal/wal_b_plus_tree_engine.cpp:31-50 | undoing a transaction's updates newest first restores the committed value of every key it wrote and touches no other key |
| `WalDirtyWrite.WriteIsSafeIffUnclaimed` | src/wal/wal_b_plus_tree_engine.h:48-58 | putting any value under a key, and deleting a key that is there, keep tree and committed map in agreement through every continuation if and only if no other running transaction has an uncommitted write of the key |
| `WalDirtyWrite.DirtyWriteIsLost` | src/wal/wal_b_plus_tree_engine.cpp:253-310 | otherwise: the overwriting transaction commits, the other one aborts, and the committed put or delete is undone |
| `WalDirtyWrite.DirtyDeleteOverlaps` | src/wal/wal_b_plus_tree_engine.cpp:228-251 | or both commit, and the value that the later commit made durable is not in the tree |
| `WalDirtyWrite.ClaimsHappen` | src/wal/wal_b_plus_tree_engine.cpp:124-178 | four steps from the beginning a key is claimed |
| `WalEngine.Engine.constructor` | src/wal/wal_b_plus_tree_engine.cpp:54-84 | opening what a process left behind, dead at any point, recovers exactly the map it had committed |
| `WalEngine.Engine.Begin` | src/wal/wal_b_plus_tree_engine.cpp:124-137 | a fresh transaction id and a BEGIN record; the tree is unchanged |
| `WalEngine.Engine.LogWrite` | src/wal/wal_b_plus_tree_engine.cpp:149-177 | the UPDATE with the value found is logged first, then the tree changes; these are the two recorded effects |
| `WalEngine.Engine.Put` | src/wal/wal_b_plus_tree_engine.cpp:139-178 | upsert in the tree; an over-long value or unknown transaction is refused and changes nothing |
| `WalEngine.Engine.Delete` | src/wal/wal_b_plus_tree_engine.cpp:180-216 | removal; an absent key is reported and logs nothing |
| `WalEngine.Engine.Lookup` | src/wal/wal_b_plus_tree_engine.cpp:218-226 | the tree's value, which is the committed one where no running transaction has written |
| `WalEngine.Engine.Commit` | src/wal/wal_b_plus_tree_engine.cpp:228-251 | the committed map becomes the old one with the transaction's writes applied; a checkpoint may follow |
| `WalEngine.Engine.Abort` | src/wal/wal_b_plus_tree_engine.cpp:253-310 | the tree is rolled back along the transaction's undo stack; the committed map is unchanged |
| `WalEngine.Engine.UndoOne` | src/wal/wal_b_plus_tree_engine.cpp:276-300 | one compensation: tree first, CLR second, and what remains to roll back ends in the same table |
| `WalEngine.Engine.MaybeCheckpoint` | src/wal/wal_b_plus_tree_engine.cpp:305-309 | after every interval of finished transactions, and only then, a checkpoint; nothing else changes |
| `WalEngine.Engine.DoCheckpoint` | src/wal/wal_b_plus_tree_engine.cpp:316-348 | a bracket appended to the log that reads back as exactly the running transactions with their last LSNs, with the meta page pointed at it last and the tree flushed; tree, transactions and committed map unchanged |
| `WalEngine.Engine.RecoverOnStartup` | src/wal/wal_b_plus_tree_engine.cpp:354-452 | from any crash state the engine ends idle, by recorded recovery effects only |
| `WalEngine.Engine.FindStart` | src/wal/wal_b_plus_tree_engine.cpp:365-401 | the redo point and the seeds are what reading back the checkpoint bracket defines, a broken bracket falling back to LSN 0 |
| `WalEngine.Engine.AnalyzeFrom` | src/wal/wal_b_plus_tree_engine.cpp:408-428 | the losers are exactly those of the analysis fold over the log suffix |
| `WalEngine.Engine.RedoAll` | src/wal/wal_b_plus_tree_engine.cpp:430-443 | every UPDATE and CLR from the redo point on is applied in order |
| `WalEngine.Engine.UndoAll` | src/wal/wal_b_plus_tree_engine.cpp:445-451 | every loser is undone, in any order |
| `WalEngine.Engine.UndoTransactionFromLog` | src/wal/wal_b_plus_tree_engine.cpp:454-496 | the backward walk stays within the log, goes strictly down, skips what CLRs have undone, and terminates |
| `WalLogManager.LogManager.constructor` | src/wal/log_manager.cpp:19-33 | reopening a file that holds a log restores that log and its next LSN, a full last page included |
| `WalLogManager.LogManager.Append` | src/wal/log_manager.cpp:35-51 | returns the old length and appends; after each page write the file holds the old log or the new one |
| `WalLogManager.LogManager.ReadRecord` | src/wal/log_manager.cpp:65-78 | the record with that LSN, stamped with it |
| `WalLogManager.LogManager.ReadFrom` | src/wal/log_manager.cpp:80-105 | the suffix of the log from that LSN; empty beyond the end |
| `WalLogManager.FileDetermines` | src/wal/log_manager.cpp:19-33 | a file holds one log only |
| `WalStorage.AppendLogged` | src/wal/log_manager.cpp:35-51 | the page writes of any effect that logs: whichever the process dies after, it leaves what it would have left before the effect or after it |
| `WalStorage.Reopen` | src/wal/wal_b_plus_tree_engine.cpp:80-83 | opening such files, the log read back by its pages, recovers exactly the committed map |
| `WalStorage.DieInAppend` | src/wal/wal_b_plus_tree_engine.cpp:54-84 | dying before or after the page write of a record and reopening: the committed map of the log with or without the record, the same one unless it is a COMMIT |
| `BPlusTree.Tree.constructor` | src/index/b_plus_tree.cpp:7-19 | an empty tree, for limits of at least 3 that leave room on a page for one entry more |
| `BPlusTree.Tree.HalfFull` | src/index/b_plus_tree_page.h:34 | no page holds more than its limit, every page but the root at least half of it, and an internal root has two children or more |
| `BPlusTree.Tree.FindLeaf` | src/index/b_plus_tree.cpp:116-130 | descent ends at the leaf whose range covers the key, or at the leftmost leaf |
| `BPlusTree.Tree.GetValue` | src/index/b_plus_tree.cpp:132-139 | lookup in the map the tree stands for |
| `BPlusTree.Tree.Insert` | src/index/b_plus_tree.cpp:145-188 | map upsert, with the reply telling insert from update and refusing over-long values; the whole tree invariant is kept through any cascade of splits |
| `BPlusTree.Tree.InsertInLeaf` | src/index/leaf_page.cpp:42-62 | the leaf grows by one exactly when the key is new, to at most one over its limit |
| `BPlusTree.Tree.MoveHalf` | src/index/leaf_page.cpp:76-87 | the upper half moves to a new page; children and links are rewired |
| `BPlusTree.Tree.InsertIntoParent` | src/index/b_plus_tree.cpp:190-236 | telling the parent of a split, splitting it in turn or growing a new root, restores every invariant at any depth |
| `BPlusTree.Tree.UpdateChildParents` | src/index/internal_page.cpp:70-75 | exactly the given children point at the new parent |
| `BPlusTree.Tree.Remove` | src/index/b_plus_tree.cpp:242-258 | map deletion, with the reply telling whether the key was there; the whole tree invariant is kept |
| `BPlusTree.Tree.HandleRootUnderflow` | src/index/b_plus_tree.cpp:260-284 | an emptied root leaf gives the empty tree, a root with one child gives way to it |
| `BPlusTree.Tree.HandleUnderflow` | src/index/b_plus_tree.cpp:286-425 | borrow left, borrow right, merge left, merge right, up to the root: the invariant is restored and the map is unchanged |
| `BPlusTree.Tree.MoveLastToFrontOf` | src/index/internal_page.cpp:114-126 | borrowing from the left sibling, entry or child, with separator and parent link |
| `BPlusTree.Tree.MoveFirstToEndOf` | src/index/internal_page.cpp:101-112 | borrowing from the right sibling |
| `BPlusTree.Tree.MoveAllTo` | src/index/internal_page.cpp:89-99 | merging a page into its left sibling, the separator coming down |
| `BPlusTree.Tree.Begin` | src/index/b_plus_tree.cpp:79-88 | a cursor at the least key |
| `BPlusTree.Tree.BeginAt` | src/index/b_plus_tree.cpp:90-110 | a cursor at the first key not below the given one, or the end if there is none |
| `BPlusTree.Tree.Next` | src/index/b_plus_tree.cpp:61-77 | from any entry, the cursor at the next key of the map |
| `BPlusTree.Tree.Scan` | src/index/b_plus_tree_engine.cpp:72-75 | iterating from a key yields exactly the map's entries from there on, ascending |
| `BPlusTree.KeyIndex` | src/index/leaf_page.cpp:27-31 | first position not below the key |
| `BPlusTree.LookupSlot` | src/index/internal_page.cpp:33-39 | the slot whose range covers the key |
| `BPlusTree.ValueIndex` | src/index/internal_page.cpp:24-31 | the slot of a child |
| `BTreeShape.LevelsApart` | src/index/b_plus_tree.cpp:116-130 | pages of one height cover disjoint key ranges, from page-local invariants alone |
| `BTreeShape.OnlyInItsLeaf` | src/index/b_plus_tree.cpp:132-139 | an entry is in the leaf covering its key or nowhere |
| `BTreeOps.LeafSplitOk` | src/index/leaf_page.cpp:76-87 | splitting a leaf anywhere keeps the tree a tree and what it holds |
| `BTreeOps.InternalSplitOk` | src/index/internal_page.cpp:77-87 | the same for internal pages and their children |
| `BTreeOps.LeafMergeOk` | src/index/leaf_page.cpp:89-97 | merging adjacent leaves keeps the tree a tree, the leaf chain included, and what it holds |
| `BTreeOps.InternalMergeOk` | src/index/internal_page.cpp:89-99 | the same for internal pages: structure and contents are kept |
| `BTreeOps.GrowOk` | src/index/b_plus_tree.cpp:195-214 | a new root keeps the tree a tree and what it holds |
| `BTreeOps.ShrinkOk` | src/index/b_plus_tree.cpp:272-283 | so does taking off a root with one child |
| `BTreeSizes.SplitOk` | src/index/b_plus_tree.cpp:169-185 | an overfull page split in the middle leaves two pages within limits and at most the parent overfull |
| `BTreeSizes.MergeSized` | src/index/b_plus_tree.cpp:333-346 | two siblings neither of which can spare an entry fit on one page, leaving at most the parent short |
| `BTreeSizes.ShareOk` | src/index/b_plus_tree.cpp:307-332 | after borrowing every page is within its limits |
| `BTreeSteps.BorrowLeftOk` | src/index/b_plus_tree.cpp:370-383 | the page writes of a borrow from the left mend the tree |
| `BTreeSteps.BorrowRightOk` | src/index/b_plus_tree.cpp:384-397 | the page writes of a borrow from the right mend the tree |
| `BTreePages.PageArray.InsertAt` | src/index/leaf_page.cpp:54-61 | shifting right and writing in place is insertion into the sequence, and stays within the array |
| `BTreePages.PageArray.RemoveAt` | src/index/leaf_page.cpp:64-74 | shifting left is removal from the sequence |
| `BTreePages.PageArray.MoveHalfTo` | src/index/leaf_page.cpp:76-87 | the two halves |
| `BTreePages.PageArray.MoveAllTo` | src/index/leaf_page.cpp:89-97 | concatenation |
| `BTreePages.PageArray.MoveFirstToEndOf` | src/index/leaf_page.cpp:99-107 | first element to the end of the other page |
| `BTreePages.PageArray.MoveLastToFrontOf` | src/index/leaf_page.cpp:109-118 | last element to the front of the other page |
| `BTreePages.InsertInto` | src/index/leaf_page.cpp:54-61 | what the tree calls for every insertion into a leaf or an internal page; may only be asked for when there is room |
| `BTreePages.HalvesOf` | src/index/leaf_page.cpp:76-87 | what the tree calls to split a page |
| `BTreePages.Joined` | src/index/leaf_page.cpp:89-97 | what the tree calls to merge two pages; they have to fit on one |
| `BPlusTree.PutAt` | src/index/leaf_page.cpp:42-62 | overwriting or inserting in a leaf is the upsert the tree is proved with |
| `MvccRefine.RunRefines` | src/mvcc/mvcc_store.cpp:9-277 | over every run the version chains and transaction table answer every call as an ideal store does that keeps only the commit history |
| `MvccCalls.EveryAnswerIsRight` | src/mvcc/mvcc_store.cpp:9-223 | over every run and at every level, each call is given the one answer that the calls made and replies received before entitle it to: which transactions are running, what a read sees, when a commit succeeds |
| `MvccCalls.OneRightAnswer` | src/mvcc/mvcc_store.cpp:9-223 | and those leave one answer only |
| `MvccCalls.CommitsIff` | src/mvcc/mvcc_store.cpp:164-223 | a commit succeeds if and only if no other transaction was told, since this one began, that it had committed a key it was told written that this one was told written or, at SERIALIZABLE_SNAPSHOT only, was told anything about |
| `MvccCalls.ReadsWhatItIsEntitledTo` | src/mvcc/mvcc_store.cpp:59-97 | what a read finds and whether a delete reports a key, at every level: the transaction's own last write; else at READ_UNCOMMITTED the last write or delete whose transaction was neither aborted nor refused, at READ_COMMITTED the table the transactions committed by now leave when executed one after another, at the snapshot levels the table of those committed when it began |
| `MvccCalls.LatestIsLastLeft` | src/mvcc/mvcc_store.cpp:78-86 | reading uncommitted finds the last surviving write of any transaction by the order of the calls |
| `MvccTheorems.GcIsUnobservable` | src/mvcc/mvcc_store.cpp:233-277 | garbage collections inserted anywhere change no reply to any other call, then or later, at any isolation level |
| `MvccTheorems.CollectKeepsExactlyTheReadable` | src/mvcc/mvcc_store.cpp:233-277 | over every run: a committed version outlives a collection if and only if the snapshot of some running transaction, or of one that began now, would be answered with it |
| `MvccTheorems.CollectKeepsThePending` | src/mvcc/mvcc_store.cpp:249-256 | pending versions are never collected |
| `MvccTheorems.WriteRecordsNeverDangle` | src/mvcc/mvcc_store.cpp:143-149 | every write record points at exactly one list node, holding a pending version of its own transaction, also after collection |
| `MvccTheorems.FirstCommitterWins` | src/mvcc/mvcc_store.cpp:192-216 | the periods from start to commit of any two transactions that committed a write of one key are disjoint |
| `MvccSerializability.FirstCommitterWinsByCalls` | src/mvcc/mvcc_store.cpp:192-216 | in terms of calls and replies alone: of two transactions told that they had written the same key and had committed, one was told so before the other began |
| `MvccTheorems.CommitOrderIsWriteOrder` | src/mvcc/mvcc_store.cpp:99-127 | among the committed versions in a chain, collected or not, commit order is write order |
| `MvccSerializability.SerializableTransactionsReplay` | src/mvcc/mvcc_store.cpp:164-223 | each SERIALIZABLE_SNAPSHOT transaction that commits was told, read by read and delete by delete, what serial execution in commit order would have told it |
| `MvccSerializability.AllSerializableHistoriesAreSerializable` | src/mvcc/mvcc_store.cpp:164-223 | when all transactions use that level every history is serializable, in commit order |
| `MvccSerializability.SnapshotReadsAreRepeatable` | src/mvcc/mvcc_store.cpp:59-97 | all a snapshot transaction is told comes from the table committed when it began and its own writes, whether or not it commits |
| `MvccRefine.ConflictAgrees` | src/mvcc/mvcc_store.cpp:192-201 | the commit check, which looks only at surviving versions, finds a conflict exactly when a key it depends on was overwritten since its start |
| `MvccRefine.ReadAgrees` | src/mvcc/mvcc_store.cpp:66-96 | reading a chain gives what the isolation level entitles the transaction to see |
| `MvccStore.MVCCStore.BeginTxn` | src/mvcc/mvcc_store.cpp:9-21 | the step of the model, as a call |
| `MvccStore.MVCCStore.ReadKey` | src/mvcc/mvcc_store.cpp:59-97 | the read is noted and answered as the model says; what that is at each level, by calls and replies, is `MvccCalls.ReadsWhatItIsEntitledTo` |
| `MvccStore.MVCCStore.WriteKey` | src/mvcc/mvcc_store.cpp:129-132 | a pending version, updated in place on a repeated write |
| `MvccStore.MVCCStore.DeleteKey` | src/mvcc/mvcc_store.cpp:134-141 | a read, whose answer is the reply, then a pending tombstone; by calls and replies in `MvccCalls.ReadsWhatItIsEntitledTo` |
| `MvccStore.MVCCStore.CommitTxn` | src/mvcc/mvcc_store.cpp:164-223 | refused on conflict with its versions erased, else stamped with the commit time; exactly when, by calls and replies, is `MvccCalls.CommitsIff` |
| `MvccStore.MVCCStore.AbortTxn` | src/mvcc/mvcc_store.cpp:151-162 | its versions are erased; an unknown transaction is ignored |
| `MvccStore.MVCCStore.RunGarbageCollection` | src/mvcc/mvcc_store.cpp:233-277 | exactly the versions no running or future reader can see are removed from every chain |
| `MvccStore.FindPending` | src/mvcc/mvcc_store.cpp:70-76 | the transaction's own pending version, if any |
| `MvccStore.FindNewest` | src/mvcc/mvcc_store.cpp:88-93 | the newest visible committed version |
| `MvccStore.FindLatest` | src/mvcc/mvcc_store.cpp:79-82 | the version written last |
| `MvccStore.ChainConflicts` | src/mvcc/mvcc_store.cpp:194-199 | whether a chain holds a version committed by another transaction after the start |
| `MvccStore.SweepChain` | src/mvcc/mvcc_store.cpp:249-274 | the chain without its dead versions |
| `LsmModel.RunIsAMap` | src/lsm/lsm_tree_engine.cpp:194-346 | however flushes and two-step compactions interleave with one client's puts and deletes, the store holds exactly the map they describe, bottommost tombstones dropped included |
| `LsmModel.SoundStep` | src/lsm/lsm_tree_engine.cpp:194-346 | every locked region keeps: runs sorted, a running compaction's snapshot still the oldest part of its tier, nothing new below it |
| `LsmModel.InstallUnseen` | src/lsm/lsm_tree_engine.cpp:316-345 | installing the merged table one tier down changes nothing a client sees |
| `LsmModel.InsertTableUnseen` | src/lsm/lsm_tree_engine.cpp:237-246 | nor does putting the flushed memtable into the first tier |
| `LsmModel.StepShows` | src/lsm/lsm_tree_engine.cpp:390-436 | only puts and deletes change what is seen, each at its own key |
| `LsmModel.ReaderIsRightIff` | src/lsm/lsm_tree_engine.cpp:362-388 | over every run: while a memtable is being flushed a second client sees the map of the flush before, otherwise the current one; it is right about a key if and only if no flush is half done or the key has not changed since the last one |
| `LsmModel.TiersHoldTheFlushed` | src/lsm/lsm_tree_engine.cpp:199-243 | the tiers by themselves hold the map of the last flush, through every compaction |
| `LsmModel.FlushHidesAKey` | src/lsm/lsm_tree_engine.cpp:194-246 | a run in which a confirmed key is invisible to a second client between the two steps of a flush |
| `LsmMerge.MergeIterator.constructor` | src/lsm/merge_iterator.cpp:5-13 | positioned at the least key of all sources |
| `LsmMerge.MergeIterator.Advance` | src/lsm/merge_iterator.cpp:15-44 | emits the least key with the value of the highest-priority source that has it, and steps every source past it |
| `LsmMerge.Merge` | src/lsm/merge_iterator.cpp:5-44 | for any number of sorted sources: the newest-wins union, strictly ascending |
| `LsmMerge.Top` | src/lsm/merge_iterator.h:37-46 | the heap's top is least by key, then by priority |
| `LsmTree.LSMTree.constructor` | src/lsm/lsm_tree_engine.cpp:56-68 | an empty store |
| `LsmTree.LSMTree.Lookup` | src/lsm/lsm_tree_engine.cpp:362-388 | lookup in the client's map |
| `LsmStorage.LookupStored` | src/lsm/lsm_tree_engine.cpp:362-388 | the same lookup through the skip list and the table files that hold the runs |
| `LsmStorage.FlushStored` | src/lsm/lsm_tree_engine.cpp:219-229 | the file built from a skip list and opened again holds what the list held |
| `LsmStorage.ReadFrom` | src/lsm/sstable.cpp:257-290 | a table file's iterator yields its run from the start key on |
| `LsmTree.LSMTree.Scan` | src/lsm/lsm_tree_engine.cpp:438-458 | the live pairs from the start key on, each once, ascending |
| `LsmTree.LSMTree.Sources` | src/lsm/lsm_tree_engine.cpp:447-454 | cursors newest first; tables that end before the start key may be left out |
| `LsmTree.LSMTree.Put` | src/lsm/lsm_tree_engine.cpp:390-412 | map upsert for every background schedule, flushing at the threshold; over-long values refused |
| `LsmTree.LSMTree.Delete` | src/lsm/lsm_tree_engine.cpp:414-436 | map deletion for every background schedule, flushing at the threshold, with the right reply |
| `LsmTree.LSMTree.FlushActiveMemtable` | src/lsm/lsm_tree_engine.cpp:194-254 | the memtable ends up empty and the map unchanged, whatever compaction does between the two steps |
| `LsmTree.LSMTree.FindTierNeedingCompaction` | src/lsm/lsm_tree_engine.cpp:256-263 | the first tier with enough tables |
| `LsmTree.LSMTree.CompactOneTierIfNeeded` | src/lsm/lsm_tree_engine.cpp:265-346 | the first tier with enough tables is merged into the next, or nothing happens when there is none or a compaction is under way; the map is unchanged |
| `LsmTree.LSMTree.Background` | src/lsm/lsm_tree_engine.cpp:348-360 | any number of background steps leave the map unchanged |
| `LsmTree.LSMTree.SnapshotTier` | src/lsm/lsm_tree_engine.cpp:277-291 | takes the tier, and whether anything lies below it |
| `LsmTree.LSMTree.InstallMerged` | src/lsm/lsm_tree_engine.cpp:293-345 | merges the snapshot and replaces it, keeping tables flushed meanwhile |
| `LsmTree.MergeTables` | src/lsm/lsm_tree_engine.cpp:293-305 | the newest entries of the snapshot in order, and no tombstone when bottommost |
| `LsmTree.FilterOut` | src/lsm/lsm_tree_engine.cpp:325-337 | the tables that were not compacted, in order |
| `LsmTables.FindUpsert` | src/lsm/memtable.h:17-28 | an upsert into a sorted run shows at its key and nowhere else |
| `LsmSkipList.SkipList.constructor` | src/lsm/skip_list.h:25-29 | an empty list |
| `LsmSkipList.SkipList.Insert` | src/lsm/skip_list.h:46-77 | for every height drawn: an upsert into the sorted run, with every level again linked in order |
| `LsmSkipList.SkipList.Find` | src/lsm/skip_list.h:79-93 | lookup in the run |
| `LsmSkipList.SkipList.LowerBound` | src/lsm/skip_list.h:114-123 | the node of the first entry not below the key |
| `LsmSkipList.SkipList.Next` | src/lsm/skip_list.h:97-109 | the node of the next entry |
| `LsmSkipList.SkipList.Search` | src/lsm/skip_list.h:47-55 | on each level, the last node below the key |
| `LsmSkipList.SkipList.Splice` | src/lsm/skip_list.h:71-75 | the new node takes over its predecessor's link on each of its levels |
| `LsmSSTable.Build` | src/lsm/sstable.cpp:59-151 | a file whose pages hold the run, its sparse index and a filter covering every key; refused if a value is too long |
| `LsmSSTable.SSTable.constructor` | src/lsm/sstable.cpp:153-206 | opening a built file gives a table that stands for the run it was built from |
| `LsmSSTable.BuildAndOpen` | src/lsm/lsm_tree_engine.cpp:225-229 | build, then open: the table is the run |
| `LsmSSTable.SSTable.MightContain` | src/lsm/sstable.cpp:216-221 | a no is never wrong |
| `LsmSSTable.SSTable.FindPagePos` | src/lsm/sstable.cpp:223-232 | the page whose key range covers the key |
| `LsmSSTable.SSTable.Lookup` | src/lsm/sstable.cpp:234-255 | lookup in the run, for every key |
| `LsmSSTable.SSTable.NewIterator` | src/lsm/sstable.cpp:257-290 | a cursor over exactly the part of the run from the start key on |
| `LsmSSTable.SSTable.Next` | src/lsm/sstable.cpp:330-346 | the cursor over the rest, across page boundaries |
| `LsmSSTable.Pack` | src/lsm/sstable.cpp:77-100 | pages filled one after another hold the sequence |
| `LsmSSTable.BloomFilter.Add` | src/lsm/bloom_filter.cpp:51-58 | covers the key and uncovers none |
| `LsmSSTable.BloomFilter.MightContain` | src/lsm/bloom_filter.cpp:60-70 | exactly whether the key is covered |
| `BufferPool.Pool.constructor` | src/buffer/buffer_pool_manager.cpp:7-16 | every page shows what is on disk |
| `BufferPool.Pool.FetchPage` | src/buffer/buffer_pool_manager.cpp:60-91 | pins the page once more and shows its logical contents; nothing exactly when it is not resident and every frame is pinned; pins, dirty flags, unspoken changes, residents and disk stated exactly; with every change spoken of or still pinned, that stays so and no contents change |
| `BufferPool.Pool.NewPage` | src/buffer/buffer_pool_manager.cpp:40-58 | a new page of zeros, pinned once, and no other contents change while every change is spoken of or still pinned; nothing exactly when every frame is pinned; the pool stays in order if and only if the id is not in use already, else the page is in two frames |
| `BufferPool.Pool.UnpinPage` | src/buffer/buffer_pool_manager.cpp:93-112 | one pin less; refused exactly when not pinned; leaves a change unspoken of exactly when the last pin of a changed page goes and neither this user nor anyone since the last flush has said that it is dirty |
| `BufferPool.UnsaidChangeIsLost` | src/buffer/buffer_pool_manager.cpp:20-38 | a change nobody has spoken of is gone once another page has taken the frame |
| `BufferPool.EarlyFetchCollides` | src/buffer/buffer_pool_manager.cpp:60-91 | a page fetched before it is allocated ends up in two frames |
| `BufferClients.PoolIsAPageMap` | src/buffer/buffer_pool_manager.cpp:7-157 | for every pool size, every k and every run of clients that change only pinned pages and do not give up the last pin of a changed page without a word, all replies are those of a plain map of pages with pin counts |
| `BufferClients.Serve` | src/buffer/buffer_pool_manager.cpp:40-157 | each call is answered as the page map answers it, and the pool goes on standing for what the map becomes |
| `BufferClients.FullIff` | src/buffer/buffer_pool_manager.cpp:20-38 | every frame is pinned exactly when as many pages are pinned as there are frames, so a refusal can be told from pin counts alone |
| `BufferClients.ContentsStay` | src/buffer/buffer_pool_manager.cpp:20-157 | hence a page keeps what it holds until it is written or deleted itself, whatever is evicted |
| `BufferPool.Pool.FlushPage` | src/buffer/buffer_pool_manager.cpp:114-125 | the disk holds the page as it is seen; nothing seen changes |
| `BufferPool.Pool.FlushAllPages` | src/buffer/buffer_pool_manager.cpp:127-136 | the disk holds the contents of every page but those changed without anyone saying so |
| `BufferPool.Pool.DeletePage` | src/buffer/buffer_pool_manager.cpp:138-157 | the page leaves unless it is pinned; all other contents, pins, flags and unspoken changes are kept |
| `BufferPool.Pool.AcquireFrame` | src/buffer/buffer_pool_manager.cpp:20-38 | a blank frame, off the free list or from the replacer's victim, which is written back if dirty; none exactly when every frame is pinned; the page that leaves keeps its contents unless it is forsaken |
| `BufferPool.Pool.WriteData` | src/buffer/buffer_pool_manager.h:41-44 | a user changes a page it has pinned |
| `BufferReplacer.LRUKReplacer.Evict` | src/buffer/lru_k_replacer.cpp:40-83 | the victim is the evictable frame that precedes all others in the LRU-K order, whatever the iteration order; none exactly when nothing is evictable; a fault exactly when an evictable frame has no history; what that order is, by the accesses made, is `BufferVictims.LruKReplies` |
| `BufferVictims.LruKReplies` | src/buffer/lru_k_replacer.cpp:15-95 | over every run without a fault, for every k: each reply follows from the calls and replies before it. The victim is the evictable frame with fewer than k accesses since it was last dropped whose first access is the earliest, or, if all have k or more, the one whose k-th last access is the earliest |
| `BufferVictims.OneRightReply` | src/buffer/lru_k_replacer.cpp:15-95 | and they leave one reply only |
| `BufferReplacer.VictimIsUnique` | src/buffer/lru_k_replacer.cpp:46-73 | there is at most one such frame |
| `BufferReplacer.VictimExists` | src/buffer/lru_k_replacer.cpp:46-73 | and there is one, if some frame is evictable and each of those has been accessed |
| `BufferReplacer.FaultsIff` | src/buffer/lru_k_replacer.cpp:27-73 | over every run: the next call reads an empty history if and only if it is an eviction and some frame was marked while it was not tracked, has not been accessed since, and is evictable |
| `BufferReplacer.MarkedThenEvictedFaults` | src/buffer/lru_k_replacer.cpp:27-54 | marking an unknown frame and evicting is enough, for every k |
| `BufferReplacer.AccessFirstNeverFaults` | src/buffer/lru_k_replacer.cpp:15-54 | whoever, by the calls made and replies received, marks only frames that are tracked never sees a fault |
| `BufferReplacer.LRUKReplacer.RecordAccess` | src/buffer/lru_k_replacer.cpp:15-25 | the last k access times, all distinct; frame numbers out of range are refused |
| `BufferReplacer.LRUKReplacer.SetEvictable` | src/buffer/lru_k_replacer.cpp:27-38 | only the flag changes; an unknown frame is tracked from then on, with an empty history |
| `BufferReplacer.LRUKReplacer.Remove` | src/buffer/lru_k_replacer.cpp:85-95 | refused exactly for a tracked frame that is not evictable |
| `BufferReplacer.LRUReplacer.RecordAccess` | src/buffer/lru_replacer.cpp:9-19 | the frame becomes the most recently used, the others keep their order; frame numbers out of range are refused |
| `BufferReplacer.LRUReplacer.SetEvictable` | src/buffer/lru_replacer.cpp:21-31 | only the flag changes; an unknown frame joins at the end |
| `BufferReplacer.LRUReplacer.Evict` | src/buffer/lru_replacer.cpp:33-45 | the first evictable frame of the list |
| `BufferVictims.LruReplies` | src/buffer/lru_replacer.cpp:9-58 | over every run: each reply follows from the calls and replies before it; the victim is the evictable frame whose last access (or, without one since it was last dropped, first mark) is the earliest |
| `BufferVictims.OneRightReplyL` | src/buffer/lru_replacer.cpp:9-58 | and they leave one reply only |
| `BufferReplacer.LRUReplacer.Remove` | src/buffer/lru_replacer.cpp:47-58 | refused exactly for a tracked frame that is not evictable |
| `BufferReplacer.LruOneIsLru` | src/buffer/lru_k_replacer.cpp:40-83 | with k = 1, over every run, LRU-K gives the replies and victims LRU gives if and only if it does not fault, and up to the fault if it does |
| `BufferReplacer.LruOneIsLruAccessFirst` | src/buffer/replacer.h:24-33 | so it does over every run in which frames are accessed before they are first marked |
| `SqlCatalog.EncodeKey` | src/sql/catalog.h:38-44 | table id and row number come back from the key; the row number is the primary key modulo 2^48 |
| `SqlCatalog.KeyIsItsParts` | src/sql/catalog.h:38-44 | every storage key is the encoding of its parts |
| `SqlCatalog.TableIsContiguous` | src/sql/catalog.h:38-44 | a table's keys are in row order with no other table's key between them, ids with the sign bit included |
| `SqlCatalog.EncodeRow` | src/sql/catalog.cpp:60-89 | accepted if and only if there is one value per column, each INTEGER column from the second on has an integer and each TEXT column a text of at most 65535 bytes, and their widths (8 for an integer, 2 and its length for a text) add up to at most 64; the payload has that width and unpacks to the same row |
| `SqlCatalog.EncodesIff` | src/sql/catalog.cpp:62-84 | which cells can be packed, and into how many bytes, from columns and values alone |
| `SqlCatalog.DecodeRow` | src/sql/catalog.cpp:91-106 | the row the payload stands for, or the corruption found |
| `SqlCatalog.CellsRoundTrip` | src/sql/catalog.cpp:60-106 | cells packed in sequence unpack to themselves, whatever follows |
| `SqlCatalog.IntRoundTrip` | src/sql/catalog.cpp:18-41 | eight bytes carry every 64-bit integer |
| `SqlPlanner.PlanQuery` | src/sql/planner.cpp:25-90 | accepted exactly when every comparison names a column of its literal's type; the plan's path reaches every row that can match and its residual tells those that do |
| `SqlPlanner.KeyRange` | src/sql/planner.cpp:45-75 | of the possible row numbers, exactly those between the intersected bounds satisfy every bound on the key; whether there was any bound |
| `SqlPlanner.PointMeans` | src/sql/planner.cpp:30-43 | equality on the key and the residual together are the clause |
| `SqlPlanner.MatchesPredicate` | src/sql/executor.cpp:27-34 | every comparison holds of its cell, integers by their order and texts by their first difference |
| `SqlPlanner.CompareTextMeans` | src/sql/value.h:17-30 | the three-way comparison of texts is negative if and only if the first precedes the second: they share a prefix after which the first ends, or goes on with the smaller character; zero if and only if they are equal |
| `SqlPlanner.CompareMeans` | src/sql/executor.cpp:9-34 | each of the five operators holds of a cell and a literal if and only if the values stand in that order |
| `SqlExecutor.ExecuteFetch` | src/sql/executor.cpp:36-65 | the rows the plan picks, each once, in key order |
| `SqlExecutor.ExecuteDelete` | src/sql/executor.cpp:67-101 | removes exactly the rows the plan picks and counts them |
| `SqlExecutor.ScanMatching` | src/sql/executor.cpp:49-65 | all matching rows between the bounds and no others, stopping at the table's end |
| `SqlExecutor.PlanIsExact` | src/sql/planner.cpp:25-90 | with any point key a possible row number, planning and execution pick exactly the rows the clause asks for |
| `SqlExecutor.PlanDelivers` | src/sql/executor.cpp:36-65 | what any plan for a clause picks, stated on table and clause alone |
| `SqlExecutor.AnsweredRightIff` | src/sql/catalog.h:38-40 | a clause is answered correctly if and only if no row is stored under the low 48 bits of a key equality out of range that would satisfy the clause if that number were its own |
| `SqlExecutor.StrayPointMisleads` | src/sql/catalog.h:38-40 | with row 0 stored, the equality with 2^48 hands out a row of that number |
| `SqlDatabase.Database.constructor` | src/sql/database.cpp:27-28 | no tables |
| `SqlDatabase.Database.CreateTable` | src/sql/catalog.cpp:108-125 | a new, empty table; refused for a bad first column or a known name; table numbers stay distinct if and only if fewer than 65536 tables exist, since the 16-bit counter wraps unnoticed; one table more has the rows of the first, read by its own columns |
| `SqlDatabase.WrappedTableShares` | src/sql/catalog.cpp:112-118 | 65536 tables, one row in the first, one table more: a query of the last shows that row |
| `SqlDatabase.Database.Insert` | src/sql/database.cpp:45-64 | accepted if and only if the key is in range and the row fits its columns by types and widths; sets one row of its table and touches no other row of any table |
| `SqlDatabase.Database.Select` | src/sql/database.cpp:66-97 | the rows the engine delivers for the clause, each once, in key order, cut down to the selected columns; they are the table's rows filtered by the whole clause if and only if the clause is not misled by a key equality out of range |
| `SqlDatabase.Database.Delete` | src/sql/database.cpp:99-108 | removes exactly the rows delivered for the clause, counts them, and touches no other table; they are the matching rows if and only if the clause is not misled |
| `SqlDatabase.StrayKeyMisleads` | src/sql/database.cpp:66-108 | with row 0 alone in the table, selecting the key 2^48 shows a row and deleting it deletes row 0 |
| `SqlDatabase.StrayKeyReached` | src/sql/database.cpp:30-108 | from an empty database, in four statements |

## Left out

- Page-level torn trees: dirty pages may reach the disk at any time and carry no LSN, so recovery is modelled over a key-level table, of which a crash leaves per key some value held since the last full flush.
- Power loss: appended log records survive a crash, as `src/wal/log_manager.h:20-23` describes process death.
- Running the WAL engine with logging switched off, and its implicit one-operation transactions, which only compose the operations modelled here.
- Counters and introspection (hits, misses, disk reads, checkpoint counts, version counts, the number of versions a collection removes).
- WalEngine.Engine.Lookup: takes the transaction's read as one lookup in the table; there is no isolation to state.
- Fine-grained locking and the sharded transaction table of the multi-version store: each public call is one step.
- Buffer-pool exhaustion inside tree operations, pins held by iterators, and iterators used while the tree changes.
- BPlusTree.Tree.FindLeaf: pages are fetched from a map of pages by id; the buffer pool below is a model of its own.
- Byte layout of tree pages: a page is loaded into an array of its capacity and stored back as a sequence for each operation; capacities are those of 64-bit targets (80-byte entries, 16-byte slots).
- LSM durability: the memtable's log, the manifest and reopening, and the manifest's bounds on tiers and tables.
- LsmTree.LSMTree.Scan: drains the iterator at once; an iterator held across later writes is not modelled.
- LsmTree.LSMTree.Put: updates a sorted run; that a skip list stands for the run after an insert is `LsmSkipList.SkipList.Insert`, and the engine's own state holds runs.
- LsmSSTable.BloomFilter.Add: the filter's bits are numbered across its bytes rather than packed; filter sizing and the false-positive rate are left out, the hash is any function.
- LsmSkipList.SkipList.Insert: the height drawn is an argument; its distribution is left out.
- BufferClients.Serve: the reply of a flush tells whether the page was resident; the page map leaves that out.
- BufferPool.Pool.FetchPage: requires a page id that is not negative; the disk refuses the others with an I/O error, and I/O errors are not modelled.
- BPlusTree.Tree.constructor: requires limits the code accepts; it throws for others.
- Lexer and parser, but for the check of the first column (`src/sql/parser.cpp:144-148`), which `CreateTable` makes; command line, HTTP server, benchmarks and system calls.
