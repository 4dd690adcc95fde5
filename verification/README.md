# A verified model of the RMDB storage engine

This project models RMDB, a small relational storage engine, and proves what its parts promise, at the
level of pages, nodes, records and steps. Each module corresponds to one component; the main results are:

- **B+ tree index** (`Index*.dfy`). The pages of an index file are changed in place by a class whose
  fields are those of the file header and the pages. A ghost tree gives every node its height and the
  interval of keys it is responsible for. Insertion and deletion, with splits, merges, hand-overs and
  root changes, keep the tree sound and act on a finite map; the leaves form a ring in key order; a
  separator is the least key below its child unless it is key 0 of a node on the leftmost spine, which
  is never compared. Bounds and scans work on canonical places of the sorted list of entries.
- **Crash recovery** (`RecoveryLog`, `Recovery`, `CrashRuns`, `RecoveryCuts`, `HeaderAhead`, `LogCodec`,
  `LogManager`, `LogFile`, `ReusedPlaces`, `ReuseRuns`, `ReuseReached`, `ReusedIds`, `IndexRebuild`,
  `StartUp`, `RunProgress`). Runs are steps of begin, write, commit, abort, rollback, log flush and page write-back, cut
  anywhere, and so may be the recoveries that follow, down to their closing writes. Recovery goes through if
  and only if no header counts more pages than its file is long, and then leaves exactly what the transactions
  with a commit record on disk would have left.
- **Locks** (`Locks`, `Serializable`). The no-wait lock manager as a class, and a transition system
  over all interleavings whose lock steps are the contracts of that class. Commit order is a serial order.
- **Buffer pool** (`BufferPool`, `LruReplacer`). No operation changes what another page reads as, and
  no page reaches the disk before its log records.
- **Executors** (`IndexBounds`, `IndexScanExecutor`, `RecordFile`, `TableRows`, `Rollback`, `Executors`,
  `NestedLoopJoin`). Index scan, sequential scan and block join against their plain meaning; insert,
  delete, update and abort against unique indexes.
- **Planner** (`Planner`, `PlanMeaning`). The join tree means the filtered product.
- **Heap file** (`Bitmap`, `HeapFile`, `RecordFile`) and **bipartite matching** (`Matching`, the search
  that the bundled mocking library uses for unordered matchers).

Components that change state are classes or methods with loops, proved against functions on values;
the laws are lemmas about those functions. In the B+ tree a composite key stands as one integer: keys
of bounded columns can be numbered in key order (`KeyOrder.CodeOrder`).

## What the proofs show to be false of the code

- A range scan whose ends are crossed (`a > 7 AND a < 3`) throws if and only if some key lies in the
  crossed gap, where the sequential scan returns nothing (`IndexScanExecutor.Run`, `RunCrossed`).
- Recovery and shutdown write the header of a table before the pages it counts. A crash in between leaves a
  file that no start-up can read to its end, so that committed records cannot be reached any more
  (`HeaderAhead.NeverAgain`). `RecoveryCuts.CrashesAndRecover` says exactly when start-up goes through.
- Recovery undoes aborted transactions again although their rollback is complete, so a value committed
  later in the same place may be lost (`ReusedPlaces.ReusedPlaceLost`). `ReusedPlaces.LateUndo` says for
  every such value whether undo keeps it, and `ReuseReached.ReuseHarmlessRuns` which writes are safe
  whenever the crash comes and whatever has been written back by then. The crash theorem is about runs without such writes (`CrashRuns.Enabled`).
- Transaction ids are used again after a restart, because the counter starts at 0 in each process, and
  the log goes on: a committed transaction is then undone (`ReusedIds.IdUsedTwice`). `WhichIdsStand`
  says for every log which ids stand. The crash theorem is about runs that use each id once.
- A page that an insertion appends is not put on the free chain. Until the next start-up, every insertion into a
  file whose chain is empty appends a page for one record (`HeapFile.PagePerRecord`).
- Rolling back a deletion may leave a full page at the head of the free chain
  (`HeapFile.AbortedDeleteBlocksInsert`); `HeapFile.PutLinked` and `Executors.UndoWrite` say exactly when.
- A condition between two columns of one table is hung on the scan of the first table of the query,
  whatever its table (`Planner.MisplacedPlan`); `Planner.MakeOneRel` says when that is right.
- Closing a file drops its pages from the pool even while they are in use; a change that its user has not
  marked yet is lost (`BufferPool.CloseUnderUser`); `BufferPool.BufferPoolManager.DeleteAllPages` says
  exactly when nothing is.
- Upgrading between S and IX gives up the mode held before (`Locks.UpgradeCovers`); the serial order
  theorem is about S and X, which is all the executors ask for.

## Model

| member | source | states |
|---|---|---|
| `IndexHandle.IxIndexHandle.constructor` | src/index/ix_manager.h:82-145 | a new index file is a sound tree over the empty map |
| `IndexLayout.NodeFits` | src/index/ix_manager.h:68-83 | for every key length the catalogue allows, a node with its extra slot just fits into a page (one more entry would not), and the order is above 2 |
| `IndexNode.LowerBound` | src/index/ix_index_handle.cpp:21-35 | the first slot whose key is at least the target, by binary search over a sorted page |
| `IndexNode.UpperBound` | src/index/ix_index_handle.cpp:40-53 | the first slot from 1 on whose key is above the target; key 0 is never compared, so it may be stale |
| `IndexNode.FindChild` | src/index/ix_index_handle.h:154-163 | the slot that names a child; exists because parent pointers are right |
| `IndexTree.Descend` | src/index/ix_index_handle.cpp:71-74 | the child picked by an internal lookup is responsible for the key, whatever key 0 holds |
| `IndexTree.Located` | src/index/ix_index_handle.cpp:57-66 | whether a key is stored at all is decided by the one leaf responsible for it |
| `IndexTree.OneCover` | src/index/ix_index_handle.cpp:138-161 | two nodes of one level are never responsible for the same key |
| `IndexHandle.IxIndexHandle.FindLeafPage` | src/index/ix_index_handle.cpp:138-161 | the descent ends at the leaf responsible for the key |
| `IndexHandle.IxIndexHandle.GetValue` | src/index/ix_index_handle.cpp:171-183 | point lookup is lookup in the finite map the index stands for |
| `IndexHandle.IxIndexHandle.Split` | src/index/ix_index_handle.cpp:188-218 | an overfull node gives its upper half to a new page: kids get their new parent, leaves enter the ring, and the index is sound but for the one missing separator |
| `IndexState.SplitPending` | src/index/ix_index_handle.cpp:188-218 | what a split leaves behind is exactly a tree whose parent still has to learn of the new page |
| `IndexHandle.IxIndexHandle.InsertIntoParent` | src/index/ix_index_handle.cpp:224-255 | entering the separator, splitting upwards as often as needed and growing a root at the top makes the index sound again; the climb ends because the height above is finite |
| `IndexState.GrowRootStep` | src/index/ix_index_handle.cpp:226-240 | a new root over both halves restores shape, sizes, parents and leaf list |
| `IndexState.EnterKidStep` | src/index/ix_index_handle.cpp:241-247 | a separator entered right behind the split child restores the tree one level up |
| `IndexHandle.IxIndexHandle.InsertEntry` | src/index/ix_index_handle.cpp:261-282 | for every sound index and key: the result is sound, and the map gains the entry only if the key is absent; the page returned is the leaf that was responsible for the key |
| `IndexHandle.IxIndexHandle.DeleteEntry` | src/index/ix_index_handle.cpp:291-314 | for every sound index and key: the result is sound, the map loses exactly that key, and the answer says whether it was there |
| `IndexHandle.IxIndexHandle.EraseEntry` | src/index/ix_index_handle.cpp:295-305 | a leaf without the erased entry, with every separator above it repaired; only the size of the leaf may be off |
| `IndexHandle.IxIndexHandle.MaintainParent` | src/index/ix_index_handle.cpp:562-585 | copying the first key upwards until it meets itself leaves every trusted separator equal to the least key below it |
| `IndexClimb.ClimbUp` | src/index/ix_index_handle.cpp:566-581 | below the separator that names the erased first key, each turn moves the repaired part up by one level |
| `IndexClimb.ClimbAbove` | src/index/ix_index_handle.cpp:566-581 | once a parent key already agrees, no level above mentions the old first key, so stopping early loses nothing |
| `IndexClimb.ClimbStale` | src/index/ix_index_handle.cpp:566-581 | past the separator only an untrusted key 0 on the leftmost spine can still differ |
| `IndexTreeErase.NothingAbove` | src/index/ix_index_handle.cpp:566-581 | if the separator lies strictly inside its node, no key above equals the erased one |
| `IndexHandle.IxIndexHandle.CoalesceOrRedistribute` | src/index/ix_index_handle.cpp:321-356 | an underfull node is brought back within its size limits by its neighbour or the root rule; the recursion climbs at most to the root |
| `IndexHandle.IxIndexHandle.AdjustRoot` | src/index/ix_index_handle.cpp:364-380 | a root with one child gives way to it, an empty leaf stays the root |
| `IndexHandle.IxIndexHandle.Redistribute` | src/index/ix_index_handle.cpp:387-408 | one entry changes hands in either direction; both nodes fit, the moved child knows its parent, the separator between them is the least key of the right one |
| `IndexStateBalance.BalanceStep` | src/index/ix_index_handle.cpp:387-408 | after the hand-over and the new separator the whole index is sound again |
| `IndexHandle.IxIndexHandle.Coalesce` | src/index/ix_index_handle.cpp:413-453 | merging with the left or, for the first child, the right neighbour keeps the map, the ring and first/last leaf; the parent may become the underfull node |
| `IndexStateBalance.MergeStep` | src/index/ix_index_handle.cpp:413-453 | a merge seen on the pages is a merge of the tree, with the parent as the only node whose size is open |
| `IndexHandle.IxIndexHandle.EraseLeaf` | src/index/ix_index_handle.cpp:590-595 | the leaves before and after become neighbours in both directions |
| `IndexPages.LinkOut` | src/index/ix_index_handle.cpp:590-595 | taking a leaf out of the ring leaves a ring of the others in the same order |
| `IndexPages.LinkIn` | src/index/ix_index_handle.cpp:202-210 | a new leaf enters the ring right behind the split one |
| `IndexOrder.SeparatorIsLeast` | src/index/ix_index_handle.cpp:562-585 | in every sound tree a trusted separator is stored, and is the least key below the child it names |
| `IndexOrder.FlatAscending` | src/index/ix_scan.cpp:17-29 | the keys of the leaves, read along the leaf list, ascend strictly |
| `IndexHandle.IxIndexHandle.LowerBoundPlace` | src/index/ix_index_handle.cpp:470-487 | the canonical place of the first entry with key at least the given one, or the end of the list |
| `IndexHandle.IxIndexHandle.UpperBoundPlace` | src/index/ix_index_handle.cpp:492-514 | the canonical place of the first entry with key above the given one, or the end of the list |
| `IndexHandle.IxIndexHandle.LeafBegin` | src/index/ix_index_handle.cpp:530-533 | the place of the first entry |
| `IndexHandle.IxIndexHandle.LeafEnd` | src/index/ix_index_handle.cpp:519-525 | the place behind the last entry |
| `IndexHandle.IxIndexHandle.GetRid` | src/index/ix_index_handle.cpp:455-465 | shows entry n at the place of entry n, and throws exactly at the end of the list |
| `IndexOrder.PointsOnce` | src/index/ix_scan.cpp:17-29 | places are canonical: equal places are equal positions, so comparing places stops a scan |
| `IndexScan.IxScan.Next` | src/index/ix_scan.cpp:17-29 | one step leads from the place of entry n to the place of entry n + 1, over leaf borders |
| `KeyOrder.IxCompare` | src/index/ix_index_handle.h:45-54 | the column by column comparison decides lexicographic order, both ways, and equality |
| `KeyOrder.SameKeyMeans` | src/execution/executor_update.h:103-111 | two records have the same key of an index if and only if they agree in every column of it |
| `KeyOrder.CodeOrder` | src/index/ix_index_handle.h:45-54 | keys of bounded columns can be numbered so that the numbers are ordered as the keys are; the tree model uses these numbers |
| `Conditions.EvalConds` | src/execution/executor_abstract.h:97-119 | stops at the first failing condition and answers whether all hold |
| `Conditions.OneHolds` | src/execution/executor_abstract.h:83-94 | of an operator and its opposite exactly one holds, and of below, equal and above exactly one |
| `Conditions.ColumnAsValue` | src/execution/executor_abstract.h:97-119 | a condition on two columns says what the condition with the other column's value says |
| `Tables.OppositeAnswers` | src/execution/executor_abstract.h:83-119 | for every table, a condition and its opposite part the records between them: no record in both answers, none in neither |
| `IndexBounds.ColumnBounds` | src/execution/executor_index_scan.h:95-108 | the last equality, lower and upper condition of a column win |
| `IndexBounds.FindRange` | src/execution/executor_index_scan.h:83-120 | low and high key are built from an equality prefix, one range and the extreme values behind it |
| `IndexBounds.RangeHolds` | src/execution/executor_index_scan.h:83-120 | no matching record lies outside the constructed range |
| `IndexBounds.KindsAre` | src/execution/executor_index_scan.h:95-108 | every operator but <> bounds a column from one side |
| `IndexBounds.OneColumnRange` | src/execution/executor_index_scan.h:83-120 | over one column the range holds exactly the values that meet the last equality, or without one the last lower and the last upper condition |
| `IndexBounds.NoKeyOutsideBoth` | src/execution/executor_index_scan.h:122-123 | a range whose ends are in order has no key on the wrong side of both |
| `IndexScanExecutor.IndexScanExecutor.BeginTuple` | src/execution/executor_index_scan.h:79-125 | places the cursor on the first match between the two bounds |
| `IndexScanExecutor.IndexScanExecutor.FindNextValid` | src/execution/executor_index_scan.h:142-151 | skips exactly the non-matching entries |
| `IndexScanExecutor.IndexScanExecutor.Run` | src/execution/executor_index_scan.h:79-151 | for every index and every conjunction of conditions: the scan throws if and only if some record lies on the wrong side of both ends of the range; otherwise it yields exactly the matching records, each once, in key order |
| `IndexScanExecutor.InOrderSucceeds` | src/execution/executor_index_scan.h:122-123 | if low is below high, or equal with an inclusive end, the scan does not throw |
| `IndexBounds.DerivedOnce` | src/execution/executor_index_scan.h:83-120 | the conditions determine the range |
| `IndexScanExecutor.CrossedRangeThrows` | src/execution/executor_index_scan.h:122-151 | a > 7 AND a < 3 over a table holding 5: nothing matches, and whatever range is derived, the record is on the wrong side of both its ends |
| `IndexScanExecutor.RunCrossed` | src/execution/executor_index_scan.h:122-151 | on that table the scan throws |
| `Tables.SameAnswers` | src/execution/executor_seq_scan.h:59-90 | two scans that answer the same conditions return the same records, so index scan and sequential scan agree |
| `Bitmap.NextBit` | src/record/bitmap.h:41-48 | the next position holding the given bit, or the bound if there is none |
| `Bitmap.OnlyThatBit` | src/record/bitmap.h:25-28 | setting or clearing a position changes no other position |
| `Bitmap.MaskOrder` | src/record/bitmap.h:58-60 | the first position of a byte is its highest bit, and each next one is half of that |
| `HeapFile.SlotsFit` | src/record/rm_manager.h:46-49 | for every legal record size: at least one slot, and header, bitmap and slots lie apart and inside the page |
| `HeapFile.SlotsMost` | src/record/rm_manager.h:46-49 | one slot more would not fit, counting the bitmap by the bit |
| `HeapFile.InsertedChained` | src/record/rm_file_handle.cpp:42-71 | an insertion takes the head page off the chain exactly when it fills it, and a page appended is not put on the chain |
| `HeapFile.PagePerRecord` | src/record/rm_file_handle.cpp:179-216 | in a file whose chain is empty every insertion appends a page of its own, however many records a page has room for |
| `HeapFile.InsertedContents` | src/record/rm_file_handle.cpp:42-71 | an unpositioned insertion uses an unused rid and changes no other record |
| `HeapFile.StepLinked` | src/record/rm_file_handle.cpp:42-151 | insertion, deletion and update do to the map of records what they mean, and keep the chain acyclic with room on every page |
| `HeapFile.AbortedDeleteBlocksInsert` | src/record/rm_file_handle.cpp:78-90 | a deletion from a full page that is rolled back leaves a full page at the head of the chain: the next insertion finds no free slot |
| `HeapFile.PutChained` | src/record/rm_file_handle.cpp:78-90 | a positioned insertion keeps the chain if and only if its page is not on it or still has room afterwards |
| `HeapFile.PutLinked` | src/record/rm_file_handle.cpp:78-90 | afterwards there still is a chain of pages with room if and only if the page is off the chain or has room |
| `HeapFile.RestoredContents` | src/transaction/transaction_manager.cpp:119-134 | delete and positioned re-insertion of a record restore the map of records |
| `RecordFile.RmFileHandle.constructor` | src/record/rm_manager.h:34-58 | a new file holds no record and has an empty chain |
| `RecordFile.RmFileHandle.GetRecord` | src/record/rm_file_handle.cpp:20-35 | lookup in the map of records, with both error cases |
| `RecordFile.RmFileHandle.Insert` | src/record/rm_file_handle.cpp:42-71 | the file changes as the specified insertion says, and the rid is the one it names |
| `RecordFile.RmFileHandle.InsertAt` | src/record/rm_file_handle.cpp:78-90 | positioned insertion: a no-op on a taken slot, no change to the chain |
| `RecordFile.RmFileHandle.Delete` | src/record/rm_file_handle.cpp:97-121 | removes the record, or reports the missing page or record and changes nothing |
| `RecordFile.RmFileHandle.Update` | src/record/rm_file_handle.cpp:130-151 | rewrites the record, or reports the missing page or record and changes nothing |
| `RecordFile.RebuildFreeList` | src/recovery/log_recovery.cpp:343-370 | recounting keeps all records and yields an acyclic chain of exactly the pages with room, whatever the headers said before |
| `RecordFile.RmScan.Next` | src/record/rm_scan.cpp:29-42 | moves to the least used rid behind the cursor, or to the end |
| `RecordFile.SeqScan` | src/execution/executor_seq_scan.h:59-90 | yields exactly the matching records, each once, in ascending order of rids |
| `LogCodec.IntRoundTrip` | src/recovery/log_manager.h:47-61 | an integer survives its bytes, negative ones included |
| `LogCodec.LowByteFirst` | src/recovery/log_manager.h:47-61 | byte k of an integer is its digit of weight 256 to the k |
| `LogCodec.HeaderLayout` | src/recovery/log_defs.h:21-34 | kind, sequence number, length, transaction, previous number and body stand where the offsets say |
| `LogCodec.RecRoundTrip` | src/recovery/log_manager.h:173-197 | a record of any of the six kinds survives its bytes, whatever follows them |
| `LogCodec.ReadLog` | src/recovery/log_recovery.cpp:29-90 | from any byte prefix of any encoded log the reading loop returns exactly the records that lie wholly inside the prefix |
| `LogManager.LogManager.AddLogToBuffer` | src/recovery/log_manager.cpp:19-33 | numbers the record with the next sequence number and appends it; a full buffer goes to the disk first |
| `LogManager.LogManager.FlushLogToDisk` | src/recovery/log_manager.cpp:38-45 | afterwards everything logged so far is on the disk |
| `LogManager.LogBytes` | src/recovery/log_manager.cpp:19-45 | disk log followed by buffer is the encoding of all records in order |
| `LogManager.FlushedRecordsRead` | src/recovery/log_manager.cpp:19-45 | a log torn at any byte of the buffer being written still holds every record up to the persisted sequence number |
| `LruReplacer.LRUReplacer.Victim` | src/replacer/lru_replacer.cpp:22-37 | takes out the frame that has been evictable for the longest time |
| `LruReplacer.LRUReplacer.Pin` | src/replacer/lru_replacer.cpp:43-52 | the frame leaves the list; list and hash agree |
| `LruReplacer.LRUReplacer.Unpin` | src/replacer/lru_replacer.cpp:58-67 | a frame that is not yet evictable becomes the most recent one |
| `BufferPool.BufferPoolManager.FindVictimPage` | src/storage/buffer_pool_manager.cpp:19-30 | a free frame or the least recently unpinned one; fails only if every frame is pinned |
| `BufferPool.BufferPoolManager.UpdatePage` | src/storage/buffer_pool_manager.cpp:38-56 | the old page is written back, log first, before the frame changes hands; no page reads differently |
| `BufferPool.BufferPoolManager.FetchPage` | src/storage/buffer_pool_manager.cpp:65-90 | returns the page pinned in a frame of its own, the other frames as they were, or fails if all frames are pinned; no page reads differently |
| `BufferPool.BufferPoolManager.UnpinPage` | src/storage/buffer_pool_manager.cpp:98-125 | the pin count drops, a frame without pins becomes evictable, and what its user changed is settled with the last pin; no page reads differently |
| `BufferPool.BufferPoolManager.FlushPage` | src/storage/buffer_pool_manager.cpp:132-151 | disk and frame agree afterwards, the log is ahead of the page, and table, pins and other frames are as before |
| `BufferPool.ChangeThenRead` | src/storage/buffer_pool_manager.cpp:65-151 | fetched, changed, marked and flushed, then fetched and given back unmarked: the change is on disk and is what the reader sees |
| `BufferPool.BufferPoolManager.NewPage` | src/storage/buffer_pool_manager.cpp:158-174 | a page of zeros in a frame, all other pages as before; if the disk holds something else under the number, the frame counts as changed, and its user has to mark it |
| `BufferPool.BufferPoolManager.DeletePage` | src/storage/buffer_pool_manager.cpp:181-206 | drops a page if nobody uses it, writing it back first; its frame goes to one owner only, although it may stay with the replacer |
| `BufferPool.BufferPoolManager.FlushAllPages` | src/storage/buffer_pool_manager.cpp:212-226 | every page of the file is on the disk |
| `BufferPool.BufferPoolManager.DeleteAllPages` | src/storage/buffer_pool_manager.cpp:233-252 | no page of the file is left in the pool, pinned or not; each reads what its frame held if that was marked dirty and what the disk had if not; nothing reads differently if and only if the frames not marked dirty agree with the disk |
| `BufferPool.CloseUnderUser` | src/storage/buffer_pool_manager.cpp:233-252 | fetched, changed, and the file closed before the page is given back: the change was seen, and is gone |
| `BufferPool.AllPinned` | src/storage/buffer_pool_manager.cpp:19-30 | without a free and an evictable frame every frame is pinned |
| `Recovery.RecoveryManager.Analyze` | src/recovery/log_recovery.cpp:73-87 | the three transaction sets are, at any point of the log, those begun and not ended, committed, and aborted |
| `Recovery.RecoveryManager.Redo` | src/recovery/log_recovery.cpp:100-243 | extends files for insertions and applies the records a page has not seen, in log order; throws if and only if a page cannot be read or some update finds no record |
| `Recovery.RecoveryManager.Undo` | src/recovery/log_recovery.cpp:245-341 | takes back the records of open and of aborted transactions, last first |
| `Recovery.RecoveryManager.ReadPages` | src/recovery/log_recovery.cpp:344-368 | counting the records anew throws if and only if some header counts a page that cannot be read |
| `Recovery.ReadsAll` | src/recovery/log_recovery.cpp:100-370 | redo and undo bring no missing page: start-up can read all it has to if and only if the files held it all |
| `RecoveryLog.RedoExact` | src/recovery/log_recovery.cpp:100-243 | redo from a page as of any sequence number leads to the value at the end of the log |
| `RecoveryLog.DoneAndUndone` | src/recovery/log_recovery.cpp:100-341 | redo of one change makes it or leaves it, undo takes it back; neither overwrites a record by an insertion, and neither updates where there is none |
| `RecoveryLog.WonLastChange` | src/recovery/log_recovery.cpp:100-341 | the last change by a winner decides: its record, or none after a deletion |
| `RecoveryLog.UndoFromAnyValue` | src/recovery/log_recovery.cpp:245-341 | undo started from any value a loser took the place through ends at the value before the first loss |
| `RecoveryLog.UndoRepeatable` | src/recovery/log_recovery.cpp:245-341 | undo cut short anywhere and started again reaches the same values as one complete undo |
| `RecoveryLog.PlaceRecovered` | src/recovery/log_recovery.cpp:100-341 | redo behind the image of the page, then undo: what the winners alone would have left |
| `ReusedPlaces.ReusedPlaceLost` | src/recovery/log_recovery.cpp:248-251 | an aborted insertion is undone again by recovery, and takes with it what another transaction has committed in the same place |
| `ReusedPlaces.LateUndo` | src/recovery/log_recovery.cpp:245-341 | for any sequence of changes losers made to a place, and any value it has been given since: undo keeps the value if and only if it is the one the losers found, or the place is empty and they only updated it, or it is filled and they deleted it once and did nothing else |
| `ReusedPlaces.LateUndoValue` | src/recovery/log_recovery.cpp:245-341 | otherwise undo puts back the value the losers found |
| `ReuseRuns.ReuseWrittenBack` | src/recovery/log_recovery.cpp:248-251 | in every reachable state: a write into a place that an abort has rolled back, committed and written back, survives recovery if and only if undo of the aborted changes spares its value |
| `ReuseRuns.ReuseHarmless` | src/recovery/log_recovery.cpp:100-341 | in every reachable state: such a committed write survives whatever image of the page the invariant admits, and redo does not throw on it, if and only if the aborted transaction only updated the place and the write deletes the record or puts the same record back |
| `ReuseReached.ReuseHarmlessRuns` | src/recovery/log_recovery.cpp:100-341 | the same for the images that runs leave: after every run with the same history, whichever pages it has written back and when, the write is safe, if and only if it is harmless; otherwise a page written back in the middle of the rollback does the harm |
| `ReusedIds.WhichIdsStand` | src/recovery/log_recovery.cpp:73-87 | the changes under a transaction id stand if and only if the log has a commit of the id, no abort of it, and no begin of it behind the last commit |
| `ReusedIds.IdUsedTwice` | src/transaction/transaction_manager.h:144 | id 0 commits an insertion and begins again after a restart: the committed insertion is undone |
| `Recovery.RecoveredPlace` | src/recovery/log_recovery.cpp:100-341 | for every recoverable disk and every place: analyze, redo, undo do not throw and leave what the winners alone would have left |
| `Recovery.Recover` | src/recovery/log_recovery.cpp:17-370 | start-up after a crash as one method: it throws if and only if a file is too short for its header; otherwise it meets the serial meaning of the log |
| `CrashRuns.InvKept` | src/transaction/transaction_manager.cpp:23-185 | every begin, write, commit, abort, rollback step, release, log flush and page write-back keeps the invariant |
| `CrashRuns.FilesWritten` | src/storage/buffer_pool_manager.cpp:38-56 | how the files of a crash come about: a page written back goes into its file, zeros fill a gap before it |
| `RunProgress.WriteShows` | src/record/rm_file_handle.cpp:42-151 | a running transaction may give a place of a table it may lock any record or none; memory then shows that, and every other place as before |
| `RunProgress.AbortEnds` | src/transaction/transaction_manager.cpp:81-185 | from every reachable state a running transaction can abort: the rollback ends, every place shows what the transaction found there first, and its tables are free |
| `CrashRuns.CrashRecoverable` | src/recovery/log_recovery.cpp:17-341 | wherever a run is cut, and however much of the log being written survives, all pages in the files are such that recovery can deal with them, those behind the count of the header too |
| `CrashRuns.WinnersCommitted` | src/recovery/log_recovery.cpp:73-87 | the transactions that stand are exactly those with a commit record on the disk |
| `CrashRuns.CommitSurvives` | src/transaction/transaction_manager.cpp:46-56 | a transaction whose commit has returned is among them |
| `CrashRuns.NothingFlushed` | src/recovery/log_recovery.cpp:17-25 | a crash before anything was flushed finds the data as it was at the start |
| `CrashRuns.CrashAndRecover` | src/recovery/log_recovery.cpp:17-370 | for every run, cut at any point, also in the writes of a shutdown: recovery goes through if and only if the files hold the pages their headers count; then every place holds what the transactions with a commit record on disk, and they alone, would have left, and every transaction whose commit returned is one of them |
| `RecoveryCuts.CutRecoverable` | src/recovery/log_recovery.cpp:100-416 | a crash in the course of recovery, with any pages written back at any stages of redo and undo, holes, and any headers of the end written ahead of their pages, leaves files whose pages recovery can deal with |
| `RecoveryCuts.CutPage` | src/recovery/log_recovery.cpp:100-416 | how cuts come about: any page in memory at any stage may go to its file |
| `RecoveryCuts.CutHeader` | src/recovery/log_recovery.cpp:412-416 | and any header may get its new count |
| `RecoveryCuts.UndoneWhole` | src/recovery/log_recovery.cpp:245-341 | undo carried through from any stage is the undo of recovery |
| `RecoveryCuts.TooManyOrOk` | src/storage/disk_manager.cpp:51-64 | the length of a file tells whether it holds the pages its header counts |
| `RecoveryCuts.CrashesAndRecover` | src/recovery/log_recovery.cpp:17-416 | a run cut anywhere, then any number of recoveries each cut anywhere, the closing writes included: the next recovery goes through if and only if no header counts more pages than its file is long, and then leaves what the transactions with a commit record on disk would have left |
| `HeaderAhead.HeaderFirst` | src/recovery/log_recovery.cpp:412-416 | recovery of one committed insertion, cut between the header and the page it counts: the file is too short for its header |
| `HeaderAhead.NeverAgain` | src/recovery/log_recovery.cpp:412-416 | from then on every start-up throws, and the committed record cannot be reached; a shutdown cut there does the same |
| `HeaderAhead.OnceMore` | src/recovery/log_recovery.cpp:17-370 | the same recovery, not cut, brings the record |
| `StartUp.StartUp` | src/recovery/log_recovery.cpp:17-409 | start-up seen from one table: it throws if and only if some file is too short for its header; otherwise the table holds the winners' records, its chain runs through exactly the pages with room, and each index leads from the keys of these records to their places if and only if the keys are unique |
| `LogFile.TornFile` | src/recovery/log_manager.cpp:19-45 | a log file torn at any byte of the buffer being written holds everything the run had flushed, as the records of the run |
| `LogFile.WrittenMeans` | src/recovery/log_manager.h:74-343 | for each of the six kinds, what is read of a written record is the event it was written for; it fits its fields if its numbers and lengths do |
| `LogFile.WrittenRead` | src/recovery/log_manager.h:173-197 | the same from the bytes of the record, whatever follows them |
| `LogFile.LoggedExists` | src/recovery/log_manager.cpp:19-45 | every run has a log file: the records the writer makes of its events, flushed ones on disk, the others in the buffer |
| `LogFile.RecoverFile` | src/recovery/log_recovery.cpp:17-370 | from the bytes of the torn log file to the recovered tables: read, analyse, redo, undo go through if and only if the files hold the pages their headers count, and leave what the transactions with a commit record in the file would have left, every returned commit among them |
| `IndexRebuild.RebuildIndex` | src/recovery/log_recovery.cpp:372-409 | the rebuilt index is sound, holds every key of the table, and is exactly the table's index if and only if the keys are unique |
| `Locks.CompatibleSymmetric` | src/transaction/concurrency/lock_manager.cpp:13-30 | who holds and who asks does not matter |
| `Locks.StrongerExcludes` | src/transaction/concurrency/lock_manager.cpp:32-45 | a stronger mode shuts out whatever a weaker one does; strength is a partial order |
| `Locks.CompatibleRights` | src/transaction/concurrency/lock_manager.cpp:13-30 | two modes go together if and only if no right of one clashes with a right of the other, where S reads all, X does everything, IS and IX work on parts, and SIX reads all and writes parts |
| `Locks.StrongerRights` | src/transaction/concurrency/lock_manager.cpp:32-45 | a mode is as strong as another if and only if it has all its rights |
| `Locks.GroupCovers` | src/transaction/concurrency/lock_manager.cpp:47-69 | the group mode of a queue is one of its modes and covers all of them; an empty queue has none |
| `Locks.NoneAfterRelease` | src/transaction/concurrency/lock_manager.cpp:74-77 | whoever has given a lock back and goes on is refused every other |
| `Locks.UpgradeCovers` | src/transaction/concurrency/lock_manager.cpp:97-108 | an upgrade replaces the held mode by one that covers it if and only if it is not between S and IX |
| `Locks.LockManager.UpdateGroup` | src/transaction/concurrency/lock_manager.cpp:47-69 | the group mode is the most exclusive mode in the queue |
| `Locks.LockManager.AcquireLock` | src/transaction/concurrency/lock_manager.cpp:71-128 | granted if and only if the transaction is not shrinking and already holds a covering mode or nobody else blocks the mode; requests of a queue stay pairwise compatible, one per transaction, and lock sets match the lock table; a reader is never refused for other readers |
| `Locks.LockManager.Unlock` | src/transaction/concurrency/lock_manager.cpp:154-179 | takes the transaction's request out, touches no other request, starts the shrinking phase |
| `Locks.LockManager.ReleaseAll` | src/transaction/transaction_manager.cpp:57-63 | afterwards the transaction has no request left and everybody else has theirs |
| `Serializable.GrantedLocksCompatible` | src/transaction/concurrency/lock_manager.cpp:71-128 | in every interleaving the granted locks of two transactions on one item go together, and queues agree with lock sets |
| `Serializable.StepKeeps` | src/transaction/transaction_manager.cpp:46-185 | every step of every interleaving keeps the invariant |
| `RunProgress.LockGranted` | src/transaction/concurrency/lock_manager.cpp:71-128 | in every reachable state a running transaction gets the table lock it asks for if it has given none back and nobody's request stands against it |
| `RunProgress.ReadAndWrite` | src/execution/executor_update.h:43-138 | with the lock it reads what is there, or leaves any content it wants |
| `Serializable.CommitOrderIsSerial` | src/transaction/transaction_manager.cpp:46-74 | in every interleaving the committed transactions, run one at a time in the order of their commit records, see exactly what they saw and leave the tables as they are |
| `Serializable.NoDirtyRead` | src/transaction/concurrency/lock_manager.cpp:71-128 | a transaction with a lock on a table sees the committed state and its own writes only |
| `Serializable.UndoKeeps` | src/transaction/transaction_manager.cpp:93-175 | each rollback step of an abort keeps the invariant, so aborted transactions leave no trace |
| `TableRows.IndexesDetermined` | src/execution/executor_update.h:103-135 | the records determine the indexes |
| `TableRows.DeleteRow` | src/execution/executor_delete.h:48-62 | index entries and record of a row go together |
| `TableRows.UpdateRow` | src/execution/executor_update.h:103-135 | old entries, record, new entries: the indexes match the records again |
| `TableRows.InsertRow` | src/execution/executor_insert.h:75-92 | the record goes to an unused rid and its keys into every index |
| `TableRows.RestoreRow` | src/transaction/transaction_manager.cpp:119-134 | a deleted row comes back where it was, with its index entries |
| `Executors.CollisionStays` | src/execution/executor_update.h:117-120 | SET assigns constants: an updated row that takes the old key of a row to be updated takes its new key too |
| `Executors.Applied` | src/execution/executor_update.h:116-120 | after a SET list a column has the value of the last clause that names it, and without one the value it had |
| `Executors.NoCollision` | src/execution/executor_update.h:96-136 | if the whole update satisfies a unique index, so does every table on the way, so the row by row loop never loses an index entry |
| `Executors.PreCheck` | src/execution/executor_update.h:59-94 | on rows of the table the pre-check passes if and only if the rows differ and the updated table satisfies every unique index |
| `Executors.Session.Insert` | src/execution/executor_insert.h:40-95 | inserted, with a fresh rid, if and only if the number of values is right and no index has one of the keys; otherwise nothing changes; every index stays {key of record to rid} |
| `Executors.Session.Delete` | src/execution/executor_delete.h:39-65 | removes exactly the rows and their index entries |
| `Executors.Session.Update` | src/execution/executor_update.h:43-138 | succeeds if and only if the updated table satisfies every unique index; then every named row has the SET list carried out column by column and every other row is as before, otherwise nothing has changed |
| `Executors.Session.Abort` | src/transaction/transaction_manager.cpp:93-175 | replaying the write set backwards leads to the heaps the transaction started from, and keeps the free chains if no record that comes back fills its page |
| `Executors.UndoWrite` | src/transaction/transaction_manager.cpp:100-170 | one write record undone: the free chain survives if and only if no deleted record comes back, or its page is off the chain or has room |
| `Rollback.Recorded` | src/transaction/transaction_manager.cpp:93-175 | a change with its write record leads, undone, to where undoing led before, even if rids are deleted and reused |
| `Rollback.Undone` | src/transaction/transaction_manager.cpp:93-175 | undoing the last write meets a heap that still satisfies every unique index |
| `Executors.Session.RunThenAbort` | src/transaction/transaction_manager.cpp:81-185 | any statements on any tables, successful, failing or broken off, then an abort: all records and all indexes are exactly as before |
| `NestedLoopJoin.NestedLoopJoinExecutor.LoadNextLeftBlock` | src/execution/executor_nestedloop_join.h:90-103 | takes rows until the buffer limit, at least one if there is one |
| `NestedLoopJoin.FillsUp` | src/execution/executor_nestedloop_join.h:90-103 | a block ends with the row that fills the buffer, or with the last row there is |
| `NestedLoopJoin.BackFirst` | src/execution/executor_nestedloop_join.h:114-124 | the matches of a right row among the later rows of the block come before those among the earlier ones |
| `NestedLoopJoin.NestedLoopJoinExecutor.FindMatch` | src/execution/executor_nestedloop_join.h:114-155 | from any position to the next match, skipping none; ends by the rows left, the right rows left and the block position, in this order |
| `NestedLoopJoin.NestedLoopJoinExecutor.Run` | src/execution/executor_nestedloop_join.h:55-85 | the pairs come block by block, right row by right row, last left row first |
| `NestedLoopJoin.JoinedCount` | src/execution/executor_nestedloop_join.h:55-155 | whatever the block size, a pair comes as often as the product of the inputs has it if it matches, and never otherwise |
| `Planner.FlipMeans` | src/optimizer/planner.cpp:117-122 | exchanging the sides of a condition and swapping its operator does not change what it says |
| `Planner.PopConds` | src/optimizer/planner.cpp:69-84 | splits the list in order: value conditions of the table and any condition inside one table are taken out |
| `Planner.PopSplits` | src/optimizer/planner.cpp:69-84 | no condition is lost or doubled by the split |
| `Planner.PushFinds` | src/optimizer/planner.cpp:86-127 | the answer 0, 1, 2 or 3 says which of the two columns are in scope |
| `Planner.PushOriented` | src/optimizer/planner.cpp:86-127 | a pushed condition ends up with its left column in the left input |
| `Planner.PushAttaches` | src/optimizer/planner.cpp:86-127 | it is attached to exactly one node if both tables are in scope, and to none otherwise |
| `Planner.ScanPlans` | src/optimizer/planner.cpp:174-186 | one scan per table; what is left goes between two tables; no condition is lost |
| `Planner.PopScan` | src/optimizer/planner.cpp:129-142 | finds the scan of a table and marks it as joined, or finds none and changes nothing |
| `Planner.SecondTableMisplaced` | src/optimizer/planner.cpp:76 | a condition between two columns of the second table goes to the scan of the first |
| `Planner.MisplacedPlan` | src/optimizer/planner.cpp:167-287 | the plan of that query has a scan that checks a column of another table |
| `Planner.JoinNext` | src/optimizer/planner.cpp:234-271 | one more join condition brings in the tables it still needs, or sinks into the tree; nothing is lost |
| `Planner.JoinOthers` | src/optimizer/planner.cpp:277-283 | tables without a join condition are joined last |
| `Planner.MakeOneRel` | src/optimizer/planner.cpp:167-287 | for any tables and conditions: every table is scanned once, every condition hangs on exactly one node with a column in each input, and the scans check only their own columns if and only if every condition inside one table is inside the first table; exactly the first join sorts, if nested loops are switched off |
| `PlanMeaning.TreeAnswersQuery` | src/optimizer/planner.cpp:167-287 | run by block nested-loop joins, the tree delivers every combination of one row per table that satisfies all conditions exactly once, and nothing else |
| `PlanMeaning.TrueOfRows` | src/execution/executor_abstract.h:97-119 | a condition is true of a combination if and only if its operator holds between the named columns of the rows chosen |
| `Matching.MaxBipartiteMatchState.TryAugment` | deps/googletest/googlemock/src/gmock-matchers.cc:185-219 | finds an augmenting path if there is one from the node; both assignment arrays stay inverse to each other; ends by the growth of the set of seen nodes |
| `Matching.MaxBipartiteMatchState.Compute` | deps/googletest/googlemock/src/gmock-matchers.cc:133-168 | trying each left node once is enough: the unmatched ones can never be matched later |
| `Matching.CoverBounds` | deps/googletest/googlemock/src/gmock-matchers.cc:125-225 | no matching is larger than the cover made of the nodes the search has not given up |
| `Matching.SetEdgeIs` | deps/googletest/googlemock/include/gmock/gmock-matchers.h:3489-3517 | an edge that is set is there or not as it was set, and every other edge is as before |
| `Matching.Analyze` | deps/googletest/googlemock/include/gmock/gmock-matchers.h:3649-3674 | the matrix, filled cell by cell, has exactly the accepted pairs as edges |
| `Matching.FindMaxBipartiteMatching` | deps/googletest/googlemock/src/gmock-matchers.cc:229-231 | the pairs are edges, use each node once, and no matching of the graph has more of them |
| `Matching.MatchElements` | deps/googletest/googlemock/include/gmock/gmock-matchers.h:3649-3677 | for any accepted pairs: the result is accepted pairs with no element and no matcher twice, and no assignment has more |

## Left out

- Floating point: column values are integers in the order of their type; NaN and infinities are not modelled.
- Threads and latches: each latched method is one atomic step.
- Pin balance of the index, heap and recovery code: those models read and write pages directly; pins are modelled in `BufferPool`.
- `CrashRuns`: models page images, log and locks, not the buffer pool's frames; its write-back step carries the write-ahead rule proved in `BufferPool`.
- CrashRuns.CrashAndRecover: covers runs of one process without writes into places of aborted transactions, because the code loses committed values there; `ReuseReached.ReuseHarmlessRuns` says which such writes are safe. A second process would use the transaction ids of the first again, see `ReusedIds`.
- ReuseReached.ReuseHarmlessRuns: is about the first transaction that writes such a place, on a page that the header on disk counts, with the crash right after its commit.
- RecoveryCuts.CrashesAndRecover: a recovery that finds a file too short for its header is taken to stop before it has written anything; one that runs out of frames first may write a new page behind the gap, which fills the gap with zeros. A new process with transactions of its own is not covered, because it uses ids of the old one again.
- StartUp.StartUp: the table file is tied to the recovered pages by the records they hold; the bytes of bitmap and slots are those of `HeapFile`.
- RecordFile.RmFileHandle.Insert: does not cover a full page at the head of the chain; the source then takes slot number n of n slots and writes past them.
- TableRows.InsertRow: does not cover a full page at the head of the chain either.
- BufferPool.BufferPoolManager.NewPage: relies on the disk manager to hand out page numbers that are not in the pool, as it does by counting up.
- Page sequence numbers inside index pages and page 0 of table files: the sequence number shares its bytes with other header fields there; the models keep them apart.
- Index updates made by redo and undo: all indexes are rebuilt from the tables afterwards, and the rebuild is modelled.
- Reaching `release_node_handle` and deleting index pages from the pool: the models drop the page from the tree and count it out.
- Page 0 and page numbers of other files reused by the operating system: the disk is a total map from page ids to contents.
- Serializable.CommitOrderIsSerial: whole tables are read and written, which covers every statement on them; record locks and intention modes are not used by any executor.
- Executors.Session.Insert: does not cover a full page at the head of the chain of its table; value conversion and type errors of literals are not modelled; a record is a list of integers.
- Executors.Session.RunThenAbort: a script with insertions starts from chains in which every page has room.
- Executors.Session.Update: a SET clause names a column of the table; unknown columns and failed casts are not modelled.
- NestedLoopJoin.NestedLoopJoinExecutor.Run: yields pairs of rows; copying their bytes side by side is not modelled.
- Planner.MakeOneRel: a condition on a table outside the query, for which no scan is found, is excluded, as the analysis of the query before it rejects such conditions.
- Planner.PushAttaches: plan nodes are values, so appending a condition to a shared node is a new plan.
- Choice of an index for a scan (`get_index_cols`): any delivery order of a scan is covered by `PlanMeaning`.
- Sort, projection, aggregate and limit executors: they reorder, cut or sum up the rows of the executors modelled here.
- Multi-version reads, undo links and watermarks: declared in the source but not used.
- Catalogue files, parser, network, result printing and knobs other than the two join switches.
- IndexHandle.IxIndexHandle.constructor: the order is a parameter above 2; `IndexLayout.NodeFits` shows the computed one is.
