# Verified models of BilbyFs, the FAT tables and the regression driver

Dafny models of three parts of the repository, with proofs about all inputs and all runs.

**BilbyFs object store** (`impl/fs/bilby/c`). Objects and deletion markers are appended, transaction by
transaction, to erase-blocks through a write buffer; an index maps each object id to its newest address;
an erase-block is closed with a summary of what it holds. The models go from the pointers of the
red-black trees and the bytes of the log up to one class, `ObjStore.Store`, with its write, sync, read and
mount operations. Its invariant says that the index is that of everything written, that the flash holds
what had been synchronised, and that there is always room for the summary.

`StoreRuns.RunStore` is the result for whole runs of writes, reads, syncs, unmounts, crashes between two
writes to flash, and losses of power inside one, after any number of its pages. The store behaves as a
machine on values, `StoreMachine.Effect`, whose state holds the objects written, how many of them are on
flash, the sequence numbers, the contents of the current erase-block, and the free space. Each step of the
machine has one outcome: the next state and what the operation returns, down to the bytes of padding and
summaries, or the reason why the run cannot go on. `SyncLasts` draws from it that what the store held at a
sync is there ever after. Two things the code does not guarantee end a run, and nothing else does:

- After a crash the sequence numbers restart from the newest super object, which is written when
  formatting and unmounting. `Restart.RestartExact` says for all logs when every continuation still goes
  well: objects on flash have numbers up to the restart number, deletions up to one more.
  `StoreStale.StaleRun` is a run in which a new object is not seen: format, write twice, sync, crash,
  mount, write, read.
- A write to flash cut inside an object leaves bytes that a mount refuses (unless the checksum matches by
  chance, and the run ends there too), so the file system does not mount again. `StoreEffects.PowerCutExact` says which cuts these are, by offsets alone: inside an object
  written before, inside a padding object, or inside the summary. After every other cut the store comes
  back with the transactions complete by then.

| modules | what they hold |
|---|---|
| `RbTree`, `RbHeap`, `RbInsert`, `RbErase`, `RbRemove`, `RbWalk` | red-black trees: values and contexts; linked cells and rotations; the two rebalancing loops; erasing; in-order steps |
| `ObjectId`, `IndexShape`, `ObjIndex`, `ProcObj` | the index: a hash array of such trees, refining a map |
| `LogIndex`, `LogSummary`, `Transactions`, `Restart` | what a log means, why a summary is enough, why transactions are atomic, from which number to go on |
| `ObjFormat`, `SumFormat` | bytes of objects, padding and summaries, and the scan that finds them again |
| `FlashBytes` | the same formats spelled out byte by byte, and what is written and read in these terms |
| `LebModel`, `LebCut` | erase-blocks: what a scan finds in them, whole or cut short |
| `StoreModel`, `StoreSteps`, `StoreSync`, `StoreWrite`, `StoreMount`, `StoreCut` | the history of the store: what every kind of step keeps, and what a mount makes of it |
| `Pages`, `StoreAlloc`, `StoreCommit`, `StoreStamp`, `StoreRead` | parts of the operations: pages, free erase-blocks, padding and summary, headers, reading |
| `StoreMachine`, `StoreEffects` | the store as functions on values, and what these guarantee |
| `StoreOrder`, `ObjStore`, `StoreRuns`, `StoreStale` | the order in which a mount processes a log, the store, its runs, and a run that goes wrong |

**FAT** (`impl/fs/vfat/cogent/plat/linux`), after the Microsoft FAT32 File System Specification 1.03,
sections "FAT Data Structure" and "FAT Long Directory Entries".

| modules | what they hold |
|---|---|
| `FatBytes`, `FatCursor` | entries of 12, 16 and 32 bits packed into bytes and blocks |
| `FatTable`, `FatAlloc` | chains in the table; allocating, freeing and counting on the bytes, block by block |
| `FatWalk`, `FatCache` | walking a chain, and the cache of contiguous runs |
| `FatVolume`, `FatRuns` | append and truncate on files that share the table; whole runs |
| `LongName`, `LongNameParse` | long names: building slots and parsing them |

**Regression driver** (`regression/testspec.py`): `TopoSort`, the priority-driven topological sort of tests.

State that the sources update in place is a field of a class or an array that methods update; each such
method is proved against a function of the old state. Ghost arguments (a tree and its context, a chain, a
history) name the abstract value that a pointer or a table stands for. `hide` statements only keep
definitions out of a proof.

## Model

| member | source | states |
|---|---|---|
| `RbTree.HeightBound` | impl/fs/bilby/c/rbt.c:99-162 | every valid tree of n nodes has height at most 2*log2(n+1), written as 2^height <= (n+1)^2 |
| `RbTree.LeastHeight` | impl/fs/bilby/c/rbt.c:99-162 | every tree of n nodes has height at least log2(n+1) |
| `RbTree.PlugInOrder` | impl/fs/bilby/c/rbt.c:51-97 | a subtree in its context contributes its in-order sequence between what precedes and what follows it |
| `RbTree.PlugValid` | impl/fs/bilby/c/rbt.c:99-162 | a balanced subtree in a context balanced for its black height gives a valid tree |
| `RbHeap.Forest.RotateLeft` | impl/fs/bilby/c/rbt.c:51-73 | the rotated links hold the rotated tree with the same in-order sequence, parent pointers and the root included; no cell outside the tree and no other root changes |
| `RbHeap.Forest.RotateRight` | impl/fs/bilby/c/rbt.c:75-97 | the mirror image of the left rotation |
| `RbInsert.LinkNode` | impl/fs/bilby/c/rbt.c:42-49 | the new red cell hangs in the empty slot: the in-order sequence gains exactly it, at that place |
| `RbInsert.InsertColor` | impl/fs/bilby/c/rbt.c:99-162 | from a tree whose only fault is a red cell under a red parent, the loop ends with a valid red-black tree over the same in-order sequence |
| `RbErase.EraseColor` | impl/fs/bilby/c/rbt.c:164-242 | from a tree that lacks one black cell on one path, the loop terminates with equal black heights and no red cell under a red one, over the same sequence |
| `RbRemove.Unlink` | impl/fs/bilby/c/rbt.c:293-306 | a cell with at most one child is taken out and its child takes its place |
| `RbRemove.Successor` | impl/fs/bilby/c/rbt.c:255-259 | the walk ends at the leftmost cell of the right subtree |
| `RbRemove.Splice` | impl/fs/bilby/c/rbt.c:261-286 | the successor takes over place, colour and children of the erased cell |
| `RbRemove.Erase` | impl/fs/bilby/c/rbt.c:244-310 | exactly the given cell leaves the in-order sequence, and the tree is a valid red-black tree again |
| `RbWalk.First` | impl/fs/bilby/c/rbt.c:315-325 | the first cell of the in-order sequence, or NULL for an empty tree |
| `RbWalk.Next` | impl/fs/bilby/c/rbt.c:339-365 | the cell at the next place of the in-order sequence, or NULL after the last |
| `RbWalk.Iterate` | impl/fs/bilby/c/rbt.c:312-365 | first and then next until NULL visits exactly the in-order sequence |
| `IndexShape.BucketOf` | impl/fs/bilby/c/idx.c:79-82 | 2048 buckets, and which of them holds an id |
| `ObjIndex.Index.Search` | impl/fs/bilby/c/idx.c:48-77 | finds the cell of an id if and only if the id is indexed, and otherwise the empty slot where it belongs |
| `ObjIndex.Index.GetObjAddr` | impl/fs/bilby/c/idx.c:84-97 | the answer of the map that the index refines |
| `ObjIndex.Index.InsertOrReplace` | impl/fs/bilby/c/idx.c:99-126 | an id that is new gets a cell with a zero address, an id that is known keeps its own; nothing else changes in the map |
| `ObjIndex.Index.SetObjAddr` | impl/fs/bilby/c/idx.c:128-137 | the map with that id set |
| `ObjIndex.Index.DelObjAddr` | impl/fs/bilby/c/idx.c:178-188 | the map without that id |
| `ObjIndex.Index.NextObjId` | impl/fs/bilby/c/idx.c:147-176 | the smallest indexed id above the argument in the same inode, or NIL if there is none, although buckets mix inodes |
| `ObjectId.FieldsOf` | impl/fs/bilby/c/bilbyfs.h:146-212 | what inode, type and rest an id made of them says |
| `ObjectId.MadeOf` | impl/fs/bilby/c/bilbyfs.h:146-212 | every indexed id is made of an inode, one of three types and a rest |
| `ProcObj.ProcessObj` | impl/fs/bilby/c/ostore.c:149-221 | an object is indexed unless the indexed one is at least as new; with ids made as the header file makes them, a deletion of data block (i, b) removes exactly the older ids of inode i that are not below it, a deletion of an inode all its older ids, a deletion of directory entries (i, h) that id alone if older; everything else stays |
| `ProcObj.DeletedRange` | impl/fs/bilby/c/ostore.c:178-208 | the range of ids that a deletion covers, from how its id is made |
| `ProcObj.DropOne` | impl/fs/bilby/c/ostore.c:183-194 | a deletion of a directory entry array removes that object if it is older, and no other |
| `ProcObj.Sweep` | impl/fs/bilby/c/ostore.c:195-208 | the loop over next ids removes exactly the older objects in the range of the deletion |
| `LogIndex.ReplayIsIndex` | impl/fs/bilby/c/ostore.c:149-221 | any order in which no object follows a newer deletion that covers it gives the newest object per id that no newer deletion covers |
| `LogIndex.TwoPasses` | impl/fs/bilby/c/ostore.c:992-1081 | all objects in any order and then all deletions in any order is such an order |
| `LogIndex.MountAgrees` | impl/fs/bilby/c/ostore.c:992-1081 | the two passes of a mount give exactly the index that processing in sequence order gave |
| `LogIndex.OnePassResurrects` | impl/fs/bilby/c/ostore.c:1063-1071 | with deletions in the same pass this fails: an older object met after its deletion would come back |
| `LogSummary.Summary.SumObj` | impl/fs/bilby/c/ostore.c:362-427 | the first entry that the record has to do with (of the same object; for a range deletion, an older one of the inode above it) is replaced and its count bumped, unless it is newer; without one, an entry is added |
| `LogSummary.SumOneEach` | impl/fs/bilby/c/ostore.c:362-427 | of any records, an object has at most one entry, and a directory entry array and its deletion one together |
| `LogSummary.RecordStands` | impl/fs/bilby/c/ostore.c:362-427 | after reusing, dropping or adding an entry, the entries still supersede every record so far |
| `LogSummary.SummaryOfRun` | impl/fs/bilby/c/ostore.c:413-416 | after any run over one erase-block its entries stand for all its records |
| `LogSummary.SummarySuffices` | impl/fs/bilby/c/ostore.c:362-427 | whatever else is on flash, an index is right for the entries if and only if it is right for all the records |
| `LogSummary.SummaryMount` | impl/fs/bilby/c/ostore.c:913-953 | rebuilding from the summary and other records gives the index that rebuilding from every record gives |
| `Transactions.ScanLog` | impl/fs/bilby/c/ostore.c:844-911 | the scan with its array of pending objects replays what the transaction state machine says |
| `Transactions.StepIs` | impl/fs/bilby/c/ostore.c:802-833 | which stamps complete a transaction, which continue one, and which drop what is pending |
| `Transactions.AllOrNothing` | impl/fs/bilby/c/ostore.c:811-911 | whole transactions followed by part of one: exactly the objects of the whole ones are replayed |
| `Transactions.CutReplay` | impl/fs/bilby/c/ostore.c:811-911 | cut a log of transactions at any object: the objects replayed are those of the transactions complete before the cut |
| `Transactions.TooLong` | impl/fs/bilby/c/ostore.c:874-883 | a transaction is replayed if and only if it has at most 2048 objects |
| `Restart.ReplayAnswers` | impl/fs/bilby/c/ostore.c:92-99 | for every log in order, each id is answered by the last object written under it, and not found exactly if a later deletion covers it or it was never written |
| `Restart.RestartSuffices` | impl/fs/bilby/c/ostore.c:149-221 | from a number not below those of the objects on flash, nor more than one below those of the deletions, every continuation is answered rightly, at once and after every later mount |
| `Restart.RestartNeeded` | impl/fs/bilby/c/ostore.c:169-177 | below it there is always a next record that is not: a new object that is not seen, at once or after the next mount |
| `Restart.RestartExact` | impl/fs/bilby/c/ostore.c:686-687 | the two together, as an equivalence over all continuations |
| `ObjFormat.Packed` | impl/fs/bilby/c/packobj.c:53-70 | a packed header has magic, number, position, length and a checksum that verify, and the rest of the object is unchanged |
| `ObjFormat.BlobChecks` | impl/fs/bilby/c/packobj.c:28-51 | a complete object passes the header check wherever it lies |
| `ObjFormat.SkipsGap` | impl/fs/bilby/c/wbuf.c:307-314 | padding bytes are skipped, eight at a time |
| `ObjFormat.ScanLayout` | impl/fs/bilby/c/wbuf.c:275-316 | a scan of objects and padding in any mixture returns exactly the objects, in order, with offsets and lengths, and ends with ENOENT |
| `FlashBytes.HeaderBytes` | impl/fs/bilby/c/packobj.c:53-70 | the 24 bytes of a packed header: magic, checksum of all behind it, number, length, type, position and two zeros, low byte first |
| `FlashBytes.TransBytes` | impl/fs/bilby/c/ostore.c:223-232 | in bytes: the objects of a transaction have consecutive numbers and the stamps 5, or 1, 2 and 4 |
| `FlashBytes.PadBytesAre` | impl/fs/bilby/c/wbuf.c:64-73 | padding in bytes: 0x42 below 24 bytes, else an object of type 4 filled with 0x42 |
| `FlashBytes.CheckIs` | impl/fs/bilby/c/packobj.c:28-51 | in bytes: which headers are valid, which are not there and which are corrupt |
| `FlashBytes.RecordBytes` | impl/fs/bilby/c/ostore.c:149-221 | which types have an id, where the id is, and which type is a deletion |
| `FlashBytes.LookupIs` | impl/fs/bilby/c/ostore.c:92-125 | the search through the written objects, in terms of their bytes: the last object with the id that no deletion covering it follows |
| `SumFormat.ReservedIsEnough` | impl/fs/bilby/c/ostore.c:323-326 | the space reserved for extra entries is enough for the summary that has them |
| `SumFormat.EntryBytesRoundTrip` | impl/fs/bilby/c/bilbyfs.h:580-601 | a summary entry is read back from its bytes |
| `SumFormat.SummaryReadBack` | impl/fs/bilby/c/wbuf.c:173-222 | a summary at the end of an erase-block is found through its last word and read back entry by entry |
| `SumFormat.SumSizeIs` | impl/fs/bilby/c/ostore.c:323-326 | the sizes of a summary and of the reserve for it, in numbers |
| `FlashBytes.SumBytesAre` | impl/fs/bilby/c/ostore.c:328-360 | a summary byte by byte: header, number of entries, entries of 26 bytes, and its own offset in the last word |
| `FlashBytes.SummaryIs` | impl/fs/bilby/c/wbuf.c:173-222 | what the last word of any erase-block leads to, byte by byte: no summary, a bad one, or these entries |
| `FlashBytes.EntryRecord` | impl/fs/bilby/c/bilbyfs.h:580-601 | the record of an entry: the top bit marks deletions, the rest is the offset |
| `LebModel.TransAdded` | impl/fs/bilby/c/ostore.c:524-531 | appending a stamped transaction adds its objects at consecutive offsets and keeps the erase-block well formed |
| `LebModel.ScanFinds` | impl/fs/bilby/c/ostore.c:844-911 | scanning an erase-block finds every record of its whole transactions, in order, and nothing of an unfinished one at its end |
| `LebModel.LongTransLost` | impl/fs/bilby/c/ostore.c:874-883 | a transaction of more than 2048 objects, written alone to an erase-block, is not found by a scan, which still ends with ENOENT |
| `LebCut.CutOk` | impl/fs/bilby/c/wbuf.c:98-118 | cut where no object straddles the cut, an erase-block is well formed and holds a beginning of its records |
| `LebCut.CutKeeps` | impl/fs/bilby/c/wbuf.c:98-118 | all that was on flash before the write that was cut is still there |
| `LebCut.CutFails` | impl/fs/bilby/c/packobj.c:28-51 | cut inside an object whose checksum tells, the scan fails with EINVAL |
| `LebCut.CutHeaderIff` | impl/fs/bilby/c/packobj.c:28-51 | the header check refuses an object cut short exactly if its checksum tells, and else takes it for valid |
| `StoreModel.MountRebuilds` | impl/fs/bilby/c/ostore.c:992-1081 | mounting any flash the store can produce, by summary or scan, in any order, gives the index of the synchronised records, if no two objects of one id have the same number; it is the index that the store had if its log is in the order of the numbers |
| `StoreSync.PageStep` | impl/fs/bilby/c/wbuf.c:55-118 | padding to a page and committing keeps the invariant, with everything on flash and the erase-block open |
| `StoreSync.CloseStep` | impl/fs/bilby/c/ostore.c:328-360 | padding, summary and commit keep the invariant: the flash ends with a summary that reads back as that of all its records |
| `StoreWrite.WriteStep` | impl/fs/bilby/c/ostore.c:524-568 | writing a transaction keeps the invariant: its records follow the log, its bytes are where the records say, and old objects stay |
| `StoreWrite.SumGrows` | impl/fs/bilby/c/ostore.c:362-427 | a transaction adds at most one summary entry per object |
| `StoreCut.CutCommitted` | impl/fs/bilby/c/wbuf.c:98-118 | after a commit cut between objects the medium is consistent, with the transactions complete by the cut as its synchronised records |
| `StoreCut.CutSynced` | impl/fs/bilby/c/wbuf.c:98-118 | these are at least the records that were synchronised before |
| `StoreCut.CutUnreadable` | impl/fs/bilby/c/ostore.c:1020-1060 | after a commit cut inside an object whose checksum tells, the erase-block makes every mount fail |
| `StoreStamp.WriteRoom` | impl/fs/bilby/c/ostore.c:514-522 | the room checked before a write is enough for the summary after it |
| `StoreCommit.CloseRoom` | impl/fs/bilby/c/ostore.c:336-340 | in every state with an open erase-block there is room for its summary, so the assertion never fails, and all entries fit their fields |
| `StoreRead.OrderedLookup` | impl/fs/bilby/c/ostore.c:92-125 | in a log in order, the indexed object of an id is the one that a search backwards through the written objects finds |
| `Pages.ReadPages` | impl/fs/bilby/c/wbuf.c:120-171 | reading aligned pages in large and small units yields the bytes of the object |
| `StoreStamp.SerialSize` | impl/fs/bilby/c/ostore.c:470-479 | the size of the transaction as it will lie in the buffer |
| `StoreMount.ScanObjects` | impl/fs/bilby/c/ostore.c:844-870 | stepping from object to object finds what the recursive scan finds |
| `StoreMount.ReadLeb` | impl/fs/bilby/c/ostore.c:1020-1060 | the summary if there is one, else the whole transactions of a scan; fails exactly on a bad summary or a corrupt object |
| `StoreMount.LebReadable` | impl/fs/bilby/c/ostore.c:1020-1060 | no erase-block in the state after a commit, or after one cut between objects, makes a mount fail |
| `StoreMount.CrashedMedium` | impl/fs/bilby/c/ostore.c:992-1081 | losing everything that is not on flash leaves a consistent medium with the synchronised objects |
| `StoreMount.MountScan` | impl/fs/bilby/c/ostore.c:992-1081 | the mount loops succeed if and only if every erase-block can be read, and leave the index of all records found, the used erase-blocks and the free count |
| `ObjStore.Store.FromScan` | impl/fs/bilby/c/ostore.c:1102-1139 | a scanned medium is a valid store whose log is what had been synchronised and whose numbers restart from the super object |
| `ObjStore.Store.WriteSuper` | impl/fs/bilby/c/ostore.c:693-729 | of the super object only its number is modelled: the next one, and padding it to a page takes one more if it needs an object |
| `ObjStore.Store.WriteObj` | impl/fs/bilby/c/wbuf.c:39-53 | appended to the buffer if and only if it fits; used and available space move by its length |
| `ObjStore.Store.Pad` | impl/fs/bilby/c/wbuf.c:64-78 | pad bytes below the size of a header, else a padding object that passes the header check |
| `ObjStore.Store.Commit` | impl/fs/bilby/c/wbuf.c:98-118 | what was not yet on flash is written there; the assertions of the source are its preconditions and hold at every call; `CutSync` cuts it after any page |
| `ObjStore.Store.SyncPage` | impl/fs/bilby/c/wbuf.c:55-79 | everything is on flash, the erase-block stays open with room for its summary; its contents end with exactly the padding |
| `ObjStore.Store.WriteSummary` | impl/fs/bilby/c/ostore.c:328-360 | padding and a summary object for the offset it lands at fill the buffer exactly; the summary is empty afterwards |
| `ObjStore.Store.SyncClose` | impl/fs/bilby/c/ostore.c:429-468 | everything is on flash, the erase-block is full and the summary is empty; there was room for it |
| `ObjStore.Store.Sync` | impl/fs/bilby/c/ostore.c:429-468 | after it every object written is on flash at the address of its record; the whole new state of the store: nothing, a page or a closed erase-block was written; when it closes, told from sizes |
| `ObjStore.Store.CutSync` | impl/fs/bilby/c/wbuf.c:98-118 | a sync that loses power after any number of pages, for the exact bytes being written: cut between objects it leaves a consistent medium with the transactions complete by then; cut inside an object whose checksum tells, one that does not mount |
| `ObjStore.Store.AllocEb` | impl/fs/bilby/c/fsm.c:91-117 | the first unused erase-block from 3 on, if and only if there is one and the free ones are at least the reserve for garbage collection and, unless the operation deletes, the reserve for deletions in addition; else nothing changes |
| `StoreAlloc.FreeCounted` | impl/fs/bilby/c/fsm.c:36-56 | in every state the free count is that of the unused erase-blocks from 3 on, and 3 |
| `StoreAlloc.WriteSpaceArith` | impl/fs/bilby/c/ostore.c:481-522 | whether a write finds space, and how many free erase-blocks it takes, in numbers |
| `ObjStore.Store.MakeRoom` | impl/fs/bilby/c/ostore.c:514-522 | room for the transaction and the summary that will record it, or no erase-block available; the whole new state |
| `ObjStore.Store.StampAll` | impl/fs/bilby/c/ostore.c:508-511 | consecutive sequence numbers and transaction positions; the objects are otherwise unchanged, and their bytes are determined |
| `ObjStore.Store.IndexAll` | impl/fs/bilby/c/ostore.c:543-568 | the index is that of the log with the new records, the summary that of the erase-block with them |
| `ObjStore.Store.WriteObjList` | impl/fs/bilby/c/ostore.c:481-570 | the stamped objects follow everything written before if and only if they fit the open erase-block, or the free erase-blocks suffice for the one or two that are needed, told in numbers of bytes and free erase-blocks; else nothing is written; the whole new state, with space, numbers and contents of the current erase-block; log and index stay in order |
| `ObjStore.Store.ReadObj` | impl/fs/bilby/c/ostore.c:92-125 | from the buffer or from flash, the bytes of the object last written under the id; not found exactly if there is none that has not been deleted since; in a store that went on from too low a number, the object that the index holds |
| `ObjStore.Store.Unmount` | impl/fs/bilby/c/ostore.c:1141-1160 | everything is on flash, and the next mount restarts from a number that is high enough; nothing is written if no number was handed out since mounting |
| `ObjStore.AlwaysMountable` | impl/fs/bilby/c/ostore.c:429-570 | in every state between writes to flash the medium is consistent and every erase-block can be read |
| `StoreOrder.MountOrderIs` | impl/fs/bilby/c/ostore.c:992-1081 | of every log without two objects of one id and number, the records with the objects first give the index |
| `StoreRuns.TryMount` | impl/fs/bilby/c/ostore.c:1102-1139 | ENODATA exactly on flash without anything, no super object, failure exactly if some erase-block cannot be read, else a valid store with the synchronised objects, the index of all records and the number after that of the super object; the log need not be in order, but no two objects of one id may have the same number |
| `ObjStore.Store.Format` | impl/fs/bilby/c/fsop.c:1128-1143 | erased flash becomes a valid empty store with a super object; the root inode is not part of it |
| `StoreMachine.WriteSpaceOf` | impl/fs/bilby/c/ostore.c:481-522 | whether a write finds space, and the space afterwards, follow from sizes and the free erase-blocks alone |
| `StoreEffects.SyncLebOk` | impl/fs/bilby/c/ostore.c:328-360 | what a sync writes extends the erase-block by padding and a summary only, without a record, up to the end of the page or the erase-block |
| `StoreEffects.CutWhere` | impl/fs/bilby/c/wbuf.c:98-118 | a cut goes through an object if and only if it is inside one written before, inside a padding object, or inside the summary |
| `StoreEffects.PowerCutExact` | impl/fs/bilby/c/wbuf.c:98-118 | in every state and for every cut: the store does not come back if and only if the cut goes through an object, and else it comes back with all objects, or those of the transactions complete by the cut |
| `StoreEffects.EffectKeeps` | impl/fs/bilby/c/ostore.c:429-570 | no operation loses an object that is on flash |
| `StoreEffects.EffectSpares` | impl/fs/bilby/c/fsm.c:36-56 | no operation but a deletion lowers the free erase-blocks below both reserves less one, and a deletion not below that for garbage collection less one |
| `StoreEffects.DeletionStored` | impl/fs/bilby/c/fsm.c:36-56 | while the reserve for deletions is there, a deletion that fits an erase-block is stored |
| `StoreEffects.UnmountGoesOn` | impl/fs/bilby/c/ostore.c:1141-1160 | no operation but a crash or a loss of power ends a run, and a crash right after an unmount does not either |
| `StoreRuns.RunOp` | impl/fs/bilby/c/ostore.c:429-570 | one operation of the store has the outcome of the machine: the whole next state and what it returns, or the reason why the run ends |
| `StoreRuns.RunStore` | impl/fs/bilby/c/ostore.c:429-570 | over every sequence of writes, reads, syncs, unmounts, crashes and losses of power: states and answers are those of the machine, up to the first operation for which the machine ends |
| `StoreRuns.RunKeeps` | impl/fs/bilby/c/ostore.c:429-468 | in every run, what is on flash at one point is a beginning of what is on flash at every later point |
| `StoreRuns.SyncLasts` | impl/fs/bilby/c/ostore.c:429-468 | in every run, what the store holds when a sync or an unmount returns is a beginning of what it holds ever after |
| `StoreRuns.RunSpares` | impl/fs/bilby/c/fsm.c:36-56 | in every run: while nothing is deleted, the reserve for deletions stays free, and that for garbage collection always, each less the one erase-block taken last |
| `StoreStale.StaleIndex` | impl/fs/bilby/c/ostore.c:169-177 | a record whose number is not above that of the indexed object leaves the index as it is |
| `StoreStale.StaleWrite` | impl/fs/bilby/c/ostore.c:481-570 | on a store whose number is too low, writing an object succeeds under the usual condition on space, and reading it back gives the old one |
| `StoreStale.StaleRun` | impl/fs/bilby/c/ostore.c:686-687 | for all sizes and contents: format, write twice, sync, crash, mount, write under the same id, and the read returns the object before |
| `FatBytes.Codec12` | impl/fs/vfat/cogent/plat/linux/fatent.c:122-178 | get after put returns the value, EOF for EOF, and the half byte of the neighbour stays |
| `FatBytes.PutGet12` | impl/fs/vfat/cogent/plat/linux/fatent.c:122-178 | in a table of any length, put changes the value of its entry and of no other |
| `FatBytes.PutGet32` | impl/fs/vfat/cogent/plat/linux/fatent.c:148-195 | the same for 32 bits; the four bits that do not count are kept |
| `FatBytes.PutGet` | impl/fs/vfat/cogent/plat/linux/fatent.c:122-195 | for entries of 12, 16 and 32 bits: get after put returns the value, EOF for EOF, and every other entry is as before |
| `FatBytes.PutRefines` | impl/fs/vfat/cogent/plat/linux/fatent.c:158-195 | put on the bytes is update of the sequence of entries, for every width |
| `FatBytes.CoversIs` | impl/fs/vfat/cogent/plat/linux/fatent.c:26-44 | how many bytes a table of so many entries takes, for every width |
| `FatBytes.HoldsGet` | impl/fs/vfat/cogent/plat/linux/fatent.c:122-156 | the value of an entry from its bytes, low byte first, for 12, 16 and 32 bits; bad and end marks read as the end |
| `FatBytes.PutHolds` | impl/fs/vfat/cogent/plat/linux/fatent.c:158-195 | the bytes after setting an entry, and that no other bits change |
| `FatCursor.Cursor.ReadBlock` | impl/fs/vfat/cogent/plat/linux/fatent.c:72-120 | the cursor holds one block, or two at a boundary of 12 bit entries, and points to the bytes of its entry |
| `FatCursor.Cursor.Put` | impl/fs/vfat/cogent/plat/linux/fatent.c:158-195 | through the block pointers exactly this entry of the table is set; its bytes, low byte first, and no other bits change |
| `FatCursor.Cursor.Next` | impl/fs/vfat/cogent/plat/linux/fatent.c:197-252 | the step succeeds exactly if the next entry lies in the blocks held (for one block of 12 bit entries, before its last byte), and reaches the bytes that direct addressing gives |
| `FatCursor.Cursor.CountFree` | impl/fs/vfat/cogent/plat/linux/fatent.c:666-687 | stepping inside blocks and reading the next one counts exactly the free entries |
| `FatCursor.Cursor.Read` | impl/fs/vfat/cogent/plat/linux/fatent.c:318-376 | reads the entry, moving within the blocks held where it lies in them; fails exactly outside the table |
| `FatTable.ChainDistinct` | impl/fs/vfat/cogent/plat/linux/fatent.c:555-618 | a chain that ends visits no cluster twice |
| `FatTable.ReleaseChain` | impl/fs/vfat/cogent/plat/linux/fatent.c:555-618 | freeing a chain frees its clusters and nothing else |
| `FatTable.ReleaseIff` | impl/fs/vfat/cogent/plat/linux/fatent.c:555-618 | on any table, cyclic and cross-linked ones included, freeing succeeds if and only if it starts at a chain that ends |
| `FatTable.ReleaseFrees` | impl/fs/vfat/cogent/plat/linux/fatent.c:555-618 | on any table it only turns used entries into free ones |
| `FatTable.AllSeen` | impl/fs/vfat/cogent/plat/linux/fatent.c:489-533 | the circular search sees every free entry, each once |
| `FatTable.SeenNearest` | impl/fs/vfat/cogent/plat/linux/fatent.c:483-533 | the clusters found are free, each the nearest one left in circular order, and none is skipped |
| `FatTable.NextIsNearest` | impl/fs/vfat/cogent/plat/linux/fatent.c:483-533 | the cluster allocated next is the nearest free one in circular order, if there is one |
| `FatTable.LinkedFree` | impl/fs/vfat/cogent/plat/linux/fatent.c:500-516 | linking takes exactly the linked clusters out of the free ones |
| `FatAlloc.Fat.FreeClusters` | impl/fs/vfat/cogent/plat/linux/fatent.c:555-635 | on the bytes of every table: terminates, with the number of used entries as measure, and frees what freeing in the sequence of entries frees; a known free count grows by one for each freed entry |
| `FatAlloc.Fat.Search` | impl/fs/vfat/cogent/plat/linux/fatent.c:483-533 | the nested loops over blocks and entries, linking through two cursors that may share bytes: the clusters taken are the first free ones in circular order from the one after the last allocated, linked into one chain |
| `FatAlloc.Fat.AllocClusters` | impl/fs/vfat/cogent/plat/linux/fatent.c:467-553 | succeeds if and only if there are enough (unless a valid count refuses at once; with a count that is not valid, if and only if enough entries are zero in the bytes); the clusters are the nearest free ones; on failure the table is as before; an accurate count stays accurate, and failure makes it exact |
| `FatAlloc.Fat.CountFreeClusters` | impl/fs/vfat/cogent/plat/linux/fatent.c:654-697 | a valid count stays, else it becomes the number of free clusters and valid |
| `FatWalk.WalkChain` | impl/fs/vfat/cogent/plat/linux/cache.c:252-284 | what a walk without a cache finds on a chain, the loop limit included |
| `FatWalk.WalkBytes` | impl/fs/vfat/cogent/plat/linux/cache.c:252-284 | what a walk through the bytes of any table finds where entries lead on: the cluster, the end, or an error at a free entry, outside the table or at the loop limit |
| `FatWalk.ReachesKept` | impl/fs/vfat/cogent/plat/linux/misc.c:104-166 | allocating and appending change only free entries and ends of chains, so every cluster reached before is reached after |
| `FatCache.Inode.Lookup` | impl/fs/vfat/cogent/plat/linux/cache.c:84-119 | a hit gives a cluster of the file and its cluster on disk, the one looked for or else the end of the nearest run before it; there is none only if no run starts before; the run moves to the front and the others keep their order |
| `FatCache.Inode.Merge` | impl/fs/vfat/cogent/plat/linux/cache.c:121-136 | extends the run with the same start, if there is one; the two agree on the disk cluster, so the BUG_ON never fires |
| `FatCache.Inode.Add` | impl/fs/vfat/cogent/plat/linux/cache.c:138-184 | the new run is in front, merged with the first one that starts alike or in place of the least recently used, and the others keep their order; at most eight runs, all true of the table, none ending later than before or than the new one |
| `FatCache.Inode.GetCluster` | impl/fs/vfat/cogent/plat/linux/cache.c:229-288 | reading the bytes through a cursor: status, file cluster and disk cluster are those of the walk without a cache, on every table; from the bytes alone: where entry by entry each cluster holds the number of the next one, low byte first, the answer is the cluster at that place, the end, or an error at the loop limit; the cache stays valid, and its front run holds the cluster found |
| `FatVolume.ChainAdd` | impl/fs/vfat/cogent/plat/linux/misc.c:104-166 | the chain is hung behind the file's, or nothing changes; fails exactly if the file is longer than the loop limit; a right block count stays right, so the cache is not dropped |
| `FatVolume.AddCluster` | impl/fs/vfat/cogent/plat/linux/inode.c:100-113 | the next free cluster in circular order at the end of the file, or the table as before; it succeeds exactly if a cluster can be had and the file is within the loop limit; an accurate free count stays accurate |
| `FatVolume.MarkEnd` | impl/fs/vfat/cogent/plat/linux/file.c:272-303 | the last kept cluster becomes the end; the runs cached on the way stay valid after the rest is freed |
| `FatVolume.Truncate` | impl/fs/vfat/cogent/plat/linux/file.c:241-308 | the file keeps its first clusters, the others are free, nothing else changes, and the cache is valid for the new chain |
| `FatVolume.StepOwns` | impl/fs/vfat/cogent/plat/linux/file.c:241-308 | a change to one file keeps all chains finite, ended, in use and pairwise disjoint |
| `FatVolume.StepLost` | impl/fs/vfat/cogent/plat/linux/inode.c:100-113 | the set of clusters neither free nor on a chain never changes |
| `FatRuns.Append` | impl/fs/vfat/cogent/plat/linux/inode.c:100-113 | on one of many files: the next free cluster is appended exactly if there is one and the file is within the loop limit; chains, free clusters and search position afterwards; the volume invariant with all caches and block counts |
| `FatRuns.Cut` | impl/fs/vfat/cogent/plat/linux/file.c:241-308 | on one of many files: the exact kept chain and freed clusters; the volume invariant with all caches and block counts |
| `FatRuns.Find` | impl/fs/vfat/cogent/plat/linux/cache.c:229-288 | a cached lookup in any reachable state gives the cluster at that place of the file's chain, which is what a walk without a cache finds |
| `FatRuns.RunOps` | impl/fs/vfat/cogent/plat/linux/inode.c:100-113 | on the bytes of a table of 12, 16 or 32 bit entries: every sequence of appends, truncates and lookups on the files of a volume returns the answers and leaves the chains, free clusters and search position of a machine that knows only sequences and sets; no cluster is lost |
| `FatRuns.OthersUntouched` | impl/fs/vfat/cogent/plat/linux/cache.c:229-288 | in every run, a file to which no append or truncate is directed answers lookups as before |
| `LongName.SlotRoundTrip` | impl/fs/vfat/cogent/plat/linux/module.c:664-674 | the thirteen characters of a slot, its number and checksum are read back from its bytes |
| `LongName.SlotBytes` | impl/fs/vfat/cogent/plat/linux/module.c:664-674 | where number, attribute, checksum and the two bytes of each character are in a slot |
| `LongName.ChecksumIs` | impl/fs/vfat/cogent/plat/linux/fat.h:215-224 | the checksum of a name of eleven bytes is the last of eleven words of eight bits, each the one before rotated right by one bit plus the next byte |
| `LongName.WordsExist` | impl/fs/vfat/cogent/plat/linux/fat.h:215-224 | every name has these words |
| `LongName.PadName` | impl/fs/vfat/cogent/plat/linux/module.c:600-613 | terminator and fillers up to whole slots, nothing for a length divisible by 13 |
| `LongName.BuildSlots` | impl/fs/vfat/cogent/plat/linux/module.c:660-675 | the slots, byte by byte: the last part of the name first and marked, numbers down to 1, thirteen characters each, the checksum in all of them |
| `LongNameParse.UsesBadChars` | impl/fs/vfat/cogent/plat/linux/module.c:229-260 | refuses exactly names with a control character, one of nine others, given by number, or a space at the end, so accepted names hold no zero |
| `LongNameParse.ParseLong` | impl/fs/vfat/cogent/plat/linux/dir.c:287-347 | on every directory, restarts included, the in-place parser computes the parse function, of which the next rows say what it is |
| `LongNameParse.ParseRun` | impl/fs/vfat/cogent/plat/linux/dir.c:287-347 | on the bytes of any directory: how a run of slots ends that breaks off or is complete, with the slot count, or 0 if the checksum in the slots is not the last word of the alias |
| `LongNameParse.ParseNoRun` | impl/fs/vfat/cogent/plat/linux/dir.c:304-311 | no run starts at an entry whose first byte is not 64 and a number from 1 to 20 |
| `LongNameParse.StoreBytes` | impl/fs/vfat/cogent/plat/linux/dir.c:319-327 | where the characters of a slot go, and the terminator after the last one |
| `LongNameParse.ParseBuilt` | impl/fs/vfat/cogent/plat/linux/dir.c:315-336 | slots that were built parse to their characters from any point on, and are counted if their checksum is that of the alias |
| `LongNameParse.ParseStored` | impl/fs/vfat/cogent/plat/linux/dir.c:287-347 | with any checksum in the slots: the name comes back, and the count is that of its slots or 0, as the checksum is the last word of the alias or not |
| `LongNameParse.LongNameRoundTrip` | impl/fs/vfat/cogent/plat/linux/dir.c:287-347 | a name of 1 to 255 units, stored anywhere in a directory before its alias, parses to the same zero-terminated name, the right slot count and a matching checksum |
| `TopoSort.BuildGraph` | regression/testspec.py:164-170 | for every test its children and the number of its dependencies |
| `TopoSort.Finish` | regression/testspec.py:181-184 | counts and heap describe exactly what can run once one more test is done |
| `TopoSort.StuckCycle` | regression/testspec.py:186-190 | where every remaining test waits for a remaining one, there is a cycle |
| `TopoSort.Acyclic` | regression/testspec.py:149-191 | an order of all tests with dependencies first exists only without a cycle |
| `TopoSort.Sort` | regression/testspec.py:149-191 | a permutation with dependencies first, in which of two tests that can both run the one with the smaller priority number is first, and with equal numbers the one that is a proper prefix or has the smaller character where they differ; a test that does not run waits for one that does not run; when all dependencies are tests it fails exactly if there is a cycle |

## Left out

BilbyFs:

- Garbage collection, garbage counts and dirty space (`gc.c`, `gim.c`): an allocation that would collect fails instead, and writes with the flag that only the collector uses are not modelled.
- I/O errors and failing allocations of memory; CRC-32 is an arbitrary function of the bytes.
- The bytes of the super object's erase-block: the medium keeps the number of the newest super object, and writing a new one is a single step.
- ObjStore.Store.WriteSuper: models the number of the super object, not its bytes.
- ObjStore.Store.Format: does not write the root inode; that is an ordinary write of the file system above.
- StoreRuns.RunStore: a loss of power is modelled inside a sync and inside the closing of an erase-block, which a write does in the same way when it needs room; a write to flash loses its last pages, and pages are not torn themselves. A cut object that its checksum does not tell ends the run.
- StoreRuns.TryMount: requires that no two objects of one id have the same number, as they can after a restart from too low a number; which of them a mount then finds depends on the order of the erase-blocks.
- ObjStore.Store.WriteObjList: requires at most 2048 objects, that the transaction and its own summary fit an empty erase-block, and that the 64-bit sequence number does not wrap around. The source asserts or presumes the last two; of a longer transaction, which it accepts, `LebModel.LongTransLost` says that a scan loses it.
- ObjStore.Store.ReadObj: takes the maximal I/O size to be a multiple of the minimal one, without which the assertion after the page loops fails.
- The mode without summaries, and the variant of reading an erase-block that stops at the first blank page.
- Object contents beyond the common header (inodes, directory entry arrays, data), with the deletion code of `dentarr.c`, and everything above the object store (`fsop.c`, VFS glue).
- `rbt_last`, `rbt_prev` and `rbt_replace_node`: mirror images, or not used by the index.
- Addresses of tree cells are numbers and memory is a map from them, so the packing of the colour into the parent pointer is not modelled; the buffers are sequences that the methods reassign.

FAT:

- FatAlloc.Fat.constructor: requires cluster numbers below the ones that read as bad or as the end of a chain; the limits that `inode.c` checks for this come from `msdos_fs.h`, which is not part of this model, as do the marks themselves.
- Locks and interleavings, write-back of blocks, mirrored tables, discard requests, directory sync, and failing allocations of cache entries.
- `fat_bmap`, directory scans by name, time stamps, and making the 8.3 alias; the alias is any short name that is neither deleted nor free.
- Conversion of names to UTF-16; the model starts from the units.

Regression driver:

- `find_cycle`, which only words the error message, the sort by priority that precedes the main loop and does not influence the result, and reading test files; the heap is a set from which the least element is taken.
