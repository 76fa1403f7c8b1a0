# A verified model of the storage engine

The engine keeps rows (column families of a key) of many column families. A mutation is appended to a
commit log and merged into the memtable of its family; a memtable that is too full is swapped for an empty
one, written to an SSTable in the background, and marked as synced in the log's header; on recovery the log
is replayed, skipping what the header says is synced. This project models that engine bottom-up and proves
what each layer promises to the one above it.

Mutable code keeps its form: classes with the source's fields, loops with invariants, nodes relinked in
place. Each such method is proved against a definition on values, and the laws are lemmas about these
definitions.

| files | what they model |
|---|---|
| `RbShape`, `RbTree` | the red-black tree of db/tree.h: shapes and contexts as values, then the linked nodes |
| `SplayShape`, `SplayTree` | the top-down splay tree of db/tree.h, in the same two layers |
| `DictTables`, `DictOps`, `DictHistory`, `DictProgress`, `Dicts`, `DictIteration` | utils/dict.c: two tables as chains, every operation and every history on values, how a rehash gets done, the linked tables, the iterators |
| `CStrings`, `Columns`, `ColumnMerge`, `ColumnSets` | names, priority, column sets as sorted sequences, merging, the set on the tree |
| `Codec`, `Layouts`, `Buffers`, `Families`, `Catalogues` | encodings and decodings of everything down to bytes, where each field stands, the growable buffer, the (de)serialising methods, the families of a configuration |
| `MemTables`, `MemTableObjects` | the memtable as a value and as an object |
| `Bits`, `Crc32` | CRC-32 bit by bit, the table, the byte-wise loop |
| `Files`, `LogHeaders`, `LogHistory`, `CommitLogs`, `CommitLogStage` | framed blocks in a file, the header with its bitmap, what a header says about a history, every run of the commit-log thread, the thread's objects on a file's bytes |
| `Recovery`, `TornLogs`, `HeaderBlocks`, `Damage`, `Recoverer` | the scan and recovery as definitions on bytes; logs that were cut off, damaged or continued by other bytes; what becomes of a header block taken for a record; what the checksum notices; the loops |
| `StoreSystem`, `StoreRuns` | all families, the queue of the commit-log thread and the log files as one step machine; what its runs dispatch, and that the queue drains |
| `TaskRefs`, `FlushProtocol`, `FlushOutcomes`, `ColumnFamilyStores` | the reference count of a flush task, load by load and store by store; flush tasks, flushing list and SSTable list as a step machine with every interleaving; which steps may come when, and when a flush succeeds; the store object whose critical sections are its steps |
| `BloomFilters`, `SsTables`, `SsTableObjects` | the bloom filter, data and index blocks, `flushToDisk` |

The results to read first:

- **Trees.** `RbTree.Head.RbInsert`, `RbTree.Head.RbRemove`, `RbShape.HeightBound`; `SplayShape.SplayDivides`
  with `SplayTree.Head.Splay`.
- **Dictionary.** `DictHistory.EveryHistory`, `DictHistory.NothingMoves` and the methods of `Dicts.Dict` (one finite map at every stage of
  a rehash); `DictOps.AddLoad` (how full the tables get), `DictProgress.RehashGetsDone`; `DictIteration.EveryWalk` (safe iterators).
- **Merging.** `ColumnMerge.MergeAllIsMaximum`, `ColumnMerge.MergeCommutesIffNoTie`,
  `MemTables.ReadIsTheWinner`, `MemTables.MarksAreLatest`, `ColumnMerge.MergeReturnIs`.
- **Log.** `CommitLogs.EveryMomentDecides`, `Recovery.ScanFromBoundary`, `TornLogs.ScanTorn`,
  `TornLogs.ScanThenJunk`, `StoreSystem.ScanRestores`, `StoreSystem.RotationCovers`, `StoreRuns.QueueDrains`,
  `Recoverer.AuxiliaryRecover`.
- **Flush.** `FlushProtocol.NothingIsLost`, `FlushOutcomes.NextIffInOrder`, `FlushOutcomes.ListedIff`,
  `FlushOutcomes.FlushSucceeds`, `FlushProtocol.FreedOnceIffNotRaced`, `SsTables.FlushHoldsTable`,
  `BloomFilters.ProbeIs`.

Eight promises hold only in part, and the lemmas say exactly when:

- A flush task is to be freed once. `decrFlushTask` (db/columnFamilyStore.c:53-60) decrements and tests without a
  lock, on two threads. `FlushProtocol.FreedOnceIffNotRaced`: it is freed exactly once if and only if neither
  handler's decrement falls between the other's decrement and its test; otherwise it is freed twice or never, and
  `FlushProtocol.FreedTwiceOrNever` has the runs. `FlushProtocol.FreedOnceWhenLocked`: holding `ft->mutex` around
  `decrFlushTask` secures it. No other step is ever made on a freed task (`FlushProtocol.TaskStepKeeps`).
- Recovery of a whole log (`Recovery.RecoversIffSynced`, `StoreSystem.RecoverRestoresIffSynced`): positions
  start at 0 (db/commitLog.c:59), so a family that was written and never synced in a file sends recovery to
  position 0, where the header block is taken for a mutation. Recovery restores the memtables exactly when every
  family written in the file was synced in it. Otherwise nothing is inserted: recovery returns -1, or a reader
  leaves its buffer, and C leaves open what follows. `Recovery.HeaderOutcome` says which, from the header;
  `HeaderBlocks.UnsyncedLogLeaves` says that it is the latter before any sync, unless there are four families;
  `StoreSystem.FirstCrashLosesAll` is a run of one insert. From behind the header the scan is right without any
  such condition (`StoreSystem.ScanRestores`).
- The checksum of a record is computed over the bytes that deserialising consumed. `Damage.DamageIsNoticed`: a
  burst of up to four bytes is noticed unless it changes their number; `Damage.DamageMayPass` has the records that
  pass.
- A sync records the end of the file as an int: `LogHistory.SyncReflects` holds exactly below 2^31.
- A sync before the first write dereferences no log: `CommitLogs.RunSurvives`.
- `writeLong` keeps four bytes: `Codec.LongRoundTrip`, `SsTables.IndexReadsBack`.
- The wrapped difference of timestamps: `Columns.PriorityIsByTime`, and `Columns.PriorityMayCycle` for the
  circle it allows; the laws of merging therefore take timestamps from a window narrower than 2^31.
- `_dictNextPower` returns a power of two exactly for sizes below the largest long: `DictTables.NextPowerIs`.

Assumptions that come from outside the modelled code: allocation and I/O succeed, except where a failure is
a step of the flush protocol; `dispatchStage` is a first-in first-out queue with one worker a stage
(db/columnFamilyStore.h:9-14), the seda sources are not part of this model; the CRC table was generated
before its use, for which no caller is in the repository; hash functions are any functions.

## Model

| member | source | states |
|---|---|---|
| RbTree.Head.RotateLeft | db/tree.h:351-369 | the relinking of parent, children and root is the rotation of the tree, wherever in the tree it stands |
| RbTree.Head.RotateRight | db/tree.h:371-389 | the mirror image |
| RbShape.RotateInOrder | db/tree.h:351-389 | a rotation, whatever it does to the colours, keeps the order of the nodes |
| RbShape.RedUncleInv | db/tree.h:413-420 | recolouring under a red uncle moves the only possible red-red pair two levels up and keeps order and black heights |
| RbShape.OuterTurnRight | db/tree.h:427-428 | after the turn over the grandparent there is no red-red pair left and the order is kept |
| RbTree.Head.RbInsertColor | db/tree.h:405-448 | repairs a red node under a red parent: red-black afterwards, same nodes in the same order; the loop ends |
| RbTree.Head.RbInsert | db/tree.h:593-622 | returns the node of that name and changes nothing, or puts exactly the new node at its place; search order, parent links, black root, colours and black heights hold again |
| RbShape.SiblingExists | db/tree.h:454-466 | wherever the deficit is, there is a sibling to look at, of one more black height |
| RbShape.RedSiblingLeft | db/tree.h:458-462 | the red sibling is turned up and the deficit moves down under a black sibling; the order stays |
| RbShape.BlackNephews | db/tree.h:463-469 | with two black nephews the deficit moves up one level and the order stays |
| RbShape.InnerNephewLeft | db/tree.h:471-479 | the inner red nephew is turned above the sibling; the deficit and the order stay |
| RbShape.OuterNephewLeft | db/tree.h:480-486 | turning the sibling over the parent makes the whole tree red-black again, in the same order |
| RbTree.Head.RbRemoveColor | db/tree.h:450-524 | gives back the black node that a subtree is short of: red-black, same order; the loop ends although its red-sibling case goes down |
| RbTree.Head.RbRemove | db/tree.h:525-591 | for any tree and any node of it: exactly this node goes, the order of the others stays, and the whole red-black invariant with its pointers holds again |
| RbTree.Head.RbFind | db/tree.h:624-640 | the node of the name, or null exactly when no node has it |
| RbTree.Head.RbMinMax | db/tree.h:663-676 | the first or the last node in the order of the names, null for an empty tree |
| RbTree.Head.RbNext | db/tree.h:642-661 | the node right behind the given one in the order of the names, null behind the last: from RB_MIN on, RB_FOREACH meets every node once, in increasing order |
| RbShape.HeightBound | db/tree.h:47-54 | a tree of n nodes is at most 2 lg(n + 1) high, stated as 2^height <= (n + 1)^2 |
| SplayShape.LoopOrder | db/tree.h:217-249 | every step of the top-down loop keeps the elements of the two side trees and of the middle one in their order |
| SplayShape.SplayDivides | db/tree.h:217-249 | splaying keeps all elements in order; everything left of the new root is below the name and everything right of it above; the root has the name exactly when some element has it |
| SplayTree.Head.Splay | db/tree.h:217-287 | SPLAY and SPLAY_MINMAX on the linked nodes, with the stack node and the two holes, make of the tree what the definition on values says |
| SplayShape.InsertIs | db/tree.h:172-195 | inserting puts the element between what is below and what is above it, and is refused exactly when the name is there |
| SplayTree.Head.SplayInsert | db/tree.h:172-195 | null and the element at its place, or the element of that name and the same sequence |
| SplayShape.RemoveIs | db/tree.h:197-215 | removing takes out exactly the element of the name, and succeeds exactly when there is one |
| SplayTree.Head.SplayRemove | db/tree.h:197-215 | the same on the linked nodes |
| SplayTree.Head.SplayFind | db/tree.h:136-146 | the element of the name or null when there is none; the sequence of elements stays |
| SplayTree.Head.SplayNext | db/tree.h:148-160 | the element right behind the given one; the sequence of elements stays |
| SplayTree.Head.SplayMinMax | db/tree.h:251-299 | the first or the last element; the sequence of elements stays |
| CStrings.StrCmpZeroIffEqual | db/column.c:3-10 | the comparison of names is zero exactly for equal names |
| CStrings.StrCmpTransitive | db/column.c:3-10 | it is transitive, so it orders the tree |
| CStrings.StrCmpDecides | db/column.c:3-10 | a name comes before those that go on after it, and else the first character in which two names differ decides |
| Columns.PriorityIsByTime | db/column.c:82-92 | the greater `del` decides; between columns of one `del`, the wrapped 32-bit difference decides as the timestamps do exactly when their true difference fits an int |
| Columns.PriorityMayCycle | db/column.c:82-92 | without such a window three columns can each beat the next in a circle |
| Columns.PutLookup | db/column.c:207-229 | adding a column changes the entry of its name only, and leaves there the better of the two, the incumbent on a tie |
| Columns.PutSorted | db/column.c:207-229 | the set stays sorted with one column a name, and grows exactly when 1 is returned |
| Columns.PutReturnTells | db/column.c:207-229 | 1 is returned exactly when no column had the name, -1 exactly when the set stays as it was, and 0 exactly when the column of the name gave way to the new one |
| ColumnSets.ColumnSet.AddColumn | db/column.c:207-229 | on the tree, with RB_FIND, RB_REMOVE and RB_INSERT: the new set is that of the definition, the result and `elemCount` with it |
| ColumnSets.AddColumnSet | db/column.c:232-265 | draining the source node by node leaves the merge in the target and nothing in the source; what it returns is said by `ColumnMerge.MergeReturnIs` |
| ColumnMerge.MergeReturnIs | db/column.c:232-265 | that is -1 exactly when every name of the source is in the target already, also when the source has none, and otherwise the number of its names that the target does not have |
| ColumnSets.ColumnSet.FindCSColumn | db/column.c:314-326 | the column of the name, or null exactly when the set has none |
| ColumnMerge.MergeLookup | db/column.c:232-265 | after a merge a name stands for the better of the two columns, the target's on a tie |
| ColumnMerge.MergeIdempotent | db/column.c:232-265 | merging a set into itself changes nothing |
| ColumnMerge.MergeAssociative | db/column.c:232-265 | with timestamps in one window narrower than 2^31, merging is associative |
| ColumnMerge.MergeCommutesIffNoTie | db/column.c:82-92 | in such a window the order of merging matters exactly when some name is tied between two different columns |
| ColumnMerge.MergeAllIsMaximum | db/column.c:207-265 | after any number of merges every name is left with the maximum by (del, timestamp) of all that arrived, the earliest of those that tie; a name is absent exactly when none arrived |
| Codec.IntRoundTrip | serialize/serialize.c:7-39 | an int is read back, four bytes on |
| Codec.UnsignedRoundTrip | serialize/serialize.c:71-99 | an unsigned int is read back |
| Codec.LongRoundTrip | serialize/serialize.c:41-70 | a long is read back exactly when it fits an int, because four bytes are kept |
| Codec.BytesRoundTrip | serialize/serialize.c:102-143 | length-prefixed bytes are read back, whatever follows them |
| Codec.ColumnRoundTrip | db/column.c:105-158 | a column is read back |
| Codec.ColumnSetRoundTrip | db/column.c:267-300 | a column set is read back in its order: adding the columns one by one rebuilds it |
| Codec.FamilyRoundTrip | db/columnFamily.c:116-157 | a family is read back |
| Codec.MutationRoundTrip | db/rowMutation.c:28-75 | a mutation with NUL-free strings is read back: keyspace, key, family and columns; exactly its bytes are consumed, whatever is around them |
| Layouts.ColumnLayout | db/column.c:105-119 | where in the bytes of a column its name, value, timestamp and delete mark stand, and how many there are |
| Layouts.FamilyLayout | db/columnFamily.c:116-132 | where the two delete marks, the number of columns and each column stand |
| Layouts.MutationLayout | db/rowMutation.c:28-41 | where keyspace, key and family name stand, and the family |
| Layouts.HeaderLayout | db/commitLog.c:157-177 | where the counts and the position of each family stand in a log header, and which bit of which byte marks it dirty |
| Layouts.FilterLayout | db/bloomFilter.c:85-96 | where the counts and the bytes of a filter stand |
| Layouts.BytesRead | serialize/serialize.c:122-143 | on any bytes, reading a byte array fails exactly when its length is cut off or has its top bit, and succeeds exactly on what `writeBytes` writes; otherwise the copy leaves the buffer |
| Layouts.UnknownRefused | db/rowMutation.c:42-75 | a mutation of a family that is not known or not standard is refused, whatever follows its names |
| Layouts.NegativeCount | db/column.c:281-300 | a column set with a negative count is read as an empty one |
| Layouts.HeaderRead | db/commitLog.c:208-242 | a log header whose bitmap can be read is refused exactly when its family count is negative or there are not the positions of so many families |
| Buffers.Buffer.Reserve | serialize/buffer.c:20-36 | afterwards more than `len` bytes are free and what was written is kept, in the old array or a larger one |
| Buffers.Buffer.Reset | serialize/buffer.c:46-51 | the cursor goes back and no byte changes |
| Buffers.Buffer.WriteInt | serialize/serialize.c:7-25 | appends the four bytes and never writes outside the buffer; `writeLong` and `writeUnsignedInt` are the same loop |
| Buffers.Buffer.WriteBytes | serialize/serialize.c:102-117 | appends the length and the bytes inside the buffer |
| Buffers.Buffer.WriteByte | serialize/serialize.c:145-154 | appends the byte inside the buffer |
| Buffers.Buffer.ReadInt | serialize/serialize.c:26-39 | the decoded number and cursor, or failure with the cursor unmoved |
| Buffers.Buffer.ReadUnsigned | serialize/serialize.c:86-99 | the decoded number and cursor, or failure with the cursor unmoved |
| Buffers.Buffer.ReadBytes | serialize/serialize.c:122-143 | the decoded bytes and cursor; or failure, without a length or the memory for it; or that the copy leaves the buffer |
| Buffers.Buffer.ReadByte | serialize/serialize.c:155-162 | the decoded byte and cursor, or failure with the cursor unmoved |
| Families.SerializeColumn | db/column.c:105-119 | appends the encoding of the column |
| Families.DeserializeColumn | db/column.c:122-158 | on any bytes, a fresh node with the decoded column, or the failure, or that a string leads outside |
| Families.SerializeColumnSet | db/column.c:267-279 | RB_FOREACH appends the encoding of the set in the order of the names |
| Families.DeserializeColumnSet | db/column.c:281-300 | on any bytes, the loop of reads and `addColumn` fills the set with what they stand for, or ends as decoding does |
| Families.SerializeCF | db/columnFamily.c:116-132 | appends the encoding of the family |
| Families.DeserializeCF | db/columnFamily.c:134-157 | on any bytes, the decoded family, or as decoding ends |
| Families.InsertCF | db/columnFamily.c:160-192 | delete marks become the later ones (`MemTables.MergedMarks`) and the columns the merge; a family of another name is refused, returns -1 and changes nothing |
| MemTables.MergedMarks | db/columnFamily.c:177-180 | each delete mark of a merged family is at or above both that it comes from, and one of them |
| Families.AddCFColumn | db/columnFamily.c:226-239 | only the column set changes, as `addColumn` says |
| Families.FindCFColumn | db/columnFamily.c:194-209 | the column of the name, or null exactly when there is none |
| Families.SerializeRM | db/rowMutation.c:28-41 | appends the encoding of the mutation |
| Families.DeserializeRM | db/rowMutation.c:42-75 | on any bytes, the decoded mutation with the cursor behind exactly its bytes, an unknown family refused, or as decoding ends |
| Catalogues.EachItsNumber | config/config.c:156-175 | whatever the configuration, the numbers of the families are those below their count, each the number of one family: `cfID` is an index into the header and names one memtable |
| MemTables.FoldIsMergeAll | db/memTable.c:233-259 | a memtable has exactly the keys that arrived; a key has all its column sets merged in the order of their arrival |
| MemTables.MarksAreLatest | db/columnFamily.c:160-180 | after any mutations, each of the two delete marks of a key is at or above that of every mutation of the key, and equals that of one of them |
| MemTables.StallsWhen | db/memTable.c:248-258 | a mutation takes one off `columnCount` exactly when its key arrived before and each of its column names, too, in some earlier mutation of the key; otherwise it adds the number of its names that are new |
| MemTables.CountPlusStalls | db/memTable.c:233-259 | `columnCount` plus the number of mutations that brought a known key nothing but known names is the total number of columns |
| MemTables.FlushedMeansFull | db/memTable.c:280-291 | a flush is asked for exactly when the true total exceeds the threshold by more than the number of those mutations: never too early |
| MemTables.ReadIsTheWinner | db/memTable.c:293-315 | a read gives, of all columns of the name that ever arrived for the key, the maximum by (del, timestamp), the earliest of those that tie, and nothing exactly when none arrived |
| MemTableObjects.MemTable.InsertMemTable | db/memTable.c:233-259 | the family is taken over or drained into the one that is there; the new rows, the count and the result are those of the definition, and rows share nothing |
| MemTableObjects.MemTable.NeedFlush | db/memTable.c:280-291 | 1 exactly above the threshold, -1 exactly for a negative count |
| MemTableObjects.MemTable.FindColumn | db/memTable.c:293-315 | the column that the memtable has for key and name, or null exactly when there is none |
| Crc32.GenerateTable | utils/crc32.c:50-72 | the nested loops fill the table with eight bit-serial steps of each byte |
| Crc32.TableStep | utils/crc32.c:32-43 | one table step is eight steps of the bit-serial CRC-32 (section 8 of RFC 1952) |
| Crc32.Checksum | utils/crc32.c:32-43 | with a generated table the checksum of any bytes is the bit-serial CRC-32 |
| Crc32.PolyIs | utils/crc32.c:50-72 | the polynomial of the table is that of section 8 of RFC 1952, exponent by exponent |
| Crc32.CrcOfOnes | utils/crc32.c:32-43 | the register begins with ones and is complemented at the end: no bytes have the checksum 0, four bytes of ones that of all ones |
| Crc32.FeedInjective | utils/crc32.c:32-43 | each step is injective in the register |
| Crc32.BurstDetected | utils/crc32.c:32-84 | messages of one length that differ only inside four bytes in a row, one byte included, never share a checksum |
| Files.ReadFrame | utils/auxilFile.c:69-114 | a written block is read back from its position, with the next position |
| Files.ReadOtherFrame | utils/auxilFile.c:91-114 | a written block of no bytes fails without the end-of-file mark, one whose length does not fit an int leaves the buffer, and one that is cut off anywhere is the end of the file |
| Files.FileAbstract.WriteAppend | utils/auxilFile.c:69-87 | the bytes from the cursor on become the length and the data of the block; everything else stays |
| Files.FileAbstract.ReadFile | utils/auxilFile.c:91-114 | appends the block at the cursor to the buffer, or fails, noting the end of the file, or leaves the buffer on a negative length, as `ReadBlock` says; `Files.ReadFrame`, `Files.ReadOtherFrame` and `TornLogs.ReadBlockCut` say which it is |
| Files.FileAbstract.Seek | utils/auxilFile.c:61-66 | moves the cursor and clears the end-of-file mark |
| LogHeaders.WithDirtyOnly | db/commitLog.c:90-156 | setting or clearing a family's bit changes this bit of the bitmap and no other |
| LogHeaders.HeaderLength | db/commitLog.c:157-177 | the encoded length of a header depends on the family count only |
| LogHeaders.HeaderRoundTrip | db/commitLog.c:157-242 | a header is read back: bitmap and positions |
| LogHeaders.LeastBelow | db/commitLog.c:180-207 | the first dirty position is at or before that of every dirty family |
| LogHeaders.LeastHeld | db/commitLog.c:180-207 | and it is that of some dirty family |
| LogHeaders.CLHeader.constructor | db/commitLog.c:51-76 | a new header: nothing dirty, every position 0 |
| LogHeaders.CLHeader.SetDirty | db/commitLog.c:90-156 | `setDirty` and `clearDirty` on the byte array, entries outside ignored |
| LogHeaders.CLHeader.SetEntryPos | db/commitLog.c:109-120 | stores the position |
| LogHeaders.CLHeader.TestDirty | db/commitLog.c:121-138 | reads the bit |
| LogHeaders.CLHeader.FirstDirtyPos | db/commitLog.c:180-207 | the loop over the bitmap finds the least position of a dirty family, -1 when none is dirty |
| LogHeaders.CLHeader.Serialize | db/commitLog.c:157-177 | appends the encoded header |
| LogHistory.AcceptedIffNotSynced | db/commitLog.c:466-480 | a record is replayed exactly when no sync of its family came after it |
| LogHistory.CoveredBeforeAppend | db/commitLog.c:435-464 | the header that is on disk before the append already covers the record, and still decides about every earlier one as before |
| LogHistory.AppendReflects | db/commitLog.c:435-464 | after the append the header decides rightly about the new history |
| LogHistory.SyncReflects | db/commitLog.c:563-584 | after a sync it does so exactly when the end of the file fits an int |
| CommitLogs.RewriteHeader | db/commitLog.c:394-433 | rewriting the header block in place leaves every record byte for byte |
| CommitLogs.AppendRecord | utils/auxilFile.c:69-87 | appending a block at the end of a log adds exactly one record |
| CommitLogs.RunValid | db/commitLog.c:367-391 | whatever tasks the commit-log thread got, through any rotations, every file is right and together they tell exactly these tasks |
| CommitLogs.RunSurvives | db/commitLog.c:563-584 | the thread survives its tasks exactly when the first of them is a write: a sync before it dereferences no log |
| CommitLogs.RunRotates | db/commitLog.c:367-391 | in every run, each log that was given up is longer than the size limit, and no record of any log begins behind it |
| CommitLogs.HeaderDecides | db/commitLog.c:180-207 | the first dirty position is 0 or a block boundary and at or before every accepted record; accepted are exactly the records that no sync followed |
| CommitLogs.EveryRunDecides | db/commitLog.c:435-480 | so it is for every record in every file of every run of writes, rotations and syncs, with the record whole at its place |
| CommitLogs.EveryMomentDecides | db/commitLog.c:435-464 | and at every moment in between: after `beforeWrite`, and when the mark is on disk and the record is not |
| CommitLogs.PendingIsCovered | db/commitLog.c:447-462 | at that moment the record to come is already accepted at the end of the file, and replay would start at or before it |
| CommitLogStage.CommitLog.constructor | db/commitLog.c:265-326 | a new log file holds the header block alone |
| CommitLogStage.CommitLog.WriteHeaderSyn | db/commitLog.c:394-433 | overwrites the block at the front and puts the cursor back where it is asked to |
| CommitLogStage.CommitLog.Mark | db/commitLog.c:450-456 | the file's bytes with the family marked in the header block and no record yet |
| CommitLogStage.CommitLog.Append | db/commitLog.c:435-464 | marks the family, writes the header, appends the record, on the file's bytes |
| CommitLogStage.CommitLog.Syn | db/commitLog.c:563-584 | clears the family's bit, stores the end of the file and rewrites the header |
| CommitLogStage.Stage.BeforeWrite | db/commitLog.c:367-391 | makes the first log, or shelves a log that has outgrown its size and starts the next |
| CommitLogStage.Stage.WriteCommitLog | db/commitLog.c:435-464 | seals the mutation with its checksum and writes it: the files become what the step on values says |
| CommitLogStage.Stage.SynCommitLog | db/commitLog.c:563-584 | the same for a sync, which the process survives exactly when there is a log |
| Recovery.RecordRoundTrip | db/commitLog.c:504-522 | a record is read back whole with its checksum right, whatever the buffer still holds behind it |
| Damage.DamageIsNoticed | db/commitLog.c:508-523 | a record with up to four damaged bytes in a row either is not read as a mutation, and fails as that does; or is read as one of the same length, and its checksum is wrong; or is read as one of another length, and only then it may pass |
| Damage.DamageMayPass | db/commitLog.c:508-523 | for any names there is a mutation whose record passes, with its column lost, after one byte of the column count was damaged |
| Crc32.CrcOnto | utils/crc32.c:32-43 | between any bytes, four can be chosen that give the whole any checksum |
| Recovery.ScanFromBoundary | db/commitLog.c:483-528 | from any block boundary the scan meets every record whole and inserts, in file order, exactly those that no sync of their family follows |
| Recovery.RecoverFromPosition | db/commitLog.c:529-556 | when the first dirty position is behind the header, recovery inserts exactly the records of the whole file that no sync followed |
| Recovery.RecoverFromZero | db/commitLog.c:529-556 | from position 0 the header block is taken for a mutation first: the records are inserted exactly when it passes for one that is not wanted; recovery returns -1 when reading it fails, and leaves its buffer when reading it does |
| Recovery.FirstDirtyZero | db/commitLog.c:180-207 | the first dirty position is 0 exactly when some family was written in this file and never synced in it |
| Recovery.RecoversIffSynced | db/commitLog.c:529-556 | recovery inserts what it should exactly when every family written in the file was also synced in it; otherwise it inserts nothing, and returns -1 or leaves its buffer at the header block |
| TornLogs.ReadBlockCut | utils/auxilFile.c:91-114 | in a file that is cut off, a block that ends before the cut is read the same, and one that the cut meets is the end of the file |
| TornLogs.ScanTorn | db/commitLog.c:483-528 | a log cut off anywhere, with any of its records damaged so that their checksum is wrong: from any boundary the scan returns 0 and inserts, in order, exactly the records that are whole, not damaged, and that no sync of their family follows |
| TornLogs.RecoverTorn | db/commitLog.c:529-556 | the same for recovery, when the first dirty position is not 0 |
| TornLogs.TornAppend | db/commitLog.c:435-464 | a crash anywhere in the middle of an append costs that record only |
| TornLogs.ChecksumSpoilt | db/commitLog.c:504-523 | a record with a wrong checksum is such a damaged one |
| TornLogs.BurstSpoilt | db/commitLog.c:504-523 | so is one with up to four damaged bytes in a row that still is a mutation of its length |
| TornLogs.ScanThenJunk | db/commitLog.c:504-517 | bytes that nobody wrote as records, behind the others: these are inserted first; then a length or a block cut off returns 0, a length of 0 or a block that is no mutation returns -1, and a negative length, or a block that leads a reader outside, leaves the buffer |
| TornLogs.NotScanned | db/commitLog.c:537-541 | a log with no dirty family, or with a negative position for a dirty one, is not scanned, whatever is in it |
| Recovery.HeaderOutcome | db/rowMutation.c:42-75 | which of the two, exactly, by the number of families, the key length that the bitmap and the positions spell, and the bytes behind it |
| HeaderBlocks.UnsyncedLogLeaves | db/commitLog.c:529-556 | the recovery of any log in which something was written and nothing synced leaves its buffer before it inserts anything, unless there are four families |
| HeaderBlocks.TwoFamilies | db/commitLog.c:157-177 | with two families it returns -1 exactly when the low byte of the first position has its top bit, and otherwise leaves its buffer |
| Recoverer.NeedReplay | db/commitLog.c:466-480 | the dirty bit and the position decide as the definition on values says |
| Recoverer.ReadRecord | db/commitLog.c:504-517 | the mutation, the checksum over exactly its bytes, and the stored checksum; or the failure, or that a reader leaves the buffer |
| Recoverer.RecoverFromCurPos | db/commitLog.c:483-528 | on any file, the loop with its one growing buffer inserts what the scan on values says and ends as it says: 0, -1, or outside its buffer; what the scan does on whole, cut off, damaged and continued logs is said by `Recovery.ScanFromBoundary`, `TornLogs.ScanTorn` and `TornLogs.ScanThenJunk` |
| Recoverer.DeserializeCLH | db/commitLog.c:208-242 | on any buffer, the decoded header, or the failure, or that the bitmap's length leads outside the buffer |
| Recoverer.AuxiliaryRecover | db/commitLog.c:529-556 | opening, seeking and scanning insert what the definition of recovery on values says and end as it says, from position 0, too |
| Recoverer.GoodLogIsSafe | db/commitLog.c:483-528 | in a log that the commit-log thread wrote, no read of the loop leaves its buffer |
| StoreSystem.InsertKeeps | db/columnFamilyStore.c:247-304 | dispatching the record, inserting, and swapping a full memtable with its sync dispatched keeps: each current memtable is the fold of its family's records that no sync follows |
| StoreSystem.ForceFlushKeeps | db/columnFamilyStore.c:309-341 | a forced flush keeps it |
| StoreSystem.LogStepKeeps | db/columnFamilyStore.c:203-210 | a step of the commit-log thread keeps it |
| StoreSystem.EveryRun | db/columnFamilyStore.c:247-341 | it holds in every reachable state |
| StoreRuns.DispatchedIsTold | db/columnFamilyStore.c:247-341 | what a run dispatches to the commit-log thread is told by its actions alone: every insert's record, in order, a sync behind each insert with which the family's mutations since its last sync fill a memtable, and a sync for each forced flush |
| StoreRuns.NextIff | db/columnFamilyStore.c:203-341 | in every reachable state inserts and forced flushes go through, and the commit-log thread can go on exactly when its queue is not empty and the first thing ever dispatched was not a sync |
| StoreRuns.QueueDrains | db/commitLog.c:435-464 | then it gets through its whole queue by itself, and leaves the files that all that was dispatched makes, and the memtables as they are |
| StoreSystem.KeptRestore | db/commitLog.c:466-480 | with the queue drained and one log file, inserting the records that replay accepts, in order, into empty memtables gives every family its current memtable, count and ties included, and fills none |
| StoreSystem.ScanRestores | db/commitLog.c:483-528 | the same through the file's bytes, the framing, the codec and the checksums, from behind the header block |
| StoreSystem.RecoverRestoresIffSynced | db/commitLog.c:529-556 | what recovery as written restores: it returns 0 and restores every memtable exactly when each family written in the file was synced in it; otherwise it has inserted nothing when it ends |
| StoreSystem.FirstCrashLosesAll | db/commitLog.c:529-556 | a reachable run of one insert and its log write after which recovery leaves its buffer with nothing inserted |
| StoreSystem.AcceptedAreSurvivors | db/commitLog.c:466-480 | the records of a family that `needReplay` accepts under a file's header are those that no sync follows in it, in their order |
| StoreSystem.RotationCovers | db/commitLog.c:367-391 | after any rotations, the records that `needReplay` accepts for a family, each under the header of its file, end with those that make up the current memtable |
| FlushProtocol.TaskStepKeeps | db/columnFamilyStore.c:46-169 | every step of a handler keeps the flush task as it should be: each handler holds its reference to its end, what was written is its memtable; and but for the test that ends `decrFlushTask`, no step is ever made on a task that was freed; which steps come when is said by `FlushOutcomes.NextIffInOrder` |
| FlushProtocol.NothingIsLost | db/columnFamilyStore.c:71-169 | under every interleaving of inserts, flushes and handlers, failures and timeouts included, what was accepted is what the memtables took, and each is in exactly one place: current, flushing, or a listed SSTable with all its rows |
| FlushProtocol.LeavesWhenListed | db/columnFamilyStore.c:123-134 | a memtable leaves the flushing list only in the step that lists the SSTable with its rows, after its sync; that it does leave is said by `FlushOutcomes.FlushSucceeds` |
| FlushProtocol.Frozen | db/columnFamilyStore.c:284-289 | a memtable that was swapped out takes no more mutations |
| FlushOutcomes.NextIffInOrder | db/columnFamilyStore.c:71-169 | in every reachable store, whatever other tasks are at: a handler of a flush task can take a step exactly when, in the order of the steps taken so far, it comes next: writer, data, reader, wait, decision, listing, none after a failure, woken only by the update, listing only when the header was updated by the decision; and log sync, then update |
| FlushOutcomes.ListedIff | db/columnFamilyStore.c:84-141 | the flush handler is at its end exactly when a step of it failed, it listed, or it decided before the update; and then the SSTable with all rows of the memtable is listed, and the memtable off the flushing list, if and only if no step failed and the header was updated when it decided |
| FlushOutcomes.OrderIsEnough | db/columnFamilyStore.c:71-169 | from every reachable store, steps of a flush task that keep to the order of its handlers are possible however they interleave with what others do |
| FlushOutcomes.FlushSucceeds | db/columnFamilyStore.c:84-134 | from every reachable store in which the handlers of a flush task have not begun: when none of their steps fails and the wait ends by the update or after it, all of them are possible, in any such order and among any steps of others, and at the end the SSTable with the rows of the memtable is listed and the memtable is off the flushing list |
| FlushOutcomes.ReleaseIff | db/columnFamilyStore.c:53-169 | a handler can take a step of `decrFlushTask` exactly when it is at its end and that step is its next; inserts and forced flushes are never held up |
| FlushOutcomes.FlushedWhenFull | db/columnFamilyStore.c:275-290 | in every run the current memtable is not full, and without forced flushes every other one is |
| FlushOutcomes.NewestFirst | db/columnFamilyStore.c:284-284 | the flushing list has the memtables in the order of their flushes, the newest first |
| TaskRefs.FreedOnceIffNotRaced | db/columnFamilyStore.c:53-60 | for every order in which two handlers load the count, store it less one, and test it: the flush task is freed exactly once if and only if neither decrement falls between the other's decrement, from its load on, and its test; never, exactly when an update is lost; otherwise twice |
| TaskRefs.RunsIffInOrder | db/columnFamilyStore.c:53-60 | the orders are exactly those in which each handler takes its own three steps one after the other |
| TaskRefs.LockedDoNotRace | db/columnFamilyStore.c:53-60 | with a lock held around `decrFlushTask` the handlers do not race |
| FlushProtocol.FreedOnceIffNotRaced | db/columnFamilyStore.c:53-169 | the same if-and-only-if for every task in every run of the whole protocol |
| FlushProtocol.FreedOnceWhenLocked | db/columnFamilyStore.c:53-169 | in every run with a lock around `decrFlushTask`, a task is freed when both handlers are through, once, and makes no step afterwards |
| FlushProtocol.EveryOrderHappens | db/columnFamilyStore.c:309-341 | without one, every order of these steps is reached from a new store, by the forced flush of an empty memtable |
| FlushProtocol.FreedTwiceOrNever | db/columnFamilyStore.c:53-60 | so there is a run that frees a task twice, and one that never frees it |
| FlushProtocol.StepKeeps | db/columnFamilyStore.c:71-169 | every step keeps the whole invariant of lists, tasks and tables |
| ColumnFamilyStores.FlushTask.Decr | db/columnFamilyStore.c:53-60 | when nothing comes in between, `decrFlushTask` frees the flush task exactly when the last reference goes |
| ColumnFamilyStores.ColumnFamilyStore.SwapTable | db/columnFamilyStore.c:275-300 | the critical section: the flush task with two references, the flushing list, the new memtable, the sync dispatched |
| ColumnFamilyStores.ColumnFamilyStore.InsertCFStore | db/columnFamilyStore.c:247-304 | is the insert step of the protocol on the real memtables; dispatches the serialised mutation, and a sync exactly when the memtable is full |
| ColumnFamilyStores.ColumnFamilyStore.ForceCFSFlush | db/columnFamilyStore.c:309-341 | is the forced flush of the protocol |
| ColumnFamilyStores.ColumnFamilyStore.ListSSTable | db/columnFamilyStore.c:125-133 | is the listing step of the protocol on the real lists |
| ColumnFamilyStores.ColumnFamilyStore.MarkUpdated | db/columnFamilyStore.c:163-167 | is the sync handler's update |
| ColumnFamilyStores.ColumnFamilyStore.LoadCount | db/columnFamilyStore.c:53-60 | the load in `decrFlushTask` of either handler is its step of the protocol |
| ColumnFamilyStores.ColumnFamilyStore.StoreCount | db/columnFamilyStore.c:53-60 | so is the store, of the count that was loaded |
| ColumnFamilyStores.ColumnFamilyStore.TestCount | db/columnFamilyStore.c:53-60 | and so is the test, which frees the flush task at zero |
| SsTables.SortIs | db/memTable.c:30-68 | the sorted entries are the keys, each once, in strictly increasing order |
| SsTables.BlockReadsBack | db/ssTable.c:157-173 | the block at a key's offset is read whole and gives the key and its family back |
| SsTables.IndexReadsBack | db/memTable.c:209-218 | an index entry gives its key back, and its offset exactly when this fits an int |
| SsTables.FlushHoldsTable | db/memTable.c:173-229 | for data files below 2^31 bytes: each key is in the SSTable once, in increasing order; from its index entry the offset, from the block there the key and the memtable's family; and the filter has it |
| SsTableObjects.SsTable.WriteSSTableData | db/ssTable.c:157-173 | appends the block and returns the position before it |
| SsTableObjects.SsTable.WriteSSTableIndex | db/ssTable.c:175-188 | appends the index block and returns the position before it |
| SsTableObjects.SsTable.OpenReadFromWrite | db/ssTable.c:189-243 | writes the filter's block and gives the reader an equal copy |
| SsTableObjects.FlushToDisk | db/memTable.c:173-229 | the loop over the sorted entries, with its two buffers, makes the three files of the definition |
| BloomFilters.ProbeInRange | db/bloomFilter.c:125-141 | for any hash function and any wrap of the arithmetic, a probe is inside the filter |
| BloomFilters.ProbeIs | db/bloomFilter.c:130-139 | probe i is the absolute value, modulo the length of the filter, of the int that is the first hash and i times the second up to multiples of 2^32; the second hash is seeded with the first |
| BloomFilters.NextProbe | db/bloomFilter.c:133-139 | where nothing wraps, each probe is the second hash further on than the one before, modulo the length |
| BloomFilters.SetBitIs | db/bloomFilter.c:136-138 | bit n is the one of weight 2^(n % 8) in byte n / 8; setting it changes no other byte, and this one by that weight unless it was set |
| BloomFilters.BitsAreEnough | db/bloomFilter.c:56-60 | a filter has more bits than probes of keys, by at most eight |
| BloomFilters.AddAllHas | db/bloomFilter.c:125-141 | no false negatives: whatever is added later, every added key stays |
| BloomFilters.AddAllOnly | db/bloomFilter.c:125-141 | the bits set are exactly those set before and the probes of the keys added, which are what `BloomFilters.ProbeIs` says |
| BloomFilters.FilterRoundTrip | db/bloomFilter.c:85-122 | a filter is read back bit for bit |
| BloomFilters.BloomFilter.constructor | db/bloomFilter.c:56-76 | a filter of whole bytes with no bit set |
| BloomFilters.BloomFilter.AddToBF | db/bloomFilter.c:125-141 | the loop sets the probes of the key and nothing else; what these are is said by `BloomFilters.ProbeIs` |
| BloomFilters.BloomFilter.SerializeBF | db/bloomFilter.c:85-96 | appends the encoded filter |
| BloomFilters.BloomFilter.Deserialize | db/bloomFilter.c:99-122 | on any bytes, the decoded filter, or as decoding ends |
| BloomFilters.BloomFilter.Dup | db/bloomFilter.c:142-160 | an equal filter that shares nothing |
| DictTables.IndexInRange | utils/dict.c:523-545 | a hash masked by size - 1 is a bucket of the table |
| DictTables.IndexIsRemainder | utils/dict.c:523-545 | in a table whose size is a power of two, it is the remainder of the hash |
| DictTables.NextPowerIs | utils/dict.c:505-515 | for sizes below the largest long, and only there, it is a power of two: the least from 4 on that is not below the size |
| DictOps.FirstFullInRange | utils/dict.c:167-170 | the loop that skips empty buckets stops inside the table |
| DictOps.RehashKeeps | utils/dict.c:152-188 | a rehash step moves entries and loses none: every entry in the bucket of its masked hash, buckets below `rehashidx` empty, no key in both tables |
| DictOps.RehashCompletes | utils/dict.c:152-188 | a rehash is complete after at most ht[0].size + 1 steps |
| DictProgress.OpGoesOn | utils/dict.c:217-219 | with no safe iterator, every add, replacement, find or delete leaves less to move of a rehash that is under way, or the second table takes over |
| DictProgress.RehashGetsDone | utils/dict.c:217-373 | so in every such history the second table has taken over after at most ht[0].size + 1 operations |
| DictOps.ExpandIfNeededKeeps | utils/dict.c:482-502 | an expansion keeps all entries and leaves a table |
| DictOps.WantedIsGranted | utils/dict.c:482-502 | an expansion that is asked for is never refused |
| DictOps.ExpandsWhenFull | utils/dict.c:482-502 | the dictionary is expanded exactly when it has no table, or is full with no rehash under way and may resize or is six times full; then an empty second table of the least power of two that holds twice the entries is there, and the first is as it was |
| DictOps.SearchIs | utils/dict.c:354-373 | a search finds the entry of the key in whichever table it is, and none exactly when there is none |
| DictOps.InsertKeeps | utils/dict.c:222-246 | inserting adds exactly the entry and keeps the invariant |
| DictProgress.InsertGoes | utils/dict.c:228-246 | the new entry is the first of the bucket that is the remainder of its hash, of the second table during a rehash, and nothing else changes |
| DictOps.RemoveKeeps | utils/dict.c:275-310 | removing takes out exactly the entry of the key |
| DictOps.NoEntryTwice | utils/dict.c:152-188 | no entry is in a table twice or in both |
| DictOps.RehashLoad | utils/dict.c:217-219 | a rehash step keeps the load |
| DictOps.AddLoad | utils/dict.c:222-246 | with resizing and no safe iterator: while rehashing, all entries plus the full buckets left are at most ht[1].size + 1; otherwise the entries at most size + 1 |
| DictOps.RemoveLoad | utils/dict.c:275-310 | removing keeps it |
| DictHistory.EveryHistory | utils/dict.c:217-373 | after every sequence of adds, replacements, finds and deletes, at every stage of every rehash, the two tables with the values of their entries are the one map that the operations make, a search finds what the map has, and the load holds |
| DictHistory.ShortHistoryRuns | utils/dict.c:482-515 | every such sequence shorter than 2^59 goes through: no table gets too long to double |
| Dicts.Dict.RehashStep | utils/dict.c:152-188 | relinking a chain between the two arrays is the step on values |
| Dicts.Dict.Expand | utils/dict.c:119-146 | DICT_ERR and no change, or the new table |
| Dicts.Dict.ExpandIfNeeded | utils/dict.c:482-502 | the expansion on the real tables |
| Dicts.Dict.Find | utils/dict.c:354-373 | the entry of the key with the map's value, null exactly when the map has no such key; the layout may change, the map does not, the load is kept |
| Dicts.Dict.Add | utils/dict.c:222-246 | the map gets the key exactly when it does not have it; the load is kept |
| Dicts.Dict.Replace | utils/dict.c:252-272 | the map gets the value either way, and the result tells which |
| Dicts.Dict.Delete | utils/dict.c:275-310 | exactly the key goes, from whichever table has it; the load is kept |
| Dicts.Dict.Size | utils/dict.h:89-89 | the two `used` counts together are the number of keys |
| Dicts.NextPowerOf | utils/dict.c:505-515 | the loop computes the power |
| DictIteration.VisitsAllOnce | utils/dict.c:402-431 | an iterator left alone returns every entry of both tables exactly once, whatever the stage of the rehash |
| DictIteration.NextIsFirst | utils/dict.c:402-431 | a call returns the first of what remains and leaves the rest |
| DictIteration.PutKeeps | utils/dict.c:222-246 | adding an entry in the middle of a walk, with an expansion if it comes to that, neither hides nor repeats any |
| DictIteration.RemoveLastKeeps | utils/dict.c:275-310 | nor does deleting the entry returned last, which is gone |
| DictHistory.NothingMoves | utils/dict.c:217-219 | from any state with a safe iterator under way, no number of adds, replacements, finds and deletes moves an entry: what was there and still is, is in its table and its bucket |
| DictIteration.EveryWalk | utils/dict.c:395-431 | in every use of a safe iterator nothing is returned twice, and at its end every entry that was there throughout has been returned |
| DictIteration.DictIterator.DictNext | utils/dict.c:402-431 | the loop over buckets and tables returns that entry, and a safe iterator announces itself once |

## Left out

- Sizes above 2 GB: buffer sizes and positions inside buffers are unbounded; strings longer than an int can count, and records so long that a log's end could pass 2^31, are excluded by `ShortStrings`, `GoodMutation` and `Fits`; families so many that the header alone outgrows the log's size limit are excluded, too.
- Codec.MutationRoundTrip: families are standard ones, because super columns are not implemented in the repository either.
- What follows when a reader leaves its buffer (`Dec.Wild`, `Status.Strayed`, `Ending.Leaves`): C leaves it open, and the methods end there; `Recoverer.GoodLogIsSafe` shows that records written by the engine never lead there. A string without its terminator counts as such even where its bytes would not come to be used: the key of a record that is dropped, the name of a first column.
- Recoverer.AuxiliaryRecover: the file begins with a header block that the engine wrote, for as many families as it says.
- Recovery.RecoversIffSynced: for fewer than 2040 families and no keyspace whose name is the one character that the header's bitmap length happens to spell; outside these `Recovery.RecoverFromZero` still says exactly when recovery works. `Recovery.HeaderOutcome` has both conditions, too.
- HeaderBlocks.UnsyncedLogLeaves: with four families it depends on bytes that an earlier use of the memory left behind the block; `Recovery.HeaderOutcome` says how.
- StoreSystem.EveryRun: an insert's dispatch and its merge into the memtable are one step, because two inserters that interleave between them can log before a sync and insert after the swap (db/columnFamilyStore.c:261-273). The queue holds the sealed record; the checksum is added by the commit-log thread in the source and in `CommitLogStage`. Memtables are found by `cfID`: a catalogue that gives one number to two families is a map like any other to these lemmas, where the two share a memtable as they would share a bit of the header; `Catalogues.EachItsNumber` shows that no configuration makes one.
- Durability of flushing memtables in a crash: the sync marks the log clean without waiting for `flushToDisk` (db/columnFamilyStore.c:293-295), so only current memtables are covered by the log.
- FlushProtocol.NothingIsLost: a memtable whose flush fails or times out stays on the flushing list for good, as in the source. Writing an SSTable is one step on a memtable that is shown to be frozen.
- TaskRefs.FreedOnceIffNotRaced: loads and stores of the count are single steps in one order for all threads; a handler that tests the count of a freed task finds it as it was left.
- ColumnFamilyStores.ColumnFamilyStore: the steps of the handlers that only call into SSTable files and the timed wait are steps of the protocol without a method; `SsTableObjects` has the methods for the files.
- SsTableObjects.FlushToDisk: the keys' order is any order of the dictionary's iterator, and `qsort` is a sort function; an empty memtable never reaches it, because `openWriteSSTable` refuses a memtable without keys.
- MemTableObjects.MemTable.InsertMemTable: mutations are of the table's own family, as `insertDM` finds the store by the mutation's names (db/dataModel.c:125-137).
- ColumnFamilyStores.ColumnFamilyStore.InsertCFStore: mutations are of the store's own family, for the same reason.
- MemTableObjects.MemTable: its table is a finite map from keys to families; `Dicts` proves that the dictionary is one.
- Recoverer.DataModel: `insertDM` keeps the list of what it was given; what inserting does is `StoreSystem.Replay`.
- SplayTree.Head.Splay: SPLAY and SPLAY_MINMAX are one method with a probe (a name, lowest, highest), their loops being the same but for the comparison.
- Buffers.Buffer.WriteInt: `writeInt`, `writeLong` and `writeUnsignedInt` are one method, their loops being the same.
- RbTree.Head.RbInsert: the search loops of RB_INSERT and RB_FIND are one method.
- Dicts.Dict.Add: tables too long to double below the largest long are excluded (`Doubles`), which takes 2^59 operations (`DictHistory.ShortHistoryRuns`); that `_dictKeyIndex` and `rehashidx` are ints, for tables of 2^31 buckets and more, is not modelled.
- Dicts.Dict.Replace: the same tables are excluded.
- Dicts.Dict.ExpandIfNeeded: the same tables are excluded.
- Dicts.Dict.Expand: sizes from the largest long on are excluded, for which there is no memory.
- BloomFilters.BloomFilter.constructor: the product of the two counts must fit an int with room for the last byte; its overflow is not modelled.
- Reference counts of columns and SSTables, and all freeing of memory except of flush tasks.
- `dictResize`, `dictRelease`, `dictEmpty`, random keys, millisecond rehashing, and the release of an iterator: they would add easy members.
- `deleteColumn` (it does not lower the element count), `removeKeyFromMT` (it reads an entry after it was freed), `removeFirstSSTL` (it does not unlink) and `doIndexIndex` (its buffer is not reset): their code departs from their purpose and nothing in the modelled paths calls them.
- Reads across SSTables: `getCFSColumn` asks the current memtable only.
- `recoverFromCommitLog`, which does nothing yet, so the order of several log files in recovery.
- Paths, file names, locks and condition variables as such, time, logging, configuration, the UDP server, and the second copies of the trees and the dictionary.
