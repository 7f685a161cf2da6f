# A model of the systems-lab storage and kernel cores

This project models, in Dafny, the parts of the repository whose guarantees span many functions, and
proves those guarantees for every input, run or reachable state.

## The write-ahead-log file system (`projects/filesystem-lab`)

`Device.dfy` is a block device with durable blocks and a queue of writes; a flush empties the queue,
and a failed operation has had its whole effect or none.  A crash drops queued journal writes and
lets any subset of queued home writes land.  What a disk *stands for* is its home blocks with the
committed transactions of its journal replayed (`Crash.Abs`).

- `Journal.dfy`, `JournalCodec.dfy`, `JournalRegion.dfy`, `Format.dfy`: the log's grammar, its record
  stream, the region that holds it, and the geometry that keeps replay away from it.
- `Crash.dfy`, `Wal.dfy`: the state changes at the journal flush and at no other step.  `RunIsAtomic`
  says so of every run of transactions, recoveries, checkpoints and crashes.
- `Journaled.dfy`, `MetadataTx.dfy`: the code itself, as methods on the device, proved to issue exactly
  the operations the protocol speaks of, so that an error or a crash part-way is covered too.
- `TableImage.dfy`, `InodeTable.dfy`, `DirectoryTable.dfy`, `Allocation.dfy`: the persistent tables, as
  bijections between values and accepted images.  `Utf8.dfy`: what a name may be.
- `Graph.dfy`, `Fsck.dfy`, `Namespace.dfy`, `Volume.dfy`: the audit, proved to accept exactly the
  consistent volumes (`Volume.FsckOk`).
- `Rename.dfy`, `Ownership.dfy`, `Overwrite.dfy`, `FileOps.dfy`, `Unlink.dfy`: the transitions, proved
  atomic on the device and to preserve consistency; on a consistent volume each is refused exactly when
  it should be and otherwise does to files and names just what was asked.
- `FileRange.dfy`, `TableWrite.dfy`: files as flat byte sequences, and a write that leaves its file.
  `Cache.dfy`: the write-back cache refines a plain block map.

The CRC-32 of section 3.2.9 of IEEE Std 802.3 is a parameter, an arbitrary function of bytes; no
proof needs it to detect anything.

## Kernel memory (`projects/minios-x86`)

`Paging.dfy` has the invariant of the reference counts, `EagerFork.dfy` a kernel that copies every
private page at fork, and `PagingOps.dfy` the copy-on-write code, each operation of which is one step
of the eager kernel as seen through the page tables.  `Pmm.dfy` is the frame bitmap and `Heap.dfy` the
splitting and coalescing heap on top of it.

## Kernel concurrency and file backends (`projects/minios-x86`)

`Pipe.dfy` is a machine whose steps are the interrupt-free segments between two blocking points, with
the ring buffer and the reference counts as a class that implements the segments.  `Sched.dfy` keeps
the intrusive links of the ready ring and the blocked list in a map of control blocks, beside the
ghost sequences they represent.  `Fat16.dfy` has cluster chains, `DiskFs.dfy` slot files.

## Where the code does not do what one would expect

- `heap.c`: "a valid request fails only when there is no large enough run of frames" is false of an
  empty heap, which first takes one frame for itself.  `Heap.FreshHeapCanFail` runs the case on a
  machine with two free frames; `Heap.FailsDespiteARun` has the exact condition on the state at entry.
- `fat16.c`: the comment that a write storing nothing changes nothing is true of chains, free clusters
  and the entry, but the end mark may become 0xFFFF.  `Fat16.EndMarkCanChange` runs such a write;
  `Fat16.OpenFile.Write` has the exact condition on the state at entry (`Fat16.MarkChanges`).
- `file_data.rs`: a file may list reserved blocks, and a write then goes to the tables.
  `TableWrite.WriteReachesTables` runs such a write; `FileRange.BatchKeepsTables` says exactly when the
  tables survive; a consistent volume has no such file (`FileRange.ConsistentRange`).
- `paging.h` describes fork as eager; `paging.c` copies on write.  The model follows the code and
  proves that the difference cannot be observed short of running out of memory on a store.
- `task.c`: `task_block_current` returns without blocking when the caller is the only ready task.
- `pmm.c`: `pmm_deinit_region` with a base inside a frame reserves that frame.

## Model

| member | source | states |
|---|---|---|
| Journal.LogScans | projects/filesystem-lab/src/journal.rs:44-84 | a log of completed transactions and at most one open one is accepted, and its scan yields exactly the completed writes, in order |
| Journal.LogParses | projects/filesystem-lab/src/journal.rs:44-84 | the converse: every accepted record list is such a log, so the replay loop accepts exactly that grammar |
| Journal.CrashPrefixIsAtomic | projects/filesystem-lab/src/journal.rs:186-196 | any record prefix of a log replays a whole number of its transactions: as many as it has commit records |
| Journal.ReplayInto | projects/filesystem-lab/src/journal.rs:44-84 | succeeds exactly on well-formed logs and leaves the home map with the committed writes applied; on a malformed log, with those committed before the offending record |
| Journal.JournalLog.Begin | projects/filesystem-lab/src/journal.rs:128-149 | opens a transaction exactly when none is open and the id can still be incremented; errors change nothing |
| Journal.JournalLog.Write | projects/filesystem-lab/src/journal.rs:151-172 | adds a write to the open transaction, exactly when the id is the open one |
| Journal.JournalLog.Commit | projects/filesystem-lab/src/journal.rs:174-184 | moves the open transaction to the completed ones, exactly when the id is the open one |
| Journal.JournalLog.CrashPrefix | projects/filesystem-lab/src/journal.rs:186-197 | whatever history built the log, the surviving prefix replays only transactions whose commit record survived, all of each |
| JournalCodec.DecodeEncoded | projects/filesystem-lab/src/journal_codec.rs:24-152 | decoding an encoded record gives it back and consumes exactly its bytes, whatever follows |
| JournalCodec.DecodedIsCanonical | projects/filesystem-lab/src/journal_codec.rs:65-152 | an accepted record is byte for byte the encoding of its result |
| JournalCodec.EncodeEntries | projects/filesystem-lab/src/journal_codec.rs:24-63 | the growing buffer with checksums patched in place is the stream of the entries, and decodes to them |
| JournalCodec.DecodeEntries | projects/filesystem-lab/src/journal_codec.rs:65-152 | the cursor loop accepts a stream exactly when it is the encoding of some entry list, and returns that list |
| JournalRegion.ValidateEntries | projects/filesystem-lab/src/journal_region.rs:180-218 | accepts exactly the well-formed logs whose writes all go to home blocks |
| JournalRegion.CommittedAreHome | projects/filesystem-lab/src/journal_region.rs:180-218 | replaying an accepted log can only reach home blocks, never the superblock or the journal |
| JournalRegion.LoadStored | projects/filesystem-lab/src/journal_region.rs:30-159 | loading the region image of an admissible list that fits returns that list |
| JournalRegion.LoadedIsCanonical | projects/filesystem-lab/src/journal_region.rs:80-159 | an accepted region that is not blank is byte for byte the image a store of the loaded entries writes |
| Format.WithAllMetadataBlocks | projects/filesystem-lab/src/format.rs:103-174 | builds the geometry for its arguments, and fails only when no valid geometry has them |
| Format.RequiredAllocationBlocks | projects/filesystem-lab/src/format.rs:351-370 | the smallest number of blocks that holds the bitmap header and one bit per block; fails exactly on overflow |
| Format.HomeIsTheRest | projects/filesystem-lab/src/format.rs:176-199 | home blocks are exactly those outside superblock and journal, and the regions are pairwise disjoint |
| Format.SuperblockRoundTrips | projects/filesystem-lab/src/format.rs:201-332 | a superblock survives encoding exactly when its geometry is valid; any other is rejected |
| Format.DecodedIsCanonical | projects/filesystem-lab/src/format.rs:201-332 | a block that decodes is byte for byte the encoding of its result |
| Device.BlockDevice.WriteBlock | projects/filesystem-lab/src/cache.rs:264-271 | queues the write; a failed one has had its whole effect or none |
| Device.BlockDevice.Flush | projects/filesystem-lab/src/cache.rs:273-281 | makes every queued write durable; a failed one has had its whole effect or none |
| Device.BlockDevice.ReadBlock | projects/filesystem-lab/src/cache.rs:252-262 | serves a durable or queued value of the block |
| Crash.SameAbs | projects/filesystem-lab/src/recovery.rs:30-82 | disks with one journal that differ only where its committed writes go stand for the same state |
| Crash.PartialReplay | projects/filesystem-lab/src/recovery.rs:30-82 | whatever subset of a recovery pass landed, the journal still loads unchanged and a fresh recovery ends where an uninterrupted one does, which is where replaying the log into the home map ends |
| Crash.ApplyIsApplyMap | projects/filesystem-lab/src/journal.rs:44-84 | replaying writes onto the blocks and into the map of the blocks gives the same home |
| Crash.FullReplay | projects/filesystem-lab/src/recovery.rs:30-82 | a completed pass leaves the disk quiescent, home showing the state the disk stood for |
| Crash.StoreInstalls | projects/filesystem-lab/src/journal_region.rs:30-66 | flushing the writes of a store puts its image in the region and touches nothing else |
| Crash.CheckpointInstalls | projects/filesystem-lab/src/journal_checkpoint.rs:22-51 | flushing the writes of a checkpoint blanks the region and touches nothing else |
| Crash.ValidIsMounted | projects/filesystem-lab/src/journal_region.rs:161-178 | every valid geometry is accepted for the journal exactly on a device of its size, if the region size fits 64 bits |
| Wal.StoreStands | projects/filesystem-lab/src/journal_region.rs:30-66 | publishing an image changes the state at one step only, its flush |
| Wal.RecoverStands | projects/filesystem-lab/src/recovery.rs:30-82 | cut at any device step, recovery leaves the state alone; complete, it shows it in home |
| Wal.CheckpointStands | projects/filesystem-lab/src/journal_checkpoint.rs:22-51 | cut at any device step, checkpointing a quiescent disk loses nothing; complete, the journal is empty |
| Wal.RecoveryStands | projects/filesystem-lab/src/journal_checkpoint.rs:53-60 | the same for recovery followed by a checkpoint |
| Wal.CutTransaction | projects/filesystem-lab/src/create_tx.rs:36-97 | a transaction cut after any number of device steps stands for the state before it, or, from the journal flush on, for the state after it |
| Wal.EventIsAtomic | projects/filesystem-lab/src/create_tx.rs:36-97 | every event of a run, crashes included, changes the state by all of its transaction or none |
| Wal.RunIsAtomic | projects/filesystem-lab/src/recovery.rs:30-82 | over every run of transactions, recoveries, checkpoints and crashes, the disk stands for the initial state with exactly the transactions whose journal flush succeeded, in order, and home shows it whenever the run is between operations |
| Journaled.StoreJournalImage | projects/filesystem-lab/src/journal_region.rs:30-66 | issues exactly the region writes, header block last, then one flush; refuses what is inadmissible or too large without touching the device |
| Journaled.RenderRegion | projects/filesystem-lab/src/journal_region.rs:30-66 | the buffer filled in place is the region image |
| Journaled.WriteRegion | projects/filesystem-lab/src/journal_region.rs:228-249 | block writes go tail first and header last |
| Journaled.LoadJournalImage | projects/filesystem-lab/src/journal_region.rs:80-159 | reading the region block by block loads what the durable region holds |
| Journaled.RecoverJournal | projects/filesystem-lab/src/recovery.rs:30-82 | on a settled journal, issues exactly the committed writes and one flush, stopping part-way only on a device error, and reports their numbers |
| Journaled.ReplayHome | projects/filesystem-lab/src/recovery.rs:30-82 | the loop over the records issues the writes of each transaction at its commit |
| Journaled.CheckpointJournal | projects/filesystem-lab/src/journal_checkpoint.rs:22-51 | zeroes the region and flushes unless it is already empty, stopping part-way only on a device error |
| Journaled.RecoverJournalAndCheckpoint | projects/filesystem-lab/src/journal_checkpoint.rs:53-60 | clears the journal only after the replay is durable |
| Journaled.Publish | projects/filesystem-lab/src/create_tx.rs:77-97 | logs the changed blocks as one transaction, publishes, replays and checkpoints: the device is part-way through exactly those operations |
| MetadataTx.DiffApplies | projects/filesystem-lab/src/transaction_image.rs:37-53 | writing only the blocks that differ produces the whole desired image and moves nothing else |
| MetadataTx.DiffIsExact | projects/filesystem-lab/src/transaction_image.rs:37-53 | a write is among those collected exactly when its block differs from the desired image and it brings that image |
| MetadataTx.JournalHolds | projects/filesystem-lab/src/journal_region.rs:30-66 | a transaction of n blocks fits the journal exactly when 96 + 4128 n bytes do |
| MetadataTx.CaptureDevice.WriteRegion | projects/filesystem-lab/src/transaction_image.rs:87-96 | rendered blocks are captured at their places |
| MetadataTx.CaptureDevice.CollectChangedRange | projects/filesystem-lab/src/transaction_image.rs:37-53 | consumes exactly the range and collects its difference from the device |
| MetadataTx.PartwaySettles | projects/filesystem-lab/src/create_tx.rs:36-97 | a device part-way through a published transaction recovers to the state before or after it, and after it if the operation reported success |
| MetadataTx.PublishWrites | projects/filesystem-lab/src/create_tx.rs:77-97 | any home writes are installed all or none across device errors and crashes |
| MetadataTx.MetaImageLoads | projects/filesystem-lab/src/create_tx.rs:36-97 | with the rendered image of a snapshot in place the three loaders return that snapshot |
| MetadataTx.LoadIgnoresJournal | projects/filesystem-lab/src/fsck.rs:53-74 | the loaders see nothing of the journal region |
| MetadataTx.StoreCreateMetadata | projects/filesystem-lab/src/create_tx.rs:36-97 | ownership, inodes and directory change together or not at all; success means they load back; fails without effect when a table cannot be rendered |
| MetadataTx.StoreDirectoryTable | projects/filesystem-lab/src/directory_tx.rs:29-72 | the same for the directory table alone, leaving the applied journal behind |
| TableImage.ParseImage | projects/filesystem-lab/src/inode_table.rs:99-219 | a stored table parses as the list it was stored from |
| TableImage.ParsedIsCanonical | projects/filesystem-lab/src/inode_table.rs:144-219 | a table that parses is the image of the parsed list |
| TableImage.EncodeTable | projects/filesystem-lab/src/directory_table.rs:104-155 | encodes exactly the lists with valid records, distinct keys and room, and the result parses back |
| TableImage.DecodeTable | projects/filesystem-lab/src/directory_table.rs:157-238 | the offset loop with its seen set agrees with the parser |
| InodeTable.DecodeEncoded | projects/filesystem-lab/src/inode_codec.rs:43-204 | an encoded inode decodes to itself, and its length field is its length |
| InodeTable.DecodedIsCanonical | projects/filesystem-lab/src/inode_codec.rs:104-204 | a decoded inode is valid and re-encodes to the same bytes |
| InodeTable.InodeTableRoundTrips | projects/filesystem-lab/src/inode_table.rs:99-219 | storing and loading inodes is the identity in both directions, on lists and on images |
| DirectoryTable.DecodeEncoded | projects/filesystem-lab/src/directory_codec.rs:32-172 | an encoded entry decodes to itself, and its length field is its length |
| DirectoryTable.DecodedIsCanonical | projects/filesystem-lab/src/directory_codec.rs:81-172 | a decoded entry is valid, its name well-formed under section 4 of RFC 3629, and re-encodes to the same bytes |
| Utf8.ValidIsEncoded | projects/filesystem-lab/src/directory_codec.rs:159-164 | the names accepted as UTF-8 are exactly the encodings, by section 3 of RFC 3629, of sequences of characters |
| DirectoryTable.DirectoryTableRoundTrips | projects/filesystem-lab/src/directory_table.rs:104-238 | storing and loading directory entries is the identity in both directions |
| Allocation.BlockAllocator.Allocate | projects/filesystem-lab/src/allocation.rs:154-175 | takes the lowest free data block; fails only when there is none, changing nothing |
| Allocation.BlockAllocator.Free | projects/filesystem-lab/src/allocation.rs:177-191 | releases exactly an owned data block; anything else is refused unchanged |
| Allocation.BlockAllocator.Accounting | projects/filesystem-lab/src/allocation.rs:209-241 | reserved, allocated and free blocks add up to the total, and the counter counts the vector |
| Allocation.AllocImageRoundTrips | projects/filesystem-lab/src/allocation_disk.rs:139-245 | a bitmap survives its image, and an image that parses is the image of its bitmap |
| Allocation.OwnedRoundTrips | projects/filesystem-lab/src/allocation_disk.rs:27-92 | storing an ownership vector and loading it back is the identity |
| Allocation.LoadedOwnedIsCanonical | projects/filesystem-lab/src/allocation_disk.rs:27-92 | a loaded image is the image of its ownership vector |
| Allocation.BuildBitmap | projects/filesystem-lab/src/allocation_disk.rs:61-92 | the bits set in place are the bitmap of the owned blocks |
| Allocation.RebuildAllocator | projects/filesystem-lab/src/allocation_disk.rs:27-59 | claiming every data block and freeing the unmarked ones rebuilds exactly the marked set, with the accounting intact |
| Fsck.BuildAdjacency | projects/filesystem-lab/src/fsck.rs:121-150 | refuses exactly when some entry does not join an existing directory to an existing inode; otherwise lists the edges |
| Fsck.AuditDirectoryCycle | projects/filesystem-lab/src/fsck.rs:192-218 | the recursive search terminates, a refusal means a cycle, and what it blackens is ranked so it lies on none |
| Fsck.AuditCycles | projects/filesystem-lab/src/fsck.rs:163-169 | searching from every directory accepts exactly the acyclic directory graphs |
| Fsck.Sweep | projects/filesystem-lab/src/fsck.rs:171-180 | the worklist computes exactly the inodes reachable from its start |
| Fsck.AuditNamespace | projects/filesystem-lab/src/fsck.rs:117-190 | accepts exactly when every entry joins an existing directory to an existing inode and, if there are inodes, the root is a directory, all are reachable and directories are acyclic |
| Fsck.AuditOwnership | projects/filesystem-lab/src/fsck.rs:76-115 | accepts exactly when every block named by an inode is an owned data block named once, and counts them |
| Graph.RankedIsAcyclic | projects/filesystem-lab/src/fsck.rs:192-218 | a graph whose every source outranks its targets has no cycle |
| Graph.AddedEdgeCycles | projects/filesystem-lab/src/rename_tx.rs:96-127 | adding an edge to an acyclic graph makes a cycle exactly when it closes a path |
| Volume.CheckDevice | projects/filesystem-lab/src/fsck.rs:53-74 | on a settled device accepts exactly those whose superblock decodes and fits, whose tables load and are consistent and whose journal loads, and reports their exact counts |
| Volume.ReadSuperblock | projects/filesystem-lab/src/format.rs:422-430 | returns the superblock of block 0 when it decodes and has the device's size |
| Volume.AuditJournal | projects/filesystem-lab/src/fsck.rs:220-301 | accepts exactly admissible logs with adding-up block counts; the writes counted are those of the committed transactions and the pending one |
| Volume.LoadedIsRenderable | projects/filesystem-lab/src/fsck.rs:53-74 | whatever loads could have been stored |
| Volume.SettledChanges | projects/filesystem-lab/src/create_tx.rs:36-97 | a settled transaction takes the volume, tables and data, from what it held to what the new blocks hold |
| Rename.WouldCreateCycle | projects/filesystem-lab/src/rename_tx.rs:96-127 | reports a cycle exactly when the new parent is reachable from the target without the moved entry |
| Namespace.MoveEdge | projects/filesystem-lab/src/rename_tx.rs:27-78 | moving an edge keeps the graph legal when that test passes |
| Rename.MoveBelowItself | projects/filesystem-lab/src/rename_tx.rs:96-127 | and never when it fails, for a directory |
| Rename.RenameIsExact | projects/filesystem-lab/src/rename_tx.rs:27-78 | on a consistent volume a rename of a non-root entry to another valid key is accepted if and only if the resulting volume is consistent |
| Rename.RenameDecides | projects/filesystem-lab/src/rename_tx.rs:27-78 | on a consistent volume every request has one answer: the table with the entry of the old key moved, if there is such an entry, it is not the root's, the new key is valid or unchanged and the outcome is consistent, and otherwise a refusal |
| Rename.RenameKeepsFsck | projects/filesystem-lab/src/rename_tx.rs:27-78 | every accepted rename of a consistent volume leaves it consistent |
| Rename.PlanRename | projects/filesystem-lab/src/rename_tx.rs:27-78 | refuses when no entry has the old key; for tables of a consistent volume returns a table if and only if it is the one with that entry, not the root's, under the new key, well formed unless unchanged, and the volume consistent |
| Rename.RenameEntry | projects/filesystem-lab/src/rename_tx.rs:27-78 | the volume moves atomically to the renamed table or stays, across errors and crashes; a successful rename of a consistent volume reads back with exactly that one entry moved; a refused one changes nothing |
| Rename.RenameRecoversConsistent | projects/filesystem-lab/src/rename_tx.rs:27-78 | whatever an attempt on a consistent volume leaves behind recovers to a consistent volume |
| Ownership.OwnershipByFile | projects/filesystem-lab/src/fsck.rs:76-115 | the audit on the whole table is the same as each file owning its blocks and no two sharing one |
| Ownership.ReferencesCount | projects/filesystem-lab/src/fsck.rs:76-115 | the references counted by a passing audit are the number of distinct blocks in use |
| Ownership.TruncateKeepsFsck | projects/filesystem-lab/src/truncate_tx.rs:84-129 | cutting a file and freeing what was cut off keeps the volume consistent |
| Ownership.TruncateContents | projects/filesystem-lab/src/truncate_tx.rs:84-129 | the cut file reads as the kept prefix of its contents, every other file as before |
| Ownership.GrowKeepsFsck | projects/filesystem-lab/src/file_insert.rs:28-98 | inserting unowned blocks anywhere in a file and claiming them keeps the volume consistent |
| Ownership.GrowContents | projects/filesystem-lab/src/file_insert.rs:28-98 | the grown file reads as before with the new data inserted, every other file reads as before |
| Ownership.UnlinkKeepsFsck | projects/filesystem-lab/src/unlink_tx.rs:57-187 | an unlink leaves a consistent volume consistent |
| Unlink.ReleasesExactly | projects/filesystem-lab/src/unlink_tx.rs:165-184 | accepts exactly when the released blocks are the removed inode's |
| Unlink.ValidateUnlink | projects/filesystem-lab/src/unlink_tx.rs:57-187 | accepts exactly a desired allocator of the volume's geometry, inodes and entries that differ from the volume by the removal of one childless non-root inode, its only entry and its blocks |
| Unlink.StoreUnlink | projects/filesystem-lab/src/unlink_tx.rs:34-43 | refuses anything else, and otherwise moves the volume atomically to the new snapshot, consistent if it was |
| Overwrite.OverOnlyLink | projects/filesystem-lab/src/rename_overwrite_tx.rs:63-169 | renaming over the only link of a file keeps the graph legal once that file is gone |
| Overwrite.OverOneLink | projects/filesystem-lab/src/rename_overwrite_tx.rs:63-169 | renaming over one of several links keeps it legal with the file still there |
| Overwrite.OverwriteKeepsFsck | projects/filesystem-lab/src/rename_overwrite_tx.rs:63-169 | every accepted overwriting rename of either sort keeps the volume consistent |
| Overwrite.OverwriteIsExact | projects/filesystem-lab/src/rename_overwrite_tx.rs:63-169 | on a consistent volume, overwriting the entry of one file by that of another is accepted if and only if the outcome is consistent, that is with one link in the releasing form and with more in the linked form |
| Overwrite.OverwriteDecides | projects/filesystem-lab/src/rename_overwrite_tx.rs:63-169 | on a consistent volume a request is accepted exactly when both names exist and are one entry, or name two different files of which the overwritten one has just this link, or more in the linked form; then the two entries become one, and a file that lost its only entry is gone with its blocks |
| Overwrite.ReplaceEntries | projects/filesystem-lab/src/rename_overwrite_tx.rs:63-169 | one pass builds the entry list with the destination replaced and the source gone |
| Overwrite.RenameOverwrite | projects/filesystem-lab/src/rename_overwrite_tx.rs:63-169 | leaves a device its own superblock does not make consistent untouched, and otherwise moves it atomically to the planned metadata or leaves it; a successful one reads back with just that replacement made |
| FileOps.FreeAll | projects/filesystem-lab/src/truncate_tx.rs:84-129 | frees the whole list exactly when every block of it is owned and listed once |
| FileOps.AllocateAll | projects/filesystem-lab/src/file_append_batch.rs:30-108 | takes blocks by repeated first fit, or fails when they run out |
| FileOps.TakenAreLowest | projects/filesystem-lab/src/allocation.rs:154-175 | the blocks taken are free, in increasing order, and no free block below the last was passed over |
| FileOps.TakeFreeSucceeds | projects/filesystem-lab/src/allocation.rs:154-175 | taking n blocks succeeds exactly when n blocks are free |
| FileOps.TruncatePlanKeepsFsck | projects/filesystem-lab/src/truncate_tx.rs:29-186 | on a consistent volume a truncation is refused exactly for a missing file or a bad length, and the result is consistent |
| FileOps.TruncateIsExact | projects/filesystem-lab/src/truncate_tx.rs:29-186 | on a consistent volume a truncation is refused exactly when there is no such file, the count exceeds its length, or its last block is asked for and it has none; otherwise the contents are the asked-for prefix and no other file changes |
| FileOps.Truncate | projects/filesystem-lab/src/truncate_tx.rs:29-186 | each truncation moves the volume atomically or leaves it; a successful one on a consistent volume reads back from the device as: this file without its blocks, without its last block, or with its first n blocks, the dropped blocks free and reported, every other file and name as before |
| FileOps.FileWritesHold | projects/filesystem-lab/src/file_append_batch.rs:30-108 | applying one transaction of tables and data installs both and keeps the directory |
| FileOps.StoreFile | projects/filesystem-lab/src/file_append_batch.rs:70-108 | publishes tables and data blocks together: all or none survive |
| FileOps.GrowPlanKeepsFsck | projects/filesystem-lab/src/file_data.rs:171-231 | an accepted append or insertion keeps the volume consistent and takes only unowned blocks |
| FileOps.GrowIsExact | projects/filesystem-lab/src/file_append_batch.rs:30-108 | on a consistent volume growth is refused exactly for no data, no such file, a position past the end or fewer free blocks than data; otherwise the data is where it was asked for and no other file changes |
| FileOps.AddBlocks | projects/filesystem-lab/src/file_append_batch.rs:30-108 | append, batch append and insertion move the volume atomically or leave it; a successful one on a consistent volume reads back as: the old contents with the data after the last block, or before block p, on the lowest free blocks, every other file and name as before |
| FileRange.ResolveBlock | projects/filesystem-lab/src/file_data.rs:233-272 | finds the block of a file index exactly when the inode is a file, the index exists and the block is reserved or owned; an error on a device of another size |
| FileRange.ReadFileBlock | projects/filesystem-lab/src/file_data.rs:27-37 | returns that block's contents; an error on a device of another size |
| FileRange.ReadFileRange | projects/filesystem-lab/src/file_range_read.rs:20-63 | returns exactly the requested slice of the concatenated blocks, or an error when a block of the range does not resolve |
| FileRange.ResolveIsExact | projects/filesystem-lab/src/file_data.rs:233-272 | on a consistent volume an index resolves to a block exactly when it is that block of a file with the id |
| FileRange.RangeIsExact | projects/filesystem-lab/src/file_range_read.rs:20-63 | on a consistent volume a read returns bytes exactly when the range is not empty and lies inside the file, and then that slice of it |
| FileRange.CollectBatch | projects/filesystem-lab/src/file_overwrite_batch.rs:44-93 | accepts exactly batches of distinct resolvable indices and collects the blocks that change |
| FileRange.DifferingApplies | projects/filesystem-lab/src/file_overwrite_batch.rs:88-93 | skipping unchanged blocks gives the same disk |
| FileRange.WriteFileBlocks | projects/filesystem-lab/src/file_overwrite_batch.rs:31-115 | all blocks of an accepted batch or none, whatever blocks the file lists; refuses a batch that would change superblock or journal; with data blocks only, the tables stay; a successful batch on a consistent volume reads back with the named blocks replaced and every other block of this and all other files as before |
| FileRange.BatchIsExact | projects/filesystem-lab/src/file_overwrite_batch.rs:44-93 | on a consistent volume a batch is acceptable exactly when it names distinct blocks of one file, and at least one |
| FileRange.BatchLeaves | projects/filesystem-lab/src/file_overwrite_batch.rs:31-115 | what a successful batch leaves on a consistent volume, file by file |
| FileRange.LoadDetermines | projects/filesystem-lab/src/inode_table.rs:144-219 | the table blocks are determined by what they load as |
| FileRange.TablesSurvive | projects/filesystem-lab/src/file_overwrite_batch.rs:44-115 | home writes that each change their block leave the tables as they load if and only if all go to data blocks |
| FileRange.BatchKeepsTables | projects/filesystem-lab/src/file_overwrite_batch.rs:31-115 | hence an accepted batch leaves the tables exactly when no table block is among those it changes |
| TableWrite.WriteReachesTables | projects/filesystem-lab/src/file_overwrite_batch.rs:31-115 | a write that succeeds on a fault-free device and after which the tables no longer load as they did |
| TableWrite.BatchReachesTable | projects/filesystem-lab/src/file_overwrite_batch.rs:44-93 | on any disk with those tables the batch is accepted and the tables do not survive it |
| FileRange.RangeResultBytes | projects/filesystem-lab/src/file_data.rs:95-136 | a range write replaces exactly the requested bytes of the flat file and no block outside the file |
| FileRange.WriteFileRange | projects/filesystem-lab/src/file_data.rs:95-136 | writes the range as one such batch, atomically across errors and crashes; a successful one on a consistent volume reads back with the bytes in place of the range and every other byte of this and all other files as before |
| FileRange.RangeLeaves | projects/filesystem-lab/src/file_data.rs:95-136 | what a successful range write leaves on a consistent volume, file by file |
| FileRange.RangeChanges | projects/filesystem-lab/src/file_data.rs:95-136 | when the range lies in data blocks, the volume moves from the old blocks to the patched ones with the same tables |
| FileRange.ConsistentRange | projects/filesystem-lab/src/fsck.rs:76-115 | on a consistent volume every block of a file is a data block |
| FileRange.OtherFilesKeep | projects/filesystem-lab/src/file_data.rs:95-136 | on a consistent volume every other file keeps its bytes |
| FileRange.CopyFileRange | projects/filesystem-lab/src/file_copy_range.rs:35-58 | the destination range becomes what the source range held before, also when both overlap in one inode; a successful copy on a consistent volume reads back so, with every other byte as before |
| Cache.NowIsLastWritten | projects/filesystem-lab/src/cache.rs:56-99 | over any run the contents are the last writes over the initial ones |
| Cache.ReadsLastWritten | projects/filesystem-lab/src/cache.rs:56-79 | every successful read in a run returns what was last written before it |
| Cache.SyncedAtLastFlush | projects/filesystem-lab/src/cache.rs:131-164 | over any run the durable image is the contents at the last successful flush |
| Cache.BufferCache.ReadBlock | projects/filesystem-lab/src/cache.rs:56-79 | is a read of the plain block map, though the device may serve only durable data |
| Cache.BufferCache.WriteBlock | projects/filesystem-lab/src/cache.rs:81-99 | is a write of the plain block map |
| Cache.BufferCache.WriteBack | projects/filesystem-lab/src/cache.rs:101-129 | changes neither contents nor durable image, whether it fails or not |
| Cache.BufferCache.Flush | projects/filesystem-lab/src/cache.rs:131-164 | success makes all contents durable; failure changes nothing durable |
| Cache.BufferCache.Evict | projects/filesystem-lab/src/cache.rs:166-181 | removes exactly clean blocks and loses no contents |
| Cache.Serve | projects/filesystem-lab/src/cache.rs:56-181 | any list of requests, failing or not, is a run of the plain block map with the answers given; without faults every request inside the device is served |
| Paging.AtMostOncePerSpace | projects/minios-x86/paging.c:26-37 | a frame is mapped at most once per space, so the 16-bit count cannot wrap |
| Paging.MappedKeeps | projects/minios-x86/paging.c:319-341 | mapping a fresh frame keeps the counts, the disjointness of frames and the write protection |
| Paging.DroppedKeeps | projects/minios-x86/paging.c:343-356 | so does dropping a mapping, by counting down or freeing the frame |
| Paging.LinkedKeeps | projects/minios-x86/paging.c:245-264 | so does one page of a copy-on-write clone |
| Paging.CopiedKeeps | projects/minios-x86/paging.c:83-104 | so does the copy of a shared page on a write fault |
| Paging.RegrantedKeeps | projects/minios-x86/paging.c:83-104 | so does regranting write access to a sole owner |
| Paging.CreatedKeeps | projects/minios-x86/paging.c:211-243 | so does a new address space |
| Paging.TablesFreedKeeps | projects/minios-x86/paging.c:282-309 | so does freeing an emptied one |
| EagerFork.PrivatePagesAreIsolated | projects/minios-x86/paging.h:45-47 | in the eager kernel, no run of events by other spaces changes a private page |
| EagerFork.ChildKeepsItsCopy | projects/minios-x86/paging.h:45-47 | a forked child keeps the parent's bytes of the time of the fork |
| EagerFork.StoreLasts | projects/minios-x86/paging.h:45-47 | a private page keeps what its owner stored, over every run in which the owner does not act |
| EagerFork.NewPageIsZero | projects/minios-x86/paging.c:318-341 | a new private page reads as zeros, over every such run |
| EagerFork.SharedPagesAgree | projects/minios-x86/paging.c:358-380 | in every run of the kernel all mappings of a shared object hold the same data |
| EagerFork.SharedStoreIsSeen | projects/minios-x86/paging.c:358-380 | so a store through one mapping is read at once through every other |
| EagerFork.LinkedAbs | projects/minios-x86/paging.c:245-264 | sharing a frame read-only is, seen through the page tables, copying the page |
| EagerFork.CopiedAbs | projects/minios-x86/paging.c:83-104 | the copy on a fault changes no one's bytes |
| EagerFork.StoredAbs | projects/minios-x86/paging.c:83-104 | a store through a writable entry reaches exactly the cells an eager kernel would change |
| EagerFork.DroppedAbs | projects/minios-x86/paging.c:343-356 | dropping a mapping removes that cell only |
| PagingOps.AddressSpaces.CreateSpace | projects/minios-x86/paging.c:211-243 | refines creation; failure returns every frame it took |
| PagingOps.AddressSpaces.MapUserPage | projects/minios-x86/paging.c:319-341 | refines mapping a zeroed page; fails only outside the user range or without frames |
| PagingOps.AddressSpaces.SharePage | projects/minios-x86/paging.c:358-380 | refines making a page a shared object that later forks alias |
| PagingOps.AddressSpaces.UnmapUserPage | projects/minios-x86/paging.c:343-356 | refines unmapping, and the frame is freed exactly when this was its last mapping |
| PagingOps.AddressSpaces.DestroySpace | projects/minios-x86/paging.c:282-309 | refines removing the space |
| PagingOps.AddressSpaces.CloneSpace | projects/minios-x86/paging.c:266-280 | refines an eager fork; fails only without memory |
| PagingOps.AddressSpaces.TryCow | projects/minios-x86/paging.c:83-104 | makes a read-only page writable without changing any space's bytes; fails without effect on other pages, and on those only when the frame is mapped more than once and memory is out |
| PagingOps.AddressSpaces.StorePage | projects/minios-x86/paging.c:83-104 | a user store, fault included, is the eager kernel's store |
| PagingOps.AddressSpaces.LoadPage | projects/minios-x86/paging.c:173-179 | the bytes a user address stands for are the eager kernel's |
| PagingOps.Serve | projects/minios-x86/paging.c:83-380 | any list of requests is a run of the eager kernel, and every load on the way returns what it returns there |
| PagingOps.LastReference | projects/minios-x86/paging.c:31-37 | a zero count means exactly that this entry is the only mapping |
| Pipe.StepKeeps | projects/minios-x86/pipe.c:24-142 | every event of any task keeps the invariant |
| Pipe.RunKeeps | projects/minios-x86/pipe.c:24-142 | hence every interleaving does |
| Pipe.PipeSafety | projects/minios-x86/pipe.c:24-142 | over all interleavings: delivered then buffered bytes are the accepted ones in order; blocked readers face an empty pipe with writers, blocked writers a full one with readers; the pipe is freed once, exactly when nothing refers to it |
| Pipe.NobodyLeft | projects/minios-x86/pipe.c:24-31 | both counts are zero exactly when no descriptor and no operation in flight is left |
| Pipe.ReadDelivers | projects/minios-x86/pipe.c:48-76 | a reader blocks exactly when the pipe is empty and has writers; otherwise it takes the smaller of its request and the bytes buffered from the front |
| Pipe.ReadZeroIsEof | projects/minios-x86/pipe.c:48-76 | a read for at least one byte returns none only from an empty pipe without writers |
| Pipe.ShortWriteIsBroken | projects/minios-x86/pipe.c:78-110 | what a write reports went in, in order, and it stops early only without readers |
| Pipe.Ring.Take | projects/minios-x86/pipe.c:65-69 | the copying loop takes the oldest bytes of the ring |
| Pipe.Ring.Put | projects/minios-x86/pipe.c:99-103 | the copying loop appends as much as fits |
| Pipe.KernelPipe.DropReader | projects/minios-x86/pipe.c:124-132 | implements the reader's close |
| Pipe.KernelPipe.DropWriter | projects/minios-x86/pipe.c:134-142 | implements the writer's close |
| Pipe.KernelPipe.RunReader | projects/minios-x86/pipe.c:48-76 | implements the read segment of the machine; returns nothing exactly when it blocks or dies waiting, and otherwise the smaller of the request and the bytes buffered, from the front of the ring |
| Pipe.KernelPipe.RunWriter | projects/minios-x86/pipe.c:78-110 | implements the write segment of the machine; reports exactly the bytes accepted, all of them unless there is no reader, and blocks or dies only at a full ring |
| Pmm.FrameMap.InitRegion | projects/minios-x86/pmm.c:50-73 | frees exactly the whole frames inside the region, never frame 0 |
| Pmm.FrameMap.DeinitRegion | projects/minios-x86/pmm.c:75-87 | marks exactly the frames the region touches |
| Pmm.FrameMap.FirstFreeRun | projects/minios-x86/pmm.c:23-38 | finds the lowest run of free frames, or none when there is none |
| Pmm.FrameMap.AllocBlocks | projects/minios-x86/pmm.c:93-106 | takes that run; fails exactly when there is none |
| Pmm.FrameMap.FreeBlocks | projects/minios-x86/pmm.c:112-131 | frees exactly the run, and ignores addresses outside the map |
| Heap.MergeKeeps | projects/minios-x86/heap.c:15-27 | coalescing keeps the bytes covered and the live blocks and leaves no two free neighbours |
| Heap.MergeFreeBlocks | projects/minios-x86/heap.c:15-27 | the one-pass loop computes it |
| Heap.InsertKeeps | projects/minios-x86/heap.c:29-44 | inserting a block keeps the order and adds just its bytes |
| Heap.InsertBlock | projects/minios-x86/heap.c:29-44 | the list walk computes it |
| Heap.GrowKeeps | projects/minios-x86/heap.c:46-68 | growing adds exactly the new frames to the tiling, and a block that fits |
| Heap.CarveKeeps | projects/minios-x86/heap.c:74-122 | allocation adds one live block and changes no other |
| Heap.CarveSplits | projects/minios-x86/heap.c:109-121 | the block taken has the size asked for, or all of the free block when four bytes or fewer would be left behind a header; the rest is a free block and no other block changes |
| Heap.SplitLeavesRoom | projects/minios-x86/heap.c:109-121 | a free block with room for two requests and a header between them still fits the second after serving the first |
| Heap.FreedKeeps | projects/minios-x86/heap.c:124-133 | freeing removes one live block and changes no other |
| Heap.LiveIsDisjoint | projects/minios-x86/heap.c:74-122 | live payloads are disjoint, aligned and inside the heap's frames |
| Heap.KernelHeap.Grow | projects/minios-x86/heap.c:46-68 | succeeds exactly when the frames hold a run of the least number of frames that is large enough, and then takes one such run |
| Heap.KernelHeap.Kmalloc | projects/minios-x86/heap.c:74-122 | adds one live block, of the rounded size or at most a header and four bytes more, at the start of the first free block large enough; what is left of that block is a free block and every other block is kept; takes no frame when a block fits; fails exactly when the stated condition on the heap and the frames at entry holds |
| Heap.AllocateTwo | projects/minios-x86/heap.c:74-122 | two such requests both succeed, one after the other, without taking a frame |
| Heap.KernelHeap.Kfree | projects/minios-x86/heap.c:124-133 | removes exactly the given live block |
| Heap.FreshHeapCanFail | projects/minios-x86/heap.c:70-122 | a machine with two free frames on which a request for two frames' worth fails although they form a run |
| Heap.FailsDespiteARun | projects/minios-x86/heap.c:46-122 | a valid request fails although a large enough run exists if and only if the heap is empty, more than one frame is needed, and every such run starts at the lowest free frame |
| Heap.NonEmptyHeapNeedsARun | projects/minios-x86/heap.c:74-122 | on a non-empty heap a valid request fails only when there is no such run |
| Sched.FindPrevious | projects/minios-x86/task.c:34-45 | once around the ring finds the predecessor |
| Sched.Scheduler.AddReady | projects/minios-x86/task.c:47-60 | links the task in right behind the head |
| Sched.Scheduler.Create | projects/minios-x86/task.c:94-145 | a new task joins the ring; of the others only links change |
| Sched.Scheduler.BlockCurrent | projects/minios-x86/task.c:151-194 | the current task moves from the ring to the end of the blocked list at the time the clock shows, and the next one runs; of the others only links change; a lone task is not blocked and nothing changes |
| Sched.Scheduler.WakeFirst | projects/minios-x86/task.c:196-258 | releases the first waiter wanted, which is the one that blocked earliest of those wanted, and no other; the rest keep channel, process and kill mark |
| Sched.Scheduler.WakeMatching | projects/minios-x86/task.c:213-228 | releases every waiter wanted, in order, so that the ring holds exactly its old tasks and those; keeps the others in order with their channels; marks exactly those released when killing, and no one otherwise |
| Sched.ChosenAre | projects/minios-x86/task.c:213-228 | afterwards no one wanted is waiting |
| Sched.ChosenInOrder | projects/minios-x86/task.c:213-228 | those released and those kept stay in the order in which they blocked |
| Sched.AllInsertedIs | projects/minios-x86/task.c:47-60 | those released stand in the ring right behind the head, the last one first, before the old ring |
| Sched.Scheduler.KillBlocked | projects/minios-x86/task.c:260-294 | marks exactly the tasks of the process in the ring or waiting, releases exactly its waiters and returns their number; null changes nothing |
| Sched.Scheduler.Reap | projects/minios-x86/task.c:16-26 | reclaims the retired task, if any |
| Sched.Scheduler.Schedule | projects/minios-x86/task.c:315-327 | moves on to the next task of the ring; every control block stays as it is but the reclaimed one |
| Sched.Scheduler.Exit | projects/minios-x86/task.c:329-371 | the current task leaves the ring for the retired slot, whose occupant is reclaimed first; of the others only links change; the last task halts instead |
| Sched.ReclaimedOnce | projects/minios-x86/task.c:16-26 | giving back a live control block keeps the account: blocks created are those live and those given back |
| Sched.ReclaimedPerBirth | projects/minios-x86/task.c:16-26 | by that account each block was given back as often as created, once less while live; created once, it was given back at most once and never while live |
| Fat16.ChainIsDistinct | projects/minios-x86/fat16.c:98-114 | a chain that reaches an end mark visits no cluster twice |
| Fat16.ChainIsUnique | projects/minios-x86/fat16.c:98-114 | the chain from a cluster is determined |
| Fat16.ChainValid | projects/minios-x86/fat16.c:98-114 | accepts zero and exactly the starts of well-formed chains; the bound on the steps rejects none of them |
| Fat16.UnlinkChain | projects/minios-x86/fat16.c:505-540 | refuses a bad chain, and otherwise clears exactly the entries of the chain |
| Fat16.OpenFile.AllocCluster | projects/minios-x86/fat16.c:125-138 | takes the lowest free cluster, marked and zeroed; 0 exactly when there is none |
| Fat16.OpenFile.ExtendChain | projects/minios-x86/fat16.c:417-433 | extends the chain with free clusters to the length needed or until none is free |
| Fat16.OpenFile.CopyBytes | projects/minios-x86/fat16.c:435-454 | every cluster of the chain gets its part of the buffer, and the count is what fits |
| Fat16.OpenFile.RollBack | projects/minios-x86/fat16.c:472-493 | detaches and frees exactly the clusters the write had added |
| Fat16.OpenFile.Write | projects/minios-x86/fat16.c:387-503 | stores what fits in the chain extended as far as needed or possible; stores nothing exactly when the arguments are refused or chain and free clusters together end before the offset, and then leaves all chains, the free set, the entry and every used cluster as they were; the table itself changes exactly when, besides, some cluster is free and the chain ends in another mark than 0xFFFF |
| Fat16.AcceptedIs | projects/minios-x86/fat16.c:394-400 | a write is considered exactly when it has bytes, starts inside the largest file the volume could hold and ends within 32 bits |
| Fat16.NeededIsLeast | projects/minios-x86/fat16.c:404-405 | the cluster count is the least that holds the end of the write |
| Fat16.WrittenBytes | projects/minios-x86/fat16.c:416-454 | after a write every byte of the chain is the buffer's where it was written, zero elsewhere in new clusters, and otherwise as before |
| Fat16.OpenFile.Read | projects/minios-x86/fat16.c:542-572 | returns the bytes from the offset on, as many as were asked for, recorded in the entry and backed by the chain |
| Fat16.WriteThenRead | projects/minios-x86/fat16.c:387-572 | what a write reports as stored, a read at the same offset returns |
| Fat16.WriteOutcome | projects/minios-x86/fat16.c:411-493 | both exact conditions, for every table, chain and request, from what extending the chain came to |
| Fat16.SameChains | projects/minios-x86/fat16.c:472-493 | another end mark in place of an end mark changes no chain and no free cluster |
| Fat16.EndMarkCanChange | projects/minios-x86/fat16.c:472-493 | a write on a real volume that stores nothing and changes the table |
| DiskFs.ParentChainValid | projects/minios-x86/diskfs.c:120-133 | sixteen steps accept exactly the entries that hang below the root through used directories |
| DiskFs.WayIsDistinct | projects/minios-x86/diskfs.c:120-133 | no such entry is its own ancestor |
| DiskFs.SlotDisk.ReadSlot | projects/minios-x86/diskfs.c:470-498 | returns nothing from the end of the file on, and before it the smaller of the bytes asked for and the bytes left, each the byte of the file at its position |
| DiskFs.ReadChunks | projects/minios-x86/diskfs.c:470-498 | reading in consecutive chunks of any size, until one comes back empty, returns the whole file |
| DiskFs.SlotDisk.WriteSlot | projects/minios-x86/diskfs.c:500-559 | on success the file reads as before with zeros in any gap and the new bytes in place, whatever lay past its end on disk; no other slot changes, also on failure |
| DiskFs.WriteThenRead | projects/minios-x86/diskfs.c:470-559 | reading the written range returns the data, and reading the file returns its old bytes, zeros in any gap and the data |
| DiskFs.WrittenContent | projects/minios-x86/diskfs.c:500-559 | the sectors rewritten from the old end on hold exactly that content |

## Left out

- Hardware: ATA ports, the file-backed block device, TLB and CR3 handling, register switching. Devices are abstract, and a fault with its retry is one store.
- `projects/mini-hypervisor`, and of `projects/minios-x86` the system calls, processes, ELF loader, RAM and proc file systems, drivers: wide plumbing with easy members.
- Hard links, exchange, zero ranges and the single-table transactions of filesystem-lab: variants of the members modelled.
- Torn or reordered writes inside the journal region, and what the checksum detects: the source claims neither.
- Starting a transaction after an I/O error without recovering first: the source makes recovery the caller's duty.
- Messages of errors: errors carry a kind at most.
- Python tooling and the tests.
- Device.BlockDevice.WriteBlock: a failed operation either had its whole effect or none; a block half written is not modelled.
- Methods on a volume require a valid geometry, which is all the superblock constructors and the decoder produce.
- Paging: an entry that is absent and one that is the kernel's identity mapping are one case, because both are not user pages; demand mapping is the map operation; `paging_copy_to_user` is left out.
- PagingOps.AddressSpaces.StorePage: a store that fails for lack of memory changes nothing; the process kill that follows is not modelled.
- Pipe: `pipe_create` failing for lack of memory and null arguments are left out; wake-ups for no reason are allowed at any time.
- Pmm: bitmap words are a sequence of bits.
- Heap.KernelHeap.Kfree: requires a live pointer or null, as the source does; freeing anything else is undefined there.
- Heap: the list of headers in memory is a sequence in address order; the links are not pointers.
- Sched: stacks, register contexts, exit callbacks and the idle loop; a wake-up for a wanted task covers both `task_wake_one` and `task_wake_task`. A retired task's state field stays READY in the code, so the partition is by membership in the lists.
- Sched.Scheduler.Exit: when the last task exits, clearing the current task and the ready queue before the halt is left out, because nothing runs afterwards.
- Unlink.ValidateUnlink: requires of the current tables what loading guarantees, distinct ids and keys.
- Fat16.OpenFile.ExtendChain: requires a well-formed chain, like the write it is part of.
- Fat16.OpenFile.CopyBytes: requires a well-formed chain, like the write it is part of.
- Fat16.OpenFile.Write: requires a well-formed chain or none, and at most 0xFFF0 clusters; node and open-count bookkeeping, directory entries, 8.3 names and an image cut short of its last cluster are left out.
- Fat16.OpenFile.Read: requires a well-formed chain, or none and a length of zero, which is what writes leave.
- Fat16.UnlinkChain: the directory search and the deletion mark are left out.
- DiskFs.SlotDisk.StoreMetadata: what the directory and superblock sectors encode is left out; it is only known that they lie below every slot.
- DiskFs: names, create, remove, mount and the node table are left out.
