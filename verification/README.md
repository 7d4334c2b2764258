# A verified model of an xv6 kernel for RISC-V

A model of the hard parts of this xv6 kernel (with mmap, copy-on-write fork, demand paging and a
lottery scheduler), of its `mkfs`, and of a few of its user programs, in Dafny. `dafny verify
dfyconfig.toml` checks everything.

## What is modelled

**The storage stack.** `Blocks` has blocks, little-endian words and bitmap bits. `RedoLog` is the redo
log as lists of atomic block writes: what `commit` writes, what recovery writes, and what the disk holds
if either stops anywhere, any number of times. `BufferCache` is the LRU cache of `kernel/bio.c`, with
list links, reference counts and pins. `Log` is `kernel/log.c` over that cache; its methods issue
exactly the writes of `RedoLog`. `LogQuota` settles when operations that keep to their ten blocks can
rely on `log_write` and on the commit. `FsLayout`, `Ownership` and `FsState` are the on-disk inodes, the
block addresses of all inodes as one table, and what every step on the disk does to that table, to the
bitmap and to the bytes of every file. `Fs` is `kernel/fs.c` (balloc to writei), `Directory` its directories,
`FileWrite` the loop of `filewrite`, where the inode layer and the log meet, `Mkfs` builds the image it all
starts from, and `Boot` runs the other layers on that image.

**Memory.** `PageTable`, `Vm` and `Freewalk` are Sv39 page tables in physical memory, as
`kernel/vm.c` builds, searches and tears them down (section 4.4 of the RISC-V Privileged Architecture,
version 20211203). `Cow` is copy-on-write sharing over demand mapping, fork, store faults and unmapping.
`Umalloc` and `Allocator` are Kernighan and Ritchie's user-level allocator.

**Concurrency.** `SleepLock` and `WaitExit` interleave the lock-level steps of any number of processes
in sleep, wakeup, sleep locks, wait, exit, reparent, fork and kill. `Virtio` is the disk driver against
a device that completes requests in any order (sections 2.6 and 5.2 of VIRTIO 1.1). `Pipe` is the pipe.

**Programs and the scheduler.** `Shell` and `ShellParser` are the shell's parser and a printer that it
inverts, `ShellGrammar` the grammar that it accepts, `Grep` the pattern matcher, `Grind` the random number step, `Lottery` the scheduler's draw.
`CInt` has C's int arithmetic and `Counting` facts about finite sets that several modules share.

Source code that updates things in place is a class or a method with loops here; where a proof needs it,
the method is tied to a function or predicate on values, and the theorem is about those.

## Where the code falls short of its purpose

Each of these is stated exactly, for all inputs:

- `mkfs` makes the log area LOGSIZE blocks, header included. Three operations that keep to MAXOPBLOCKS
  then meet the panic "too big a transaction" at a block that is new to the transaction. New blocks are
  safe if and only if the area is larger than LOGSIZE (`LogQuota.FirstWriteExact`).
- `log_write` tests for a full log before it looks for the block in the log. A block that is logged
  already is accepted if and only if the count is below LOGSIZE and below the size less one
  (`Log.Log.LogWrite`), and no size of the area puts that panic out of reach
  (`LogQuota.AbsorbedNeverSafe`).
- `commit` needs a buffer besides those that the log has pinned. With something to commit, and if no
  other process comes for a buffer while it runs, it panics in `bread` if and only if the logged blocks
  and the unlogged buffers that other processes hold are NBUF or more (`Log.Log.Commit`). On mkfs's
  image 29 logged blocks and one reader are enough (`LogQuota.CommitFails`, `Boot.LogFails`). The
  condition is for the case that nobody comes; a reader that comes meanwhile may take the last buffer.
  Whoever comes, a panic comes only when every buffer is in use, and the disk is then as after a crash,
  so that recovery completes or undoes the transaction.
- `readi` outside an operation, as in `fileread` and in page faults, allocates a block for a hole. It
  panics if and only if it meets a hole, a block is free and no operation is in progress (`Fs.Fs.Readi`).
- `readi` inside an operation gives a hole a block and does not write the inode back. The disk by itself
  is then inconsistent, until the next `iupdate`, if and only if a block was free and its address went
  into the inode (`Fs.Fs.Readi`, `Boot.RootHoleOnDisk`).
- `mkfs` rounds the size of the root directory up by a whole block when it is on a block boundary; the
  root then has a hole, and only then (`Mkfs.HoleAtBoundary`). That is so with 62 files. Reading that block
  through `fileread` panics (`Boot.RootHole`, `Boot.RootHoleHappens`), but only as long as no operation has
  read that far: a lookup of a name that does not exist gives the hole a block (`Boot.RootHoleFilled`). The
  repository's own init looks up "console" first, so that on its images a later listing is safe; an init
  that lists the root before any lookup misses is not.
- When copying from the caller fails, `writei` releases a buffer with up to one block's worth of bytes in
  it that were neither counted nor logged (`Fs.Fs.Writei`, `Boot.UnloggedHappens`).
- Unmapping a private page whose count is above 1 leaves the count alone. Counts stay exact if and only
  if that never happens, and once it has happened the page is never given back
  (`Cow.ExactUntil`, `Cow.ForgottenForever`). Fork and two unmappings make it happen (`Cow.LeakHappens`).
- A store to a page that the process has no right to store to is let through if the page belongs to a mapped
  region, also in a shared one. If others have the page the store goes to a copy, and they see it if and only
  if the process had the right (`Cow.StoreReaches`).
- `piperead` takes a byte out before it copies it, so that a failed copy loses that byte
  (`Pipe.Pipe.ReadSome`, `Pipe.LoseByte`).
- `morecore` passes a 64-bit product to sbrk's int. The memory stays partitioned into free and handed out
  units if and only if sbrk is asked for fewer than 2^27 (`Allocator.Heap.Malloc`); `malloc(0xffffffff)`
  succeeds with 16 bytes behind it (`Allocator.HugeRequest`).
- `random` has at most 65535 values, so that with more tickets than that some draw never occurs
  (`Lottery.SomeDrawNever`), and a process with more than half of the tickets may never run
  (`Lottery.StarvationHappens`). If the total divides 2^15 the lottery is exactly fair over time
  (`Lottery.FairOverTime`).

Where a comment and the code differ the code is followed: the comment in `user/grind.c` describes the
step on [1, 2^31 - 2], the code works on that range shifted down by one.

## Model

| member | source | states |
|---|---|---|
| RedoLog.CrashAtomicity | kernel/log.c:68-123 | Stop commit after any number of its block writes, crash any number of recoveries anywhere, then let one finish: every home block has its old contents if the first header write had not been made and its new contents if it had, and the log is empty |
| RedoLog.CommitStands | kernel/log.c:193-203 | After any prefix of commit's writes the disk stands for the old contents up to the header write and for the new contents from then on |
| RedoLog.LogPhase | kernel/log.c:178-191 | Writing the log blocks alone never changes what recovery would produce |
| RedoLog.RecoveryKeeps | kernel/log.c:116-123 | A crash after any number of recovery's writes does not change what recovery will produce |
| RedoLog.ChainKeeps | kernel/log.c:116-123 | Nor does any number of interrupted recoveries in a row |
| RedoLog.RecoveryDelivers | kernel/log.c:68-83 | A recovery that finishes puts what the disk stood for on every home block and leaves an empty log |
| RedoLog.CommitCompletes | kernel/log.c:193-203 | An uninterrupted commit leaves the new contents on the home blocks and an empty log |
| RedoLog.CommitIsAtomic | kernel/log.c:193-203 | Commit's list of writes is all-or-nothing under any pattern of crashes in it and in recovery |
| RedoLog.CommitHalves | kernel/log.c:193-203 | The four steps of commit as they act on cache and disk are that list of writes, and the cache shows the same home blocks before and after |
| RedoLog.RecoverySteps | kernel/log.c:116-123 | The steps of recovery as they act on cache and disk are recovery's list of writes and empty the log |
| RedoLog.HeaderImageReads | kernel/log.c:102-114 | Reading a word of the header block that write_head makes gives the count, the block numbers, or what was there before |
| BufferCache.BCache.constructor | kernel/bio.c:36-53 | The list, the keys and the contents of a fresh cache satisfy the cache's invariant over any disk; the history of releases begins with every buffer once, in the order of their numbers |
| BufferCache.BCache.Bget | kernel/bio.c:58-89 | A cached block is found; otherwise, of the buffers nobody refers to, the one whose last entry in the history of releases is the earliest is recycled; the panic means every buffer is in use and the block is not cached; no two buffers ever hold the same block |
| BufferCache.BCache.FindCached | kernel/bio.c:63-71 | The forward walk finds the buffer of a block exactly if there is one |
| BufferCache.BCache.FindIdle | kernel/bio.c:74-85 | The backward walk finds, of the buffers nobody refers to, the one whose last entry in the history of releases is the earliest |
| BufferCache.BCache.Bread | kernel/bio.c:92-103 | The locked buffer returned has the last logical contents of the block, whatever was evicted in between; no other buffer changes; it panics exactly if the block is not cached and every buffer is referenced, and sleeps exactly if another process has the buffer locked |
| BufferCache.BCache.Bwrite | kernel/bio.c:106-112 | The held contents become both the logical and the disk contents of that block only |
| BufferCache.BCache.Brelse | kernel/bio.c:116-137 | The reference and the lock go and nothing else about any buffer's contents changes; a buffer that becomes idle is entered in the history and goes to the front with the others in order, and otherwise list and history stay |
| BufferCache.BCache.Requeue | kernel/bio.c:126-134 | Relinking moves the buffer to the front, leaves the others in order and enters it in the history; the list stays a doubly linked ring in the order of the last entries |
| BufferCache.RequeueSpec | kernel/bio.c:126-134 | The four link updates keep the ring and change nothing but links |
| BufferCache.BCache.Bpin | kernel/bio.c:139-144 | One more reference, accounted for as a pin, and no other change |
| BufferCache.BCache.Bunpin | kernel/bio.c:146-151 | The last reference may go only if the disk copy is current; coherence is kept |
| BufferCache.Recycle | kernel/bio.c:76-85 | Giving an idle buffer to an uncached block keeps coherence and uniqueness |
| Log.Log.WriteLog | kernel/log.c:178-191 | The loop copies exactly the logged blocks' current contents to the log area while other processes hold buffers and come for more between its rounds; it panics only at a moment when no buffer is unreferenced, with a prefix of its writes made; if nobody comes, exactly if no buffer is unreferenced at the start |
| Log.Log.WriteHead | kernel/log.c:102-114 | One header write with the count and the block numbers; pins, coherence and what other processes hold are kept; it panics exactly if no buffer is unreferenced |
| Log.Log.InstallTrans | kernel/log.c:68-83 | The loop puts the log's copies on their home blocks and, outside recovery, takes back the pins, while other processes come between its rounds; it panics only at a moment when no buffer is unreferenced, with a prefix of its writes made, and never if nobody comes |
| Log.Log.Commit | kernel/log.c:193-203 | The block writes issued are exactly the list that is proved atomic, the log is empty afterwards, no logical contents change, whoever comes for buffers meanwhile; a panic comes only when no buffer is unreferenced and leaves a prefix of that list, like a crash; if nobody comes it succeeds, with something logged, if and only if the logged blocks and the unlogged buffers of other processes are together fewer than NBUF |
| Log.SpareExact | kernel/bio.c:74-87 | Some buffer is unreferenced if and only if the logged blocks and the unpinned buffers that other processes have are together fewer than NBUF |
| Log.AfterIsFlat | kernel/log.c:193-203 | Committing what the cache shows delivers what the cache shows |
| Log.Log.PlanAtomic | kernel/log.c:193-203 | At any moment what commit would write is all-or-nothing, under any crashes, between the disk and what all operations since the last commit have made of it |
| Log.Log.ReaderTakes | kernel/file.c:121-124 | A process in no operation that can take an unlogged block gets its current contents; the log's invariants are kept and the buffer counts as one that commit cannot recycle |
| Log.Log.Arrives | kernel/bio.c:58-89 | It can do so whenever fewer than NBUF buffers are in use and nobody has that block locked |
| Log.Log.Meanwhile | kernel/file.c:121-124 | Any number of readers between two rounds of the log's loops leave the logged blocks pinned, the disk and the logical contents as they were |
| Log.Log.BeginOp | kernel/log.c:126-142 | Admission if and only if no commit is on and a full reservation fits; a caller that has to wait waits for a live operation or a commit |
| Log.BeginReserve | kernel/log.c:126-142 | An admitted operation's reservation fits with all others and with what is logged |
| Log.SpendReserve | kernel/log.c:214-235 | Logging a block within an operation's share keeps the reservations within the log |
| Log.EndReserve | kernel/log.c:146-175 | Ending an operation gives its reservation back |
| Log.RoomInHeader | kernel/log.c:214-235 | An operation within its ten blocks always finds the count below LOGSIZE for a block that is not logged yet |
| Log.Log.LogWrite | kernel/log.c:214-235 | The block's logical contents become the buffer's; it is appended and pinned once, or absorbed; it panics exactly if the count has reached LOGSIZE or the size of the area less one, tested before absorption, or if no operation is in progress; an operation that stays within its share keeps the reservations |
| Log.Log.FindLogged | kernel/log.c:225-228 | The scan finds a block's entry exactly if it is logged |
| Log.Log.LeaveOp | kernel/log.c:146-164 | end_op's panic cannot happen, and the caller commits exactly if it was the last operation |
| Log.Log.EndOp | kernel/log.c:146-175 | When the last operation ends, all that the operations of the group have written is on its home blocks, the log is empty, and the block writes are atomic under any crashes between the old disk and the group's result, as are those of a commit that panics; otherwise nothing is written; when the commit panics is as in Log.Log.Commit |
| Log.Log.ReadHead | kernel/log.c:86-97 | The in-memory header is what the disk's header block says |
| Log.Log.RecoverFromLog | kernel/log.c:116-123 | Over a fresh cache recovery issues exactly recovery's list of writes and leaves a valid, idle log |
| Log.InitLog | kernel/log.c:54-65 | From any disk with a good header, boot leaves an idle log over the recovered disk |
| Log.Log.UpdateBlock | kernel/log.c:205-214 | bread, modify, log_write, brelse changes the logical contents of that block and of no other, next to other processes' buffers, and fails exactly on log_write's count |
| Log.Log.RunOperation | kernel/log.c:126-175 | A whole operation within its quota cannot panic, has its writes on disk when it returns, and the block writes that put them there are atomic under any crashes |
| LogQuota.FirstWriteExact | kernel/log.c:214-235 | For operations within MAXOPBLOCKS, log_write of a block that is new to the transaction is accepted in every state if and only if the log area has more than LOGSIZE blocks |
| LogQuota.AbsorbedNeverSafe | kernel/log.c:220-228 | For a block that is logged already no size of the log area suffices: with any size there is a state within the quota in which log_write panics though it would have absorbed the block |
| LogQuota.FirstWriteFails | kernel/log.c:126-235 | A run: three operations are admitted and log home blocks until an area of at most LOGSIZE blocks is full; the next new block, within its operation's share, panics |
| LogQuota.AbsorbedFails | kernel/log.c:126-235 | A run, in an area of any size: the three fill the log and the first of them panics at a block it has logged before |
| LogQuota.CommitFails | kernel/log.c:146-203 | A run: with 29 blocks logged and one other block read by a process in no operation, the three operations end and commit panics, though fewer than NBUF blocks are logged |
| FsLayout.PutInodeReads | kernel/fs.c:225-241 | Packing an inode into its slot of an inode block and unpacking any slot gives that inode or what was there |
| FsLayout.PutBitmap | kernel/fs.c:65-105 | Changing one bit of a bitmap block changes that block's bit in the disk's bitmap and no other |
| Ownership.Allocate | kernel/fs.c:65-88 | Giving a free block to an empty slot keeps: references in range, no block referenced twice, a bit set exactly for metadata and referenced blocks |
| Ownership.Release | kernel/fs.c:91-105 | A referenced block's bit is set, so freeing it cannot panic, and freeing it keeps the three |
| Ownership.GaveUp | kernel/fs.c:425-453 | Emptying one inode clears exactly the bits of the blocks it held |
| FsState.FillSlot | kernel/fs.c:388-406 | A fresh zeroed block in a direct or indirect slot keeps ownership, changes no other inode, and no byte of the file |
| FsState.FillEntry | kernel/fs.c:407-417 | The same for an entry of the indirect block |
| FsState.OthersContent | kernel/fs.c:505-539 | An operation on one inode leaves the contents of every other inode as they were |
| FsState.SpliceContent | kernel/fs.c:505-539 | The bytes written block by block amount to a splice of the file's contents |
| FsState.StillHoleFree | kernel/fs.c:505-539 | A write that begins inside or at the end of a file without holes makes none |
| FsState.LoggedInAll | kernel/fs.c:505-539 | The blocks a write logs number at most twice the blocks it spans plus three, one fewer if it begins inside a block of a file without holes |
| FsState.TruncateSlot | kernel/fs.c:425-453 | Every bfree of itrunc finds its bit set |
| FsState.Truncated | kernel/fs.c:425-453 | At the end exactly the blocks the inode held are free, and ownership holds |
| FsState.UpdatedOk | kernel/fs.c:225-241 | Writing an inode back changes no reference, no bit and no other inode |
| Fs.Fs.FindClear | kernel/fs.c:72-84 | The inner loop finds the first clear bit of a bitmap block that stands for a block on the disk |
| Fs.Fs.Balloc | kernel/fs.c:65-88 | The lowest free block is taken and zeroed; zero exactly if none is free; the panic of log_write exactly if one is free and no operation is in progress |
| Fs.Fs.Bfree | kernel/fs.c:91-105 | The bit is cleared; the panic occurs exactly if it was clear |
| Fs.Fs.Iupdate | kernel/fs.c:225-241 | The disk's inode becomes the in-memory one and nothing else changes; block ownership holds with the disk's inode afterwards |
| Fs.Fs.Bmap | kernel/fs.c:382-421 | The block of a file block, allocated if missing, with ownership kept, every byte of every file unchanged, and a bound on the blocks logged; zero only if the disk is full; the panic of log_write exactly if a block is missing, one is free, and no operation is in progress |
| Fs.Fs.Writei | kernel/fs.c:505-539 | Refused exactly if off is past the end or off plus the length is past the largest file; otherwise exactly the first r bytes are spliced in at off, other files are unchanged, the inode is on disk, ownership and hole-freeness are kept, few blocks are logged; r falls short only if the disk is full or a copy from the caller fails, and then the one buffer that is left changed and unlogged is described exactly |
| Fs.Fs.Readi | kernel/fs.c:471-496 | The slice of the file from off on: nothing if off is past the end or the sum overflows, else all n bytes or up to the end unless it meets a hole on a full disk or copying out fails; a file without holes is not changed at all; the blocks read are there afterwards; outside an operation nothing is changed, and it panics exactly if it meets a hole, a block is free, and no operation is in progress; inside one it leaves the disk inconsistent, without an inode for a block in use, exactly if a block is free and it meets a hole whose address goes into the inode |
| Fs.Clip | kernel/fs.c:477-480 | The number of bytes to be read is the largest that neither exceeds the request nor passes the end of the file, and zero past the end or if the sum overflows |
| FsState.DiskBehind | kernel/fs.c:382-421 | A disk that is consistent with an inode is consistent with an older copy of it if and only if no address has been filled in since |
| Fs.Fs.Itrunc | kernel/fs.c:425-453 | No panic; the file is empty on disk, exactly its blocks are free again, no other file changes, only bitmap and inode blocks are logged |
| Directory.Namecmp | kernel/fs.c:543-547 | strncmp's loop says that a name and a name field agree exactly if the text in the field is the name cut off at fourteen bytes |
| Directory.FieldReads | kernel/fs.c:600-600 | What strncpy puts into a name field reads back as the name cut off at fourteen bytes |
| Directory.Dirlookup | kernel/fs.c:551-575 | It finds the first entry in use for the name, with its inode number and offset, and none exactly if there is none; the directory reads as before and no other file changes; it panics only if the directory ends inside an entry, or has a hole and the disk is full |
| Directory.FreeEntry | kernel/fs.c:592-598 | The first entry that is not in use, or the end |
| Directory.Dirlink | kernel/fs.c:579-606 | On success the name was new and the first free entry, or a new one at the end, is now the entry for it, written back, with all other bytes and all other files unchanged; -1 only if the name is there, the disk is full or the directory is as large as a file can be, and then the directory reads as before |
| Directory.LinkLookup | kernel/fs.c:549-606 | After dirlink a lookup of the name finds the inode linked, and a lookup of any other name finds what it found before |
| FileWrite.ChunkSpan | kernel/file.c:154-160 | A chunk spans at most three blocks, or four if it begins inside one |
| FileWrite.ChunkFits | kernel/file.c:148-175 | For a file without holes each chunk logs at most MAXOPBLOCKS = 10 distinct blocks, at any offset and for any number of bitmap blocks |
| FileWrite.LogTakes | kernel/file.c:158-175 | So the log can take every chunk |
| FileWrite.WriteInode | kernel/file.c:161-165 | The part between begin_op and end_op splices the chunk, moves the offset, and its log_writes are all that happens to the disk |
| FileWrite.PushOut | kernel/file.c:160-166 | The log then carries the same writes out atomically |
| FileWrite.WriteChunk | kernel/file.c:155-172 | One chunk is one transaction within the quota: whatever crashes happen while it is written out and during recovery, every file on the recovered disk has all its bytes from before the chunk, or every file has all its bytes from after it |
| FileWrite.SpliceSplice | kernel/file.c:155-172 | Two adjacent writes are one |
| FileWrite.Filewrite | kernel/file.c:134-181 | The bytes written so far are always a prefix of the source spliced in at the offset; n is returned exactly if all were written; a shortfall has a full disk or a refused chunk behind it; wherever it crashes, and however often recovery does, the recovered file has the source spliced in up to the end of a chunk and all other files are as they were |
| FileWrite.FileCrashAtomicity | kernel/file.c:155-172 | A list of block writes that is atomic between two disks is atomic between their files, for every inode at once |
| FileWrite.MoreSafe | kernel/file.c:155-172 | Another chunk after those written keeps it: a crash in any of them leaves the file at the end of a chunk |
| FileWrite.FilesStay | kernel/file.c:160-166 | A chunk leaves every other inode a consistent file with the same bytes |
| FileWrite.HomeOnly | kernel/log.c:68-83 | Ownership and file contents do not depend on the log area |
| Mkfs.BitsBlockReads | mkfs/mkfs.c:234-248 | The bitmap block that mkfs's loop makes has exactly the first n bits set |
| Mkfs.NextBlock | mkfs/mkfs.c:252-294 | Counting freeblock up amounts to the kernel's allocation on the image that finishing now would leave |
| Mkfs.Builder.Iappend | mkfs/mkfs.c:252-294 | The file's contents become the old contents and the new bytes, without holes, without spare blocks and with zeros after the end; every other file is unchanged; freeblock grows by exactly the data and indirect blocks needed; it fails exactly if the file becomes too large or the blocks run out |
| Mkfs.Builder.Ialloc | mkfs/mkfs.c:220-232 | A new inode of the given type is an empty file with one link; the others are unchanged |
| Mkfs.Builder.AppendAll | mkfs/mkfs.c:157-158 | Appending a file in pieces gives the file |
| Mkfs.Builder.FixRoot | mkfs/mkfs.c:163-168 | The root directory is padded with zeros to whole blocks and the invariants still hold for every inode |
| Mkfs.HoleAtBoundary | mkfs/mkfs.c:163-168 | The padded root has no hole if and only if its size was not on a block boundary |
| Mkfs.Builder.Balloc | mkfs/mkfs.c:234-248 | The image becomes the finished one |
| Mkfs.EntryOf | mkfs/mkfs.c:150-155 | Entry i + 2 of the root directory names file i and its inode |
| Mkfs.Build | mkfs/mkfs.c:68-173 | It succeeds if and only if no file is too large and all files with the root directory fit; then the image satisfies block ownership for every inode, the root is a directory and every other inode in use a plain file with one link, the rest have type 0, every file holds exactly its input, the root holds its entries padded with zeros, with a hole exactly in the stated case, exactly the first blocks are in use, the super block is in place and the log is empty |
| Mkfs.SuperReads | kernel/fs.c:29-47 | The kernel reads back the magic number and the geometry that mkfs used |
| Boot.ImageBoots | mkfs/mkfs.c:68-173 | On the image every inode is a consistent file and the log header says that nothing is committed, which is what recovery and filewrite start from |
| Boot.LogFails | mkfs/mkfs.c:25-25 | On every image mkfs makes the three failures of the log are reached from boot: a new block, a block logged before, and the commit |
| Boot.RootHole | mkfs/mkfs.c:163-168 | With 62, 126 or 190 files the root directory of the image has a hole, and reading its last block outside an operation, as fileread does, panics unless the image is full |
| Boot.RootHoleFilled | kernel/fs.c:549-573 | A lookup that misses reads that far inside an operation; afterwards reading there outside an operation does not panic |
| Boot.RootHoleOnDisk | kernel/fs.c:471-496 | Between that read and the next iupdate the disk by itself is not consistent; after it, it is |
| Boot.RootHoleHappens | kernel/file.c:106-132 | There are such images for every program init: 62 files, and the read panics |
| Boot.WriteFile | kernel/file.c:134-181 | From boot, filewrite to any file of the image: what it has written and what a crash leaves, with all its assumptions met |
| Boot.UnloggedHappens | kernel/fs.c:522-530 | A write to a file of the image whose source becomes unreadable after one byte: nothing counts as written, and the buffer of the block differs from what the log has |
| Boot.RootHit | mkfs/mkfs.c:120-155 | The entries of the root directory that are in use for a name: the first for ".", the second for "..", entry i + 2 for the name of file i, and none of the padding |
| Boot.FindName | kernel/fs.c:551-575 | From mkfs's image, dirlookup in the root finds the root for "." and "..", for any other name the first file given to mkfs whose name has the same first fourteen bytes, and nothing if there is none; it does not panic unless the root has a hole |
| PageTable.SetEntry | kernel/vm.c:107-107 | Writing one level-0 entry changes the mapping of that page and of no other |
| PageTable.AddMid | kernel/vm.c:92-106 | Hanging a zeroed page under the root keeps the tree unshared and every mapping |
| PageTable.AddLow | kernel/vm.c:92-106 | The same one level down |
| PageTable.Elsewhere | kernel/vm.c:86-108 | What happens in pages that are not table pages does not concern the page table |
| Vm.Kernel.Kalloc | kernel/kalloc.c:113-131 | The first free page with count 1, filled with junk; 0 exactly if there is none |
| Vm.Kernel.Kfree | kernel/kalloc.c:85-108 | The page is filled with junk and goes to the head of the free list, or the process exits, exactly if the page's count is not 1 |
| Vm.Kernel.Uvmcreate | kernel/vm.c:203-212 | An empty page table on a page taken from the free list |
| Vm.Kernel.Walk | kernel/vm.c:86-108 | The level-0 table the hardware would reach; 0 exactly if there is none and none could be made; making tables never changes a mapping and takes only free pages |
| Vm.Kernel.Walkaddr | kernel/vm.c:113-131 | The physical address if and only if the page is mapped for the user, with nothing changed |
| Vm.Kernel.Mappages | kernel/vm.c:146-169 | Exactly the first n pages of the range lead to consecutive physical pages with the given flags and nothing else is remapped; which of the three outcomes, and why |
| Vm.Kernel.Uvmunmap | kernel/vm.c:174-199 | Exactly the mapped pages of the range are unmapped; with do_free their pages are on the free list, each once, in order |
| Vm.Kernel.Uvmdealloc | kernel/vm.c:264-277 | The same for the pages between two sizes; nothing if the new size is not smaller |
| Vm.Kernel.Uvmalloc | kernel/vm.c:231-258 | Success adds exactly the pages up to the new size, each on its own zeroed page; failure restores the translation, and every page that was free is free or a table page; with three free pages for each page asked for it cannot fail |
| Vm.GrownMore | kernel/vm.c:241-256 | Each round keeps: every page that was free is still free, a table page, or one new data page, and only one of these |
| Vm.UndoneBy | kernel/vm.c:244-255 | Deallocating after a failure restores the translation and loses no page |
| Freewalk.Freewalk | kernel/vm.c:281-300 | The pages of the subtree are put on the free list in the order of the walk and nothing else changes |
| Freewalk.TreePages | kernel/vm.c:281-300 | For a page table without mappings those pages are exactly its table pages, each once, and no leaf is met |
| Freewalk.Uvmfree | kernel/vm.c:304-309 | Afterwards the free list has gained exactly the data pages and the table pages, each once |
| Cow.DemandMapInv | kernel/trap.c:34-75 | Mapping a fresh page keeps the sharing invariant: counts at least the number of mappings, no free page mapped, a writable private page mapped once |
| Cow.ForkPageInv | kernel/proc.c:370-407 | So does forking a page |
| Cow.StoreFaultInv | kernel/trap.c:132-171 | So does a store fault, whether it copies or not |
| Cow.UnmapPageInv | kernel/proc.c:963-987 | So does unmapping a page |
| Cow.UnmapFrees | kernel/proc.c:976-987 | Unmapping puts the page on the free list if and only if its count is 1, and no other page |
| Cow.Tally | kernel/proc.c:348-987 | What any step does to any page: it leaves the free list for one mapping and a count of 1, goes back from one mapping and a count of 1, or its count changes as its mappings do, one short exactly if the step unmaps it from a private region with a count above 1 |
| Cow.SoundUntil | kernel/proc.c:976-987 | A page that is free, or mapped as often as its count says, stays one or the other if and only if the step does not forget to count it |
| Cow.PagesConserved | kernel/proc.c:348-987 | Over every run from boot: a page that is free or mapped was free at boot; no page is both; a page that was free at boot is free or mapped, unless an earlier step forgot to count it, and then it is never free again |
| Cow.FaultInvisible | kernel/trap.c:145-171 | Handling a store fault changes nobody's view of any page |
| Cow.FaultGrants | kernel/trap.c:145-171 | Afterwards the page is writable, and if it is private nobody else maps it |
| Cow.CowRefines | kernel/proc.c:348-414 | One step of the real system is, on private pages, one step of a system that keeps a copy per process and copies at fork |
| Cow.CowRuns | kernel/proc.c:348-414 | The same over every run: a store never alters another process's private view |
| Cow.SharedExactKept | kernel/proc.c:348-987 | The count of a shared page is always the number of its mappings |
| Cow.CellsRefine | kernel/proc.c:372-404 | One step of the real system is, on private and shared pages alike, one step of a system in which a private page is a cell of its own and a shared page one cell common to all who have it: fork copies the one and joins the other, a store is seen by all who have the cell, and a store fault on a shared page leaves the cell for a copy |
| Cow.CellsRuns | kernel/proc.c:372-404 | The same over every run from boot |
| Cow.StoreReaches | kernel/trap.c:132-171 | A store to a shared page is seen by the others who have it if and only if the storing process had a writable entry |
| Cow.ExactUntil | kernel/proc.c:976-987 | Exact counts stay exact after a step if and only if the step does not unmap a private page with a count above 1 |
| Cow.StuckStays | kernel/kalloc.c:85-166 | A page whose count exceeds its mappings stays so and is not freed by any step |
| Cow.ForgottenForever | kernel/proc.c:976-987 | After such an unmapping the page is never free again in any continuation |
| Cow.LeakHappens | kernel/proc.c:976-987 | It happens: from the memory after boot, mapping a private page, forking, and unmapping it in child and parent leaves a page that nobody maps and that is not free |
| Cow.Machine.HandleStoreFault | kernel/trap.c:145-171 | The handler, step by step, is the store-fault step |
| Cow.Machine.ForkRegion | kernel/proc.c:370-407 | fork's loop gives the child an entry for every page of the parent's region, private or shared, for the same physical page and with the region's rights, takes the right to store away from both for private pages, adds one to a page's count for each of its mappings in the region, gives the child exactly the parent's private contents, and changes no content and no free page |
| Cow.Machine.UnmapRegion | kernel/proc.c:976-987 | deallocvma's loop removes exactly the region's mappings; a page becomes free exactly if they were as many as its count and, in a private region, one; the counts of shared pages fall by as many, those of private pages stay; contents and invariant are kept |
| Umalloc.LinkDone | user/umalloc.c:33-43 | Linking a block in with both merges keeps a circular, address-ordered, disjoint, fully coalesced list whose free units are the old ones and the block's |
| Umalloc.FindPlace | user/umalloc.c:29-32 | Every block handed out has a place between two neighbours of the list |
| Umalloc.AfterFree | user/umalloc.c:24-44 | free keeps every unit either free or handed out and never both |
| Umalloc.AfterTake | user/umalloc.c:75-84 | So does taking a block out, whole or as a tail, and live blocks never overlap |
| Umalloc.AfterSbrk | user/umalloc.c:46-61 | So does new memory above all the old |
| Allocator.PlaceFound | user/umalloc.c:30-32 | free's loop condition stops at the block's place and nowhere else |
| Allocator.Heap.FindPrevious | user/umalloc.c:29-32 | free's search terminates at the place |
| Allocator.Heap.Free | user/umalloc.c:24-44 | Exactly that block changes hands; the invariant holds; some free block is at least as large; the next search begins at the block's place |
| Allocator.Heap.Morecore | user/umalloc.c:46-61 | The units asked for become free; a block large enough exists; they are units that sbrk has given if and only if they are fewer than 2^27 |
| Allocator.Heap.Search | user/umalloc.c:74-89 | Once round the list from freep finds a block large enough exactly if there is one, and then the first that it meets |
| Allocator.Heap.Take | user/umalloc.c:75-84 | The block handed out was not handed out before, has exactly the units asked for, and is the end of the free block; the next search begins before it |
| Allocator.Heap.Malloc | user/umalloc.c:63-90 | A new block disjoint from all others, no other block changed, cut from the end of the first free block large enough from freep on; sbrk is asked exactly if nothing fits, one success suffices; null exactly if nothing fits and sbrk fails; what sbrk has given stays partitioned into free and handed out if and only if sbrk is not asked, fails, or is asked for fewer than 2^27 units |
| Allocator.Units | user/umalloc.c:69-69 | The units hold the bytes and a header, and one fewer would not |
| Allocator.SbrkArgument | user/umalloc.c:52-54 | sbrk gives as many units as are wanted if and only if these are fewer than 2^27, and fewer otherwise |
| Allocator.HugeRequest | user/umalloc.c:63-90 | malloc(0xffffffff) on a new heap reports success for 2^28 + 1 units of which sbrk has given one |
| SleepLock.MutualExclusion | kernel/sleeplock.c:21-41 | In every state of every interleaving at most one process has the sleep lock |
| SleepLock.NoLostWakeup | kernel/proc.c:676-722 | Whenever the sleep lock is free and its spinlock released, no process is SLEEPING on it |
| SleepLock.NoDeadlock | kernel/sleeplock.c:21-41 | In every state of every interleaving in which some process is busy with the lock, waiting or not, a process that is busy with it can take a step |
| SleepLock.RunInv | kernel/proc.c:676-722 | The invariant behind these holds in every reachable state: a process past the point of no return in sleep has the lock taken or a wakeup still to come to it |
| SleepLock.StepInv | kernel/proc.c:676-722 | Every lock-level step keeps that invariant |
| SleepLock.KillInv | kernel/proc.c:727-748 | So does a wakeup by kill at any time |
| SleepLock.ForeignLock | kernel/proc.c:706-722 | Only the process that is in wakeup holds another process's lock |
| WaitExit.NoLostChild | kernel/proc.c:430-552 | Whenever wait_lock is free, no parent sleeps in wait while it has a ZOMBIE child, including children given to init |
| WaitExit.NobodysParent | kernel/proc.c:430-442 | In every state of every run: a process that has come past reparent, and a slot that has been freed, is the parent of nobody |
| WaitExit.ZombieHasParent | kernel/proc.c:430-498 | Every ZOMBIE has a parent that has not come past reparent, and while wait_lock is free has not begun it |
| WaitExit.Inherited | kernel/proc.c:430-442 | A child that outlives its parent's exit has init as its parent from then on |
| WaitExit.ReapsOwnChild | kernel/proc.c:511-538 | The process that wait frees is a child of the caller and has left the CPU for good |
| WaitExit.GivesUp | kernel/proc.c:543-551 | After a scan without a ZOMBIE wait returns -1 if and only if the caller has no child or has been killed, and sleeps otherwise |
| WaitExit.SleepsForChild | kernel/proc.c:550-551 | No process sleeps in wait without having a child |
| WaitExit.NoDeadlock | kernel/proc.c:444-552 | In every state of every run in which a process is in the middle of wait or exit and not SLEEPING, a process in the middle of wait or exit can take a step |
| WaitExit.MoveKin | kernel/proc.c:417-552 | Every step of wait, exit, fork and kill keeps the family invariant: progress of reparent, one parent for every process but init, progress of the scan for children |
| WaitExit.RunInv | kernel/proc.c:430-552 | The invariant behind it holds in every reachable state |
| WaitExit.StepInv | kernel/proc.c:430-552 | Every step of wait and exit keeps it |
| WaitExit.KeepsSleep | kernel/proc.c:430-498 | A parent committed to sleep has no ZOMBIE child unless it is init and a wakeup has yet to come to it |
| WaitExit.ReapsDead | kernel/proc.c:517-538 | The child that wait frees has left the CPU for good and is neither the caller nor init |
| WaitExit.ReapInv | kernel/proc.c:517-538 | Freeing it keeps the invariant |
| WaitExit.ForkInv | kernel/proc.c:417-419 | So does fork's parent link |
| Shell.ParsePrint | user/sh.c:266-447 | Parsing the printed form of any command tree of well-formed words, at most nine to a command, gives the tree back |
| Shell.Image | user/sh.c:266-447 | The trees that some input parses to are exactly those |
| ShellGrammar.ParsesExactly | user/sh.c:328-447 | For every input and every tree: parsecmd returns the tree if and only if the tokens of the input derive it in the grammar, in which a command is words, at most nine, and redirections in any order, or a line in parentheses with redirections behind it |
| ShellGrammar.PanicsExactly | user/sh.c:328-447 | It panics if and only if they derive no tree |
| ShellGrammar.LexesExactly | user/sh.c:263-309 | gettoken cuts an input into given tokens if and only if the input is those tokens written out with white space of the five kinds between them, and some between two words and between ">" and another ">" |
| ShellGrammar.Unambiguous | user/sh.c:345-447 | One token list has one tree |
| ShellGrammar.LineComplete | user/sh.c:345-360 | In front of ")" or the end, parseline accepts the tokens of every derivation of a line, returns its tree and leaves the rest |
| ShellGrammar.ArgsComplete | user/sh.c:430-444 | The argument loop takes words and redirections in any order, up to "|", ")", "&", ";" or the end |
| ShellGrammar.LineSound | user/sh.c:345-360 | Whatever parseline accepts is the tokens of a derivation whose tree it returns |
| Shell.LineParse | user/sh.c:345-360 | A printed line in front of a closing parenthesis or the end parses to its tree and leaves the rest |
| Shell.PipeParse | user/sh.c:362-373 | The same for pipelines |
| Shell.AtomParse | user/sh.c:400-447 | The same for commands, blocks and their redirections, in order |
| Shell.ParsedLine | user/sh.c:345-360 | Whatever the parser accepts is well-formed |
| Shell.Gettoken | user/sh.c:266-309 | A token other than the end shortens the input, so that the descent terminates; a word is not empty |
| ShellParser.Parser.PeekAt | user/sh.c:311-321 | The cursor skips white space and the answer is that of the specification |
| ShellParser.Parser.GettokenAt | user/sh.c:266-309 | The loops over white space and words give the specified token and cursor |
| ShellParser.Parser.ParseredirsAt | user/sh.c:375-398 | The loop gives the specified redirections, or fails exactly when specified |
| ShellParser.Parser.ParseargsAt | user/sh.c:430-444 | The argument loop gives the specified words and redirections, in any order, or fails exactly when specified, with the limit on arguments |
| ShellParser.Parser.ParseexecAt | user/sh.c:416-447 | Agrees with the specification in value, failure and cursor |
| ShellParser.Parser.ParseblockAt | user/sh.c:400-414 | Likewise |
| ShellParser.Parser.ParsepipeAt | user/sh.c:362-373 | Likewise |
| ShellParser.Parser.ParselineAt | user/sh.c:345-360 | Likewise |
| ShellParser.Parser.Parsecmd | user/sh.c:328-343 | A tree that the tokens of the input derive, or failure exactly if they derive none; left-over input is an error |
| Virtio.AtMostTwo | kernel/virtio_disk.c:201-213 | Three disjoint descriptors to a chain, so at most two requests are in progress |
| Virtio.RingPush | kernel/virtio_disk.c:271-277 | An entry put on a ring of NUM slots overwrites none of the pending ones, across wrap-around of the 16-bit index |
| Virtio.RingPop | kernel/virtio_disk.c:312-325 | The entry at the index is the oldest pending one |
| Virtio.Disk.AllocDesc | kernel/virtio_disk.c:156-166 | The first free descriptor, or none exactly if none is free |
| Virtio.Disk.FreeDesc | kernel/virtio_disk.c:169-182 | The descriptor is cleared and free; every caller meets the two conditions under which it does not panic |
| Virtio.Disk.Alloc3 | kernel/virtio_disk.c:201-213 | Three distinct free descriptors, or none taken and fewer than three free |
| Virtio.Disk.Submit | kernel/virtio_disk.c:215-281 | A well-formed chain is published and b->disk set; it has to wait exactly while two requests are in progress |
| Virtio.Disk.DeviceComplete | kernel/virtio_disk.c:237-269 | A device that follows the descriptors moves exactly the requested block between disk and buffer, whichever taken request it completes |
| Virtio.Disk.DeviceFetch | kernel/virtio_disk.c:271-281 | The device takes published requests in order, each once |
| Virtio.Disk.IntrOne | kernel/virtio_disk.c:312-324 | The status panic cannot happen; the buffer of one completed request, and only that, is released, once |
| Virtio.Disk.Intr | kernel/virtio_disk.c:294-327 | Every completed request is dealt with and no other |
| Virtio.Disk.FreeChain | kernel/virtio_disk.c:185-197 | The loop frees exactly the three descriptors of the chain |
| Virtio.Disk.Finish | kernel/virtio_disk.c:288-291 | The request's descriptors are free again; the others are untouched |
| Pipe.Pipe.Put | kernel/pipe.c:95-95 | The byte is appended to the buffered bytes, also when the 32-bit counter wraps |
| Pipe.Pipe.Get | kernel/pipe.c:123-123 | The oldest buffered byte is taken |
| Pipe.Pipe.WriteSome | kernel/pipe.c:76-103 | The bytes taken out and then those buffered are always the bytes accepted, in order, never more than PIPESIZE buffered; why the writer stops, and after how many bytes, exactly: done, killed or no reader, full, or a byte that cannot be copied in |
| Pipe.Pipe.ReadSome | kernel/pipe.c:105-130 | The same; the reader gets the oldest bytes, as many as asked for and buffered, and waits only when the pipe is empty and open, or gives up then exactly if it has been killed; if a byte cannot be copied out, that byte and no other is lost |
| Pipe.Pipe.Close | kernel/pipe.c:58-74 | That end is closed and the other stays as it is; the pipe is given up exactly when both are closed; the bytes stay in order |
| Pipe.LoseByte | kernel/pipe.c:119-127 | A byte written to a new pipe and read into memory that cannot be written is gone |
| Pipe.SlotsDiffer | kernel/pipe.c:76-130 | Bytes fewer than PIPESIZE apart are in different slots wherever the counters wrap |
| Pipe.Pipe.EmptyOrFull | kernel/pipe.c:88-122 | The comparisons of the wrapped counters tell exactly when the pipe is empty and when it is full |
| Lottery.TotalTickets | kernel/proc.c:572-581 | The sum of the tickets of the RUNNABLE processes |
| Lottery.Select | kernel/proc.c:593-613 | For every draw from 1 to the total exactly one process is selected; it is RUNNABLE and holds the draw |
| Lottery.HoldsOne | kernel/proc.c:593-613 | No two processes hold the same draw |
| Lottery.Proportional | kernel/proc.c:572-613 | As many draws from 1 to the total select a process as it has tickets in play |
| Lottery.Random | kernel/random.c:6-17 | The value is that of ten rounds; whatever the product wraps around to, it is below 2^15 or, read as unsigned, the negative of such a value |
| Lottery.StepSign | kernel/random.c:13-13 | A round gives the sum modulo 2^15, less 2^15 exactly if the sum modulo 2^32 has its top bit set and 2^15 does not divide it |
| Lottery.NegativeDraw | kernel/random.c:6-30 | With three tickets at tick 0 random gives -27919 and the draw is 1; by its residue it would be 2 |
| Lottery.RandomRange | kernel/random.c:20-30 | The result lies between the bounds, whichever is larger, though random can be negative before it is read as unsigned |
| Lottery.Schedule | kernel/proc.c:572-613 | If anybody has tickets exactly one RUNNABLE process with tickets is chosen, the one that holds the draw |
| Lottery.RoundsOnto | kernel/random.c:6-17 | Modulo 2^15 the ten rounds are a permutation of the seeds, with its inverse given, through overflow and signed remainder |
| Lottery.FairOverTime | kernel/proc.c:572-613 | If the total of tickets divides 2^15, each process is chosen at exactly its share of any 2^15 consecutive numbers of ticks |
| Lottery.EveryDraw | kernel/random.c:20-30 | Then every draw occurs |
| Lottery.SomeDrawNever | kernel/random.c:20-30 | With more than 65535 tickets some draw occurs for no number of ticks |
| Lottery.Starves | kernel/proc.c:572-613 | A process all of whose draws are out of the reach of random is never chosen |
| Lottery.StarvationHappens | kernel/sysproc.c:101-114 | With 32768, 58813 and 8420 tickets the second process, which has more than half, is never chosen |
| Grep.Match | user/grep.c:71-81 | True exactly if the declarative meaning of the pattern matches at the beginning (after "^") or at some position |
| Grep.Matchhere | user/grep.c:84-95 | True exactly if the text can be cut up to fit the items of the parsed pattern |
| Grep.Matchstar | user/grep.c:98-105 | True exactly if some run of fitting characters leaves a matching rest: the shortest-first search loses no match |
| Grep.MatchStar | user/grep.c:98-105 | The meaning of "c*" in front of a pattern, as a run and a rest |
| Grind.DoRand | user/grind.c:16-40 | The next state plus one is 16807 times the old state plus one, modulo 2^31 - 1 |
| Grind.Fits31 | user/grind.c:28-36 | No intermediate value needs more than 31 bits and a sign |
| Grind.NeverZero | user/grind.c:28-36 | The value before the decrement is never zero |
| Grind.Permutation | user/grind.c:16-40 | The step is a permutation of [0, 0x7ffffffd], with its inverse given |

## Left out

- Log.Log.Commit: readers of a logged block are done with it when commit reads it; the original waits for them.
- Log.Log.ReaderTakes: a reader that has to wait or finds no buffer is in BufferCache.BCache.Bread.
- Log.Log.UpdateBlock: bread finds a buffer at once; its panic and its wait are in BufferCache.BCache.Bread.
- Log.Log.RunOperation: an operation that is alone; Log.Log.EndOp states the same for any number of them.
- BufferCache.BCache.Bread: the wait itself is not part of it; the sleep lock is in SleepLock.
- BufferCache.BCache.Bget: one device; virtio_disk_rw ignores the device number, and uniqueness is about devices other than 0.
- Fs.Fs.Writei: what a failed copy leaves in a buffer is not carried into later calls.
- FileWrite.Filewrite: ordinary files only, copies from the caller succeed, and no other operation is in progress or writes to the file between two chunks.
- Mkfs.Build: at most 198 files, which the original does not check; short names are given with the directory and the underscore already removed.
- Vm.Kernel.Kfree: the page is one of the allocator's and not free; the original panics on addresses outside and does not check for a second free.
- Vm.Kernel.Mappages: addresses below MAXVA and a size above 0, at which the original panics.
- Cow.Machine.HandleStoreFault: a page can be allocated if one is needed; the original goes on with a null page if not.
- Cow.CowRefines: speaks of private pages; Cow.CellsRefine is about shared pages too.
- Allocator.Heap.Malloc: sbrk's addresses are unit-aligned and above what it gave before; what a negative argument takes away is not modelled.
- WaitExit.NoLostChild: a failed copy of the exit status is a nondeterministic outcome, not tied to a cause.
- Virtio.Disk.Submit: the buffer has no other request in progress, which its sleep lock provides.
- Pipe.Pipe.WriteSome: one call stands for what happens between two sleeps.
- FileWrite.ChunkFits: that ten blocks are reached is not shown; it takes a disk with four bitmap blocks or more, and mkfs's has one.
- Vm.Kernel.Uvmunmap: pages to be freed have a count of 1; kfree ends the process otherwise.
- Lottery.FairOverTime: totals that divide 2^15; for other totals up to 65535 it is not settled which draws occur.
- Lottery.Schedule: totals below 2^30, so that no int overflows.
- ShellParser.Parser.ParseexecAt: the exec node is built at the end and not filled in after it has been wrapped.
- Directory.Dirlookup: it runs in an operation; the iget at its end and dirlink's iput are not part of it.
- Boot.FindName: with a hole in the root the lookup of a name that is not there may panic on a full disk.
- Inode table and path names (iget, iput, namex), ialloc and link counts.
- uvmcopy, copyin, copyout, the kernel's own page table, and exec.
- Writing shared mappings back in deallocvma, and stores by the kernel to shared pages.
- Spinlocks, interrupts, context switches and memory fences are atomic steps; of the scheduler only the draw is modelled.
- Initialising the virtio device, the UART, the PLIC and the console.
- System-call arguments, printf, running a parsed command, and the small user programs.
