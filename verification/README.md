# Verified model of the xv6 kernel's storage, memory and process core

This project models, in Dafny, the parts of an xv6 kernel (with a slab allocator)
where correctness rests on invariants over whole runs, and proves those
invariants. Code that works by changing things in place is modelled as classes and
methods with loops; what it computes is given by functions on values, and the
theorems are about those. Concurrency is modelled as state machines whose runs are
all interleavings.

| file | models |
|---|---|
| `RedoLog.dfy`, `LogAdmission.dfy`, `LogSharing.dfy`, `Log.dfy` | the crash-safe log: disk states write by write, admission of operations, also of operations that share blocks, the routines themselves |
| `BufferCache.dfy` | the block cache with its LRU ring |
| `SlabSizes.dfy`, `SlabModel.dfy`, `Slab.dfy`, `SlabAdmission.dfy`, `SlabTable.dfy`, `Frames.dfy` | the slab allocator over the frame list, also under concurrent callers |
| `UserHeap.dfy`, `UserMalloc.dfy` | the user-level allocator, after section 8.7 of Kernighan and Ritchie, *The C Programming Language*, 2nd edition |
| `FsModel.dfy`, `FsSpace.dfy`, `FsLayout.dfy`, `FsSteps.dfy`, `Fs.dfy`, `FsCrash.dfy` | block bitmap, block map, files as byte arrays, free space, the layout on disk, the write budget, files across crashes |
| `Directory.dfy`, `Namei.dfy`, `DirectoryFiles.dfy`, `PathFiles.dfy` | directories as finite maps, inode references, path walk, and both on a volume |
| `PageTables.dfy`, `Vm.dfy` | address spaces and who owns each frame |
| `SleepLock.dfy`, `ProcTree.dfy` | sleep locks with sleep and wakeup, the process tree |
| `Pipe.dfy` | pipes |
| `ShellGrammar.dfy`, `ShellPrint.dfy`, `Shell.dfy` | the shell's command language, commands written back as lines, and its parser |
| `Arith.dfy`, `Bits.dfy`, `Common.dfy`, `Params.dfy` | products and quotients, bits, small helpers, constants |

`dafny verify dfyconfig.toml` checks the whole project.

## What turned out not to hold

The code is modelled as it is. Where it does not do what one would expect, a lemma
shows it and another states exactly when it does.

- The log's reservation of MAXOPBLOCKS blocks per operation is one block too
  generous for a log of LOGSIZE blocks with its header inside: operations that use it
  up reach the panic in `log_write`, or overrun the log area because the guard is read
  before the lock is taken. Both are excluded exactly when operations log fewer than
  MAXOPBLOCKS blocks (`LogAdmission.SafeExactly`). A chunk of a file write may log ten,
  but four of them are bitmap blocks, which all writes share and the log absorbs:
  operations within that budget are safe exactly on disks with at most six bitmap
  blocks (`LogSharing.SafeShared`, `FileSteps.WritesFitLog`).
- The page table of a slab is declared with 100 entries and used from entry 1 to entry
  100; the last one is reached when 99 pages are full (`SlabModel.LastEntry`), in every
  class but the smallest (`SlabAdmission.LastEntryExactly`).
  The model gives the table that entry.
- `kmalloc` fails for every class when class 0 is full (`SlabTables.SlabTable.Kmalloc`).
- `kmalloc` tests for a full class before it takes the lock. Two callers can pass with
  one slot left; the second then gets object 0 of class 0, which is in use, or an object
  of page 101 (`SlabAdmission.TwoAtOnce`). Objects stay distinct exactly on the runs
  where every critical section still finds a slot (`SlabAdmission.GoodExactly`), and on
  all runs exactly with one caller (`SlabAdmission.CallersExactly`).
- `kmfree` does not round its size up. With the size that was asked for it goes to
  another slab, or to none, unless that size is a power of two and at least 8
  (`SlabSizes.FreedElsewhere`, `SlabSizes.ClassOfOtherSize`).
- `malloc` and `morecore` compute sizes that wrap around; the exact bounds are in
  `UserMalloc.UnitsSuffice` and `UserMalloc.SbrkArgumentFits`. A request for 2^28 units
  or more that needs `sbrk` gets a block that lies beyond the memory `sbrk` gave
  (`UserMalloc.Allocator.Malloc`).
- A pipe writer that was killed can leave a reader asleep over a full pipe
  (`Pipe.KilledWriterStrandsReader`); the steps and the runs on which this happens are
  in `Pipe.StrandsExactly` and `Pipe.ServedExactly`. A process that is killed after it
  has looked at its mark sleeps on (`Pipe.AwakeExactly`).
- `kill` looks at free slots too, and `allocproc` does not clear the mark, so a new
  process can be born killed (`ProcTree.BornKilled`, `ProcTree.FreshExactly`). A killed
  process sleeps again exactly if it does so without looking at its mark
  (`ProcTree.KilledAwakeExactly`).
- `writei` writes the inode record of a growing file only, and `readi` never does,
  although both allocate missing blocks. The record on disk stays right exactly if the
  file grows or every block's entry in the inode is set, its direct entry or that of the
  indirect block (`FileSystem.Volume.Writei`, `FileSystem.Volume.Readi`); a byte written
  to or read from a hole shows it (`FileSystem.StaleWrite`, `FileSystem.StaleRead`).
  Without holes it stays right, and the operations keep files without
  (`FileSteps.SolidKept`).

## Model

| member | source | states |
|---|---|---|
| `RedoLog.ReplayAgain` | src/log.c:69-82 | installing the log in full after an installation that stopped anywhere ends with the same home blocks as installing it once |
| `RedoLog.RecoveryCrash` | src/log.c:84-122 | a recovery cut off after any number of writes leaves a header that can be trusted, and recovering again restores the same home blocks |
| `RedoLog.RecoverySurvivesCrashes` | src/log.c:84-122 | any number of crashed recoveries followed by one that completes ends with n = 0 on disk and the home blocks of an undisturbed recovery |
| `RedoLog.PutHead` | src/log.c:98-113 | the header block written for a list of blocks reads back as that count and that list |
| `RedoLog.CommitCrashEarly` | src/log.c:176-202 | a crash before the header write leaves every home block as it was once recovery has run |
| `RedoLog.CommitCrashLate` | src/log.c:192-202 | a crash at or after the header write ends, after recovery, with every logged block at its new contents and all other home blocks unchanged |
| `RedoLog.CommitCrash` | src/log.c:69-122 | crash atomicity: for every number of writes commit got done, recovery restores all of the old home blocks or applies the whole transaction, and the header write alone decides which |
| `RedoLog.CommitTraceAt` | src/log.c:192-202 | the k-th disk that commit leaves behind is the k-th state the crash lemmas speak of |
| `RedoLog.CommitTraceSafe` | src/log.c:192-202 | a machine that stops with any disk that commit leaves behind recovers the old home blocks or these with the whole transaction applied |
| `RedoLog.RecoveryTraceAt` | src/log.c:115-122 | the k-th disk that recovery leaves behind is the k-th state the crash lemmas speak of |
| `RedoLog.RecoveryTraceSafe` | src/log.c:115-122 | a machine that stops with any disk that recovery leaves behind recovers what the first disk recovers to |
| `RedoLog.EventAtomic` | src/log.c:177-202 | a commit, or a crash in it with any number of crashed recoveries, leaves an empty log and exactly the old home blocks or the old ones with the transaction carried out at once |
| `RedoLog.HistoryAtomic` | src/log.c:115-202 | over every history of commits and crashes the home blocks are those of the durable transactions carried out one after the other |
| `LogAdmission.StepKeeps` | src/log.c:124-233 | every step of any interleaving of begin_op, log_write and end_op keeps the count of outstanding operations, the reservation and the list without repeats |
| `LogAdmission.GroupCommit` | src/log.c:124-174 | in every reachable state: while committing no operation is outstanding; no block is logged twice; logged blocks plus unused allowances stay at most LOGSIZE, so a block about to be appended has a slot |
| `LogAdmission.TenBlocksPanic` | src/log.c:213-222 | three operations that each log MAXOPBLOCKS blocks of their own, as the reservation allows, reach the panic of log_write |
| `LogAdmission.TenBlocksOverrun` | src/log.c:213-233 | the guard is read before the lock is taken, so two processes can pass it together and log one block more than the log area holds |
| `LogAdmission.SafeExactly` | src/log.c:124-233 | no reachable state has panicked or overrun the log area if and only if operations log fewer than MAXOPBLOCKS distinct blocks each |
| `LogSharing.StepShared` | src/log.c:124-233 | for operations that share some of the blocks they log: with the shared blocks left out, every step is a step of the admission rule, or none |
| `LogSharing.LoggedBound` | src/log.c:124-233 | over every run the logged blocks are at most the bound for the blocks that are not shared, plus the shared ones |
| `LogSharing.SevenPanics` | src/log.c:124-221 | with seven shared blocks, operations that log six others and four shared ones each reach the panic in log_write |
| `LogSharing.SafeShared` | src/log.c:124-233 | operations that log at most six blocks of their own, and at most four (or more) shared ones, never panic nor overrun the log, over all interleavings, if and only if there are at most six shared blocks |
| `BufferCache.MovedOk` | src/bio.c:118-141 | unlinking a ring entry and linking it at the head gives the ring with that entry moved to the front, in both directions, and touches nothing but links |
| `BufferCache.OldestUnused` | src/bio.c:73-90 | the first unused buffer met from the tail was released no later than any other unused one |
| `BufferCache.RecycleCoherent` | src/bio.c:75-89 | giving an unreferenced clean buffer a new identity keeps at most one buffer per block and changes what no reader sees |
| `BufferCache.WriteCoherent` | src/bio.c:108-116 | writing a buffer through makes the disk agree with it and shows no reader anything new |
| `BufferCache.ReleaseAged` | src/bio.c:129-138 | moving a released buffer to the front keeps the ring in order of last release |
| `BufferCache.ScanBack` | src/bio.c:75-90 | the backward scan stops at the unused buffer nearest the tail, or at the head if every buffer is in use |
| `BufferCache.Cache.constructor` | src/bio.c:38-56 | the ring is a permutation of all buffers, none stands for a block |
| `BufferCache.Cache.Bget` | src/bio.c:58-93 | the buffer that stands for the block, else the least recently released unused clean one under its new identity; the panic exactly when neither exists; no reader sees a change |
| `BufferCache.Cache.FindCached` | src/bio.c:66-72 | finds the one buffer that stands for the block, or none |
| `BufferCache.Cache.FindUnused` | src/bio.c:73-90 | finds an unused buffer exactly if there is one, and then the one released longest ago |
| `BufferCache.Cache.Iderw` | src/memide.c:35-60 | a dirty buffer goes to its block, an invalid one is filled from it, and readers see what they saw |
| `BufferCache.Cache.Bread` | src/bio.c:95-106 | the buffer returned is locked and holds the latest contents of the block, written back or not |
| `BufferCache.Cache.Bwrite` | src/bio.c:108-116 | the block on disk takes the buffer's contents in one write, readers see no change |
| `BufferCache.Cache.Brelse` | src/bio.c:118-141 | one reference less; the last one moves the buffer to the front of the ring; the invariant and what readers see are kept |
| `BufferCache.Cache.MovePointers` | src/bio.c:130-137 | the six pointer assignments amount to unlinking and linking at the head |
| `WriteAheadLog.SomeUnused` | src/bio.c:73-90 | with fewer than NBUF buffers pinned, held or in the hands of other processes, some buffer can be recycled, so bget does not panic |
| `WriteAheadLog.NoBufferExactly` | src/bio.c:73-90 | bget finds no buffer to recycle if and only if the pinned blocks and the clean buffers in use are NBUF together |
| `WriteAheadLog.TwoBuffersLeft` | src/bio.c:73-90 | in every reachable state of the admission rule with operations below MAXOPBLOCKS blocks, at least two buffers are not pinned |
| `WriteAheadLog.Log.WriteLog` | src/log.c:176-190 | one write per logged block, each a state of the write-by-write description, and the cached contents end up in the log area, while other processes use the cache between any two of the copies |
| `WriteAheadLog.Log.InstallTrans` | src/log.c:69-82 | one write per logged block, in the order of the write-by-write description, with other processes using the cache in between; every block that was pinned is clean afterwards |
| `WriteAheadLog.Log.WriteHead` | src/log.c:98-113 | one write, of the header block that lists the logged blocks |
| `WriteAheadLog.Log.FillHead` | src/log.c:104-110 | the loop stores the count and the list and leaves the rest of the header block alone |
| `WriteAheadLog.Log.ReadHead` | src/log.c:84-96 | the in-memory header lists what the disk header lists, and the disk is unchanged |
| `WriteAheadLog.Log.RecoverFromLog` | src/log.c:115-122 | the disk passes through exactly the states of the recovery description and ends recovered, with an empty list; a machine that stops on the way recovers the same |
| `WriteAheadLog.Log.BeginOp` | src/log.c:124-141 | admits a caller exactly when the admission rule's Begin can happen, takes that step, and then what is logged and what all operations, the newcomer included, may still log fits the log |
| `WriteAheadLog.Log.LogGuard` | src/log.c:218-221 | passes or panics exactly as the admission rule's Guard |
| `WriteAheadLog.Log.LogWrite` | src/log.c:224-232 | the block is logged once, absorbed if it was there, and its buffer is pinned; readers see no change |
| `WriteAheadLog.Log.LogAppend` | src/log.c:213-233 | however long ago the guard was passed, the list has a place for the block, and appending is the admission rule's Append |
| `WriteAheadLog.Log.Update` | src/log.c:204-233 | reading, changing, logging and releasing a block adds exactly this change to what readers see, writes nothing to disk, and keeps exactly the logged blocks pinned, while other processes hold buffers of other blocks |
| `WriteAheadLog.Log.Commit` | src/log.c:192-202 | the disk passes through exactly the states of commit, each of which recovers to all or nothing of the transaction, whatever other processes do with the cache meanwhile; afterwards the log is empty and nothing is pinned |
| `WriteAheadLog.Log.EndOp` | src/log.c:143-174 | takes the steps End, and for the last operation Commit and Done, of the admission rule and keeps its invariant, so the panic of a call during a commit is unreachable; commits exactly when the last operation ends, and then through the states of commit |
| `WriteAheadLog.AbsorbOk` | src/log.c:213-233 | with the guard passed, the list stays without repeats and inside the log area |
| `SlabSizes.GetNumOfBits` | src/slab.c:27-36 | the loop counts the binary digits |
| `SlabSizes.DigitsBound` | src/slab.c:27-36 | a number lies below 2^digits and, unless zero, not below 2^(digits-1) |
| `SlabSizes.RoundsUp` | src/slab.c:37-44 | the class size is the least power of two that is at least 8 and at least the request |
| `SlabSizes.ClassFits` | src/slab.c:37-49 | every request from 1 to 2048 falls into a class 0 to 8 whose size is large enough, and into the smallest such |
| `SlabSizes.ClassOfClassSize` | src/slab.c:271-274 | kmfree finds the class when it is given the class size |
| `SlabSizes.ClassOfOtherSize` | src/slab.c:271-274 | kmfree looks in the slab that kmalloc used if and only if the size is a power of two and at least 8; else it looks in the slab below, and for fewer than 8 bytes in no slab at all |
| `SlabSizes.FreedElsewhere` | src/slab.c:271-274 | nine bytes come from the second slab and are freed in the first; five bytes are freed in slab -1 |
| `Frames.FrameList.Kfree` | src/kalloc.c:59-80 | the frame becomes the head of a free list of distinct frames |
| `Frames.FrameList.Kalloc` | src/kalloc.c:85-98 | the first frame of the list, which loses it, or null if the list is empty |
| `SlabModel.EarlierPagesUsed` | src/slab.c:130-161 | when first fit turns to a page, every object of every earlier page is in use |
| `SlabModel.FirstFitUsesFirstPage` | src/slab.c:258-262 | after every allocation page 1 is in use |
| `SlabModel.OpenFramesOk` | src/slab.c:251-256 | a page opened with a free frame differs from every lower table entry, stale or not, and the frames owned grow by exactly that frame |
| `SlabModel.CloseFramesOk` | src/slab.c:306-313 | returning the frame of a page that became empty keeps the first-match invariant although the table entry goes stale |
| `SlabModel.LastEntry` | src/slab.h:11 | the table entry behind the declared array is the next one exactly when the first 99 pages are full |
| `SlabAdmission.LastEntryExactly` | src/slab.h:11 | some run from the start comes to that entry if and only if the class is not the smallest, which has 64 pages |
| `SlabAllocator.FirstMatch` | src/slab.c:286-295 | no lower table entry matches the address of a live object |
| `SlabAllocator.SameOffset` | src/slab.c:296-298 | page number and distance give back the bit that kmalloc set |
| `SlabAllocator.PageState` | src/slab.c:151-158 | a frame is missing for the next bit exactly when checkNewpage reports a new page |
| `SlabAllocator.Slab.constructor` | src/slab.c:205-235 | an empty slab with page 1 attached, in order, and two frames taken |
| `SlabAllocator.Slab.SetBitmap` | src/slab.c:61-79 | sets the first clear bit and returns it |
| `SlabAllocator.Slab.ClearBitmap` | src/slab.c:89-101 | clears the bit and tells whether it was set |
| `SlabAllocator.Slab.CheckEmpty` | src/slab.c:103-128 | the rectangle of rows and columns is scanned exactly as the linear range of bits |
| `SlabAllocator.Slab.CheckNewpage` | src/slab.c:130-161 | the first clear bit if it starts a page with no bit set, else 0 |
| `SlabAllocator.Slab.GetPageNum` | src/slab.c:164-203 | the number of pages with a bit set, for all nine shapes of page |
| `SlabAllocator.Slab.Alloc` | src/slab.c:251-268 | takes the first clear bit; its page has a frame, the old one or the head of the free list; counters agree with a recount of the bitmap |
| `SlabAllocator.Slab.FindPage` | src/slab.c:286-295 | the scan over the table stops at the page kmalloc used |
| `SlabAllocator.Slab.Free` | src/slab.c:276-315 | clears exactly the bit kmalloc set, returns the frame exactly when its page becomes empty and is not page 1, and counters agree with a recount |
| `SlabTables.SlabTable.constructor` | src/slab.c:205-235 | nine slabs in order that share no frame, with two frames taken for each |
| `SlabTables.SlabTable.LiveDisjoint` | src/slab.c:236-316 | live objects of all classes are pairwise disjoint in memory in every valid state |
| `SlabTables.SlabTable.KmallocTests` | src/slab.c:238-249 | passes exactly for a size in range whose class is not full while class 0 is not full either |
| `SlabTables.SlabTable.KmallocLocked` | src/slab.c:252-268 | whoever ran since the tests: if a slot is left, the object that first fit offers becomes live and was not live before, the table stays valid, and every live object stays where it was |
| `SlabAdmission.OverrunsExactly` | src/slab.c:245-268 | a step of any caller hands out an object twice, or one beyond the pages of its class, if and only if it takes the lock when no slot is left |
| `SlabAdmission.GoodExactly` | src/slab.c:236-316 | over every run of any number of callers: all objects in use stay distinct and inside their pages if and only if every critical section of kmalloc still finds a slot |
| `SlabAdmission.PendingExactly` | src/slab.c:245-252 | the callers past the tests get along in every order if and only if each class has a slot for each of them |
| `SlabAdmission.ReservedGood` | src/slab.c:245-252 | runs on which callers past the tests never exceed the slots left keep all objects distinct |
| `SlabAdmission.TwoAtOnce` | src/slab.c:245-268 | two callers pass the tests with one slot left: class 0 then hands out object 0 twice, the others hand out an object of page 101, and the counter is past its limit |
| `SlabAdmission.CallersExactly` | src/slab.c:245-268 | the tests before the lock keep objects distinct in all interleavings if and only if there is at most one caller |
| `SlabTables.SlabTable.Kmalloc` | src/slab.c:236-269 | when nobody takes the last slot between the tests and the lock: null exactly for a size out of range, a full class, or a full class 0; else a new object large enough in the class of the size, with every live object kept |
| `SlabTables.SlabTable.Kmfree` | src/slab.c:271-316 | frees the object and no other; every other live object of every class stays live where it was |
| `SlabTables.Capacity` | src/slab.c:245-249 | a slab never holds more objects than its limit, 64 pages for class 0 and 100 for the others |
| `UserMalloc.UnitsSuffice` | src/umalloc.c:69 | the units asked for hold the request and a header if and only if the 32-bit sum does not wrap, and one unit less would not |
| `UserMalloc.SbrkArgumentFits` | src/umalloc.c:52-54 | sbrk is asked for the memory that morecore hands out if and only if it is fewer than 2^28 units |
| `UserMalloc.SbrkGives` | src/umalloc.c:52-58 | the memory that sbrk then gives holds the units that morecore puts on the list if and only if they are fewer than 2^28 |
| `UserMalloc.FindPlace` | src/umalloc.c:29-32 | the loop of free ends at the entry behind which the block belongs in address order |
| `UserHeap.InsertOk` | src/umalloc.c:33-43 | linking a block in behind its place keeps the ring ordered and through base, and free and used blocks a partition of the memory |
| `UserHeap.MergeOk` | src/umalloc.c:33-42 | joining two touching entries keeps the ring and the partition |
| `UserHeap.FreeHeapOk` | src/umalloc.c:24-44 | after free no two entries of the ring touch, the ring and the partition hold |
| `UserHeap.TakeWholeOk` | src/umalloc.c:76-77 | unlinking an entry that fits exactly keeps ring, partition and coalescing |
| `UserHeap.TakeTailOk` | src/umalloc.c:78-82 | cutting the tail off a larger entry keeps ring, partition and coalescing |
| `UserHeap.GrowOk` | src/umalloc.c:57-59 | a region from sbrk becomes a block in use that overlaps nothing |
| `UserHeap.GrowCount` | src/umalloc.c:57-59 | a region from sbrk adds exactly its units to the heap |
| `UserMalloc.Allocator.Free` | src/umalloc.c:24-44 | the block is no longer used, the others are as before, no memory is lost, and the free list has an entry at least as large; the next search starts from the entry below the block |
| `UserMalloc.Allocator.Morecore` | src/umalloc.c:46-61 | calls sbrk once and returns null exactly if that fails; else the heap grows by exactly the units asked for, but by 4096 at the least, and the free list has an entry that serves the request; the blocks in use are unchanged |
| `UserMalloc.Allocator.Search` | src/umalloc.c:74-89 | the loop ends, also when the new memory was merged into freep; it asks sbrk exactly when no free block is large enough and fails exactly when that fails; else the block found has the size asked for and is new; without sbrk it is the tail of the first entry going around from freep that is large enough, and freep is left before that entry |
| `UserMalloc.Allocator.Malloc` | src/umalloc.c:63-90 | null exactly when no free block was large enough and the one call of sbrk failed, and then no block in use changes; else exactly one block of the right size is added, and the heap invariant holds; from a heap with a large enough entry it is the tail of the first such entry going around from freep; the block lies in memory that sbrk gave if and only if a free block was large enough or fewer than 2^28 units were asked for |
| `UserMalloc.AllTooSmall` | src/umalloc.c:86-88 | back at freep no free block is large enough, so this happens only before the heap has grown |
| `FsModel.WordPut` | src/fs.c:389-394 | a word stored in an indirect block reads back, and no other word changes |
| `FsModel.MarkIs` | src/fs.c:65-69 | setting or clearing a bit of the bitmap changes that bit and nothing but bitmap blocks |
| `FsModel.GainsOk` | src/fs.c:372-400 | a new block in an empty slot keeps ownership: every marked data block is owned by exactly one slot, and no other file changes |
| `FsModel.AddIndirectOk` | src/fs.c:386-388 | a zeroed indirect block maps nothing and keeps ownership |
| `FsModel.TruncateOk` | src/fs.c:407-435 | unmarking exactly the blocks of a file and forgetting them keeps ownership and every other file |
| `FsModel.OthersFile` | src/fs.c:452-511 | a file whose blocks are kept holds the same bytes while another file changes |
| `FileSystem.Volume.constructor` | src/mkfs.c:249-262 | a new volume: the metadata blocks are marked, no data block is, no file has a hole, and the invariant holds |
| `FileSystem.Volume.ScanRow` | src/fs.c:65-74 | the scan of one bitmap block stops at its first clear bit within the disk |
| `FileSystem.Volume.Balloc` | src/fs.c:55-78 | the lowest free block, marked, zeroed and owned by nobody, with every file and every other data block as it was, and two blocks logged; the panic exactly when no block is free, and then nothing has changed |
| `FileSystem.Volume.Bfree` | src/fs.c:80-95 | the block is unmarked and nothing else changes |
| `FileSteps.FreeOne` | src/fs.c:414-428 | the next block that itrunc frees is marked, so the panic of bfree is unreachable |
| `FileSystem.Volume.Bmap` | src/fs.c:370-400 | the block number of block n, allocated if there was none; no byte of the file and no other file changes, and nothing at all if the block was there; the panic exactly when fewer blocks are free than it has to allocate; the inode in memory stays as it is exactly if its entry for the block was set |
| `FileSystem.Volume.Itrunc` | src/fs.c:402-435 | exactly the blocks of the file become free, the inode is empty in memory and on disk, other files are untouched and no file gets a hole, every block changed is logged, and these are at most the bitmap blocks and one inode block |
| `FileSystem.Volume.Readi` | src/fs.c:449-476 | -1 past the end or on wrap-around, else the slice of the byte array cut at the size; holes read as zeros and are filled, and the panic comes exactly when the missing blocks are not free; a file without holes is not changed at all; a record on disk that was right is right afterwards if and only if the inode's entries for all blocks read were set |
| `FileSystem.Volume.Writei` | src/fs.c:478-511 | -1 and no change for a bad range; else the file, with or without holes, is the old byte array with the bytes written over it, growing at its end, other files are untouched and no hole appears; the panic exactly when the missing blocks are not free; a record on disk that was right is right afterwards if and only if the file grew or the inode's entries for all blocks written were set |
| `FileSystem.StaleWrite` | src/fs.c:495-511 | a byte written into a hole of a new file: the record on disk was right and is not any more |
| `FileSystem.StaleRead` | src/fs.c:465-476 | the same for a byte read from a hole |
| `FileSteps.SolidKept` | src/fs.c:447-511 | an operation on one file makes no hole in another; so, from a new volume on, reading, writing and truncating keep all files without holes |
| `FreeSpace.SpentNext` | src/fs.c:370-400 | what a loop over the blocks of a file takes from the free blocks is what the file lacked of the bytes gone over so far |
| `FreeSpace.SpentChanges` | src/fs.c:370-400 | such a loop leaves the inode in memory alone if and only if the entries for all its blocks were set |
| `FileSystem.Volume.Iupdate` | src/fs.c:216-236 | the record reads back as the inode, the other seven records of its block and all other inode blocks keep every word |
| `FileSystem.Volume.Iload` | src/fs.c:298-310 | reading a record in gives the inode that iupdate last wrote |
| `FsLayout.RecordWritten` | src/fs.c:221-234 | writing one inode record: it reads back, and every other word of the inode area stays |
| `FsLayout.SameVolume` | src/fs.c:216-236 | what is on disk determines a volume: two volumes on one disk have the same blocks and inodes |
| `FileSteps.BudgetKept` | src/file.c:127-133 | a write of at most one chunk logs at most six blocks outside the bitmap (four data blocks, the indirect block and the inode block) and four bitmap blocks, or five in a file with holes |
| `FileSystem.Volume.Chunk` | src/file.c:140-145 | a transaction writes its bytes over the file or refuses and changes nothing; it logs at most six blocks outside the bitmap and four in it, five in a file with holes, and every block it changed is among them; a file without holes keeps its record right and stays without |
| `FileSystem.Volume.Filewrite` | src/file.c:118-156 | with other processes changing the volume between any two chunks: the chunks that were written are, in order, the bytes from the offset on, 1536 each and the rest in the last one, each written over what the file then was; the result is n exactly when all were written, and otherwise the next chunk was out of range for the file as it then was |
| `FileSteps.Undisturbed` | src/file.c:118-156 | if nobody changed the volume between the chunks they amount to one write of all the bytes |
| `FileSteps.WritesFitLog` | src/file.c:127-133 | operations that keep to the budget of file writes, with the bitmap blocks shared, never panic nor overrun the log, over all interleavings, if and only if the disk has at most six bitmap blocks |
| `FsCrash.UnloggedSame` | src/fs.c:216-236 | a block that was not logged is the same on disk before and after |
| `FsCrash.OperationAtomic` | src/file.c:140-145 | logged changes, to any number of files, are atomic across crashes: commit what was logged, crash after any number of writes, recover, and every block outside the log is that of the volume before or that of the volume after |
| `FsCrash.VolumeAtomic` | src/file.c:140-145 | and what recovery leaves on disk is a volume in order: every marked block owned once, every file mapped right |
| `FsCrash.GroupChange` | src/log.c:124-174 | operations one after the other, each with its changes logged, amount to one change with all of them logged |
| `FsCrash.GroupAtomic` | src/log.c:124-174 | group commit: the operations that share a transaction take effect together or not at all, for every point of the crash |
| `FsCrash.ChunkAtomic` | src/file.c:140-145 | a transaction of filewrite cut off after any number of disk writes: after recovery the disk holds a volume in order in which the file has its old bytes, or one in which the chunk is written over them |
| `FsCrash.ItruncAtomic` | src/fs.c:402-435 | the same for itrunc: all of the file's blocks or none |
| `Directory.Strncmp` | src/string.c:58-66 | zero exactly when the strings agree up to n bytes or a common NUL |
| `Directory.Strncpy` | src/string.c:68-79 | n bytes that stand for the same name, padded with NULs |
| `Directory.SpliceRecords` | src/fs.c:572-575 | writing 16 bytes at a record's offset replaces that record, or adds one at the end |
| `Directory.LinkFind` | src/fs.c:564-577 | with a new record in an unused slot, the new name maps to its number and every other name to what it did |
| `Directory.Lookup` | src/fs.c:524-548 | the number and the offset of the first record in use for the name, cut to 14 bytes, which is what the directory maps it to, or none |
| `Directory.Link` | src/fs.c:550-578 | -1 and no change if the name is there; the panic exactly when it is not, no record is unused and the directory has the maximal file size; else the first unused record takes the entry, one at the end only if there is none, every other record stays, the map of names gains exactly this entry, and no name occurs twice |
| `DirectoryFiles.Dirlookup` | src/fs.c:524-548 | on a volume, record by record through readi: the number and the offset of the first record in use for the name, or none; the directory and all other files keep their bytes |
| `DirectoryFiles.Dirlink` | src/fs.c:550-578 | on a volume, through readi and writei: -1 if the name is there; else the first unused record takes the entry, and the directory grows by one record exactly if there is none; every other record and every other file stays, and the map of names gains exactly this entry; a panic with free blocks left only when no record is unused |
| `Namei.Skipelem` | src/fs.c:583-618 | splits off the first of the slash-separated components; the rest is empty exactly when no component is left |
| `Namei.NameOfBuffer` | src/fs.c:608-614 | the name buffer, with a NUL only when the component is shorter than 14 bytes, stands for the component |
| `Namei.ComponentsJoin` | src/fs.c:583-618 | the components of two paths with a slash between them are those of the one followed by those of the other |
| `Namei.ComponentsWhole` | src/fs.c:583-618 | a path without a slash is its own component, or has none if it is empty |
| `Namei.WalkExactly` | src/fs.c:634-651 | following components from an inode comes to another one if and only if a chain of directories leads there, each with the next inode in its first record in use for the component |
| `Namei.ParentWalk` | src/fs.c:634-656 | following them to the parent comes to an inode if and only if following all but the last does and it is a directory |
| `Namei.Icache.Iget` | src/fs.c:241-272 | one reference more to the inode and to no other, in the slot it is cached in, else in the first free one, not read in; every other slot is as it was and no inode is in two; the panic exactly when all slots are in use for other inodes, and then nothing changed |
| `Namei.Icache.Idup` | src/fs.c:276-283 | one reference more to the inode and to no other |
| `Namei.Icache.Ilock` | src/fs.c:287-316 | panics exactly when the inode must be read in and has no type or lies beyond the device |
| `Namei.Icache.Iput` | src/fs.c:331-352 | one reference less to the inode and to no other; the inode is freed, and no longer read in, exactly when that was the last one, it was read in, and it has no links |
| `Namei.Icache.Namex` | src/fs.c:620-657 | for any tree: the inode that folding lookup over the components leads to, or its parent with the last name; references change by one for the inode returned and not at all on failure; at most inodes without links that nobody held are freed; a panic only with a full cache or at an inode without type on the path |
| `PathFiles.Follow` | src/fs.c:632-656 | on a volume: the inode that folding lookup over the components leads to, or its parent, with each lookup made in the bytes of a directory file |
| `PageTables.EntryParts` | src/vm.c:73 | a page-table entry gives back the frame and the flags it was made of |
| `PageTables.UserMayAsFlagged` | src/vm.c:44-53 | through both levels, as the processor checks them, user code may read or write a page exactly as the flags of the page's own entry say |
| `PageTables.AddTableOk` | src/vm.c:44-53 | a new page table keeps ownership: every frame in use is owned by one directory, one directory entry or one user page; its directory entry has exactly the flags present, writable and user |
| `PageTables.MapPageOk` | src/vm.c:69-73 | mapping a frame makes it owned by that page, and touches no other address space |
| `PageTables.UnmapPageOk` | src/vm.c:269-276 | unmapping removes exactly the page's frame from those in use |
| `PageTables.GoneOk` | src/vm.c:283-298 | once no user page is mapped, the page tables and the directory are all that is left of an address space |
| `VirtualMemory.Vm.Walk` | src/vm.c:35-55 | finds or makes the page table; fails exactly when it is missing and must not or cannot be made; no mapping and no other directory entry changes, and a new one has exactly the flags present, writable and user |
| `VirtualMemory.Vm.MapUserPage` | src/vm.c:60-80 | the page maps to the frame with its flags and bytes, every other page is as before; on failure nothing changed |
| `VirtualMemory.Vm.MapRegion` | src/vm.c:60-80 | exactly the pages of the region get entries, consecutive pages consecutive frames from its physical start, each present with the region's flags; fails only without free frames |
| `VirtualMemory.Vm.SetupKvm` | src/vm.c:118-136 | a new address space in which every page of physical memory is at KERNBASE, device memory at its own address, the kernel's code and only that read-only, none of it for user code, and nothing else present; or nothing changed at all |
| `VirtualMemory.KmapFits` | src/vm.c:105-115 | wherever the data segment starts, the regions of kmap do not overlap, so the remap panic is unreachable |
| `VirtualMemory.KmapDirect` | src/vm.c:100-115 | wherever the data segment starts, the four regions of kmap are the direct map: page by page the frame at that address less KERNBASE, or the device page itself, read-only exactly between EXTMEM and data, and no other page |
| `VirtualMemory.Vm.Dealloc` | src/vm.c:255-279 | exactly the pages of the range are unmapped and their frames free, also where whole page tables are missing and skipped |
| `VirtualMemory.Vm.Alloc` | src/vm.c:221-249 | a smaller size returns the old one; on failure the user mapping is exactly the old one; on success the range maps to zeroed frames that user code may read and write, and every other page is as before; no frame is lost; with enough free frames it succeeds |
| `VirtualMemory.Vm.FreeVm` | src/vm.c:283-298 | every user frame, page table and the directory go back once, and other address spaces keep theirs |
| `VirtualMemory.Vm.Copy` | src/vm.c:315-345 | the same pages with the same bytes over frames of its own, for user code to read and write exactly as the parent's, the direct map of the kernel above them, and the parent untouched; or everything is as it was before the call |
| `SleepLock.MutualExclusion` | src/sleeplock.c:22-42 | at most one process holds a sleep lock, over all interleavings of any number of processes and locks, with the test of locked and its setting as separate steps |
| `SleepLock.NoLostWakeup` | src/proc.c:436-493 | if a sleep lock is free and a process sleeps on it, some process is inside releasesleep for that lock and its wakeup has yet to reach the sleeper |
| `SleepLock.QuietLockHasNoSleepers` | src/proc.c:436-493 | a free sleep lock that nobody is working on has no sleepers |
| `SleepLock.HoldingExact` | src/sleeplock.c:44-53 | holdingsleep is true exactly for the process that holds the lock |
| `SleepLock.SchedChecksHold` | src/proc.c:384-401 | the checks in sched never fail on the way from sleep |
| `SleepLock.WokenExactly` | src/proc.c:476-516 | a step ends a process's sleep if and only if it kills the process or is the wakeup for the lock the process sleeps on, come to its slot; it is runnable then |
| `SleepLock.SpinProgress` | src/proc.c:436-493 | spin locks cannot deadlock: the holder of one can go on, or the holder of ptable.lock can |
| `SleepLock.NextKeeps` | src/proc.c:341-493 | every step, dispatch, preemption, wakeup and kill keeps the invariant behind these |
| `ProcTree.ProcTable.Wakeup1` | src/proc.c:476-484 | exactly the processes that sleep on the channel become runnable; no other field of any slot changes |
| `ProcTree.ProcTable.AllocProc` | src/proc.c:92-111 | the first unused slot with the next pid, or failure exactly when there is none |
| `ProcTree.ProcTable.Exit` | src/proc.c:269-285 | the process is a zombie with its pid; exactly its children get init as their parent; exactly the sleepers on its parent become runnable, and those on init if it leaves a zombie; no other field of another slot changes |
| `ProcTree.ProcTable.Wait` | src/proc.c:298-330 | reaps exactly when there is a zombie child, and then the first one: its pid is returned, its slot is free without pid, parent and mark; fails exactly when there is none and the caller is killed or childless; else the caller sleeps on itself; every other slot is as it was |
| `ProcTree.ProcTable.Kill` | src/proc.c:498-516 | fails exactly when no slot has the pid; else the first slot with it is marked and not asleep: runnable if it slept, in its old state if not; no other field and no other slot changes |
| `ProcTree.ExitKeeps` | src/proc.c:246-287 | exit keeps the invariant: live parents, no parent asleep in wait over a zombie, pids accounted for |
| `ProcTree.WaitKeeps` | src/proc.c:291-331 | a pass of wait keeps it |
| `ProcTree.NextKeeps` | src/proc.c:200-331 | every action of fork, exit, wait, kill, sleep and the scheduler keeps it, also what fork does without the lock |
| `ProcTree.ParentsLive` | src/proc.c:246-331 | in every reachable state each process past EMBRYO other than init has a live parent, and no parent sleeps in wait while it has a zombie child |
| `ProcTree.ReachesInit` | src/proc.c:200-287 | following parents from any process leads to init: the processes form a tree |
| `ProcTree.PidsConserved` | src/proc.c:93-331 | wait returns no pid twice, and every pid handed out is in the table, returned, or given back by a failed fork, and only one of these |
| `ProcTree.FreshExactly` | src/proc.c:89-111 | a step leaves a free slot marked killed, so that the next process in it is born killed, if and only if kill finds the pid in a free slot first or a failed fork gives back a slot that was killed |
| `ProcTree.AwakeStep` | src/proc.c:439-516 | one step leaves a killed process asleep if and only if it is the sleep of a process that did not look at its mark; kill and wait never do |
| `ProcTree.KilledAwakeExactly` | src/proc.c:439-516 | over a whole run no killed process is asleep in any state if and only if no process goes to sleep with its mark set |
| `ProcTree.BornKilled` | src/proc.c:498-516 | kill(0) marks the first free slot and the next process starts out killed |
| `Pipe.Ring.IsFull` | src/pipe.c:85 | the test is true exactly when 512 bytes are buffered, although the 32-bit counters wrap |
| `Pipe.Ring.Write` | src/pipe.c:83-97 | a pass appends as many bytes as fit, in order; it is done exactly when all fit, gives up exactly when they do not and the read end is closed or the writer killed, and else sleeps |
| `Pipe.Ring.Read` | src/pipe.c:105-120 | a pass removes the oldest bytes, in order, as many as there are up to the number asked for; it gives up exactly when the pipe is empty with its write end open and the reader killed, and sleeps exactly when it is empty with its write end open and the reader not killed; so an empty read is the end of file or was asked for |
| `Pipe.Fifo` | src/pipe.c:77-121 | over all interleavings the bytes read followed by the bytes buffered are the bytes written, and at most 512 are buffered |
| `Pipe.NeverBothSleep` | src/pipe.c:59-121 | a reader and a writer never both sleep, even when processes are killed, before or after they look at the mark |
| `Pipe.StrandsExactly` | src/pipe.c:83-97 | one step leaves a reader asleep over buffered bytes if and only if it is the pass of a killed writer that fills a pipe with room in it while a reader sleeps |
| `Pipe.KilledWriterStrandsReader` | src/pipe.c:84-92 | a writer that was killed fills the pipe and leaves without waking the reader that sleeps on it |
| `Pipe.ServedExactly` | src/pipe.c:59-121 | a run serves its readers in every state if and only if no killed writer fills the pipe while a reader sleeps on it |
| `Pipe.AwakeExactly` | src/pipe.c:84-92 | killed processes are awake throughout a run if and only if no kill falls between the look at the mark and the sleep |
| `Shell.Parser.Gettoken` | src/user/sh.c:265-308 | the next token of the line with its place, and the tokens behind it are left; NUL exactly when none is |
| `Shell.Parser.Peek` | src/user/sh.c:310-320 | keeps the tokens that are left and tells whether the next one starts with one of the characters |
| `Shell.Parser.ParseRedirs` | src/user/sh.c:374-397 | succeeds exactly when every redirection symbol is followed by a word, and adds the redirections in order, each with its file, mode and descriptor |
| `Shell.Parser.ParseExec` | src/user/sh.c:415-446 | the outcome, the command and the tokens left are those of the parser on token sequences, which has arguments and redirections in order |
| `Shell.Parser.ParseBlock` | src/user/sh.c:399-413 | the same for a line in parentheses and the redirections behind it |
| `Shell.Parser.ParsePipe` | src/user/sh.c:361-372 | the same for a pipeline |
| `Shell.Parser.ParseLine` | src/user/sh.c:344-359 | the same for a line; the mutual recursion ends because the cursor moves |
| `Shell.Parser.Nulterminate` | src/user/sh.c:448-493 | a NUL is written behind every word of the command and nowhere else |
| `Shell.NoEndInside` | src/user/sh.c:448-493 | no NUL falls inside a word |
| `ShellGrammar.ToksAreRuns` | src/user/sh.c:262-308 | the word tokens of a line are exactly its longest runs of characters that are neither blank nor symbol |
| `ShellGrammar.ToksInOrder` | src/user/sh.c:265-308 | the tokens stand in the order of the line and do not overlap |
| `ShellGrammar.LineComplete` | src/user/sh.c:344-446 | recursive descent finds every command the grammar derives, with whatever may follow it left over |
| `ShellGrammar.LineSound` | src/user/sh.c:344-446 | and what it returns the grammar derives from the tokens it took |
| `ShellGrammar.AcceptsExactly` | src/user/sh.c:327-446 | recursive descent accepts a token sequence with a command if and only if the grammar derives that command from it |
| `ShellGrammar.Unambiguous` | src/user/sh.c:344-446 | the grammar derives at most one command from a line |
| `ShellPrinting.ShownParses` | src/user/sh.c:344-446 | round trip: a command printed as words, then redirections from the inside out, with parts in parentheses where needed, parses back to exactly that command, so arguments, redirections, files, modes, descriptors and the parts of pipes and lists keep their order |
| `ShellGrammar.LineWords` | src/user/sh.c:344-446 | the words of the command are the word tokens of the line, each once |
| `Shell.Parser.ParseCmd` | src/user/sh.c:327-342 | succeeds if and only if the grammar derives the line, with the one command it derives: arguments, files and redirections in their order; and each of its strings, read up to the NUL, is the original word |

## Left out

- Device drivers, interrupts, boot, trap entry, system-call argument handling and `exec`: tied to hardware or plumbing; the disk is a sequence of blocks that one `iderw` reads or writes as a whole.
- Spin locks: taking and giving one up is a single step.
- Device inodes in `readi` and `writei`, `stati`, `ialloc` and the system calls in src/sysfile.c: no invariant of their own beyond what is modelled.
- The packing of type, major, minor and link count into the first words of an inode record: the inode area is a sequence of records, laid out eight to a block.
- More than one device: `dev` is always the root device in the file layer.
- The log header as bytes: a block is 128 words there, while the file layer has blocks of 512 bytes; the file layer takes from the log that `bread` returns the latest contents.
- Other processes while log.c works: they may use the cache as they like between any two block copies, but leave the log the blocks and the one buffer it needs; within one copy what they hold is fixed.
- The sleep of `begin_op` and of `acquiresleep` inside `bget`: a caller that would sleep does not act until it can.
- FileSystem.Volume.Readi: the log panics when a hole is read outside a transaction; the model does not say who is inside one.
- FileSystem.Volume.Filewrite: the file offset belongs to the caller; a process that shares the open file could move it between two chunks.
- FileSteps.WritesFitLog: the converse is about operations that use the budget up; no volume is exhibited on which a single chunk logs ten blocks.
- PathFiles.Follow: references and the freeing of inodes are those of `Namei.Icache.Namex` and not repeated on the volume.
- Directory.Link: running out of disk blocks while the directory grows is the panic of `Balloc` and not repeated here.
- The frames that hold slab bitmaps and slab objects' contents: not tracked; `memset` of objects is left out.
- SlabTables.SlabTable.KmallocLocked: requires a free frame when a new page is opened, since the result of `kalloc` is not checked.
- `freerange` and the filling of freed pages: nothing to prove beyond `Kfree`.
- UserMalloc.Allocator.Malloc: says nothing of calls after one that took memory it did not get; `sbrk` is taken to return memory above all it returned before, aligned to units.
- UserMalloc.Allocator.Sbrk: an arbitrary result in place of the system call.
- VirtualMemory.Vm.Alloc: page tables made on the way stay with the address space when it fails, as in the code; bytes of kernel pages are not modelled.
- `inituvm`, `loaduvm`, `clearpteu`, `uva2ka`, `copyout`: uses of the page tables that change no ownership.
- ProcTree.PidsConserved: pids are unbounded integers; the source's `int` overflows after 2^31 forks.
- Kernel stacks, trap frames, open files and working directories of processes: only the fields that the process tree depends on are modelled.
- SlabAdmission.GoodExactly: freeing an object of page 101 is not modelled, since `kmfree` looks at 100 table entries only.
- Pipes: the files that refer to a pipe are modelled by the rule that an end is closed only when no call on it is under way.
- Shell.Parser.ParseExec: the exec node that the source fills while redirections already surround it is put together at the end, so its aliasing is not modelled; memory for nodes is not modelled.
- `runcmd` and the other user programs: thin system-call clients.
