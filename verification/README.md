# Linux 0.11, modelled and proved in Dafny

The kernel is Linux 0.11 with an unfinished swap layer. The project models its stateful parts, one module or a few for
each, and proves what must survive every interleaving and every run.

| part | files |
|---|---|
| block requests | `Elevator.dfy` (the order of the queue), `ElevatorLaws.dfy` (what it means for reads and writes), `RequestTable.dfy` (the linked slots) |
| buffer cache | `BufferCache.dfy` (the cache, the queue and the disk as a state machine), `BufferSteps.dfy` (its invariant), `BufferRuns.dfy` (what clients see), `Getblk.dfy` (each turn in the buffers' fields, and that it gets on), `BufferQueue.dfy` (the order of its requests), `BufferLinks.dfy`, `BufferPool.dfy` (free list, hash chains, `getblk` turn by turn) |
| files | `BlockTree.dfy`, `BlockLayout.dfy` (the tree as bytes on the device), `FileBytes.dfy`, `Truncation.dfy`, `FileSystem.dfy` (the code), `FsRuns.dfy` (steps of several tasks), `FsHistories.dfy` (whole runs) |
| in-core inodes | `Inodes.dfy` (the table as a state machine, and its invariant), `InodeRuns.dfy` (what holders see), `InodeLaws.dfy` (each call in the inode's fields), `InodeTable.dfy` (the code, turn by turn) |
| names | `Directory.dfy` (one directory, entry by entry, and the code), `NameTree.dfy` (all directories and the link counts), `Paths.dfy` (`namei`), `NameLaws.dfy` (what each call leaves, what undoes it, where paths lead) |
| memory | `Paging.dfy`, `PagingOps.dfy`, `PagingRuns.dfy`, `PagingCounts.dfy`, `PagingViews.dfy`, `ForkCounts.dfy`, `ForkWords.dfy`, `PageWords.dfy` (the words, counts and slots each operation leaves), `PagingStart.dfy` (after boot, and states that show how things go wrong), `MemoryManager.dfy` (the code) |
| tasks | `Scheduler.dfy`, `SchedulerLaws.dfy`, `WaitQueue.dfy`, `Timers.dfy` |
| kernel allocator | `Bucket.dfy`, `BucketRuns.dfy`, `BucketLinks.dfy`, `BucketMemory.dfy` (the code) |
| execve | `ExecArgs.dfy`, `ExecStack.dfy` (the code) |
| console | `Screen.dfy` (a plain terminal), `ScreenLaws.dfy` (what each byte and sequence does to it), `Console.dfy` (the code over video memory) |
| pipes | `Pipe.dfy`, `PipeLaws.dfy`, over the sleepers of `WaitQueue.dfy` |
| shared | `Links.dfy` (the null link, the next in a list, a list without one of its elements) |

Each part has the same shape. A state is a value; the kernel's operations are functions on it; lemmas say what they
keep, one step at a time and then over whole runs (`History...`). Interleavings are runs of steps, a step being a
stretch of kernel code between two sleeps. Where the code changes things in place, a class with the same arrays, links
and loops is proved, method by method, to perform those functions. The `Laws` modules, and those like them, say what
the functions come to without naming them: in fields, words, bytes, cells and indices. `dafny verify dfyconfig.toml`
checks everything.

## Where the code does less than its comments say

Each of these is kept as the code has it; the properties are stated so that they hold of it, with exact conditions.

- Two requests with the same command, device and sector can split the elevator queue into three runs. The buffer cache
  alone never queues such a pair; `bread` of a block of the swap device and `swap_in`, without a frame, of the page that
  begins there do, once a swap device is configured.
- In the sources `SWAP_DEV` is 0 and nothing sets it (mm/swap.c:25), so `init_swapping` returns at once: there is no swap
  map, dirty pages are never evicted and `swap_in` does nothing. What is said of swapping holds once there is a device.
- `mem_map` is an array of unsigned chars. `un_wp_page` gives the old frame up only when the allocation of the new one
  failed (its `oom()` call is commented out), so counts drift up by one for every copied page and can wrap to 0 at the
  256th sharer of a frame in use (mm/memory.c:148-151, 199-202).
- When not even eviction yields a frame, the code carries on with frame 0, the page directory: `un_wp_page` copies the
  page over it, `swap_in` reads the swapped page into it, and `try_to_share` enters the word it shares in it, or panics.
- `swap_in` reads the page only when the allocation of a frame failed; on success nothing is read and a cleared page is
  mapped: contents never survive a swap round trip (mm/swap.c:102-107).
- A write fault without a free frame may evict the very page it is about, be given its frame, and show zeros. A changed
  page that another task shows changed as well is safe from that.
- `swap_out` leaves pages out in two cases. Started on a present table with `page_entry` 0 it misses that table's first
  page when the table before is absent. Started on an absent table with `page_entry` p, not -1, it misses the pages 0 to
  p of the first present table, because it counts them as tried.
- `try_to_share` may sleep for a page table after it looked at the other task's entry. If that page was swapped out
  meanwhile, the slot number is copied; if the entry changed, the wrong frame is counted.
- `free_block` refuses a block whose buffer somebody holds, and `truncate` ignores that: the zone stays allocated with
  no inode reaching it. The count that `free_block` itself took on that buffer is never given back (fs/bitmap.c:54-60).
- Two tasks that write the same missing block of a file can both find it missing, since `new_block` sleeps: the second
  zone stored displaces the first, which stays allocated with no inode reaching it (fs/inode.c:72-138). Bytes that the
  first task has written there by then read as zeros.
- `iput` of the last link does not look whether somebody else, such as `sync`, is just inside `write_inode`. The inode is
  cleared under him, and what he writes goes to inode 32 of its block, whichever that is.
- `iget` may sleep after its caller read a number from a directory. If the file goes meanwhile, the freed inode is
  brought in all the same, and the next new file gets the same number: two in-core inodes carry it.
- `i_nlinks` is an unsigned char that nobody looks at before raising it: the 256th name of a file makes it 0.
- `new_block` can take a bit past the last zone, which is then lost; no file is affected.
- `insert_into_queues` writes a link through the null pointer of an empty bucket; the model checks first.
- `add_timer` does not shorten the timer behind the new one: timers are late, never early.
- A #! script executed with an empty argument list has its first string counted as an argument too few
  (fs/exec.c:268), so its program reads the script's name as part of the environment.
- ESC 7 and ESC 8 test the cursor column instead of the byte (kernel/chr_drv/console.c:505-508).

## Model

| member | source | states |
|---|---|---|
| `Elevator.Insert` | oslab/linux-0.11/kernel/blk_drv/ll_rw_blk.c:66-88 | `add_request` puts a request in without losing or repeating any, and never in front of the request the device is working on |
| `Elevator.InsertKeepsTwoSweeps` | oslab/linux-0.11/kernel/blk_drv/ll_rw_blk.c:80-86 | a queue of at most two ascending runs of IN_ORDER stays one if and only if the new request's key is not already in the second run, or the request fits strictly inside the first |
| `Elevator.CompleteKeepsTwoSweeps` | oslab/linux-0.11/kernel/blk_drv/blk.h:109-125 | completing the head request keeps the two runs |
| `Elevator.RunKeepsTwoSweeps` | oslab/linux-0.11/kernel/blk_drv/ll_rw_blk.c:66-88 | over every sequence of additions and completions with distinct keys the queue is at most two ascending runs |
| `Elevator.RunConservesRequests` | oslab/linux-0.11/kernel/blk_drv/ll_rw_blk.c:66-88 | requests queued and completed are, as multisets, those there at the start and those added |
| `Elevator.RepeatedKeysBreakTwoSweeps` | oslab/linux-0.11/kernel/blk_drv/ll_rw_blk.c:169-205 | once a swap device is configured: reads of its blocks 9 and 8 are queued by `bread`; reading swap page 2 (`ll_rw_page` for a `swap_in` that got no frame), whose first sector is that of block 8, then leaves three runs: distinct keys are needed |
| `ElevatorLaws.SweepOrder` | oslab/linux-0.11/kernel/blk_drv/blk.h:40-43 | in the fields of the requests: within each of the two sweeps no read is behind a write, devices are in order and sectors strictly upward |
| `ElevatorLaws.PlacedInCurrentSweep` | oslab/linux-0.11/kernel/blk_drv/ll_rw_blk.c:80-86 | a request that fits between two neighbours of the current sweep stands between them |
| `ElevatorLaws.PlacedInNextSweep` | oslab/linux-0.11/kernel/blk_drv/ll_rw_blk.c:80-86 | any other waits for the next sweep, behind all that is lower there and before all that is higher |
| `ElevatorLaws.ReadOvertakesWrites` | oslab/linux-0.11/kernel/blk_drv/ll_rw_blk.c:80-86 | a read beyond the last read of the sweep goes before the queued writes, and no read is left behind it |
| `ElevatorLaws.ReadBehindTheHeadWaits` | oslab/linux-0.11/kernel/blk_drv/ll_rw_blk.c:80-86 | a read of a lower sector than the read under way goes behind everything of this sweep, writes included |
| `RequestTable.Table.constructor` | oslab/linux-0.11/kernel/blk_drv/ll_rw_blk.c:159-167 | all slots free, all queues empty |
| `RequestTable.Table.FindSlot` | oslab/linux-0.11/kernel/blk_drv/ll_rw_blk.c:112-133 | the highest free slot, writes being kept to the low two thirds; -1 exactly when there is none |
| `RequestTable.Table.AddRequest` | oslab/linux-0.11/kernel/blk_drv/ll_rw_blk.c:66-88 | the linked request list of that major number becomes the elevator insertion of the request, every other list is unchanged, and no slot is ever in two lists |
| `RequestTable.Table.Walk` | oslab/linux-0.11/kernel/blk_drv/ll_rw_blk.c:80-84 | the pointer walk stops exactly at the elevator's splice point |
| `RequestTable.Table.EndRequest` | oslab/linux-0.11/kernel/blk_drv/blk.h:109-125 | takes exactly the head off its own list and frees its slot |
| `BufferSteps.StepKeepsInv` | oslab/linux-0.11/fs/buffer.c:186-254 | whatever any task or the disk does while `getblk` sleeps: no two buffers carry the same block, a held buffer keeps its name, each issued request holds the lock of its own buffer, and a clean up-to-date buffer with no write on its way equals the disk |
| `BufferSteps.RenameKeepsInv` | oslab/linux-0.11/fs/buffer.c:240-253 | renaming the chosen victim is safe because it was checked again to be unused, unlocked, clean, and the block not to be cached |
| `BufferSteps.IssueKeepsInv` | oslab/linux-0.11/kernel/blk_drv/ll_rw_blk.c:66-145 | issuing a request clears the dirty mark without losing the modification: the write is on its way |
| `BufferSteps.FinishKeepsInv` | oslab/linux-0.11/kernel/blk_drv/blk.h:109-125 | completion leaves the buffer up to date and equal to the disk, unless it was modified meanwhile and is dirty again |
| `BufferRuns.RenameLosesNothing` | oslab/linux-0.11/fs/buffer.c:231-253 | eviction loses no write: what the victim showed is on disk, and every block shows what it showed |
| `BufferRuns.StepShows` | oslab/linux-0.11/fs/buffer.c:56-254 | the cache over the disk refines a plain disk: only clients' own stores change what is shown, and `free_block` gives a block up |
| `BufferRuns.HistoryKeepsInv` | oslab/linux-0.11/fs/buffer.c:186-254 | the cache invariant over every interleaved run |
| `BufferRuns.UntouchedStays` | oslab/linux-0.11/fs/buffer.c:209-284 | a block nobody stores in or frees shows the same data through any number of evictions, write-backs and reads |
| `BufferRuns.ReadersSeeTheLastStore` | oslab/linux-0.11/fs/buffer.c:270-284 | over every run, an up-to-date buffer that somebody holds (what `bread` returns) has the last data stored in that block |
| `BufferRuns.ReadersSeeTheFirstContents` | oslab/linux-0.11/fs/buffer.c:270-284 | with no store in between, readers see what the run started with |
| `BufferRuns.SettledDiskHasTheLastStore` | oslab/linux-0.11/fs/buffer.c:47-85 | once nothing is dirty and nothing queued, the disk itself has the last store into every block |
| `BufferRuns.CleanBufferIsOnDisk` | oslab/linux-0.11/fs/buffer.c:244-248 | an unlocked, clean, up-to-date buffer equals the disk |
| `BufferRuns.GetblkReturnsTheBlock` | oslab/linux-0.11/fs/buffer.c:186-254 | both ways out of `getblk` leave the caller holding an unlocked buffer of the block it asked for, the only one; the second look of `get_hash_table` never fails |
| `Getblk.Miss` | oslab/linux-0.11/fs/buffer.c:213-230 | with the block in no buffer a turn of `getblk` goes to sleep if and only if every count is positive; otherwise it settles on an unused buffer with the least 2 * dirty + locked |
| `Getblk.Hit` | oslab/linux-0.11/fs/buffer.c:186-199 | with the block in a buffer the turn counts that buffer once more, whatever state it is in, and waits for its lock |
| `Getblk.TakeOutcome` | oslab/linux-0.11/fs/buffer.c:231-254 | which of the four things the second half of `getblk` does, by the fields of the chosen buffer; the buffer taken has the block, count 1, and is neither dirty nor up to date |
| `Getblk.MissGetsOn` | oslab/linux-0.11/fs/buffer.c:213-254 | progress: with the block nowhere and a clean, unlocked, unused buffer, the two steps of `getblk` can run and the task holds the block |
| `Getblk.HitGetsOn` | oslab/linux-0.11/fs/buffer.c:186-199 | progress: with the block in an unlocked buffer, the task holds it, counted once more, with the same data |
| `Getblk.ReadGetsOn` | oslab/linux-0.11/fs/buffer.c:270-284 | progress of `bread` with an idle device: lock, request, completion, after which the buffer has what the disk has, and only that buffer changed |
| `Getblk.WriteGetsOn` | oslab/linux-0.11/kernel/blk_drv/ll_rw_blk.c:90-145 | writing a dirty buffer back, with an idle device: the disk gets its data, and it is clean and unlocked |
| `BufferRuns.HeldBuffersKeepTheirName` | oslab/linux-0.11/fs/buffer.c:186-199 | as long as somebody holds a buffer, no step renames it |
| `BufferRuns.FreshCacheInv` | oslab/linux-0.11/fs/buffer.c:351-384 | the state `buffer_init` leaves satisfies the invariant and shows the disk |
| `BufferQueue.NoTwinQueued` | oslab/linux-0.11/fs/buffer.c:240-253 | a buffer about to join the queue has no queued request for the same command, device and sector: its lock and its name are its own |
| `BufferQueue.HistoryKeepsTwoSweeps` | oslab/linux-0.11/kernel/blk_drv/ll_rw_blk.c:66-88 | so over every run of the buffer cache, with no assumption on keys, the queue is at most two ascending runs |
| `BufferLinks.RingRemove` | oslab/linux-0.11/fs/buffer.c:143-149 | unlinking a buffer leaves the free list one ring through exactly the others |
| `BufferLinks.RingInsert` | oslab/linux-0.11/fs/buffer.c:154-158 | linking it in before the head makes it the last of the ring |
| `BufferLinks.HashRemove` | oslab/linux-0.11/fs/buffer.c:136-142 | unlinking a buffer leaves every hash chain doubly linked and holding exactly the other buffers that hash to it |
| `BufferLinks.HashInsert` | oslab/linux-0.11/fs/buffer.c:159-166 | linking a buffer in front of its chain, with a check that the bucket was not empty before its first link is written |
| `BufferLinks.ChainHasEveryName` | oslab/linux-0.11/fs/buffer.c:169-177 | looking along one bucket finds a block exactly when some buffer carries it |
| `BufferPool.Carve` | oslab/linux-0.11/fs/buffer.c:351-377 | the data blocks laid out by `buffer_init` overlap neither one another, nor the buffer heads, nor the video and BIOS hole |
| `BufferPool.Pool.constructor` | oslab/linux-0.11/fs/buffer.c:351-384 | the free list starts as one ring through every buffer, the chains empty |
| `BufferPool.Pool.RemoveFromQueues` | oslab/linux-0.11/fs/buffer.c:134-150 | takes one buffer out of its hash chain and out of the ring, and nothing else |
| `BufferPool.Pool.Reassign` | oslab/linux-0.11/fs/buffer.c:246-253 | the buffer gets its new name, goes to the end of the ring and to the front of its new chain; the chains hold exactly the buffers with a device and the free list stays one cycle through every buffer |
| `BufferPool.Pool.FindBuffer` | oslab/linux-0.11/fs/buffer.c:169-177 | returns the buffer of a block, or none exactly when no buffer carries it |
| `BufferPool.Pool.Scan` | oslab/linux-0.11/fs/buffer.c:216-230 | the victim is the first, in free-list order, of the unused buffers of least BADNESS; none exactly when all are in use |
| `BufferPool.Pool.LookUp` | oslab/linux-0.11/fs/buffer.c:213-230 | one turn of `getblk` over the linked structures is a step of the cache state machine; among the unused buffers with the least 2 * dirty + locked it settles on the first of the free list |
| `BufferPool.Pool.TakeOver` | oslab/linux-0.11/fs/buffer.c:231-253 | so is the second half: checking the victim again and taking it |
| `BlockTree.PathOfInjective` | oslab/linux-0.11/fs/inode.c:72-138 | different logical blocks have different places in the direct, indirect and double indirect tree |
| `BlockLayout.BmapIsOnDevice` | oslab/linux-0.11/fs/inode.c:81-137 | `bmap` in raw terms: zone[b] for b below 7; below 519 the two bytes at 2 * (b - 7) of the block zone[7], low byte first; from there two such steps from zone[8]; 0 where a step finds 0 |
| `BlockLayout.ContentOnDevice` | oslab/linux-0.11/fs/file_dev.c:17-46 | byte p of a file is byte p mod 1024 of the block that this layout names for p / 1024, or 0 in a hole |
| `BlockLayout.LinkedOnDevice` | oslab/linux-0.11/fs/inode.c:100-105 | a zone stored at its place is what these raw terms then give for that logical block |
| `BlockTree.LinkZone` | oslab/linux-0.11/fs/inode.c:86-134 | storing a fresh zone at an empty place changes that place and no other, of any inode |
| `BlockTree.LinkKeepsInv` | oslab/linux-0.11/fs/inode.c:72-138 | all data, indirect and double indirect zones stay distinct and allocated, and exactly one more is reached |
| `BlockTree.NewBlockFresh` | oslab/linux-0.11/fs/bitmap.c:75-105 | `new_block` hands out a zone that no tree reaches, zeroed, and moves nothing |
| `BlockTree.AllocateExtends` | oslab/linux-0.11/fs/inode.c:86-134 | one allocation on the way to a block leaves every other mapping and every data block alone |
| `FileBytes.SpliceCompose` | oslab/linux-0.11/fs/file_dev.c:61-87 | writing on where the last write ended is one longer write |
| `FileSystem.ReadAfterWrite` | oslab/linux-0.11/fs/file_dev.c:17-90 | what `file_write` wrote is what a read of the same place then returns, and around it a read returns what was in the file before |
| `FileBytes.ExtendsKeepsBytes` | oslab/linux-0.11/fs/inode.c:145-148 | allocating on the way to a block changes no byte of any file, even when an inner allocation fails |
| `FileBytes.WriteChunkContent` | oslab/linux-0.11/fs/file_dev.c:61-80 | copying into one block splices exactly those bytes into exactly that file |
| `FileBytes.EmptyFiles` | oslab/linux-0.11/fs/inode.c:72-138 | with no zone stored anywhere, the invariant of the trees holds and every file is empty |
| `FileSystem.Device.constructor` | oslab/linux-0.11/fs/bitmap.c:75-105 | a new file system: every file empty, every data zone free, no buffer held |
| `Truncation.PartsApart` | oslab/linux-0.11/fs/truncate.c:47-64 | the parts of the tree that `truncate` frees one after the other are disjoint: no zone is freed twice |
| `Truncation.TruncateZones` | oslab/linux-0.11/fs/truncate.c:47-64 | empties one inode's tree and moves nothing in any other |
| `Truncation.TruncateFrees` | oslab/linux-0.11/fs/truncate.c:11-64 | clears exactly the bitmap bits of the zones of the tree whose buffers no other task holds |
| `Truncation.TruncateConserves` | oslab/linux-0.11/fs/bitmap.c:47-73 | no zone is lost if and only if no other task holds a buffer of the tree |
| `Truncation.TruncateContent` | oslab/linux-0.11/fs/truncate.c:47-64 | the truncated file is empty, every other file as it was |
| `FileSystem.Device.FindFirstZero` | oslab/linux-0.11/fs/bitmap.c:26-45 | the first clear bit of a map block |
| `FileSystem.Device.NewBlock` | oslab/linux-0.11/fs/bitmap.c:75-105 | allocates the lowest free zone and clears it; 0 only when there is none |
| `FileSystem.Device.MapBlock` | oslab/linux-0.11/fs/inode.c:72-138 | the zone returned is the one that the raw layout gives afterwards: zone[b], the two bytes in the block zone[7], or those two steps from zone[8]; no other logical block of any inode moves, and a zone is refused only when the device is full |
| `FileSystem.Device.FreeBlock` | oslab/linux-0.11/fs/bitmap.c:47-73 | exactly the zone's bit is cleared, unless its buffer's count was above 0; then only that count changes, one higher, for good |
| `FileSystem.Device.FreeIndirect` | oslab/linux-0.11/fs/truncate.c:11-27 | frees exactly the zones an index block names, and itself; the refused ones keep the raised count |
| `FileSystem.Device.FreeDouble` | oslab/linux-0.11/fs/truncate.c:29-45 | frees exactly the subtree of a double index block, with the same exception |
| `FileSystem.Device.Truncate` | oslab/linux-0.11/fs/truncate.c:47-64 | for a file or directory exactly the whole tree is freed, all nine zones and the size are 0, and the counts of exactly the held buffers of the tree are one higher; other inodes are left alone |
| `FileSystem.Device.ReadChunk` | oslab/linux-0.11/fs/file_dev.c:23-41 | one turn of the read loop yields the file's bytes of one block, a hole as zeros |
| `FileSystem.Device.FileRead` | oslab/linux-0.11/fs/file_dev.c:17-46 | the bytes at the file position, holes as zeros, across direct, indirect and double indirect blocks |
| `FileSystem.Device.SysRead` | oslab/linux-0.11/fs/read_write.c:72-78 | a read clamped at the end of the file returns exactly that slice of its contents |
| `FileSystem.Device.WriteOne` | oslab/linux-0.11/fs/file_dev.c:61-83 | one turn of the write loop splices one block's bytes in, or fails with the device full and the files unchanged |
| `FileSystem.Device.FileWrite` | oslab/linux-0.11/fs/file_dev.c:48-90 | splices its bytes in at the position (at the end when appending), a prefix of them when the device fills up, and touches no other file |
| `FsHistories.HistoryRefinesPlainFiles` | oslab/linux-0.11/fs/file_dev.c:17-90 | over every interleaving of allocations (the bit set first, the zone stored after `new_block` has slept), copies into blocks and truncations, in which every zone is stored where the file reads as zeros, the device shows the byte sequences of a plain file store |
| `FsHistories.HistoryConserves` | oslab/linux-0.11/fs/inode.c:72-138 | over every such interleaving in which no stored zone displaces one and nobody holds buffers of a truncated tree, every allocated data zone is reached by exactly one inode, or still to be stored by one task |
| `FsHistories.QuietIsExact` | oslab/linux-0.11/fs/inode.c:72-138 | a step shows in the files what the plain step does if and only if it is no store over bytes other than zero |
| `FsHistories.StoreShows` | oslab/linux-0.11/fs/inode.c:78-82 | what a store over a place does to the bytes found through it: none changes if and only if all were zero, as they are if the place was empty |
| `FsHistories.TwoWritersLoseBytes` | oslab/linux-0.11/fs/file_dev.c:61-80 | so bytes that one writer has copied into the block read as zeros once the other has stored its zone |
| `FsRuns.StoreKeepsInv` | oslab/linux-0.11/fs/inode.c:78-82 | storing the zone after the sleep keeps the invariant even when the place has been filled meanwhile; nothing but that zone becomes reachable |
| `FsRuns.StoreConserves` | oslab/linux-0.11/fs/inode.c:78-82 | storing it loses no zone if and only if the place is still empty by then |
| `FsRuns.TwoWritersLoseAZone` | oslab/linux-0.11/fs/inode.c:72-82 | two writers that both find a block missing: from any state with two free zones there are four steps after which one of them is allocated and reached by nobody |
| `FsHistories.FreshDeviceInv` | oslab/linux-0.11/fs/bitmap.c:75-105 | an empty device satisfies the invariant and has lost nothing |
| `Inodes.StepKeepsInv` | oslab/linux-0.11/fs/inode.c:150-338 | whatever happens while tasks sleep in `iget`, `iput` and `write_inode`: one in-core inode per device and number, counts equal to the holders, the lock with the one who loads or saves, and a clean inode equal to the disk; barring exactly the two races named above |
| `InodeRuns.CarefulIsExact` | oslab/linux-0.11/fs/inode.c:150-338 | a step keeps that invariant if and only if it is not a free of an inode somebody is writing back, nor a naming of a new inode by a number another in-core inode has |
| `InodeRuns.TimelyKeepsInv` | oslab/linux-0.11/fs/bitmap.c:136-168 | it is enough that nobody brings in an inode whose bitmap bit is clear, and nobody writes back one that is being freed |
| `InodeRuns.StepShows` | oslab/linux-0.11/fs/inode.c:150-338 | taking an inode in, writing it back and throwing it out change nothing that is seen; only a holder's own change, a new inode and a freed one do |
| `InodeRuns.HistoryKeepsInv` | oslab/linux-0.11/fs/inode.c:150-338 | the inode invariant over every interleaving without those races |
| `InodeRuns.HoldersSeeTheLastStore` | oslab/linux-0.11/fs/inode.c:244-292 | over every such run, whoever holds an inode sees what was last stored in it by anybody |
| `InodeRuns.SettledDiskHasTheLastStore` | oslab/linux-0.11/fs/inode.c:59-70 | once no inode is dirty, being changed or being saved, the disk has the last store into each |
| `InodeRuns.IgetReturnsTheInode` | oslab/linux-0.11/fs/inode.c:244-292 | `iget` and `new_inode` leave their caller holding an unlocked inode of that device and number, the only one |
| `InodeLaws.IgetLoads` | oslab/linux-0.11/fs/inode.c:285-312 | `iget` of an inode in no slot: three steps can run, after which the caller alone holds it, unlocked, with what the disk has |
| `InodeLaws.IgetFinds` | oslab/linux-0.11/fs/inode.c:253-283 | `iget` of one in the table, unlocked: its count is one higher and nothing else about it changes |
| `InodeLaws.NewInodeCreates` | oslab/linux-0.11/fs/bitmap.c:136-168 | `new_inode`: the lowest free number is marked used; the caller alone holds a dirty inode of it with one link |
| `InodeLaws.WriteInodeSaves` | oslab/linux-0.11/fs/inode.c:314-338 | `write_inode` undisturbed: the disk has the inode at its own place and everything else as before; the inode is clean and unlocked |
| `InodeLaws.IputLeaves` | oslab/linux-0.11/fs/inode.c:176-179 | `iput` that only counts out: one less, with name and contents kept for the next `iget` |
| `InodeLaws.IputFrees` | oslab/linux-0.11/fs/inode.c:180-184 | `iput` of the last link: the slot is empty and unused, and exactly that number is free again |
| `InodeRuns.HeldInodesKeepTheirName` | oslab/linux-0.11/fs/inode.c:194-226 | as long as somebody holds an inode no step renames it, but for its last holder's own free |
| `InodeRuns.SaveMeetsFree` | oslab/linux-0.11/fs/inode.c:314-338 | a run in which `sync` saves an inode while its last link goes: the cleared inode is written over inode 32 of the block, which no task touched |
| `InodeRuns.StaleNumberMeetsNewFile` | oslab/linux-0.11/fs/inode.c:244-292 | a run in which a number read from a directory goes stale while `iget` sleeps: in the end two in-core inodes have the same number |
| `InodeTable.Core.PickEmpty` | oslab/linux-0.11/fs/inode.c:200-216 | the scan of `get_empty_inode` settles on the next clean unlocked unused inode, going round, or else on the last unused one; none exactly when all are in use |
| `InodeTable.Core.TakeEmpty` | oslab/linux-0.11/fs/inode.c:217-226 | saves it while it is dirty, begins again if somebody took it meanwhile, and otherwise clears and takes it: each a step of the table |
| `InodeTable.Core.Find` | oslab/linux-0.11/fs/inode.c:250-256 | the search finds the inode in the table, or nothing exactly when it is not there |
| `InodeTable.Core.Search` | oslab/linux-0.11/fs/inode.c:250-292 | one turn of `iget`: a hit on an unlocked inode, a wait for a locked one, or the caller's empty inode named and locked for reading |
| `InodeTable.Core.Meet` | oslab/linux-0.11/fs/inode.c:257-262 | after the wait the inode is looked at again, and the search begins anew if it is another one by now |
| `InodeTable.Core.PutOne` | oslab/linux-0.11/fs/inode.c:150-192 | one turn of `iput`: counted out exactly when others remain or nothing has to be saved or freed; else it saves, or frees |
| `InodeTable.Core.FreeInode` | oslab/linux-0.11/fs/bitmap.c:107-134 | panics exactly for an inode with other holders or links; otherwise clears it and its bit |
| `InodeTable.Core.WriteInode` | oslab/linux-0.11/fs/inode.c:314-338 | what is written, and to which inode of the disk, once the block has been read |
| `InodeTable.Core.NewInode` | oslab/linux-0.11/fs/bitmap.c:136-168 | the lowest free inode number, marked in use, or 0 exactly when every number of the device is taken |
| `Directory.MatchIsSameName` | oslab/linux-0.11/fs/namei.c:63-78 | `match` holds exactly of a used entry whose null-padded name is the first characters of the name asked for |
| `Directory.Dir.constructor` | oslab/linux-0.11/fs/namei.c:511-518 | a new directory has `.` and `..` and nothing else |
| `Directory.Dir.FindEntry` | oslab/linux-0.11/fs/namei.c:91-153 | the first entry of the name cut to 14 characters; none exactly when the directory has no such name |
| `Directory.Dir.AddEntry` | oslab/linux-0.11/fs/namei.c:165-220 | the first unused entry, or a new one at the end; refused exactly for an empty name, or when all entries are in use and no block can be had |
| `Directory.Dir.Enter` | oslab/linux-0.11/fs/namei.c:440-458 | a new name: the directory, as a map from names to inodes, has that one entry more |
| `Directory.Dir.Clear` | oslab/linux-0.11/fs/namei.c:709-714 | clearing an entry's inode takes exactly that name away |
| `Directory.Dir.EmptyDir` | oslab/linux-0.11/fs/namei.c:543-585 | true exactly when the first two entries are the directory itself and a parent, both so named, and no other entry is used |
| `Directory.EmptyIsDotsOnly` | oslab/linux-0.11/fs/namei.c:543-585 | which is when the directory names nothing but `.` and `..` |
| `NameTree.CallKeepsInv` | oslab/linux-0.11/fs/namei.c:412-778 | after any of creat, mknod, link, unlink, mkdir and rmdir, whatever it answers, unless the count to be raised is 255: link counts equal the numbers of names, every directory has one name, in the directory its `..` names, and `..` leads from everywhere to the root |
| `NameTree.RoomToCountIsExact` | oslab/linux-0.11/fs/namei.c:773-773 | a successful call keeps all that if and only if the count it raises was below 255 |
| `NameTree.LinkWraps` | oslab/linux-0.11/fs/namei.c:773-773 | the 256th name of a file makes its count 0, and the next `iput` may free it |
| `NameTree.HistoryKeepsInv` | oslab/linux-0.11/fs/namei.c:412-778 | over every run of calls that meets that limit |
| `NameTree.ReclaimedWhenUnnamed` | oslab/linux-0.11/fs/inode.c:180-184 | an inode is free to be reclaimed exactly when no name is left |
| `NameTree.DirectoryLinks` | oslab/linux-0.11/fs/namei.c:532-533 | a directory's count is two and one for each of its subdirectories |
| `NameTree.EmptyHasTwoLinks` | oslab/linux-0.11/fs/namei.c:646-649 | so the warning about an empty directory with other than two links is never printed |
| `NameLaws.Creates` | oslab/linux-0.11/fs/namei.c:412-461 | `creat` and `mknod` succeed exactly if the name is free and there is room; then there is one entry more, for a file with one link, and everything else is as before |
| `NameLaws.Links` | oslab/linux-0.11/fs/namei.c:721-778 | `link` of a file to a free name: a second entry for the same inode, one link more, and nothing else |
| `NameLaws.Unlinks` | oslab/linux-0.11/fs/namei.c:663-719 | `unlink` succeeds exactly for the name of a file: that entry and one link go, and nothing else |
| `NameLaws.MakesDirectory` | oslab/linux-0.11/fs/namei.c:463-538 | `mkdir`: an empty directory with its two entries and two links; its parent has one link more |
| `NameLaws.RemovesDirectory` | oslab/linux-0.11/fs/namei.c:587-661 | `rmdir` succeeds exactly for an empty directory that nobody holds and that is not the one the name is in; its entries and inode go, and one link of its parent |
| `NameLaws.Refusals` | oslab/linux-0.11/fs/namei.c:587-778 | the error of each refused call; `rmdir` of `.` is EPERM, of `..` ENOTEMPTY, unless somebody holds it |
| `NameLaws.UnlinkUndoesLink` | oslab/linux-0.11/fs/namei.c:663-778 | `link` then `unlink` of the new name gives back the very same tree and counts |
| `NameLaws.UnlinkUndoesCreate` | oslab/linux-0.11/fs/namei.c:412-719 | `creat`, `unlink` and the last `iput` give back the very same tree and counts |
| `NameLaws.RmdirUndoesMkdir` | oslab/linux-0.11/fs/namei.c:463-661 | `mkdir` then `rmdir` gives back the very same tree and counts |
| `NameLaws.LinkThenUnlinkMoves` | oslab/linux-0.11/fs/namei.c:663-778 | `link` to a new name and `unlink` of the old one move a file: every other entry and all counts are as before |
| `NameTree.FreshTreeInv` | oslab/linux-0.11/fs/namei.c:463-541 | a root directory alone satisfies the invariant |
| `Paths.GetDir` | oslab/linux-0.11/fs/namei.c:228-270 | the directory reached by all components of the path but the last, each of them a directory that may be searched; none otherwise |
| `Paths.DirNamei` | oslab/linux-0.11/fs/namei.c:278-294 | that directory, and the last component |
| `Paths.Namei` | oslab/linux-0.11/fs/namei.c:303-330 | the inode a path names; the directory itself for a path that ends in a slash; none for an empty path |
| `Paths.SplitJoin` | oslab/linux-0.11/fs/namei.c:241-269 | the scan at slashes gives back any components that were joined by slashes |
| `Paths.JoinSplit` | oslab/linux-0.11/fs/namei.c:241-269 | and joining what it gives is the path |
| `Paths.EveryDirectoryHasAPath` | oslab/linux-0.11/fs/namei.c:228-330 | in every tree that the calls can leave, every directory has a path of ordinary names from the root, which `namei` resolves to it |
| `NameLaws.OneComponent` | oslab/linux-0.11/fs/namei.c:91-163 | a path of one component names the entry with its first 14 characters in the working directory, if that may be searched; `..` in the task's root is the root |
| `NameLaws.Composed` | oslab/linux-0.11/fs/namei.c:228-270 | a path through a directory leads where the rest leads from that directory, and nowhere if the directory is not found |
| `NameLaws.AbsoluteFromRoot` | oslab/linux-0.11/fs/namei.c:240-242 | where a path with a leading slash leads does not depend on the working directory |
| `NameLaws.AbsoluteIsRelativeToRoot` | oslab/linux-0.11/fs/namei.c:240-244 | and it leads where the rest leads with the root as working directory |
| `NameLaws.RootPath` | oslab/linux-0.11/fs/namei.c:311-314 | a lone slash is the root directory, if that may be searched |
| `NameLaws.TrailingSlash` | oslab/linux-0.11/fs/namei.c:248-257 | a slash behind a name asks for a directory that may be searched |
| `NameLaws.DownAndUp` | oslab/linux-0.11/fs/namei.c:108-124 | in a valid tree, down into a directory and up by `..` is where one was |
| `Paging.FreeFrameUnused` | oslab/linux-0.11/mm/swap.c:31-59 | a frame whose count is 0 is named by no entry, no directory and no kernel holder |
| `Paging.TakeKeepsInv` | oslab/linux-0.11/mm/swap.c:31-59 | `get_free_page` keeps frame accounting, isolation and slot ownership |
| `Paging.GiveTableKeepsInv` | oslab/linux-0.11/mm/memory.c:165-187 | entering a fresh page table keeps every invariant and shows no entry |
| `Paging.MapPageKeepsInv` | oslab/linux-0.11/mm/memory.c:165-187 | mapping a frame that the kernel holds keeps every invariant |
| `Paging.CopyEntryKeepsInv` | oslab/linux-0.11/mm/memory.c:137-154 | copying an entry in fork keeps accounting, isolation and slots if and only if the count of the shared frame, an unsigned char, is below 255 |
| `Paging.ShareTailKeepsInv` | oslab/linux-0.11/mm/memory.c:281-302 | the tail of `try_to_share` keeps every invariant if and only if the entry it finds there, after it may have slept for a page table, is safe to share; a source table released meanwhile counts as empty |
| `Paging.SlotCopied` | oslab/linux-0.11/mm/memory.c:281-302 | if the source page was swapped out meanwhile, `try_to_share` copies its slot number, and one slot is named twice |
| `PagingOps.DropEntryKeepsInv` | oslab/linux-0.11/mm/memory.c:86-94 | freeing an entry never frees a free page, and keeps every invariant |
| `PagingOps.DropTableKeepsInv` | oslab/linux-0.11/mm/memory.c:95-96 | so does giving back an emptied page table |
| `PagingOps.DropUndoesCopy` | oslab/linux-0.11/kernel/fork.c:57-61 | rolling a fork back restores every count and entry; only the parent's write bits stay cleared |
| `PagingOps.SoleUserAlone` | oslab/linux-0.11/mm/memory.c:194-198 | a frame with count 1 that an entry shows is shown by that entry alone, so it may be made writable |
| `PagingOps.WriteFaultKeepsInv` | oslab/linux-0.11/mm/memory.c:189-206 | a write fault with a free frame keeps every invariant, leaves the page private and writable, and changes what nobody sees |
| `PagingOps.StoreIsPrivate` | oslab/linux-0.11/mm/memory.c:189-206 | one task's store changes what it sees at that page and nothing that any other page shows |
| `PagingOps.EvictKeepsInv` | oslab/linux-0.11/mm/swap.c:114-140 | swapping a page out keeps every invariant and changes no other entry; the slot it writes to was free |
| `PagingOps.SwapInKeepsInv` | oslab/linux-0.11/mm/swap.c:84-112 | a successful swap-in keeps every invariant, frees its slot, and always shows a zero page, whatever had been swapped out |
| `PagingRuns.StepKeepsInv` | oslab/linux-0.11/mm/memory.c:57-303 | each of twelve kinds of step keeps every invariant if and only if no count wraps and no page is shared behind its back |
| `PagingRuns.StepSeenOnlyAtTarget` | oslab/linux-0.11/mm/memory.c:189-303 | a step changes what is seen at the one page it is about and at no other page of any task |
| `PagingRuns.ForkedPageSeen` | oslab/linux-0.11/mm/memory.c:137-154 | after fork's copy the child sees what the parent sees, and the parent what it saw |
| `ForkWords.CopiedWords` | oslab/linux-0.11/mm/memory.c:142-152 | the words fork leaves: the child's has the parent's frame and dirty bit and no write bit; from LOW_MEM up so has the parent's own, and below it that is unchanged |
| `ForkWords.WriteProtectClearsOneBit` | oslab/linux-0.11/mm/memory.c:145 | write protection takes 2 off the word where bit 2 is set, and changes no other bit |
| `ForkWords.RefusesExactly` | oslab/linux-0.11/mm/swap.c:119-130 | `try_to_swap_out` takes a page exactly if it is present in a counted frame and either unchanged, or counted once with a slot free |
| `ForkWords.ForkedChangeStays` | oslab/linux-0.11/mm/swap.c:124-127 | a changed page just forked is refused from both tables, then and for as long as its count is above 1 |
| `PageWords.ForkCounts` | oslab/linux-0.11/mm/memory.c:147-152 | fork adds one to the count of the frame shared, modulo 256, and to no other; only the two words change |
| `PageWords.Allocates` | oslab/linux-0.11/mm/swap.c:31-59 | `get_free_page` takes the highest frame with count 0, which then counts 1 and is cleared; no word, other count or other page changes |
| `PageWords.Installs` | oslab/linux-0.11/mm/memory.c:184 | the word entered is the frame's address plus 7; no count changes |
| `PageWords.FaultAlone` | oslab/linux-0.11/mm/memory.c:193-198 | a write fault in a frame counted once sets the write bit of that word and changes nothing else |
| `PageWords.FaultCopies` | oslab/linux-0.11/mm/memory.c:199-205 | in any other frame: the word is the new frame's address plus 7, that frame counts 1 and has the old one's bytes, and the old count is not lowered |
| `PageWords.LosesDirectory` | oslab/linux-0.11/mm/memory.c:199-205 | without a frame: the word is 7, the old count is one less, and frame 0 has the shared page's bytes |
| `PageWords.Frees` | oslab/linux-0.11/mm/memory.c:86-94 | freeing an entry: the word is 0, and the count of its frame, if from LOW_MEM up, one less; no other word or count changes |
| `PageWords.Shares` | oslab/linux-0.11/mm/memory.c:293-301 | sharing: both words are the source's without the write bit, and the frame counts one more |
| `PageWords.EvictsClean` | oslab/linux-0.11/mm/swap.c:136-139 | swapping an unchanged page out: the word is 0, its count one less, and no slot is used |
| `PageWords.EvictsDirty` | oslab/linux-0.11/mm/swap.c:124-135 | swapping a changed page out: the word is twice the lowest free slot from 1 up, which is taken; its frame then counts 0 |
| `PageWords.SwapsIn` | oslab/linux-0.11/mm/swap.c:98-111 | swapping in: the slot is free again, the word is the frame's address plus 71, and the frame counts 1 |
| `PageWords.EntersDirectory` | oslab/linux-0.11/mm/memory.c:288-301 | sharing without a frame for the table: the shared word becomes entry i of the page directory |
| `PagingRuns.HistoryKeepsInv` | oslab/linux-0.11/mm/swap.c:61-140 | over every run: no count is below the number of users, a frame writable through one entry is mapped by no other, and no swap slot is named twice or free while named |
| `PagingRuns.AllocationIsFresh` | oslab/linux-0.11/mm/swap.c:31-59 | in every reachable state `get_free_page` returns a frame nobody uses |
| `PagingRuns.UntouchedPagesKeepTheirContents` | oslab/linux-0.11/mm/memory.c:189-206 | copy-on-write isolation over runs: a page no step is about shows at the end what it showed at the start, whatever others stored |
| `PagingRuns.CyclesLeak` | oslab/linux-0.11/mm/memory.c:199-202 | each fork, child write and exit leaves the parent frame's count one too high: the old frame is given up only when allocation failed |
| `PagingRuns.ForkingWrapsTheCount` | oslab/linux-0.11/mm/memory.c:148-151 | so from any such state there is a run after which one more fork wraps the count to 0 while two entries show the frame |
| `PagingCounts.StepSlack` | oslab/linux-0.11/mm/memory.c:57-206 | each step changes the gap between a frame's count and its users by exactly its known leak |
| `PagingCounts.TidyRunsCountExactly` | oslab/linux-0.11/mm/memory.c:57-187 | over runs without write-fault copies the counts equal the numbers of users |
| `PagingViews.EvictShrinks` | oslab/linux-0.11/mm/swap.c:51-54 | each eviction leaves fewer pages present, so the retry loop of `get_free_page` ends |
| `PagingViews.ChangedTwinsAnchor` | oslab/linux-0.11/mm/swap.c:114-140 | a frame that two changed pages show, as after a fork, is anchored: its count stays above 0 even if all its unchanged pages are evicted |
| `PagingViews.AnchoredInUse` | oslab/linux-0.11/mm/swap.c:31-59 | no eviction frees an anchored frame |
| `ForkCounts.RoomCopied` | oslab/linux-0.11/mm/memory.c:137-154 | when each frame from LOW_MEM up can be counted once more for every page of it still to be copied, the next copy does not wrap, and the same holds after it |
| `PagingViews.ExhaustiveIsExact` | oslab/linux-0.11/mm/swap.c:142-182 | the scan leaves no page out if and only if it starts on a present table with `page_entry` not 0 or the table before present, or on an absent one with `page_entry` -1 or no table anywhere |
| `PagingStart.OverlookedPage` | oslab/linux-0.11/mm/swap.c:142-182 | a state whose one page could be swapped out and is never tried, for each of the two ways to leave pages out |
| `PagingStart.EvictedWhileCopied` | oslab/linux-0.11/mm/memory.c:189-206 | two tasks share a page and no frame is free: the eviction for a write fault takes both entries, the frame handed out is the page's own, and the task is shown zeros |
| `PagingStart.BootedInv` | oslab/linux-0.11/mm/memory.c:395-408 | the state `mem_init` leaves, with no swap device, satisfies every invariant |
| `MemoryManager.Memory.constructor` | oslab/linux-0.11/mm/memory.c:395-408 | low memory and what is beyond the end counted as used, every other frame free |
| `MemoryManager.Memory.GetSwapPage` | oslab/linux-0.11/mm/swap.c:61-71 | the lowest free slot from 1 up, marked taken; 0 exactly when there is none |
| `MemoryManager.Memory.FreePage` | oslab/linux-0.11/mm/memory.c:57-67 | lowers the count of a frame from LOW_MEM up, and only that |
| `MemoryManager.Memory.TryToSwapOut` | oslab/linux-0.11/mm/swap.c:114-140 | swaps out exactly the pages it does not refuse |
| `MemoryManager.Memory.SwapOut` | oslab/linux-0.11/mm/swap.c:142-182 | evicts the first page in scan order that can go: every page between the cursors and it is refused; the cursors stay on it; a 0 result means that every page it tries was refused: all of them when the start is exhaustive, and otherwise all but exactly those named |
| `MemoryManager.Memory.GetFreePage` | oslab/linux-0.11/mm/swap.c:31-59 | terminates, and returns the highest frame of count 0, cleared, after evictions that other tasks see only as absent pages; 0 only when no count is 0 and `swap_out` was refused all pages it tries |
| `MemoryManager.Memory.FreePageTables` | oslab/linux-0.11/mm/memory.c:73-99 | drops every entry of the range and its tables; every other table, entry and page is as before |
| `MemoryManager.Memory.PutPage` | oslab/linux-0.11/mm/memory.c:165-187 | maps the caller's frame at the address and nothing else; 0 only when there is no page table and frames have run out |
| `MemoryManager.Memory.UnWpPage` | oslab/linux-0.11/mm/memory.c:189-206 | with a free frame exactly the write fault; with one found by eviction the copy, which is of zeros if the page's own frame was the one given up, and never so if that frame was anchored; with none the old count is lowered, frame 0 mapped writable, and the page directory in it copied over |
| `MemoryManager.Memory.WriteVerify` | oslab/linux-0.11/mm/memory.c:229-240 | a present page is writable and private afterwards, with the exact outcomes of `un_wp_page`; a writable or absent one is left alone |
| `MemoryManager.Memory.GetEmptyPage` | oslab/linux-0.11/mm/memory.c:242-250 | shows a zero page at the address, unless frames have run out for the page or for its table, and always with a free frame for each; other pages are seen as before or evicted |
| `MemoryManager.Memory.SwapInPage` | oslab/linux-0.11/mm/swap.c:84-112 | with a frame, after whatever was evicted for it, a zero page and a free slot, nothing being read; without one the swapped page is read over the page directory, which is then mapped there |
| `MemoryManager.Memory.CopyPageTables` | oslab/linux-0.11/mm/memory.c:118-157 | forks every page of the ranges; ends early only when frames have run out, or at a page whose frame's count was 255, which does not happen if every count has room for all its pages; if nothing was evicted the child has every page, and in any case every dirty page that the parent still has; every word of the child has its parent's frame and dirty bit and no write bit, and the parent's have lost at most the write bit, all of them if it succeeds |
| `MemoryManager.Memory.CopyMem` | oslab/linux-0.11/kernel/fork.c:39-63 | a fork that runs out of frames gives back all the child got; its other two ends are those of `copy_page_tables` |
| `MemoryManager.Memory.TryToShare` | oslab/linux-0.11/mm/memory.c:260-303 | true exactly when there is a clean page to share; the count then wraps exactly if it is 255 once there is a page table, and otherwise the page shows what the other task's did, or was evicted; a refusal changes nothing; when frames have run out for the table the entry goes into the page directory at frame 0, or there is a panic |
| `Scheduler.SchedulePicks` | oslab/linux-0.11/kernel/sched.c:104-142 | refills exactly when some task is ready and every ready counter is 0; then runs a ready task with the largest counter, which is positive, or the idle task when nobody is ready |
| `SchedulerLaws.RefillKeepsHalf` | oslab/linux-0.11/kernel/sched.c:136-139 | a refill leaves every task but task 0, ready or not, half its counter plus its priority |
| `SchedulerLaws.NoRefill` | oslab/linux-0.11/kernel/sched.c:124-135 | no counter changes when some ready task still has ticks left, or none is ready |
| `Scheduler.RefillSuffices` | oslab/linux-0.11/kernel/sched.c:124-140 | one refill is enough, so the loop of `schedule` ends |
| `Scheduler.StepKeepsInv` | oslab/linux-0.11/kernel/sched.c:104-142 | the current task is always present and priorities stay positive, over ticks, blocking, waking, reaping, nice and fork |
| `Scheduler.StepShortensWait` | oslab/linux-0.11/kernel/sched.c:305-336 | no event lengthens a waiting task's wait, and every user tick shortens it |
| `SchedulerLaws.SliceLasts` | oslab/linux-0.11/kernel/sched.c:332 | a user tick with more than one tick left takes one off the running task, which runs on |
| `SchedulerLaws.SliceEnds` | oslab/linux-0.11/kernel/sched.c:332-335 | the last tick in user mode leaves 0 and calls `schedule` |
| `SchedulerLaws.StaysOff` | oslab/linux-0.11/kernel/sched.c:132 | over every run a task that is not ready, other than task 0, is never the running one until it is woken |
| `SchedulerLaws.SleepersGainTime` | oslab/linux-0.11/kernel/sched.c:136-139 | of two tasks of equal priority, one that had ticks left at a refill, asleep or not, has more afterwards than one that had none |
| `Scheduler.BoundedWaiting` | oslab/linux-0.11/kernel/sched.c:104-142 | while a task stays runnable without being selected, the user ticks that go by are bounded by the other counters, one tick, and one refill's worth |
| `Scheduler.HistoryStaysModest` | oslab/linux-0.11/kernel/sched.c:136-139 | without `nice` no counter exceeds twice its task's priority |
| `Scheduler.WaitIsModest` | oslab/linux-0.11/kernel/sched.c:136-139 | so no wait exceeds four times the others' priorities and one tick |
| `Scheduler.FirstTaskInv` | oslab/linux-0.11/kernel/sched.c:385-398 | with the first task alone, as `sched_init` leaves it, the invariant holds |
| `Scheduler.Kernel.Run` | oslab/linux-0.11/kernel/sched.c:104-142 | the code of `schedule`, with its two loops, is that choice |
| `Scheduler.Kernel.DoTimer` | oslab/linux-0.11/kernel/sched.c:332-335 | the code of `do_timer` is the tick: only a spent task out of user mode is preempted |
| `WaitQueue.StepKeepsInv` | oslab/linux-0.11/kernel/sched.c:151-194 | no orphaned sleeper: each sleeping task is the head of one queue or the saved `tmp` of one task still inside `sleep_on`, and of no other |
| `WaitQueue.HistoryKeepsInv` | oslab/linux-0.11/kernel/sched.c:151-194 | over every interleaving of sleeps, wakeups and woken tasks, on any number of queues |
| `WaitQueue.StepChains` | oslab/linux-0.11/kernel/sched.c:151-165 | `sleep_on` puts its caller in front of one chain, `wake_up` detaches one, and nothing else changes any |
| `WaitQueue.OneQueue` | oslab/linux-0.11/kernel/sched.c:151-165 | a task waits on one queue only |
| `WaitQueue.EverySleeperHasALeader` | oslab/linux-0.11/kernel/sched.c:151-165 | every sleeper is behind a queue's head or behind a woken task |
| `WaitQueue.SleepsUntilWoken` | oslab/linux-0.11/kernel/sched.c:188-194 | no spurious wakeup: a task stops waiting on a queue only by `wake_up` of that queue |
| `WaitQueue.WakeUpReachesEveryone` | oslab/linux-0.11/kernel/sched.c:188-194 | after `wake_up`, as soon as every woken task has had its turn, everyone who waited on that queue at that moment has left |
| `WaitQueue.WakeUpThenDrain` | oslab/linux-0.11/kernel/sched.c:151-194 | `wake_up` and then each woken task once: exactly those who waited on the queue are out |
| `WaitQueue.Kernel.SleepOn` | oslab/linux-0.11/kernel/sched.c:151-162 | the first half of `sleep_on` is that step |
| `WaitQueue.Kernel.SleptOn` | oslab/linux-0.11/kernel/sched.c:163-165 | so is the second half |
| `WaitQueue.Kernel.WakeUpQueue` | oslab/linux-0.11/kernel/sched.c:188-194 | and `wake_up` |
| `WaitQueue.NobodyInv` | oslab/linux-0.11/kernel/sched.c:151-194 | with nobody asleep the invariant holds |
| `Timers.InsertRemaining` | oslab/linux-0.11/kernel/sched.c:287-300 | `add_timer` gives the new timer exactly the ticks asked for, leaves those before it, and puts off those behind it by what the new one still counts |
| `Timers.Added` | oslab/linux-0.11/kernel/sched.c:279-290 | the entry added calls the function given, at the tick asked for; all others call what they did, when they did; no ticks at all means at once |
| `Timers.PlacedInOrder` | oslab/linux-0.11/kernel/sched.c:291-300 | it stands behind the first entry that was there while that one's ticks are fewer, and so on |
| `Timers.TickKeepsInv` | oslab/linux-0.11/kernel/sched.c:319-329 | a tick brings every timer one tick nearer and fires at most the first, at its due tick plus its lateness |
| `Timers.NeverEarly` | oslab/linux-0.11/kernel/sched.c:272-336 | over every run all deltas are positive and no timer is called before it is due |
| `Timers.FiresOnTime` | oslab/linux-0.11/kernel/sched.c:319-329 | left alone, a timer fires with the last of the ticks it has left |
| `Timers.ShorterTimersDelayLongerOnes` | oslab/linux-0.11/kernel/sched.c:291-300 | a timer of 5 ticks added to one of 10 makes the latter 5 ticks late |
| `Timers.Queue.AddTimer` | oslab/linux-0.11/kernel/sched.c:272-303 | the exchange loop of `add_timer` is that insertion |
| `Timers.Queue.DoTimer` | oslab/linux-0.11/kernel/sched.c:319-329 | the loop of `do_timer` is that tick |
| `Timers.EmptyListInv` | oslab/linux-0.11/kernel/sched.c:266-270 | the empty list satisfies the invariant |
| `Bucket.LiveObjectsApart` | oslab/linux-0.11/lib/malloc.c:117-173 | objects in use are pairwise disjoint, each inside its own page, which is neither free nor a descriptor page |
| `BucketRuns.MallocKeepsInv` | oslab/linux-0.11/lib/malloc.c:117-173 | `malloc` returns an object not in use, of the least bucket size that fits; every other object and every page is as before; in-use plus free is the page's capacity and descriptors are conserved |
| `BucketRuns.MallocPanics` | oslab/linux-0.11/lib/malloc.c:127-158 | it panics exactly for more than a page, or when a page it needs cannot be had |
| `BucketRuns.FreeKeepsInv` | oslab/linux-0.11/lib/malloc.c:182-231 | `free_s` takes exactly that object out of use; its page is returned if and only if that was the last object in use on it; a size hint above the object's makes it panic, and none other |
| `BucketRuns.HistoryKeepsInv` | oslab/linux-0.11/lib/malloc.c:97-231 | over every run of `malloc` and `free_s` the invariant is kept and pages are conserved |
| `BucketRuns.ObjectsStayUntilFreed` | oslab/linux-0.11/lib/malloc.c:97-231 | an object stays in use, with its size, until it is freed |
| `BucketRuns.AllFreedAllReturned` | oslab/linux-0.11/lib/malloc.c:208-228 | once everything is freed every page is back, apart from those of descriptors |
| `BucketLinks.LinksRemove` | oslab/linux-0.11/lib/malloc.c:213-224 | taking a descriptor out of its list leaves every list linked and no descriptor in two places |
| `BucketLinks.ThreadedIsFreeList` | oslab/linux-0.11/lib/malloc.c:159-164 | the words written by the loop over a new page link its objects in order |
| `BucketLinks.ClientStoreRep` | oslab/linux-0.11/lib/malloc.c:168-172 | a client that stores any bytes anywhere inside its own object, aligned or not, disturbs no free list |
| `BucketMemory.Allocator.constructor` | oslab/linux-0.11/lib/malloc.c:77-92 | no buckets and no descriptors before the first call |
| `BucketMemory.Allocator.InitBucketDesc` | oslab/linux-0.11/lib/malloc.c:97-115 | 256 more spare descriptors from one page, or a panic exactly when there is none |
| `BucketMemory.Allocator.ThreadPage` | oslab/linux-0.11/lib/malloc.c:159-164 | chains all objects of a page, and writes nowhere else |
| `BucketMemory.Allocator.MallocObject` | oslab/linux-0.11/lib/malloc.c:117-173 | the pointer code is that `malloc`, and leaves the contents of all objects in use alone; it panics exactly for more than 4096 bytes, or when all buckets of the size are full and the pool has no page, or fewer than two with no descriptor to spare |
| `BucketMemory.Allocator.FreeObject` | oslab/linux-0.11/lib/malloc.c:182-231 | the pointer code is that `free_s`, and writes only the first word of the freed object |
| `BucketMemory.Allocator.ClientStore` | oslab/linux-0.11/lib/malloc.c:168-172 | clients may store any bytes of their objects, word by word or across words |
| `ExecArgs.ParseBang` | oslab/linux-0.11/fs/exec.c:244-261 | the first word of the #! line is the interpreter, its last path component the name, and what follows one blank the argument; none exactly for a blank line |
| `ExecStack.Loader.CopyDown` | oslab/linux-0.11/fs/exec.c:134-149 | each byte goes to its own place of its own page, pages being allocated as they are entered |
| `ExecStack.Loader.CopyStrings` | oslab/linux-0.11/fs/exec.c:106-154 | the strings, in order, fill the bytes just below `p`, and nothing else changes |
| `ExecStack.Loader.ChangeLdt` | oslab/linux-0.11/fs/exec.c:156-179 | the argument pages become the last pages of the data segment |
| `ExecStack.Loader.CreateTables` | oslab/linux-0.11/fs/exec.c:48-72 | argc, argv, envp and two null-terminated tables of pointers to the strings, in order |
| `ExecStack.Loader.Exec` | oslab/linux-0.11/fs/exec.c:266-368 | the whole argument part of execve leaves such a stack, and fails only for want of memory; what the program reads there is ArgumentsReadBack |
| `ExecStack.ArgumentsReadBack` | oslab/linux-0.11/fs/exec.c:48-72 | a program that walks argv and envp to their null pointers reads exactly the strings given; for a #! script entry 0 is the interpreter's name, then its argument if there is one, the script's name, and the strings from argv[1] on, nothing more; all that if and only if it is not a script started with an empty argv, whose `--argc` goes below 0 at line 268 |
| `Screen.InsertCharsIsOneShift` | oslab/linux-0.11/kernel/chr_drv/console.c:391-399 | repeated `insert_char` is one shift of the rest of the row, within the row |
| `Screen.DeleteCharsIsOneShift` | oslab/linux-0.11/kernel/chr_drv/console.c:411-419 | likewise `delete_char` |
| `Screen.InsertLinesIsOneShift` | oslab/linux-0.11/kernel/chr_drv/console.c:401-409 | repeated `insert_line` is one shift of the rows from the cursor's down, whatever the scroll region |
| `Screen.DeleteLinesIsOneShift` | oslab/linux-0.11/kernel/chr_drv/console.c:421-429 | likewise `delete_line` |
| `Screen.TextRolls` | oslab/linux-0.11/kernel/chr_drv/console.c:456-470 | ordinary text of any length goes behind what the scroll region shows, wrapping at the margin; what does not fit leaves whole rows at the top, no more than needed, and nothing outside the region changes |
| `Screen.TextShows` | oslab/linux-0.11/kernel/chr_drv/console.c:456-470 | while the region has room, the characters stand in the cells from the cursor on, in order, the cursor behind them, and no other cell changes |
| `Screen.SaveAndRestoreLookAtTheColumn` | oslab/linux-0.11/kernel/chr_drv/console.c:505-508 | ESC 7 saves the cursor only in column 55 and ESC 8 restores it only in column 56 |
| `ScreenLaws.SequenceRead` | oslab/linux-0.11/kernel/chr_drv/console.c:510-526 | ESC [, up to 16 decimal numbers with semicolons between them, and a final byte: the final byte acts on exactly those numbers, and on 0 for those left out |
| `ScreenLaws.CursorUp` | oslab/linux-0.11/kernel/chr_drv/console.c:532-535 | ESC [ n A: the cursor is n rows up if there are so many, else where it was; columns, cells and region as before |
| `ScreenLaws.CursorDown` | oslab/linux-0.11/kernel/chr_drv/console.c:536-539 | ESC [ n B and ESC [ n e: n rows down if that is on the screen |
| `ScreenLaws.CursorRight` | oslab/linux-0.11/kernel/chr_drv/console.c:540-543 | ESC [ n C and ESC [ n a: n columns right, at most to one past the last |
| `ScreenLaws.CursorLeft` | oslab/linux-0.11/kernel/chr_drv/console.c:544-547 | ESC [ n D: n columns left if there are so many |
| `ScreenLaws.LinesDown` | oslab/linux-0.11/kernel/chr_drv/console.c:548-551 | ESC [ n E: the first column n rows down |
| `ScreenLaws.LinesUp` | oslab/linux-0.11/kernel/chr_drv/console.c:552-555 | ESC [ n F: the first column n rows up |
| `ScreenLaws.ToColumn` | oslab/linux-0.11/kernel/chr_drv/console.c:528-531 | ESC [ n G and ESC [ n `: column n, counted from 1 |
| `ScreenLaws.ToLine` | oslab/linux-0.11/kernel/chr_drv/console.c:556-559 | ESC [ n d: row n, counted from 1 |
| `ScreenLaws.ToPlace` | oslab/linux-0.11/kernel/chr_drv/console.c:560-564 | ESC [ line ; column H, or f: that place, counted from 1, if it is on the screen |
| `ScreenLaws.HomeIsFirst` | oslab/linux-0.11/kernel/chr_drv/console.c:560-564 | ESC [ H: the upper left corner; with one number, the first column of that row |
| `ScreenLaws.MissingIsOne` | oslab/linux-0.11/kernel/chr_drv/console.c:533-557 | a number left out, or 0, counts as 1 in all the cursor movements |
| `ScreenLaws.SaveAndRestore` | oslab/linux-0.11/kernel/chr_drv/console.c:595-600 | ESC [ s, anything, ESC [ u: the cursor is back |
| `ScreenLaws.ErasesDisplay` | oslab/linux-0.11/kernel/chr_drv/console.c:239-266 | ESC [ n J, cell by cell: blank from the cursor, up to it, or everywhere; all other cells and the cursor as before |
| `ScreenLaws.ErasesLine` | oslab/linux-0.11/kernel/chr_drv/console.c:268-297 | ESC [ n K, cell by cell, within the cursor's row |
| `ScreenLaws.InsertsLines` | oslab/linux-0.11/kernel/chr_drv/console.c:401-409 | ESC [ n L, cell by cell: the rows from the cursor's on stand n rows lower, n at least 1 and at most what is left; blank rows in between |
| `ScreenLaws.DeletesLines` | oslab/linux-0.11/kernel/chr_drv/console.c:421-429 | ESC [ n M, cell by cell: the rows below stand n rows higher; blank rows at the end |
| `ScreenLaws.InsertsCharacters` | oslab/linux-0.11/kernel/chr_drv/console.c:391-399 | ESC [ n @, cell by cell within the row |
| `ScreenLaws.DeletesCharacters` | oslab/linux-0.11/kernel/chr_drv/console.c:411-419 | ESC [ n P, cell by cell within the row |
| `ScreenLaws.SetsColours` | oslab/linux-0.11/kernel/chr_drv/console.c:299-311 | ESC [ ... m: each number in turn sets the attribute of what is written from then on, 0 when there is none |
| `ScreenLaws.SetsRegion` | oslab/linux-0.11/kernel/chr_drv/console.c:586-594 | ESC [ first ; last r: those rows scroll from then on, if they are on the screen and in order; the cursor stays |
| `ScreenLaws.LineFeeds` | oslab/linux-0.11/kernel/chr_drv/console.c:204-212 | LF, cell by cell: the next row, or on the last row of the region everything in it one row up |
| `ScreenLaws.ReverseLineFeeds` | oslab/linux-0.11/kernel/chr_drv/console.c:214-222 | ESC M, the other way |
| `ScreenLaws.NextLine` | oslab/linux-0.11/kernel/chr_drv/console.c:497-498 | ESC E: the first column of the next row, if there is one |
| `ScreenLaws.CarriageReturn` | oslab/linux-0.11/kernel/chr_drv/console.c:471-472 | CR: the first column |
| `ScreenLaws.BackSpace` | oslab/linux-0.11/kernel/chr_drv/console.c:475-479 | BS: one column left unless in the first; nothing is erased |
| `ScreenLaws.ErasesCharacter` | oslab/linux-0.11/kernel/chr_drv/console.c:473-474 | the erase character: one column left, and that cell blank |
| `ScreenLaws.Tabs` | oslab/linux-0.11/kernel/chr_drv/console.c:480-488 | TAB: the next column divisible by 8; past the row, as far into the next line |
| `ScreenLaws.Prints` | oslab/linux-0.11/kernel/chr_drv/console.c:455-466 | a printable byte: the cursor's cell in the current attribute, and one column on; past the row, first a new line |
| `ScreenLaws.Ignored` | oslab/linux-0.11/kernel/chr_drv/console.c:455-491 | every other byte does nothing |
| `ScreenLaws.OtherEscapes` | oslab/linux-0.11/kernel/chr_drv/console.c:493-509 | ESC and any other byte: nothing, but in columns 55 and 56 |
| `ScreenLaws.UnknownSequences` | oslab/linux-0.11/kernel/chr_drv/console.c:527-601 | an unknown final byte, or a sequence with a question mark in front of it, ends the sequence and changes nothing |
| `Console.ScrolledOn` | oslab/linux-0.11/kernel/chr_drv/console.c:111-138 | moving the origin one row on and blanking the next row shows the same as a one-line shift |
| `Console.ScrolledHome` | oslab/linux-0.11/kernel/chr_drv/console.c:115-129 | so does copying the screen back to the start of video memory |
| `Console.Video.constructor` | oslab/linux-0.11/kernel/chr_drv/console.c:617-688 | the cursor address matches the BIOS cursor |
| `Console.Video.ScrollsUp` | oslab/linux-0.11/kernel/chr_drv/console.c:107-168 | `scrup` on every card is the one-line shift of the scroll region |
| `Console.Video.ScrollsDown` | oslab/linux-0.11/kernel/chr_drv/console.c:170-202 | `scrdown` likewise |
| `Console.Video.CsiJ` | oslab/linux-0.11/kernel/chr_drv/console.c:239-266 | erases exactly the cells named |
| `Console.Video.CsiK` | oslab/linux-0.11/kernel/chr_drv/console.c:268-297 | erases exactly the cells of the row named |
| `Console.Video.InsertCharHere` | oslab/linux-0.11/kernel/chr_drv/console.c:336-348 | shifts the rest of the row one cell right |
| `Console.Video.DeleteCharHere` | oslab/linux-0.11/kernel/chr_drv/console.c:363-376 | shifts the rest of the row one cell left |
| `Console.Video.InsertLineHere` | oslab/linux-0.11/kernel/chr_drv/console.c:350-361 | shifts the rows from the cursor's down, and leaves the scroll region as it was |
| `Console.Video.DeleteLineHere` | oslab/linux-0.11/kernel/chr_drv/console.c:378-389 | likewise up |
| `Console.Video.Gotoxy` | oslab/linux-0.11/kernel/chr_drv/console.c:88-95 | moves the cursor, one past the last column allowed, or ignores an impossible place |
| `Console.Video.EscapeByte` | oslab/linux-0.11/kernel/chr_drv/console.c:493-509 | the byte after ESC is the plain terminal's step, which tests the column where the byte was meant |
| `Console.Video.ParameterByte` | oslab/linux-0.11/kernel/chr_drv/console.c:517-524 | collects up to 16 parameters, each modulo 2 to the 32nd, and hands any other byte on as the final one |
| `Console.Video.FinalByte` | oslab/linux-0.11/kernel/chr_drv/console.c:525-601 | every final byte does to screen, cursor and scroll region what the plain terminal does, whose laws by byte are those of ScreenLaws; out-of-range and wrapped-around moves included |
| `Console.Video.ConWrite` | oslab/linux-0.11/kernel/chr_drv/console.c:445-605 | for any bytes whatever the screen is that of the plain terminal, which ScreenLaws describes byte by byte; the cursor address is origin + y rows + x, x is at most the columns and y below the lines, and every write stays in video memory |
| `Console.SameOutput` | oslab/linux-0.11/kernel/chr_drv/console.c:107-168 | a card that scrolls by moving its origin and one that moves its rows show the same screen after the same output |
| `Pipe.ReadIsOldest` | oslab/linux-0.11/fs/pipe.c:24-35 | a turn of `read_pipe` takes the oldest bytes held, in order, and never past the end of the page |
| `Pipe.WriteIsNewest` | oslab/linux-0.11/fs/pipe.c:54-65 | a turn of `write_pipe` puts the next bytes behind all those held |
| `Pipe.FreshPipeInv` | oslab/linux-0.11/fs/inode.c:228-242 | a new pipe, as `get_pipe_inode` leaves it, satisfies the invariant |
| `Pipe.StepKeepsInv` | oslab/linux-0.11/fs/pipe.c:13-69 | every step, wakings one after the other, keeps first-in first-out order, and nobody sleeps on without a reason and without somebody awake who will wake him |
| `Pipe.HistoryKeepsInv` | oslab/linux-0.11/fs/pipe.c:13-69 | over every interleaving, bytes delivered followed by bytes held are the bytes accepted, at most 4095 held |
| `Pipe.OnlyOneSideWaits` | oslab/linux-0.11/fs/pipe.c:18-23 | when all who are inside the pipe sleep, they are all readers of an empty pipe or all writers to a full one |
| `Pipe.TurnAccounts` | oslab/linux-0.11/fs/pipe.c:13-69 | a call returns short only when the other end is closed |
| `PipeLaws.ReaderMoves` | oslab/linux-0.11/fs/pipe.c:24-35 | a reader's turn gets the n oldest bytes, n being the least of what it wants, what is held, and what stands before the end of the page; those bytes, and no others, leave the pipe |
| `PipeLaws.WriterMoves` | oslab/linux-0.11/fs/pipe.c:54-65 | a writer's turn puts its first n bytes behind all that is held, n being the least of what it has, the room, and the rest of the page |
| `PipeLaws.WaitsForTheOther` | oslab/linux-0.11/fs/pipe.c:18-23 | an empty pipe for a reader, 4095 bytes for a writer, both ends open: the task wakes who slept last and is itself asleep, at the head of the queue |
| `PipeLaws.Returns` | oslab/linux-0.11/fs/pipe.c:19-38 | a call that is done, or has lost its other end, returns and wakes who slept last |
| `PipeLaws.Closes` | oslab/linux-0.11/fs/inode.c:157-160 | closing an end leaves one fewer open and wakes who slept last |
| `PipeLaws.BytesArrive` | oslab/linux-0.11/fs/pipe.c:13-69 | a run of five steps after which a reader that slept on the empty pipe has exactly the bytes then written |
| `Pipe.Page.ReadSome` | oslab/linux-0.11/fs/pipe.c:24-35 | the code of one turn of `read_pipe` |
| `Pipe.Page.WriteSome` | oslab/linux-0.11/fs/pipe.c:54-65 | the code of one turn of `write_pipe` |

## Left out

- BufferCache.Next: one major device, no I/O errors, no `breada` and no `invalidate_buffers`; `b_count` is a number without the limit of its unsigned char; `block_write`, which fills a block without marking it up to date, is not a client step.
- BufferRuns.StepShows: a store is one step; a client that sleeps between marking a buffer dirty and copying into it is not modelled. A block being freed is shown afterwards as whatever is on disk.
- BufferPool.Pool.InsertIntoChain: the null pointer write of fs/buffer.c:166 is replaced by a check.
- FileSystem.Device: the device is read and written without error and without buffers in between; the buffer cache is proved separately to be a plain disk. Only files, directories and links are truncated; inode times and dirty marks are not kept.
- FileSystem.Device.MapBlock: blocks at or beyond 7 + 512 + 512 * 512, for which the kernel panics, are excluded.
- FileSystem.Device.FileWrite: positions whose end passes that limit are excluded.
- FsRuns.StoreKeepsInv: the task that stores the zone comes back to the index block that it left, so a `truncate` of the same file while it sleeps in `new_block` is excluded; a whole `truncate`, and one copy of `file_write`, are single steps.
- MemoryManager.Memory.CopyPageTables: nothing is said of what the code does after a count has wrapped, which it does not notice.
- MemoryManager.Memory: its methods run without interference, so a disk transfer in them counts as done; the interleavings are the runs of `PagingRuns`. `do_no_page` beyond its sharing is left out, and so are page accesses by the kernel itself.
- MemoryManager.Memory.UnWpPage: once the page directory is overwritten the words there are bytes of a page, and what other tasks then see is not said.
- Paging.ShareTailKeepsInv: a source table released while `try_to_share` sleeps, whose frame by then holds a page's data, is excluded; as another task's page table it is a share from that task.
- PagingOps.StoreIsPrivate: stores through frames below LOW_MEM, which fork shares writable from task 0, are excluded.
- Scheduler.BoundedWaiting: signals and alarms are wakings; `fork` and `nice` are kept out of the window; no bound is given for ticks inside the kernel, which preempt nobody.
- WaitQueue.Kernel.SleepOn: the three assignments are one step, as they are where callers disable interrupts; `interruptible_sleep_on`, which can drop sleepers, is left out.
- Timers.Queue.DoTimer: the functions called are outside the model; a timer that one of them adds is added after the tick.
- BucketMemory.Allocator.FreeObject: freeing what is not in use is excluded; the second look for `prev`, meant for interruptions, finds nothing to repair here and is left out; `get_free_page` yields some page of a pool, and its clearing is not used.
- ExecStack.Loader.Exec: strings that do not fit in 128 kB less one word are excluded, because the test for them is on an unsigned value; user memory faults nowhere; permission, file format and register set-up are left out.
- Console.Video.EscapeByte: the answer to ESC Z, which can come back through echo, is left out; so are port output and the beep.
- Console.Video.MoveWords: block moves have their plain meaning; the number of columns is even and at least 8; addresses count words from the start of video memory.
- Pipe.StepKeepsInv: copying to and from user memory is part of a step.
- Inodes.Next: mount points, `invalidate_inodes`, the `sync_dev` of block devices and times are left out; superblocks are taken to be in memory, so that looking one up does not sleep; `i_count` is a number without the limit of its unsigned short.
- InodeTable.Core: each method is one turn, up to the next sleep; the sleeping itself is in the runs of `InodeRuns`.
- Directory.Dir: the blocks of a directory are a sequence, without buffers or holes; access times are left out.
- NameTree.CallKeepsInv: each call is one step, so two calls that both find a name missing and both add it are not modelled; permissions beyond the right to search, sticky bits, and what `mkdir` and `mknod` undo when no entry can be had are left out. The tree is a value; the code under it is that of `Directory.Dir`.
- Paths.Namei: the tree does not change during a lookup, and `..` does not cross a mount point.
- Superblocks, terminals and their line editing, `vsprintf`, `verify_area`, the pid search and the boot loader: not modelled.
- kernel/exit.c: its text lacks its numeric literals, so its process tree has no definite meaning.
- Hard disk, floppy, keyboard, serial lines and interrupt entry: hardware, or assembly around it.
