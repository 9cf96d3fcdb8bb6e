# Linux 0.11: verified models of the kernel's core algorithms

The parts of this kernel that change shared state in place, modelled in Dafny in their own form
and proved correct. `dafny verify dfyconfig.toml` checks everything.

Each part consists of a specification on values (what a step does to a whole memory, cache, disk
or screen), proofs about whole runs of such steps, and a class whose methods are the C functions
over arrays and fields, each proved to do exactly what the specification says.

| part | files |
|---|---|
| copy-on-write paging | `page_state`, `page_steps`, `page_ops`, `page_fork`, `page_room`, `page_runs`, `page_dirty`, `memory` |
| buffer cache | `cache_machine`, `cache_proofs`, `cache_lists`, `cache_link`, `cache_use`, `disk_queue` |
| zone trees, bitmap, file contents | `zone_tree`, `zone_proofs`, `zone_free`, `zone_layout`, `file_bytes`, `filesystem`, `hole_race` |
| disk elevator | `elevator`, `requests` |
| wait queues and scheduler | `wait_stack`, `sleep_on`, `scheduler`, `scheduler_laws` |
| console | `terminal`, `terminal_bytes`, `console` |
| bucket allocator | `buckets`, `malloc` |
| arguments of execve | `exec_args`, `exec` |
| terminal queues and pipes | `ring`, `line_editor`, `line_keys`, `tty`, `pipe` |
| sequences and sets | `collections` |

How the source's things appear:

- Pointers are indices: a page table, a request slot, a buffer head or a bucket descriptor is
  named by its place in an array, and null is a value outside it. The links are still stored and
  rewired one by one.
- A page-table word is split into its page number and flag bits; the split loses nothing. Page
  tables live in the same physical memory as everything else. A state of the paging model also
  carries the kernel's own holds on pages (`held`), which the C code has only in local variables.
- A task that can sleep is a place in a state machine whose steps run from one sleep to the next,
  and a run is any sequence of enabled steps of any tasks, the disk and interrupts.
- Where the source panics, a method returns false or 0, or its precondition excludes the case.
- Unsigned arithmetic that can wrap is written out: the console's parameters and cursor sums, the
  byte counts of `mem_map`, the ring buffers' masks.

Where the code does not do what one would expect, the model follows the code; a lemma shows the
input and another gives the exact condition, for all inputs:

| the code | shown by | exactly when |
|---|---|---|
| a store of the kernel after `verify_area` and a sleep reaches a page shared meanwhile | `PageRuns.SharedThenStored` | `PageRuns.KernelStoreIff`, and right before the store `PageRuns.WritableIsPrivate` |
| a write fault that copies a page forgets that it was stored to, and `try_to_share` shares it | `PageDirty.StoredUnmarked`, `PageDirty.UnmarkedIsShared` | `PageDirty.SharedIff` |
| two tasks fill one hole, and a zone is lost | `HoleRace.LosesZone` | `HoleRace.StoreLeaksIff`, `HoleRace.LeaksIff`, and before the call `HoleRace.BeginIsSafeIff` |
| `sleep_on` and `wake_up` wake tasks that left the queue | `SleepOn.WakesAStranger` | `SleepOn.StrangersIff`, and before the call `SleepOn.CheckBeforeSleep` |
| a read hands out characters still being edited | `LineEditor.ReadsPastTheLine` | `LineEditor.ReadHarmlessIff` |
| ESC 7 and ESC 8 test the column, not the byte (kernel/chr_drv/console.c:507-510) | `Terminal.EscapeSevenLoses` | `Terminal.EscapeSevenIff`, `Terminal.EscapeEightIff` |

Three routines work only on what their callers give them; this is what each needs, exactly:

| the routine | needs | otherwise |
|---|---|---|
| `put_page` | an entry that refers to no counted page: `PageOps.PutPageNeedsRoom` | `PageOps.PutPageTwice` |
| block moves by double words | an even number of cells: `Terminal.PairwiseUpIff` | the same lemma |
| `schedule` | a runnable task of positive priority, once all ticks are used up: `Scheduler.EndsIff` | `Scheduler.NeverEnds` |

## Model

| member | source | states |
|---|---|---|
| `PageRuns.StepKeeps` | `mm/memory.c:68-138` | every operation keeps the counts exact, page tables private and writable pages unshared, and changes what is read only through entries of the task it is for; a store of the kernel, which the hardware lets through read-only entries too, only through entries for the page it hits |
| `PageRuns.InvAlways` | `mm/memory.c:68-351` | that invariant holds after every run of forks, faults, stores of tasks and kernel, sharing, teardown and kernel allocations |
| `PageRuns.Isolation` | `mm/memory.c:164-289` | over every run, what a task reads at an address stays the same as long as no operation is for that task and no store of the kernel hits the page it reads there |
| `PageRuns.VerifiedLeavesAlone` | `kernel/fork.c:24-37` | where the kernel stores only through entries that are writable at that moment, operations for other tasks never reach what a task reads |
| `PageRuns.KernelStoreIff` | `fs/file_dev.c:36-41` | stores of the kernel through an entry are seen through no other, whatever is stored where, if and only if the page has no other entry |
| `PageRuns.WritableIsPrivate` | `kernel/fork.c:24-37` | an entry found writable right before the store has its page alone |
| `PageRuns.SharedThenStored` | `mm/memory.c:309-351` | what does not hold: that the page is still private at the store; once try_to_share has given a clean page to another task, a store of the kernel into it is seen there |
| `PageRuns.ForkIsSnapshot` | `kernel/fork.c:39-76` | a child goes on reading the memory its parent had at the fork, however much the parent and all others write afterwards, unless the kernel stores into a page of the child |
| `PageRuns.NoDoubleUse` | `mm/memory.c:68-104` | in every reachable state get_free_page hands out only pages nothing refers to, mem_map is exactly the references plus the kernel's holds, and never near the limit of its byte |
| `PageRuns.StoreSeen` | `mm/memory.c:238-255` | a store through a writable entry is seen by that entry exactly, and through no other, and marks the entry dirty |
| `PageRuns.OwnStoresOnly` | `mm/memory.c:164-289` | while a task neither maps nor unmaps anything, every entry of it shows exactly the stores through it, its own and those of the kernel for it, in order, over any run of faults, forks and everything others do, unless the kernel hits its page through another entry |
| `PageOps.UnprotectKeeps` | `mm/memory.c:238-255` | a write fault leaves the faulting entry writable, alone on its page and with the contents it had; nobody reads anything new; it fails only without memory, and then changes nothing |
| `PageOps.PutPageKeeps` | `mm/memory.c:214-236` | the page becomes the entry and shows its contents there; on failure nothing has changed |
| `PageOps.PutPageNeedsRoom` | `mm/memory.c:214-236` | put_page does not look at the entry it overwrites: the counts stay exact if and only if that entry did not refer to a counted page |
| `PageOps.PutPageTwice` | `mm/memory.c:214-236` | such a state: get an entry its page, then put the next free page over it |
| `PageOps.NewPageKeeps` | `mm/memory.c:291-299` | a new page shows what it was filled with, is writable and unshared; on failure the page is given back and all counts are as before |
| `PageOps.TryToShareKeeps` | `mm/memory.c:309-351` | sharing happens exactly when the other page is present, clean and ordinary memory and a table can be had; then both entries are read-only and show the same page |
| `PageOps.ShareEntry` | `mm/memory.c:343-349` | sharing one entry keeps the invariant, every page, and every other entry |
| `PageFork.CopyTablesKeep` | `mm/memory.c:164-206` | whether or not memory suffices, every page keeps its contents and every slot outside the child its page; on success the child has the parent's pages, all read-only |
| `PageFork.FreeTablesKeep` | `mm/memory.c:112-138` | the range is empty afterwards, every other slot and data page is as it was, and no count is decremented below zero |
| `PageFork.ForkShares` | `kernel/fork.c:66-76` | after a successful fork the child sees the parent's pages, neither can write to them, and all others see what they saw |
| `PageFork.FailedForkUndone` | `kernel/fork.c:71-74` | a fork that runs out of pages restores every count and leaves the child's range empty; all tasks read the same bytes, and only write permission of the parent is lost |
| `PageRoom.ForkOkIff` | `kernel/fork.c:71-75` | a fork succeeds if and only if mem_map has as many zero bytes as the parent has page tables in the range: each takes one page, and sharing the entries takes none |
| `PageRoom.NewPageOkIff` | `mm/memory.c:291-299` | a missing page is supplied if and only if there is a free page, and one more when the table is missing too |
| `PageRoom.UnprotectOkIff` | `mm/memory.c:238-255` | a write fault is resolved if and only if the entry has its page alone or there is a free page |
| `PageRoom.UnprotectTakes` | `mm/memory.c:238-255` | an entry alone on its page keeps it, and no count changes; any other gets another page, one that was free |
| `PageRoom.GivenToTask` | `mm/memory.c:214-255` | new pages, copies and tables are present, writable, open to the task and not marked dirty |
| `PageRoom.ShareOkIff` | `mm/memory.c:309-351` | try_to_share shares if and only if the other task has the page, in main memory, its entry is not marked dirty, and there is a page for a missing table |
| `PageDirty.DirtyIff` | `mm/memory.c:238-255` | over any run in which its task maps and unmaps nothing, an entry is marked dirty if and only if a word has been stored through it since it was given its page |
| `PageDirty.SharedIff` | `mm/memory.c:330-335` | so after any such run the page is shared if and only if nothing has been stored through the entry since it was given that page, which is in main memory, and there is a page for a missing table |
| `PageDirty.StoredUnmarked` | `mm/memory.c:238-255` | what does not hold: that a page stored to is always marked; after a store, a fork and a write fault that copies, the entry shows the word stored and is not marked |
| `PageDirty.UnmarkedIsShared` | `mm/memory.c:309-351` | and try_to_share then gives another task that page |
| `PageState.TableIsPrivate` | `mm/memory.c:214-236` | no entry maps a page that serves as a page table |
| `PageState.CountFitsByte` | `mm/memory.c:57-57` | an exact count cannot wrap its byte |
| `Memory.MemoryManager.MemInit` | `mm/memory.c:439-452` | establishes the invariant: pages of main memory are free, all others marked used |
| `Memory.MemoryManager.GetFreePage` | `mm/memory.c:68-88` | the last page whose byte is 0, cleared, or 0 when there is none |
| `Memory.MemoryManager.FreePage` | `mm/memory.c:94-104` | decrements the count; panics exactly for a page past high memory or with count 0 |
| `Memory.MemoryManager.FreePageTables` | `mm/memory.c:112-138` | does to the whole memory what FreeTables says, in place; no call of free_page panics |
| `Memory.MemoryManager.CopyPageTables` | `mm/memory.c:164-206` | does what CopyTables says, up to the page where memory runs out |
| `Memory.MemoryManager.PutPage` | `mm/memory.c:214-236` | does what the put_page function on whole memories says |
| `Memory.MemoryManager.UnWpPage` | `mm/memory.c:238-255` | does what Unprotect says; false where the task would be killed |
| `Memory.MemoryManager.WriteVerify` | `mm/memory.c:278-289` | a present page ends writable and nobody reads anything new; without memory nothing changes |
| `Memory.MemoryManager.GetEmptyPage` | `mm/memory.c:291-299` | a zero page at the entry |
| `Memory.MemoryManager.TryToShare` | `mm/memory.c:309-351` | does what the value-level TryToShare says, with its three results |
| `Memory.MemoryManager.LoadPage` | `mm/memory.c:406-434` | do_no_page from the free page on: the page read from disk at the entry |
| `Memory.MemoryManager.CopyMem` | `kernel/fork.c:71-74` | copy_page_tables, undone by free_page_tables on failure |
| `CacheProofs.StepKeeps` | `fs/buffer.c:186-254` | every step of every task, disk and interrupt keeps the cache invariant; a buffer changes its key only when unused, unlocked and clean; getblk returns an unlocked buffer that carries the key |
| `CacheProofs.FlatTable` | `fs/buffer.c:270-284` | over every run, under any interleaving, cache and disk together hold for every block what was last written to it, through recycling, syncing and rereading; unknown from a freeing to the next write |
| `CacheProofs.ReadsLastWritten` | `fs/buffer.c:270-284` | what a task reads from a buffer of bread is the last contents written to the block since it was last freed |
| `CacheProofs.ScanFindsVictim` | `fs/buffer.c:216-226` | the walk finds nothing exactly when every buffer is in use; otherwise, of the unused ones, the first of least badness |
| `CacheLink.StepRealises` | `fs/buffer.c:134-167` | every step of a task, the disk or an interrupt leads from well-formed chains and free list that carry the machine's buffers to such lists of the next state |
| `CacheLink.ListsAlwaysOk` | `fs/buffer.c:134-254` | so hash chains and free list are well formed, and hold exactly the machine's buffers, after any run under any interleaving |
| `CacheLink.RecycleKeeps` | `fs/buffer.c:246-252` | removal, change of key and insertion make of the lists those of the next state |
| `CacheLink.InitialRealises` | `fs/buffer.c:354-398` | the lists of buffer_init are those of the machine's first state |
| `CacheProofs.OneBufferPerBlock` | `fs/buffer.c:205-254` | in every reachable state a block of a device has at most one buffer |
| `CacheProofs.UsedBufferStays` | `fs/buffer.c:231-254` | as long as a buffer is used it stays with its block |
| `CacheProofs.HashDoneKeeps` | `fs/buffer.c:186-199` | the buffer found by get_hash_table cannot change its block while the task waits with its count raised |
| `CacheProofs.TryEvictKeeps` | `fs/buffer.c:231-254` | the tests after the waits of getblk make the change of key safe |
| `CacheProofs.IoKeeps` | `kernel/blk_drv/ll_rw_blk.c:72-111` | locking for a transfer, clearing b_dirt at queueing and completing keep every block's contents |
| `CacheUse.ReleaseLowers` | `fs/buffer.c:256-264` | brelse takes one from b_count and the task from the users, and changes nothing else |
| `CacheUse.UsersLaw` | `fs/buffer.c:186-264` | over any run, what a task has of a buffer is what it had and what getblk handed it, less what it gave back |
| `CacheUse.UnusedIff` | `fs/buffer.c:256-264` | from the first state on, a buffer is unused if and only if every task has given it back as often as it got it and none waits for it |
| `CacheUse.VictimIff` | `fs/buffer.c:216-230` | so getblk finds a buffer to recycle if and only if there is one that every task has settled with |
| `CacheUse.ReturnsIff` | `fs/buffer.c:209-253` | getblk returns without a wait if and only if the block has a buffer that is not locked, or has none and some unused buffer is clean and not locked |
| `CacheUse.WaitsOtherwise` | `fs/buffer.c:186-253` | otherwise it waits: for the locked buffer of the block, with its count raised; when all are in use, for one to become unused; else for the best unused one to be unlocked or written |
| `CacheUse.HashReturnsIff` | `fs/buffer.c:186-199` | awake again it returns with the buffer of the block exactly when that is unlocked |
| `CacheUse.EvictReturnsIff` | `fs/buffer.c:231-253` | and takes the buffer it chose exactly when that is still unused, clean and unlocked and the block has got no buffer meanwhile |
| `CacheUse.Proceeds` | `fs/buffer.c:209-243` | a call begins at repeat, and after sync_dev looks at the buffer it chose again |
| `CacheUse.OrderStep` | `fs/buffer.c:246-252` | the free list keeps its order under every step, but that a buffer that gets a new block goes to the end |
| `CacheUse.LocksIff` | `kernel/blk_drv/ll_rw_blk.c:105-111` | ll_rw_block takes the lock exactly when there is something to transfer |
| `CacheUse.Queues` | `kernel/blk_drv/ll_rw_blk.c:66-78` | queueing a request cleans the buffer, and nothing else changes |
| `CacheUse.Transferred` | `kernel/blk_drv/blk.h:111-127` | the end of a transfer leaves the buffer unlocked and uptodate; a read has brought what the disk holds, a write has left there what the buffer holds unless that was changed meanwhile |
| `CacheUse.LockedTillDone` | `kernel/blk_drv/blk.h:111-127` | over any run a buffer under transfer stays locked and with its block until its transfer ends |
| `CacheUse.Forgotten` | `fs/bitmap.c:54-66` | free_block leaves the buffer unused and its contents neither uptodate nor dirty |
| `CacheProofs.InitialInv` | `fs/buffer.c:354-398` | the state after buffer_init satisfies the invariant |
| `CacheLists.BufferQueues.BufferInit` | `fs/buffer.c:354-398` | the free list holds every head once, in order; all hash chains are empty |
| `CacheLists.BufferQueues.RemoveFromQueues` | `fs/buffer.c:134-150` | takes the head out of its chain and the free list; both stay well-formed doubly linked lists of the same other heads |
| `CacheLists.BufferQueues.InsertIntoQueues` | `fs/buffer.c:152-167` | at the end of the free list and, with a device, first in the chain of its hash; all lists stay well-formed |
| `CacheLists.BufferQueues.FindBuffer` | `fs/buffer.c:169-177` | the walk along one chain finds what a search of all buffers would find |
| `CacheLists.BufferQueues.FindVictim` | `fs/buffer.c:216-226` | the first unused buffer of least badness in free-list order; none exactly when all are in use |
| `CacheLists.BufferQueues.TryEvict` | `fs/buffer.c:231-253` | getblk after its wait: sleeps again, starts over or takes the buffer, in place, as the machine says |
| `CacheLists.BufferQueues.Attempt` | `fs/buffer.c:213-253` | getblk from one sleep to the next, through chains and free list, as the machine says |
| `CacheLists.BufferQueues.Recycle` | `fs/buffer.c:246-253` | the buffer carries the new key, is in the chain of that key, and last on the free list |
| `CacheLists.RemoveKeyed` | `fs/buffer.c:136-141` | unlinking from a hash chain leaves every chain well-formed |
| `CacheLists.InsertKeyed` | `fs/buffer.c:154-166` | linking into a hash chain, with a null b_next left alone, leaves every chain well-formed |
| `ZoneProofs.CreateBlockKeeps` | `fs/inode.c:72-148` | create_block adds one block to the map; later lookups agree with it; every other block of every inode and every byte of every file is as before; it fails only when the bitmap is full |
| `ZoneProofs.CreateBlockIdempotent` | `fs/inode.c:145-148` | for a mapped block it changes nothing and returns the zone |
| `ZoneProofs.BmapInjective` | `fs/inode.c:72-138` | no two blocks of any files share a zone |
| `ZoneProofs.EnsureKeeps` | `fs/inode.c:90-96` | filling one hole of a tree keeps bitmap and trees in agreement; a new index block reads as all holes |
| `ZoneTree.NewBlockZone` | `fs/bitmap.c:75-105` | new_block takes a clear bit of a data zone, sets it and zeroes the zone, or finds every bit set |
| `ZoneFree.FreeStep` | `fs/bitmap.c:47-73` | while a file is being freed, the next zone still has its bit set, so free_block does not panic |
| `ZoneFree.TruncateKeeps` | `fs/truncate.c:11-64` | truncate clears exactly the bits of the zones the inode reached, each once; the inode has no blocks afterwards; all other files keep blocks and bytes; bits and trees agree |
| `ZoneFree.PatchKeeps` | `fs/file_dev.c:69-81` | a store into a data block changes the bytes of that block of that file only |
| `FileBytes.WriteStores` | `fs/file_dev.c:64-83` | one round of the write loop carries the write on by its chunk |
| `FileBytes.WriteKeepsTailZero` | `fs/file_dev.c:48-90` | bytes past the end of every file stay 0, and the gap left by a write past the end reads as zeros |
| `FileBytes.TruncateKeepsTailZero` | `fs/truncate.c:47-64` | the same for truncation |
| `FileBytes.HoldsLatest` | `fs/file_dev.c:17-90` | over any history of writes and truncations that keep their contracts, of any files, every offset of every file holds what was last written there since its last truncation |
| `ZoneLayout.Layout` | `fs/inode.c:81-138` | blocks 0 to 6 are in the inode; block b below 519 is the 16-bit word b - 7 of the block i_zone[7]; from 519 on, with c = b - 519, it is word c % 512 of the block that word c / 512 of i_zone[8] names; 0 where one is missing |
| `ZoneLayout.RunInOneBlock` | `fs/inode.c:117-138` | blocks 519 + 512k to 519 + 512k + 511 lie in order in one index block |
| `ZoneLayout.NamedIsBlock` | `fs/inode.c:72-138` | every zone that an inode or an index block names is a block of the device |
| `ZoneLayout.ByteInPlace` | `fs/file_dev.c:23-43` | byte i of block b of a file is byte i of its zone, 0 in a hole |
| `ZoneLayout.LowestZone` | `fs/bitmap.c:83-96` | new_block takes the lowest zone whose bit, counted from s_firstdatazone - 1, is clear, and sets that bit |
| `ZoneLayout.CreateTakes` | `fs/inode.c:72-138` | create_block succeeds if and only if there are as many clear bits as blocks are missing on the way, the index blocks included, and takes exactly these |
| `ZoneProofs.FreshInv` | `fs/bitmap.c:75-105` | a device without files satisfies the invariant |
| `FileSystem.Device.FindFirstZero` | `fs/bitmap.c:31-45` | the first clear bit of a slot, 8192 when there is none |
| `FileSystem.Device.NewBlock` | `fs/bitmap.c:75-105` | does what the value-level new_block says |
| `FileSystem.Device.FreeBlock` | `fs/bitmap.c:47-73` | panics exactly when the zone is no data zone, or its bit is clear and nobody uses its buffer; clears the bit unless the buffer is in use |
| `FileSystem.Device.CreateBlock` | `fs/inode.c:145-148` | the tree changes as the value-level create_block says, and stays valid |
| `FileSystem.Device.Bmap` | `fs/inode.c:140-143` | the zone of the block, 0 for a hole, without any change |
| `FileSystem.Device.FreeInd` | `fs/truncate.c:11-27` | frees an index block and all it refers to |
| `FileSystem.Device.FreeDind` | `fs/truncate.c:29-45` | frees a double index block, its index blocks and all they refer to |
| `FileSystem.Device.Truncate` | `fs/truncate.c:47-64` | the file is empty, other files are untouched, and exactly the inode's zones are free |
| `FileSystem.Device.FileWrite` | `fs/file_dev.c:48-90` | the first r bytes are at the offset, no other byte of any file changed, the size is the larger of old and end; short only when the bitmap is full |
| `FileSystem.Device.FileRead` | `fs/file_dev.c:17-46` | delivers the bytes of the file, 0 for holes, and moves the position |
| `FileSystem.Device.WriteThenRead` | `fs/file_dev.c:17-90` | file_write and then a read at the same place: the read delivers exactly what was written, if it was written completely, which only a full bitmap prevents |
| `FileSystem.Device.Play` | `fs/file_dev.c:17-90` | any sequence of writes and truncations, carried out one after the other: a write is cut short only where it leaves the bitmap full, every byte is as last written, trees and bitmap agree, and zeros lie past the end of every file |
| `FileSystem.Device.Read` | `fs/read_write.c:79-84` | the clamp to the size: never a byte past the end |
| `HoleRace.LeaksIff` | `fs/inode.c:81-87` | tasks that fill one hole at the same time: a run leaks a zone if and only if it stores into the place twice with no truncation between |
| `HoleRace.StoreLeaksIff` | `fs/inode.c:82-83` | a store leaks a zone if and only if another one has filled the place since the call found it empty |
| `HoleRace.BeginIsSafeIff` | `fs/inode.c:82-82` | known before the call: if no task is between test and store the call and all stores to come lose nothing; if one is, they can |
| `HoleRace.LosesZone` | `fs/inode.c:82-83` | what does not hold: that no zone is lost when two tasks find the same hole |
| `Elevator.InsertKeepsTwoSweeps` | `kernel/blk_drv/ll_rw_blk.c:66-88` | inserting a distinct request keeps at most one descent |
| `Elevator.SweepOrder` | `kernel/blk_drv/blk.h:41-44` | within a sweep reads come before writes, lower devices before higher, and sectors ascend |
| `Elevator.TwoSweepsAlways` | `kernel/blk_drv/ll_rw_blk.c:66-88` | so the queue is at most two ascending sweeps after any run of insertions and pops |
| `Elevator.WaitInsert` | `kernel/blk_drv/ll_rw_blk.c:80-84` | no newcomer makes a queued request wait longer than its bound |
| `Elevator.WaitPop` | `kernel/blk_drv/blk.h:111-127` | serving a request brings every other strictly nearer |
| `Elevator.NoStarvation` | `kernel/blk_drv/ll_rw_blk.c:66-88` | a queued request is among the next 2n served, n being the number of possible keys, however many requests keep coming |
| `Requests.BlockDevice.AddRequest` | `kernel/blk_drv/ll_rw_blk.c:66-88` | the linked queue changes as Insert says, and all other slots stay |
| `Requests.BlockDevice.FindGap` | `kernel/blk_drv/ll_rw_blk.c:80-84` | stops at the first element the request may follow |
| `Requests.BlockDevice.MakeRequest` | `kernel/blk_drv/ll_rw_blk.c:90-145` | reads may use all slots, writes two thirds; fails exactly when those are taken |
| `Requests.BlockDevice.EndRequest` | `kernel/blk_drv/blk.h:111-127` | pops the head and frees its slot |
| `DiskQueue.RequestsDiffer` | `kernel/blk_drv/ll_rw_blk.c:107-140` | buffers that are locked for a transfer have different requests |
| `DiskQueue.StepKeeps` | `kernel/blk_drv/ll_rw_blk.c:66-145` | under every step of tasks, disks and interrupts, the queue of a disk holds exactly the buffers under transfer, once each, in at most two ascending sweeps |
| `DiskQueue.RunsElevator` | `kernel/blk_drv/ll_rw_blk.c:66-88` | what any run of the cache does to the queue is a run of the elevator |
| `DiskQueue.BufferServed` | `kernel/blk_drv/ll_rw_blk.c:66-88` | a buffer under transfer is done with by the time the disk has completed twice as many transfers as there can be requests, whatever tasks and interrupts do meanwhile |
| `DiskQueue.InitialFits` | `kernel/blk_drv/ll_rw_blk.c:162-170` | what buffer_init and blk_dev_init leave fits together |
| `WaitStack.StepKeeps` | `kernel/sched.c:185-220` | the tasks inside form a stack whose top is the queue head and whose links are the saved pointers; only the top leaves |
| `WaitStack.LastInFirstOut` | `kernel/sched.c:185-212` | over every run, whatever is woken by signals, tasks leave in the reverse of the order they came |
| `WaitStack.Roused` | `kernel/sched.c:203-220` | wake_up, and any sleeper that runs, leaves the top able to run |
| `WaitStack.DrainsInTime` | `kernel/sched.c:185-220` | with no new sleepers the number of resumptions is bounded by sleepers, awake sleepers and signals |
| `WaitStack.StuckMeansEmpty` | `kernel/sched.c:185-220` | after one wake_up no sleeper can run if and only if the queue is empty |
| `WaitStack.Wait.SleepOn` | `kernel/sched.c:185-200` | pushes the task |
| `WaitStack.Wait.AfterSchedule` | `kernel/sched.c:202-211` | wakes the head and sleeps again, or pops the task and wakes the one below |
| `WaitStack.Wait.WakeUp` | `kernel/sched.c:214-220` | the head can run; the queue head stays |
| `SleepOn.InvAlways` | `kernel/sched.c:168-182` | although the queue head may be stale, every sleeper is always the head or still to be woken by the next one in |
| `SleepOn.WakeUpWakes` | `kernel/sched.c:214-220` | after wake_up the last one in, if any, can run |
| `SleepOn.Drains` | `kernel/sched.c:168-182` | after one wake_up, with no new sleepers, every resumption lets one out and until all are out one can run |
| `SleepOn.WakesAStranger` | `kernel/sched.c:168-182` | what does not hold: a run in which sleep_on wakes a task that has left the queue and sleeps elsewhere |
| `SleepOn.ResumeDisturbsIff` | `kernel/sched.c:180-181` | sleep_on changes the state of a task outside the queue if and only if the pointer it saved is a task outside that is not running |
| `SleepOn.WakeUpDisturbsIff` | `kernel/sched.c:214-220` | wake_up does so if and only if *p is such a task |
| `SleepOn.StaleIff` | `kernel/sched.c:168-220` | over every run from an empty queue, *p points at a task outside if and only if the last task that entered has left |
| `SleepOn.StrangersIff` | `kernel/sched.c:168-220` | over every run, both conditions read off the run: who entered before whom, and who has left |
| `SleepOn.CheckBeforeSleep` | `kernel/sched.c:168-182` | while callers check that *p is null or a task asleep on this queue, and nobody else wakes the sleepers, a call can end in waking a stranger if and only if its own check fails and *p is not the caller itself |
| `SleepOn.CheckedNeverDisturbs` | `kernel/sched.c:168-182` | where every caller checks, no run from an empty queue has a task that leaves sleep_on wake a stranger |
| `SleepOn.Wait.AfterSchedule` | `kernel/sched.c:179-181` | the task saved at entry is made runnable, inside or not |
| `Scheduler.NextIsUnique` | `kernel/sched.c:136-149` | one task at most is the highest counter, highest number choice |
| `Scheduler.TwoPassesAreEnough` | `kernel/sched.c:136-155` | with positive priorities the second pass of schedule finds somebody |
| `Scheduler.EndsIff` | `kernel/sched.c:136-155` | the loop ends, and then with the second pass, exactly when a runnable task has a priority above 0 |
| `Scheduler.TickSpends` | `kernel/sched.c:360-366` | a user tick takes one from the current counter; counters are refilled exactly with the last tick anybody had |
| `Scheduler.FairShares` | `kernel/sched.c:135-158` | between refills every runnable task gets exactly the ticks its counter held, whatever the order |
| `SchedulerLaws.ChecksTask` | `kernel/sched.c:119-131` | an alarm that is over becomes signal 14 and is off; an interruptible task wakes if and only if it has a signal that is not blocked, or kill or stop |
| `SchedulerLaws.AlarmsOnce` | `kernel/sched.c:124-127` | an alarm goes off once, whenever schedule looks again |
| `SchedulerLaws.SleepsOn` | `kernel/sched.c:168-182` | no signal wakes a task out of sleep_on |
| `SchedulerLaws.SleepsLightly` | `kernel/sched.c:185-212` | out of interruptible_sleep_on it does, exactly when it is delivered |
| `SchedulerLaws.SleeperSettles` | `kernel/sched.c:151-154` | the counter of a task that sleeps through refills settles at twice its priority less one |
| `SchedulerLaws.SleeperBounded` | `kernel/sched.c:151-154` | and is always below twice the priority and, after the first refill, at least the priority |
| `SchedulerLaws.KernelTick` | `kernel/sched.c:360-366` | a tick in the kernel takes one from the current counter, not below 0, and nothing else happens |
| `SchedulerLaws.TickKeepsCounters` | `kernel/sched.c:360-366` | no tick leaves a counter below 0 |
| `Scheduler.Kernel.CheckSignals` | `kernel/sched.c:122-131` | expired alarms become signals, and interruptible tasks with a deliverable signal can run |
| `Scheduler.Kernel.Pass` | `kernel/sched.c:136-149` | picks the runnable task of highest counter and, among those, number; task 0 when there is none |
| `Scheduler.Kernel.Recharge` | `kernel/sched.c:151-154` | every counter but task 0's becomes half plus priority |
| `Scheduler.Kernel.Schedule` | `kernel/sched.c:115-159` | ends after at most two passes in the state and with the task that Scheduled describes |
| `Scheduler.Kernel.Tick` | `kernel/sched.c:360-366` | the end of do_timer: counts down, and reschedules in user mode when the counter is used up |
| `Terminal.UpRows` | `kernel/chr_drv/console.c:108-169` | a scroll up moves every row of the region up by one and blanks the last; rows outside stay |
| `Terminal.DownRows` | `kernel/chr_drv/console.c:171-203` | a scroll down moves every row of the region down by one and blanks the first |
| `Terminal.TimesIsAtOnce` | `kernel/chr_drv/console.c:392-430` | repeating an insertion or deletion n times comes to one of n characters or lines |
| `Terminal.DeleteInserted` | `kernel/chr_drv/console.c:337-377` | deleting what was inserted gives back all but the cells pushed out |
| `Terminal.FeedDecimal` | `kernel/chr_drv/console.c:520-526` | the decimal digits of a number make the parameter that number |
| `Terminal.CursorAddress` | `kernel/chr_drv/console.c:512-565` | ESC [ row ; col H puts the cursor there when it is on the screen and does nothing otherwise |
| `Terminal.PrintText` | `kernel/chr_drv/console.c:456-468` | text that fits on the line appears there with the current attribute, and nothing else changes |
| `Terminal.SaveRestore` | `kernel/chr_drv/console.c:435-444` | ESC [ s, text that fits on the line, ESC [ u: the cursor is back and the text stays |
| `TerminalBytes.FeedCsi` | `kernel/chr_drv/console.c:512-527` | a sequence with up to 16 numbers is carried out at its last byte, with these numbers as parameters and 0 for the rest |
| `TerminalBytes.NoNumber` | `kernel/chr_drv/console.c:512-527` | without a number a sequence is as with 0 |
| `TerminalBytes.MovesUp` | `kernel/chr_drv/console.c:534-557` | ESC [ n A, and F with a return to the first column: max(1, n) rows up when there are so many, otherwise nothing, distances wrapping at 32 bits; no cell changes |
| `TerminalBytes.MovesDown` | `kernel/chr_drv/console.c:538-553` | ESC [ n B, e and E: the same downwards |
| `TerminalBytes.MovesAside` | `kernel/chr_drv/console.c:542-549` | ESC [ n C and a to the right, ESC [ n D to the left, up to the place right of the last column |
| `TerminalBytes.LedPlainly` | `kernel/chr_drv/console.c:89-96` | a distance up to 2^32 - 65536 never wraps: it leads as far as it says if there is room, and nowhere else |
| `TerminalBytes.MovesTo` | `kernel/chr_drv/console.c:530-561` | ESC [ n G and ` go to column n, ESC [ n d to row n, counted from 1, if there is one |
| `TerminalBytes.MovesToPlace` | `kernel/chr_drv/console.c:562-566` | ESC [ row ; column f is as H |
| `TerminalBytes.ErasesDisplay` | `kernel/chr_drv/console.c:240-267` | ESC [ n J blanks, by row and column, what is from the cursor on, or before it, or all, and nothing else |
| `TerminalBytes.ErasesLine` | `kernel/chr_drv/console.c:269-298` | ESC [ n K does so on the row of the cursor |
| `TerminalBytes.InsertsLines` | `kernel/chr_drv/console.c:402-410` | ESC [ n L: blank rows at the cursor, the rows below move down, those above stay |
| `TerminalBytes.DeletesLines` | `kernel/chr_drv/console.c:422-430` | ESC [ n M: the rows below move up, blank ones come in at the bottom |
| `TerminalBytes.InsertsChars` | `kernel/chr_drv/console.c:392-400` | ESC [ n @: blanks at the cursor, the rest of its row moves right |
| `TerminalBytes.DeletesChars` | `kernel/chr_drv/console.c:412-420` | ESC [ n P: the rest of the row moves left, blanks come in at its end |
| `TerminalBytes.SetsAttribute` | `kernel/chr_drv/console.c:300-312` | which attribute each number of ESC [ n m sets |
| `TerminalBytes.AttributesInTurn` | `kernel/chr_drv/console.c:300-312` | several numbers in one sequence are as several sequences |
| `TerminalBytes.SetsMargins` | `kernel/chr_drv/console.c:586-594` | ESC [ first ; last r sets the region to these rows if that is a region of the screen, and does nothing otherwise |
| `TerminalBytes.LineFeeds` | `kernel/chr_drv/console.c:205-213` | bytes 10 to 12 and ESC D: the row below, or every row of the region up by one and a blank one at its end |
| `TerminalBytes.ReverseLineFeed` | `kernel/chr_drv/console.c:215-223` | ESC M: the row above, or every row of the region down by one |
| `TerminalBytes.NextLine` | `kernel/chr_drv/console.c:499-500` | ESC E: the start of the row below, on any row but the last |
| `TerminalBytes.ControlBytes` | `kernel/chr_drv/console.c:469-493` | carriage return, backspace, and the bytes that do nothing |
| `TerminalBytes.ErasesBack` | `kernel/chr_drv/console.c:231-238` | the erase character blanks the cell before the cursor and goes back to it |
| `TerminalBytes.TabStops` | `kernel/chr_drv/console.c:481-491` | a tab goes to the next column divisible by 8, or as far into the next row as that is past the end |
| `TerminalBytes.WrapsAround` | `kernel/chr_drv/console.c:457-463` | a character past the last column is as a carriage return, a line feed and the character |
| `Terminal.EscapeByColumn` | `kernel/chr_drv/console.c:495-511` | what ESC and a byte without another meaning do depends on the column alone: 55 saves the cursor, 56 restores it |
| `Terminal.EscapeSevenIff` | `kernel/chr_drv/console.c:507-508` | ESC 7 saves the cursor if and only if it is in column 55 or was saved there already |
| `Terminal.EscapeEightIff` | `kernel/chr_drv/console.c:509-510` | ESC 8 restores it if and only if it is in column 56 or is where it was saved |
| `Terminal.EscapeSevenLost` | `kernel/chr_drv/console.c:507-510` | from every other column ESC 7, a carriage return and ESC 8 lose the position |
| `Terminal.PairwiseUpIff` | `kernel/chr_drv/console.c:142-152` | copying by double words scrolls right for all contents if and only if the number of cells to copy is even |
| `ConsoleDriver.Console.GotoXY` | `kernel/chr_drv/console.c:89-96` | cursor and address move together, or not at all |
| `ConsoleDriver.Console.ScrUp` | `kernel/chr_drv/console.c:108-169` | the visible window scrolls as Up says, whether the card moves its origin, wraps back to the start of memory or copies rows; memory outside the window is untouched |
| `ConsoleDriver.Console.ScrDown` | `kernel/chr_drv/console.c:171-203` | the visible window scrolls as Down says; memory outside is untouched |
| `ConsoleDriver.Console.Lf` | `kernel/chr_drv/console.c:205-213` | line feed |
| `ConsoleDriver.Console.Ri` | `kernel/chr_drv/console.c:215-223` | reverse line feed |
| `ConsoleDriver.Console.Cr` | `kernel/chr_drv/console.c:225-229` | carriage return |
| `ConsoleDriver.Console.Del` | `kernel/chr_drv/console.c:231-238` | erases the character before the cursor |
| `ConsoleDriver.Console.CsiJ` | `kernel/chr_drv/console.c:240-267` | erases to the end, from the start, or all of the display |
| `ConsoleDriver.Console.CsiK` | `kernel/chr_drv/console.c:269-298` | erases to the end, from the start, or all of the line |
| `ConsoleDriver.Console.CsiAttributes` | `kernel/chr_drv/console.c:300-312` | the attribute after all parameters up to npar |
| `ConsoleDriver.Console.InsertChar` | `kernel/chr_drv/console.c:337-349` | the rest of the line moves right by one |
| `ConsoleDriver.Console.DeleteChar` | `kernel/chr_drv/console.c:364-377` | the rest of the line moves left by one |
| `ConsoleDriver.Console.InsertLine` | `kernel/chr_drv/console.c:351-362` | the rows from the cursor on move down by one |
| `ConsoleDriver.Console.DeleteLine` | `kernel/chr_drv/console.c:379-390` | the rows below the cursor move up by one, also where that moves the origin |
| `ConsoleDriver.Console.CsiAt` | `kernel/chr_drv/console.c:392-400` | n characters at once |
| `ConsoleDriver.Console.CsiL` | `kernel/chr_drv/console.c:402-410` | n lines at once |
| `ConsoleDriver.Console.CsiP` | `kernel/chr_drv/console.c:412-420` | n characters at once |
| `ConsoleDriver.Console.CsiM` | `kernel/chr_drv/console.c:422-430` | n lines at once |
| `ConsoleDriver.Console.ConWrite` | `kernel/chr_drv/console.c:446-607` | for any bytes, the screen is what Feed says, independent of the card; cursor address, window and margins stay consistent; only memory changes that lay in the window at some time during the call; a moving window takes exactly as many steps as the bytes scroll the whole screen, and without one only what is on the screen changes |
| `ConsoleDriver.SameOnAnyCard` | `kernel/chr_drv/console.c:108-169` | a card that scrolls by moving its origin and one that copies rows show the same screen after any bytes |
| `ConsoleDriver.Console.constructor` | `kernel/chr_drv/console.c:658-695` | con_init: the window at the start of memory, full margins, the cursor where it was |
| `Buckets.TakeKeeps` | `lib/malloc.c:168-170` | taking a free slot keeps the allocator's invariant, and the slot overlapped no block in use |
| `Buckets.GiveKeeps` | `lib/malloc.c:205-207` | giving a block back keeps it |
| `Buckets.NewBucketKeeps` | `lib/malloc.c:152-166` | a new page becomes a bucket whose free list is all its slots |
| `Buckets.ReleaseKeeps` | `lib/malloc.c:218-227` | taking an empty bucket off its chain keeps it, and no block in use is touched |
| `Buckets.AddDescsKeeps` | `lib/malloc.c:97-115` | so does adding 256 descriptors |
| `Buckets.InitialInv` | `lib/malloc.c:87-92` | before the first call the invariant holds and nothing is in use |
| `Buckets.LiveDisjoint` | `lib/malloc.c:117-173` | blocks in use do not overlap |
| `Buckets.StoreKeeps` | `lib/malloc.c:117-173` | whatever users store into their own blocks leaves every free list intact |
| `Malloc.BlockIsPrivate` | `lib/malloc.c:117-231` | over any run, a block that stays allocated keeps every word its owner does not store to |
| `Malloc.ClassWastes` | `lib/malloc.c:125-130` | the class is the power of two that holds the request and wastes less than half, or the smallest |
| `Malloc.Allocator.ClassFor` | `lib/malloc.c:127-129` | the smallest class that fits |
| `Malloc.Allocator.Malloc` | `lib/malloc.c:117-173` | one new block of the smallest class that fits, in a new page only when no bucket of the class has a free slot, none of the blocks in use before, whose contents all stay: a step of the runs of BlockIsPrivate; panics exactly when no class fits, or no bucket has a free slot and no page or no descriptor can be had |
| `Malloc.Allocator.StoreWord` | `lib/malloc.c:117-173` | and so is a store of an owner into its block |
| `Malloc.Allocator.FreeS` | `lib/malloc.c:182-231` | exactly that block is gone, all others keep their contents, which is such a step too, and the page is handed back exactly when it was the last of its page; panics exactly when no bucket of the page is large enough |
| `ExecArgs.StringInBlock` | `fs/exec.c:82-93` | the address of a string in an intact block reads back as that string |
| `ExecArgs.TableFound` | `fs/exec.c:82-93` | a table of addresses into an intact block is a table of its strings |
| `ExecArgs.JoinSplit` | `fs/exec.c:398-399` | arguments copied below the environment form one block |
| `Exec.ArgBlock.CopyString` | `fs/exec.c:158-173` | a string and its zero lie below p, across page boundaries, with pages got as needed and all other bytes as before |
| `Exec.ArgBlock.CopyStrings` | `fs/exec.c:130-178` | all strings lie end to end below p, in order, and nothing else has changed; 0 exactly when p is 0, nothing is left below, or more pages are missing than can be got |
| `Exec.UserMemory.CreateTables` | `fs/exec.c:50-96` | an aligned stack pointer from which argc, argv and envp lead to the strings, with null pointers at the ends; the tables lie below the strings and nothing outside them changes |
| `Exec.UserMemory.MapPages` | `fs/exec.c:206-213` | the pages appear at the top of the address space |
| `Exec.Execve` | `fs/exec.c:398-437` | for all lists that fit, the program finds exactly the argument and environment strings it was given; it fails exactly when they fill all the space or pages are lacking |
| `LineEditor.CookKeepsCount` | `kernel/chr_drv/tty_io.c:157-250` | secondary.data always is the number of newlines and end-of-file characters queued |
| `LineEditor.CommittedForGood` | `kernel/chr_drv/tty_io.c:178-210` | no input ever removes or changes a line end or anything before one |
| `LineEditor.KillStops` | `kernel/chr_drv/tty_io.c:179-193` | what kill leaves is the one front part of the line that ends with a line end, or is empty, and has no line end after it |
| `LineEditor.ReadAheadIff` | `kernel/chr_drv/tty_io.c:178-210` | that d has been taken off the front of the queue makes no difference to any later editing if and only if d ends a line, or a line end still waits, or no character takes anything back |
| `LineEditor.ReadHarmlessIff` | `kernel/chr_drv/tty_io.c:287-299` | a read of up to nr characters takes nothing that later editing would have touched if and only if all that waits is committed, or nr is no more than what is, or an end-of-file character stops it, or no character takes anything back |
| `LineEditor.ReadsEditedInput` | `kernel/chr_drv/tty_io.c:157-250` | when characters are taken only while a line end waits, what was read and what waits are together the edited input, for any mix of reading and typing |
| `LineEditor.TakeSomeSplits` | `kernel/chr_drv/tty_io.c:287-299` | the dequeue loop loses and reorders nothing and never hands out an end-of-file character in canonical mode |
| `LineEditor.ReadsPastTheLine` | `kernel/chr_drv/tty_io.c:287-299` | what does not hold: the loop goes past the line end and hands out characters that an erase was still to remove |
| `LineKeys.EntersLine` | `kernel/chr_drv/tty_io.c:168-175` | under ICRNL, text and the Enter key queue the text and a newline, one line more for the reader, and change nothing else |
| `LineKeys.CarriageReturn` | `kernel/chr_drv/tty_io.c:168-173` | without ICRNL a carriage return is dropped under IGNCR and queued as it is otherwise |
| `LineKeys.Newline` | `kernel/chr_drv/tty_io.c:174-175` | a newline is queued and ends the line, or under INLCR is queued as a carriage return and ends nothing |
| `LineKeys.EndsFile` | `kernel/chr_drv/tty_io.c:230-231` | the end-of-file character is queued and makes a line of what came before it |
| `LineKeys.FlowControl` | `kernel/chr_drv/tty_io.c:211-218` | stop and start set and clear `stopped`, and are not queued |
| `LineKeys.SignalKeys` | `kernel/chr_drv/tty_io.c:220-229` | interrupt and quit send each their own signal, and are not queued |
| `LineKeys.RawKeys` | `kernel/chr_drv/tty_io.c:181-231` | outside canonical mode and signals they are queued like any other |
| `LineKeys.ErasesOne` | `kernel/chr_drv/tty_io.c:197-210` | erase takes back one character after the last line end, and nothing else |
| `LineKeys.ErasesTyped` | `kernel/chr_drv/tty_io.c:197-210` | text and as many erases as it has characters leave no trace |
| `Tty.TtyStruct.CopyToCooked` | `kernel/chr_drv/tty_io.c:157-250` | the queue, its count, stopped and signals are the fold of the input read; input is left only when the queue is full |
| `Tty.TtyStruct.CookOne` | `kernel/chr_drv/tty_io.c:165-247` | one character, as the fold says |
| `Tty.TtyStruct.Dequeue` | `kernel/chr_drv/tty_io.c:287-299` | takes what TakeSome says and keeps the count |
| `Tty.Queue.PutChar` | `include/linux/tty.h:24-35` | appends, and overwrites nothing that waits; a full queue is emptied by it |
| `Tty.Queue.Get` | `include/linux/tty.h:24-35` | takes the oldest character |
| `Tty.CookAllKeepsCount` | `kernel/chr_drv/tty_io.c:157-250` | the count is right after any input |
| `Ring.Put` | `include/linux/tty.h:24-35` | items put into the free part of a ring come after all that waits |
| `Ring.Take` | `include/linux/tty.h:24-35` | items taken from a ring are the oldest |
| `Pipes.FirstInFirstOut` | `fs/pipe.c:13-69` | under any interleaving of reader and writer pieces the bytes delivered are a prefix of those accepted, the rest is exactly what the ring holds, at most 4095 bytes |
| `Pipes.PieceMoves` | `fs/pipe.c:17-65` | a piece is empty only when nothing is asked for, or the ring is full or empty |
| `Pipes.StepKeeps` | `fs/pipe.c:13-69` | one piece by either side keeps that |
| `Pipes.Pipe.ReadPiece` | `fs/pipe.c:17-35` | the oldest bytes, as many as lie in one piece; none exactly when the ring is empty |
| `Pipes.Pipe.WritePiece` | `fs/pipe.c:45-65` | accepts what fits in one piece; nothing exactly when the ring is full |
| `Pipes.Pipe.ReadPipe` | `fs/pipe.c:13-39` | as long as it need not wait, all that was asked for or all there is |
| `Pipes.Pipe.WritePipe` | `fs/pipe.c:41-69` | as long as it need not wait, all that was given or all that fits |

## Left out

- Boot code, interrupt stubs, segment descriptors, task switching, the FPU and TLB flushes; `invalidate()` changes nothing here.
- Port I/O, the disk and floppy controllers, keyboard and serial interrupts: a transfer is one atomic step of the cache machine.
- I/O errors: `end_request(0)` drops b_uptodate, so the contents of the cache are claimed for transfers that succeed.
- invalidate_buffers (fs/buffer.c:87-100) after a change of disk: it drops b_uptodate and b_dirt, so contents not yet written are lost.
- Full-block writes through fs/block_dev.c: they dirty a buffer without setting b_uptodate.
- Contents of the kernel's low memory, and stores of tasks or kernel into it: entries that map it are only named (`Low`), and the first fork shares it on purpose.
- The task search of share_page, and reading the executable's blocks in do_no_page: the page read is a parameter.
- That a page shared by try_to_share matches the executable's image; only that it equals the other task's page.
- Killing a task for lack of memory: the methods return false there.
- CacheLists.BufferQueues.InsertIntoQueues: models fs/buffer.c:166 with a guard for a null b_next, as the line would otherwise write through a null pointer.
- CacheLists.BufferQueues.RemoveFromQueues: needs two buffers or more, as the source assumes when it takes a buffer off the ring.
- CacheProofs.StepKeeps: sync_dev is any sequence of transfers chosen by the environment, and every `goto repeat` is a place where others may run; both allow more than the source does. Progress of getblk is not claimed.
- FileSystem.Device.Truncate: nobody else uses the buffers of the blocks it frees; free_block would leave those bits set.
- Sleeps inside _bmap: zone operations on whole trees run one at a time; what tasks do to one hole at the same time is the machine of `HoleRace`. Truncation is one step there.
- A copy that faults inside file_write: it sets b_dirt before the copy (fs/file_dev.c:71-81), which can sleep on a page fault; `Modify` of the cache machine changes contents and sets b_dirt in one step.
- The eight bitmap blocks are one sequence of bits; a device with missing bitmap blocks is not modelled.
- Times, i_dirt and the inode bitmap; directories and fs/namei.c.
- FileSystem.Device.FileWrite: offsets past the largest the tree can map are excluded, since _bmap panics there.
- The byte b_count does not wrap round here.
- Requests.BlockDevice.MakeRequest: read-ahead and the wait for a free slot are the caller's; requests of one device share the table with no other device.
- The timer list of kernel/sched.c, the floppy timer, and tasks that end while they wait.
- Scheduler.Kernel.Schedule: signal bitmaps are sets of signal numbers.
- Scheduler.FairShares: for ticks in user mode with no alarm or deliverable signal pending, so that the set of runnable tasks is fixed.
- ConsoleDriver.Console.ConWrite: columns are even and at least 8, as on every card con_init knows; the answer to ESC Z, the bell and the hardware cursor are left out; con_init's four letters of the card's name are not written.
- DiskQueue.BufferServed: counts transfers of the disk, not time; block numbers are below 2^31, where shifting them to sectors does not wrap; the wait for a free request slot is not bounded.
- Malloc.Allocator.Malloc: descriptors are numbered instead of lying in pages of their own, so a page got for them is only counted as got or not; interrupts between its steps, and the search for `prev` they call for in free_s, are left out.
- Exec.ArgBlock.CopyStrings: the strings must fit, because the test at fs/exec.c:154 compares an unsigned difference with 0 and never fails; the two address spaces of from_kmem are one.
- Exec.Execve: interpreters (`#!`) and everything about the executable but its argument block.
- Echo into write_q, IUCLC, VMIN and VTIME, and the sleeps of tty_read.
- Pipes.Pipe.ReadPipe: the sleeps are the boundary between pieces; page faults inside a copy are not modelled.
- Liveness of the disk itself, fairness between tasks, and everything about permissions and ids.
