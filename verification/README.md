# Onixs, modelled and proved in Dafny

Onixs is a small 32-bit x86 kernel with a Minix-style file system. This project
models the parts of it whose correctness does not show in any one function, and
proves what holds over all inputs and all runs. `dafny verify dfyconfig.toml`
checks everything.

Every core is written twice: as a specification on values, about which the
properties are proved, and as code in the form of the C source, a class whose
methods change its fields with the loops of the original and whose contracts tie
each call to the specification.

| files | what they model |
|---|---|
| `EagerCopy`, `EagerLaws`, `Paging`, `CowRefinement`, `Memory` | address spaces: fork with copy-on-write, page faults, brk, mmap, munmap, exit (`src/kernel/memory.c`) |
| `Volume`, `Growth`, `FileContent`, `Truncation`, `FileSystem` | zone allocation, the block tree, read, write, truncate (`src/fs/bitmap.c`, `src/fs/inode.c`) |
| `BufferCache` | the block cache with its hash chains and free list (`src/kernel/buffer.c`) |
| `Elevator` | the disk request queue (`src/kernel/device.c`) |
| `Tasks`, `TaskRuns`, `TaskLaws`, `ExitProtocol`, `Scheduler` | the task table: fork, exit, waitpid, sleep, the clock and the choice of the next task (`src/kernel/task.c`, `src/kernel/clock.c`) |
| `Lock` | the mutex and the reentrant lock as steps of many tasks (`src/kernel/mutex.c`) |
| `Heap`, `Arena` | kmalloc and kfree over the kernel page map (`src/kernel/arena.c`) |
| `Sequences`, `List` | the intrusive doubly linked list on the heap (`src/lib/list.c`) |
| `Bits`, `Bitmap` | bitmaps down to bytes and shifts (`src/lib/bitmap.c`) |
| `Path`, `Directory` | path resolution in place and directory slots (`src/fs/namei.c`, `src/lib/string.c`) |
| `Files` | open files and descriptors (`src/fs/file.c`, `src/fs/pipe.c`) |

## The main results

- **Copy-on-write is eager copying.** `EagerCopy` is a machine without page
  tables in which fork copies all private pages at once and a shared page is one
  object. `Memory.Memory.Run` shows that every run of fork, load, store, fault,
  brk, mmap, munmap and exit on the page-table machine answers and leaves memory
  as that machine does. It rests on exact frame counts, on one virtual address per frame
  (so the 8-bit counts cannot overflow, `Paging.CountsBounded`) and on one
  condition, that a frame one process can write is shared by all who map it. That
  condition is exact: with it, and only with it, every store is the eager
  machine's (`CowRefinement.StoresExact`). What the eager machine is worth is said
  between its answers alone (`EagerLaws`): over every run a load answers the last byte
  stored (`EagerLaws.ReadsLastStored`), a child reads what its parent had stored before the
  fork (`EagerLaws.ChildReadsStored`), and pages are shared by fork and by nothing else.
- **Files are byte sequences.** Over the direct, single and double indirect tree
  `InodeWrite` splices and `InodeRead` slices, and what was written is read back
  (`FileSystem.FileSystem.WriteThenRead`); no other file changes; the set
  bits of the zone maps are exactly the zones of the trees, and `InodeTruncate`
  gives back each of an inode's zones once. `FileSystem.FileSystem.Run` says so of every
  run of writes and truncations, with whatever bytes the freed zones still hold,
  as long as no zone taken for an index block holds any. Which zones those are is
  known before a write (`Growth.Plan`), exactly (`Growth.ReadyStep`).
- **The cache is transparent.** Every `BRead` gives the data any client wrote
  last, through hits, misses, evictions and write-backs.
- **Disk requests drain in SCAN order**, served one after another by the code
  itself (`Elevator.Device.ServeAll`), with a bound on the arm's travel.
- **The task table over every run.** The process tree stays acyclic although
  slots are reused, each task is reaped once at most, a waiting parent always has
  something to wait for and nothing to fetch, states and lists agree, one task runs,
  and a sleeper is up after exactly the ticks it asked for (`TaskLaws.SleepTime`). Whoever
  reaps a task, its parent or the one it was left to, gets the code the task gave to exit
  (`TaskLaws.ReapedWithCode`). What each operation does to every task is said field by
  field in `TaskLaws`, apart from the functions that define it.
  Exits are taken apart at the places where they can wait for the disk, and an exit
  reaches its parent exactly when none of its releases waits (`ExitProtocol.ProtocolHolds`).
- **The lock excludes and forgets nobody** in any interleaving of its steps, even
  though a task may take the mutex ahead of one that was woken, and is held exactly by
  the task with more acquires than releases (`Lock.HeldCount`).
- **kmalloc never hands out overlapping blocks**, its counts are exact and its
  pages are exactly those of live arenas.
- **Path resolution in place** computes the fold over the names of the path, in which
  a name followed by ".." leads back (`Path.DownUp`); directories are maps; open-file
  counts are exact.

## Where the code does not do what it seems to promise

Each of these is a proved statement about the code as it is, with its exact condition.

- An mmap over a page that is already present rewrites the flags under whoever
  else uses the frame. Copy-on-write stays sound exactly in the cases listed by
  `CowRefinement.MmapOverPresent`; in all others a store of one process is read by
  another (`CowRefinement.UnsafeStoreLeaks`), and three calls lead there (`Memory.MmapForkMmap`).
  That the page was shared before is enough only while all mappings of its frame agree on it.
- `page_fault` is meant to reject addresses outside user memory, but the chained
  comparison in its assertion is always true. A null access is answered by a frame in
  the page table all directories share, and the counts are exact afterwards if and
  only if the fault was not on page 0 (`Memory.Memory.PageFault`, `CowRefinement.NullFaultMiscounts`).
- `task_exit` marks the task dead, and then releases inodes and files. A release that
  writes an inode back waits for the disk, which puts BLOCKED over the mark. The parent is
  then woken for a task that is not dead, finds nothing and sleeps again. A step loses
  an exit this way if and only if it ends one that waited (`ExitProtocol.StepProtocol`);
  `ExitProtocol.ExitWakeupLost` is such a run.
- A task woken from sleep has no ticks left, and the clock preempts a task exactly when
  it has one (`TaskRuns.TickPreempts`), so it is never preempted (`TaskRuns.NeverPreempted`).
- `sys_munmap` asserts `PAGE(vaddr)`, which shifts the address left by 12 bits,
  so it fails on every multiple of 1 MB and nowhere else (`EagerCopy.ShiftedTwice`). The first
  address mmap chooses is one, so the first mapping cannot be given up (`EagerCopy.FirstMmapStays`).
- A new index block is never cleared (`Volume.IndexBlockSound`). `bmap` leaves the trees
  well formed if and only if the zones it takes for index blocks read as zeros
  (`FileSystem.FileSystem.Bmap`), which writing keeps and truncating does not (`Truncation.TruncateKeeps`).
- `bfree` picks the zone map without the offset `balloc` uses. It finds the bit
  exactly under the condition of `Truncation.FreeableExactly`, which always holds on volumes with one zone map.
- The page count of a large kmalloc wraps round near 4 GB; the block is large
  enough exactly when it does not (`Heap.LargeFits`).
- A file name of 14 characters or more is cut to 13 when it is added and is then
  not found under its own name (`Directory.AddedIsFound`).
  Two such names with one beginning leave two entries of one name (`Directory.AddedKeeps`).
- The range tests on descriptors are signed and `dupfd`'s is one too far: a negative
  descriptor passes them all and 16 passes `dupfd`'s (`Files.TestsExactly`). `CloseFile`,
  `DupFd` and `Dup2` of `Files.FileTable` say exactly which calls read outside the table.
- `dup2` of a descriptor onto itself closes it and fails (`Files.FileTable.Dup2`).
- `bitmap_scan` for 0 bits returns the place behind the first set bit (`Bitmap.BitmapT.Search`).

## Model

| member | source | states |
|---|---|---|
| `Paging.RemapKeepsCore` | src/kernel/memory.c:335-375 | replacing one page entry, with the two counts adjusted, keeps every frame count equal to its users, table frames apart from data frames and one virtual address per frame; the free counter moves with the free frames |
| `Paging.NewTableKeepsCore` | src/kernel/memory.c:256-271 | a new table in a free frame for one directory slot keeps all of that |
| `Paging.ForkTableKeepsCore` | src/kernel/memory.c:403-428 | one round of fork over a table (protect, count once more, copy for the child) keeps all of that |
| `Paging.DropTableKeepsCore` | src/kernel/memory.c:431-467 | one round of exit over a table keeps all of that |
| `Paging.CountsBounded` | src/kernel/memory.c:418-424 | in every state with exact counts a frame is counted at most once for each live address space, so the 8-bit counter and the `< 255` assertion are safe with 64 tasks |
| `Paging.SoleUser` | src/kernel/memory.c:508-512 | a frame whose count is 1 is mapped by one entry only, which is why a write fault may give the write bit back |
| `Paging.UsableTable` | src/kernel/memory.c:408-424 | no two entries of one table name the same frame and all name frames in use: what the loops over a table rely on |
| `Paging.FreeBounded` | src/kernel/memory.c:219-231 | the free counter never exceeds the frames outside the kernel: the assertions of get_page and put_page hold |
| `CowRefinement.RemapAbs` | src/kernel/memory.c:335-375 | replacing one entry changes exactly that one page of that one process in the eager view |
| `CowRefinement.RemapCowSafe` | src/kernel/memory.c:393-429 | replacing an entry keeps copy-on-write sound if and only if the new entry is safe: where it or another entry of the frame is writable, both are shared, and its flags agree with each other |
| `CowRefinement.UnmappedWrite` | src/kernel/memory.c:377-390 | filling a frame nobody maps is invisible to every process |
| `CowRefinement.StoreAbs` | src/kernel/memory.c:393-429 | a store through a writable entry changes one byte of the storing process alone if the page is private, and of exactly the processes that share it if it is shared |
| `CowRefinement.ForkRound` | src/kernel/memory.c:403-428 | sharing a table and copying it for the child is one more table of the eager copy |
| `CowRefinement.ForkAbs` | src/kernel/memory.c:393-429 | a finished copy_pde is the eager machine's copy of the whole address space: the child sees what the parent sees and nobody's memory has changed |
| `CowRefinement.ExitAbs` | src/kernel/memory.c:431-467 | free_pde removes one process and the shared objects only it mapped; every other process sees what it saw |
| `CowRefinement.ReclaimInvisible` | src/kernel/memory.c:508-512 | giving the write bit back on a frame counted once is invisible and keeps copy-on-write sound |
| `CowRefinement.CopyInvisible` | src/kernel/memory.c:513-520 | moving a page to its own copy on a write fault is invisible, keeps the counts exact and leaves a writable private page |
| `CowRefinement.MmapPageAbs` | src/kernel/memory.c:578-603 | link_page, the bitmap and the flags together put exactly one new page into one process |
| `CowRefinement.MmapOverPresent` | src/kernel/memory.c:578-603 | an mmap over a page already present leaves copy-on-write sound if and only if it asks for no write, or no other process uses the frame, or the page is shared then and so is every other mapping of the frame; where the frame's mappings agree on sharing, if and only if no write is asked for, the frame counts 1 or the page was shared |
| `CowRefinement.UnsafeStoreLeaks` | src/kernel/memory.c:393-429 | when a writable frame is mapped by another process and not both share it, a store of the one is read by the other, and on the eager machine it is not |
| `CowRefinement.StoresExact` | src/kernel/memory.c:393-429 | the condition is exact: on every machine with exact counts all stores are the eager machine's if and only if a writable frame is shared by all who map it |
| `CowRefinement.NullFaultMiscounts` | src/kernel/memory.c:335-353 | the frame that link_page stores in the kernel table's entry of page 0 belongs to no address space: its count is one above its users, so the counts are not exact |
| `CowRefinement.BootCore` | src/kernel/memory.c:157-217 | after the memory map and the kernel mappings are set up, all invariants hold for one empty address space |
| `CowRefinement.Rebook` | src/kernel/memory.c:535-563 | moving the break or the bitmap of mappings changes no memory |
| `EagerCopy.MmapNext` | src/kernel/memory.c:578-603 | on the eager machine an mmap of n + 1 pages is an mmap of n pages and one more cell |
| `EagerCopy.PutTwice` | src/kernel/memory.c:578-603 | on the eager machine linking a page, setting its bit and rewriting its flags put one cell |
| `EagerCopy.UnmapNext` | src/kernel/memory.c:545-551 | on the eager machine giving up a range of pages is giving them up one after another |
| `EagerCopy.ShiftedTwice` | src/kernel/memory.c:613-620 | the address munmap asserts, shifted twice in 32 bits, is zero on every multiple of 1 MB and nowhere else |
| `EagerCopy.FirstMmapStays` | src/kernel/memory.c:571-620 | the first address mmap chooses is such a multiple: that mapping can never be given up by munmap |
| `EagerLaws.StoreLoad` | src/kernel/memory.c:483-532 | a load answers the byte stored just before at its offset, by whichever process and under whichever name of the page |
| `EagerLaws.LoadKept` | src/kernel/memory.c:393-630 | a load of a page that is there answers as it did before any operation that neither stores to the byte under a name of the page nor gives the page up: stores elsewhere, other processes' stores, forks, mmaps, loads |
| `EagerLaws.ForkLoad` | src/kernel/memory.c:393-429 | a child's first load of a page answers as its parent's before the fork |
| `EagerLaws.Sharing` | src/kernel/memory.c:393-630 | two pages are one memory exactly if they were before, or come from one shared page by a fork: no other operation joins pages or parts them |
| `EagerLaws.GivenUp` | src/kernel/memory.c:535-630 | a page given up by brk, or by munmap between the break and the stack, faults when it is loaded |
| `EagerLaws.Gone` | src/kernel/memory.c:431-467 | after exit a process performs no operation |
| `EagerLaws.BreakMoved` | src/kernel/memory.c:535-563 | below the break that brk set a load is answered, and a store to a page not yet there as well |
| `EagerLaws.MmapGives` | src/kernel/memory.c:566-611 | every page of a new mapping can be loaded, stored to exactly if the mapping is writable, was not there before, is shared as asked and is so far nobody else's memory; an address asked for is the address given |
| `EagerLaws.MmapApart` | src/kernel/memory.c:566-586 | the place the kernel chooses for a mapping keeps clear of a mapping made just before |
| `EagerLaws.StopsOnlyAt` | src/kernel/memory.c:393-630 | which operations a run stops in front of: those of no process, a fork to one that is there, accesses outside the user's pages, and an mmap behind the stack or over a page already there |
| `EagerLaws.ReadsLastStored` | src/kernel/memory.c:335-630 | over every run, until a byte is stored to again or its page is given up, every load of it answers what the last store or load said it is |
| `EagerLaws.ChildReadsStored` | src/kernel/memory.c:393-532 | over every run a child loads what its parent stored before the fork, whatever the parent stores to a private page afterwards |
| `Memory.Memory.Boot` | src/kernel/memory.c:157-217 | the machine starts with the kernel's frames taken, one empty address space and every invariant |
| `Memory.Memory.GetPage` | src/kernel/memory.c:219-231 | the lowest free frame gets count 1 and the free counter drops by one; nothing changes when there is none |
| `Memory.Memory.PutPage` | src/kernel/memory.c:285-296 | one use of a frame less, the free counter one more when it was the last; the code's assertions hold |
| `Memory.Memory.GetPte` | src/kernel/memory.c:256-271 | the table for a page, new and empty if there was none, with exact counts |
| `Memory.Memory.LinkPage` | src/kernel/memory.c:335-353 | a present page is left alone, an absent one gets the lowest free frame with the bytes found in it; no other page of any process changes |
| `Memory.Memory.UnlinkPage` | src/kernel/memory.c:355-375 | the page is gone from this process only and its frame has one use less |
| `Memory.Memory.CopyPage` | src/kernel/memory.c:377-390 | a free frame receives the bytes of another; the entry of page 0, through which it is filled, is left absent |
| `Memory.Memory.ShareTable` | src/kernel/memory.c:408-424 | the inner loop of copy_pde: write bits of private pages go, every frame named counts once more, no counter overflows |
| `Memory.Memory.FreeTable` | src/kernel/memory.c:441-456 | the inner loop of free_pde: every frame named loses one use |
| `Memory.Memory.CopyPde` | src/kernel/memory.c:393-429 | fork of an address space: the eager copy, with every invariant, parent and child on the same frames without their private write bits, or out of frames |
| `Memory.Memory.FreePde` | src/kernel/memory.c:431-467 | exit of an address space: the eager exit, with every invariant |
| `Memory.Memory.WriteFault` | src/kernel/memory.c:498-521 | a refused write to a present page: the write bit back, a private copy, a failed assertion or a panic, and no process sees a change |
| `Memory.Memory.LinkNull` | src/kernel/memory.c:335-353 | link_page(0): the lowest free frame goes into the entry of page 0 of the kernel table |
| `Memory.Memory.PageFault` | src/kernel/memory.c:483-532 | for every fault in a user page or page 0 the code's answer, with its effect on the eager view; after an answer the frame counts are exact if and only if the page is not page 0 |
| `Memory.Memory.Reach` | src/kernel/memory.c:483-532 | a user access needs at most one fault, and it fails exactly where the eager machine faults; the memory it leaves is the old one or the old one and one new page |
| `Memory.Memory.UserLoad` | src/kernel/memory.c:483-532 | a user-mode load answers the byte at its offset in the frame the MMU finds, and is answered as on the eager machine, whatever fault it takes |
| `Memory.Memory.UserStore` | src/kernel/memory.c:483-532 | after at most one fault the byte is in the frame the MMU finds, and exactly the processes that should see it do |
| `Memory.Memory.SysBrk` | src/kernel/memory.c:535-563 | shrinking the break gives the pages up, growing only moves the mark, too large a growth is refused: the eager machine's brk |
| `Memory.Memory.SysMunmap` | src/kernel/memory.c:613-630 | every page of the range must be a mapping and all are given up: the eager machine's munmap; it fails on every multiple of 1 MB |
| `Memory.Memory.PlaceMapping` | src/kernel/memory.c:571-576 | the address asked for or the first run of clear bits, which are set at once; none exactly when the assertion or the search fails |
| `Memory.Memory.SysMmap` | src/kernel/memory.c:565-611 | on pages not mapped yet the eager machine's mmap, at the address asked for or the first free run; counts stay exact on every range |
| `Memory.Memory.MmapOne` | src/kernel/memory.c:578-603 | one page of sys_mmap: a new page is one new cell of the eager machine; over a present page copy-on-write stays sound exactly as MmapOverPresent says |
| `Memory.MmapForkMmap` | src/kernel/memory.c:565-611 | from start-up, a mapping, a fork and the same mapping again reach a machine with exact counts on which a store of the parent is read by the child |
| `Memory.Memory.Execute` | src/kernel/memory.c:335-630 | any operation of any task is answered as the eager machine answers it, with all invariants kept |
| `Memory.Memory.Run` | src/kernel/memory.c:335-630 | over every run of fork, load, store, fault, brk, mmap, munmap and exit the answers and the memories are those of the machine that copies eagerly |
| `Memory.Memory.PlacedApplies` | src/kernel/memory.c:566-586 | in every reachable state an mmap that leaves the place to the kernel falls on no page already there unless it runs into the stack |
| `Volume.NodeForValid` | src/fs/bitmap.c:145-185 | the split of a block number over 7, 512 and 512 * 512 always names a place in the tree |
| `Volume.NodeForInjective` | src/fs/bitmap.c:145-185 | different blocks, or the same block of different inodes, have different places |
| `Volume.PlacesInOrder` | src/fs/bitmap.c:145-185 | NodeFor and the number of a place in the order of slots and index entries undo each other, on all blocks and on all places that hold data |
| `Volume.BlocksDistinct` | src/fs/bitmap.c:145-215 | on a well-formed volume distinct blocks have distinct zones, which are no index zone and no zone of another inode |
| `Volume.GrownKeepsTrees` | src/fs/bitmap.c:14-40 | storing a new zone at an empty place keeps the set bits exactly the reserved one and the zones of the trees, each reached once, and free zones clean |
| `Volume.IndexBlockSound` | src/fs/bitmap.c:14-40 | a new index zone leaves the trees well formed if and only if it reads as zeros, since balloc never clears it |
| `Volume.StaleWord` | src/fs/bitmap.c:188-212 | the other side of it: a number left in the new index zone is read as a zone of the file, and the trees are not well formed |
| `Growth.StaleBreaks` | src/fs/bitmap.c:188-212 | once a place holds a zone number that bmap did not store there, no later volume of the same call has well-formed trees: the number is another place's zone or nobody's |
| `Growth.GrowProgress` | src/fs/bitmap.c:192-199 | one round of bmap that fills a slot, on well-formed trees and on broken ones: they stay well formed if and only if the zone held zeros or is a data block, and are never repaired |
| `Growth.CleanWhen` | src/fs/bitmap.c:145-185 | what a caller can look at first: a direct block, a block whose index block is there, or free zones that are all zero make the call clean |
| `Growth.ReadyOne` | src/fs/bitmap.c:145-212 | for one block the condition a write has to meet is that of bmap |
| `Growth.ReadyWhen` | src/fs/inode.c:237-262 | a write below block 7, one whose index blocks are all there, and any on a volume whose free zones are all zero, is ready |
| `Growth.PathIs` | src/fs/bitmap.c:188-212 | bmap fills exactly the empty places on the way to its block, each once and from the top, the data block last |
| `Growth.PlanSame` | src/fs/inode.c:244-262 | which places a write fills, and in which order, depends on nothing but the places that are filled already |
| `Growth.ReadyStep` | src/fs/inode.c:244-262 | a write is ready if and only if the call of bmap for its first block is clean and, on the volume this call leaves, the rest of the write is ready: the positions at which zones become index blocks are exact |
| `Truncation.FreeableExactly` | src/fs/bitmap.c:57-73 | bfree picks the map that holds the zone's bit if and only if the quotients with and without the offset of the first data zone agree |
| `Truncation.OneMapFreeable` | src/fs/bitmap.c:57-73 | on a volume with one zone map and at most 8192 zones every zone can be given back |
| `FileContent.WriteSplices` | src/fs/inode.c:237-274 | the bytes written and the bytes kept make the old content with the data spliced in at the offset |
| `FileContent.OthersKept` | src/fs/inode.c:237-274 | writing one file changes no byte of another |
| `FileContent.SpliceReads` | src/fs/inode.c:204-274 | reading the range that was written gives the data back, and the rest is what it was |
| `FileContent.ChunkWritten` | src/fs/inode.c:244-262 | one round of the write loop changes exactly the bytes of its chunk, in this file only; a block new to the file holds what its zone held, zeros on a clean volume |
| `Truncation.HeldApart` | src/fs/inode.c:289-295 | the zones below two entries of an index block are disjoint, so nothing is freed twice |
| `Truncation.TruncateKeeps` | src/fs/inode.c:298-320 | after a truncation the trees are well formed and every other file is as before; free zones are still clean if and only if the zones given up were all zero |
| `Truncation.AllowedWhen` | src/fs/inode.c:237-320 | the operations a run never stops in front of: every truncation of a file, every write inside a file or at its end when free zones read as zeros or when it ends below the first index block |
| `FileSystem.FileSystem.constructor` | src/fs/bitmap.c:14-40 | a fresh volume with zeroed zones satisfies both invariants and all files are empty |
| `FileSystem.FileSystem.Balloc` | src/fs/bitmap.c:14-40 | the lowest clear bit of the zone maps is set, nothing else; none when every bit within the volume is set |
| `FileSystem.FileSystem.Bfree` | src/fs/bitmap.c:49-75 | clears exactly the zone's bit; succeeds if and only if the assertions hold: the zone is in use and its bit lies in the map the code picks |
| `FileSystem.FileSystem.Bmap` | src/fs/bitmap.c:145-215 | the zone of a logical block; without create nothing changes; with create the trees are well formed afterwards if and only if the zones balloc hands out next, as many as index blocks are missing, read as zeros, and then exactly the missing zones of the path are added, the lowest free ones, and every other place keeps its zone |
| `FileSystem.FileSystem.Fill` | src/fs/bitmap.c:192-204 | the step of bmap on one slot: an empty one gets the lowest free zone, one that holds a zone is only read |
| `FileSystem.FileSystem.InodeRead` | src/fs/inode.c:204-235 | as many bytes as asked for or up to the end of the file, and exactly the slice of the content from the offset; a failed assertion if and only if a block of the range read is missing |
| `FileSystem.FileSystem.InodeWrite` | src/fs/inode.c:237-274 | a write whose zones for index blocks read as zeros keeps the trees well formed, the content becomes the old one with the data spliced in, the size the larger of the two and every other file is unchanged; it fails only for want of a zone or past the largest file; zones for data blocks may hold anything |
| `FileSystem.FileSystem.WriteThenRead` | src/fs/inode.c:204-274 | over several calls: after a write a read of the range gives the data, in a file with holes as well, and whatever could be read before, of another file or of this one outside the range, is read as before |
| `FileSystem.FileSystem.WriteRound` | src/fs/inode.c:244-269 | one round of the write loop on any volume: up to the end of a block is written, and a ready write stays ready |
| `FileSystem.FileSystem.InodeBfree` | src/fs/inode.c:276-296 | frees exactly the zones below one place of the tree, each once |
| `FileSystem.FileSystem.InodeTruncate` | src/fs/inode.c:298-320 | frees exactly the zones reachable from the inode, each once; succeeds if and only if bfree can find each of them |
| `FileSystem.FileSystem.Run` | src/fs/inode.c:237-320 | over every run of writes and truncations, whatever the freed zones still hold, the files are what the same operations make of byte strings; it stops only before a write that takes a zone with bytes in it for an index block or leaves a hole, or at a failed assertion |
| `BufferCache.HitKeeps` | src/kernel/buffer.c:22-48 | a hit takes the buffer off the free list and keeps the cache transparent |
| `BufferCache.NewKeeps` | src/kernel/buffer.c:66-86 | a new buffer keeps one buffer for each block, in the chain its hash names |
| `BufferCache.EvictKeeps` | src/kernel/buffer.c:98-104 | dropping the buffer released longest ago and reusing it loses nothing |
| `BufferCache.WriteBack` | src/kernel/buffer.c:150-158 | writing a dirty buffer back makes the disk agree with what clients wrote |
| `BufferCache.FillKeeps` | src/kernel/buffer.c:130-148 | a client's change to a buffer it holds and marks dirty is what everyone reads from then on |
| `BufferCache.ReleaseKeeps` | src/kernel/buffer.c:160-178 | a buffer whose last holder leaves is clean and goes to the front of the free list |
| `BufferCache.AllReleased` | src/kernel/buffer.c:160-178 | when nobody holds a buffer the disk is exactly what clients wrote |
| `BufferCache.Cache.constructor` | src/kernel/buffer.c:180-188 | an empty cache over any disk is transparent |
| `BufferCache.Cache.GetFromHashTable` | src/kernel/buffer.c:22-48 | finds the one buffer of a block if there is one and takes it off the free list |
| `BufferCache.Cache.GetFreeBuffer` | src/kernel/buffer.c:88-108 | a new buffer while the pool lasts, else the one released longest ago, else the waiting path |
| `BufferCache.Cache.GetBlk` | src/kernel/buffer.c:110-128 | the block's own buffer with one more holder; the assertions on a recycled buffer hold |
| `BufferCache.Cache.BRead` | src/kernel/buffer.c:130-148 | the buffer holds the last data any client wrote for the block |
| `BufferCache.Cache.Fill` | src/fs/inode.c:249-256 | a client writes a buffer it holds and marks it dirty |
| `BufferCache.Cache.BWrite` | src/kernel/buffer.c:150-158 | afterwards the disk holds the buffer's data |
| `BufferCache.Cache.BRelse` | src/kernel/buffer.c:160-178 | one holder less; the last one leaves a clean buffer on the free list |
| `Sequences.InsertKeepsSorted` | src/lib/list.c:119-138 | sorted insertion keeps a list sorted, adds one key, loses none and puts a key behind its equals |
| `List.InsertedLinks` | src/lib/list.c:25-46 | after the four pointer writes prev and next are each other's inverse along the longer list |
| `List.RemovedLinks` | src/lib/list.c:90-100 | after the two pointer writes the neighbours are joined |
| `List.List.constructor` | src/lib/list.c:10-17 | two sentinels that point at each other |
| `List.List.InsertBefore` | src/lib/list.c:25-32 | the node is in front of the anchor; only the node and the anchor's links to it are written |
| `List.List.InsertAfter` | src/lib/list.c:40-46 | the node is behind the anchor; only the node and the anchor's links to it are written |
| `List.List.Remove` | src/lib/list.c:90-100 | the node is gone, both its links are cleared and only its neighbours are written |
| `List.List.Search` | src/lib/list.c:78-88 | whether the node is linked in this list |
| `List.List.Size` | src/lib/list.c:107-117 | the number of nodes between the sentinels |
| `List.List.Pop` | src/lib/list.c:54-61 | the first node is taken off; only it and its neighbours are written |
| `List.List.PopBack` | src/lib/list.c:69-76 | the last node is taken off; only it and its neighbours are written |
| `List.List.InsertSort` | src/lib/list.c:119-138 | the node goes before the first larger key, and only it and its neighbours are written: sorted lists stay sorted and equal keys stay in arrival order |
| `Elevator.NextReqNone` | src/kernel/device.c:132-161 | the search for the next request fails if and only if no other request is queued |
| `Elevator.TurnsAtEnds` | src/kernel/device.c:136-143 | the arm turns round only when nothing lies ahead of it, and the next request lies in its direction |
| `Elevator.DrainIsScan` | src/kernel/device.c:132-211 | without arrivals the queue drains in SCAN order: one way to the end, then back over the rest, every request once |
| `Elevator.UpwardTravel` | src/kernel/device.c:132-161 | going up first the arm travels exactly to the largest key and back to the smallest, so at most (max - cur) + (max - min) |
| `Elevator.SubmitKeeps` | src/kernel/device.c:186-197 | a new request keeps the queue sorted, one request granted and every other one's task asleep |
| `Elevator.CompleteKeeps` | src/kernel/device.c:200-210 | completing a request hands the grant to exactly one waiting request |
| `Elevator.Device.Submit` | src/kernel/device.c:165-199 | the request is queued by key; it is granted at once if and only if the queue was empty, else its task sleeps |
| `Elevator.Device.Complete` | src/kernel/device.c:199-210 | the served request leaves and the one request_nextreq names is woken and runs; none is if and only if the queue is empty, and the next one lies in the arm's direction |
| `Elevator.Device.ServeAll` | src/kernel/device.c:199-210 | completing until the queue is empty serves it in SCAN order |
| `Tasks.RootReached` | src/kernel/task.c:335-344 | following parents from any task ends at the idle task and never comes back, although slots are reused |
| `Tasks.SwitchKeeps` | src/kernel/task.c:87-104 | after schedule() exactly one task is running, and it is the one that was picked |
| `Tasks.BlockKeeps` | src/kernel/task.c:218-235 | blocking the running task keeps states and lists in agreement |
| `Tasks.UnblockKeeps` | src/kernel/task.c:237-247 | unblocking keeps states and lists in agreement |
| `Tasks.ForkKeeps` | src/kernel/task.c:354-393 | a fork into the lowest free slot keeps the tree, the waits, the lists and the one running task |
| `Tasks.LeaveKeeps` | src/kernel/task.c:335-351 | after the loop over the children and the wakeup, whether the task is still dead or not, every child has a living parent and states, waits and lists agree |
| `Tasks.DepartWaits` | src/kernel/task.c:335-351 | whoever is still waiting after the wakeup has a matching living child and no matching dead one |
| `Tasks.ExitBlockKeeps` | src/kernel/device.c:193-197 | a dying task that is put to sleep for the disk leaves states, waits, lists and sleepers in agreement |
| `Tasks.WaitKeeps` | src/kernel/task.c:418-425 | a parent goes to sleep in waitpid only with a matching living child and no dead one |
| `Tasks.ReapKeeps` | src/kernel/task.c:411-416 | a dead child is reaped once, and no task alive depended on it |
| `Tasks.SleepKeeps` | src/kernel/task.c:453-467 | the sleeper enters the sleep list in the order of deadlines, and its own deadline is at least one tick away |
| `Tasks.WakeExact` | src/kernel/task.c:249-266 | task_wakeup wakes exactly the sleepers whose deadline has come, all of them, although it stops at the first that is not due |
| `Tasks.ChargeKeeps` | src/kernel/clock.c:20-34 | charging the running task a tick disturbs nothing |
| `TaskRuns.TickKeeps` | src/kernel/clock.c:20-34 | a clock tick keeps the whole invariant |
| `TaskRuns.BootKeeps` | src/kernel/task.c:206-216 | from the three tasks made at start the first schedule() establishes the invariant and does not pick the idle task |
| `TaskRuns.StepKeeps` | src/kernel/task.c:45-467 | every operation, and every stretch of an exit between two waits, keeps the whole invariant |
| `TaskRuns.RunSafe` | src/kernel/task.c:45-467 | the invariant holds in every state of every run |
| `TaskRuns.WokenOnTime` | src/kernel/task.c:249-266 | over any run a sleeper sleeps until the clock shows its deadline, never less, and is up in the first state that does |
| `TaskRuns.NeverBack` | src/kernel/task.c:395-436 | over any run the serial number of a reaped task never comes back; its pid, the slot, does |
| `TaskRuns.ReapedOnce` | src/kernel/task.c:411-416 | over any run no two steps reap the same task |
| `TaskRuns.TickPreempts` | src/kernel/clock.c:20-34 | the clock preempts the running task exactly when it has one tick left, and otherwise only takes a tick |
| `TaskRuns.NeverPreempted` | src/kernel/clock.c:20-34 | a task that runs with no tick left, as one woken by task_wakeup does, is never preempted by any number of ticks |
| `TaskLaws.SwitchLaw` | src/kernel/task.c:87-104 | schedule() changes nothing of any task but which of the ready ones runs |
| `TaskLaws.PickLaw` | src/kernel/task.c:45-68 | a ready task is passed over only for another ready one with more ticks left, or with as many that last ran no later |
| `TaskLaws.BlockLaw` | src/kernel/task.c:218-235 | who blocks itself is blocked with all its fields kept, and every other task is as before |
| `TaskLaws.UnblockLaw` | src/kernel/task.c:237-247 | who is unblocked is ready with all its fields kept, and no other slot changes |
| `TaskLaws.ForkLaw` | src/kernel/task.c:354-393 | the child is in the lowest free slot, ready, a child of the running task, with a full slice of its parent's priority; no other slot changes |
| `TaskLaws.WaitLaw` | src/kernel/task.c:395-436 | waitpid frees the slot of the lowest dead child it is about; with none dead and one alive the task waits for that pid; with no child nothing changes |
| `TaskLaws.SleepLaw` | src/kernel/task.c:453-467 | the sleeper's deadline is the clock plus the whole ticks in ms, at least one, and every other task is as before |
| `TaskLaws.TickLaw` | src/kernel/clock.c:20-34 | a tick takes one tick from the running task, or refills its slice when that was the last, and notes the time it ran; whoever is due is up with no ticks, and every other task is as before |
| `TaskLaws.LeaveLaw` | src/kernel/task.c:335-352 | after a task_exit the task is dead with the code it gave, its children and no others belong to its parent, and the parent is woken exactly if it waits for any child or for this one |
| `TaskLaws.ExitWaitsLaw` | src/kernel/task.c:314-333 | a task_exit that has to wait leaves the task blocked with the code it gave, and everything else as it was |
| `TaskLaws.ExitCode` | src/kernel/task.c:309-436 | over every run a task that has exited keeps the code it gave, in its slot, until the slot is given back, whatever happens to its parents; without a wait it is dead from then on, and after one the code stays until it exits again |
| `TaskLaws.GivenBack` | src/kernel/task.c:411-416 | a slot is given back only by a waitpid of the parent, for the first dead child it is about |
| `TaskLaws.ReapedWithCode` | src/kernel/task.c:309-436 | over every run the step that reaps a task that exited is a waitpid of the parent it has by then, which finds there the code given to exit |
| `TaskLaws.ClockShows` | src/kernel/clock.c:20-34 | over every run the clock shows the number of its interrupts |
| `TaskLaws.SleepTime` | src/kernel/task.c:249-266 | over every run a task that sleeps for ms milliseconds is asleep until the clock has ticked once for each whole 10 of them, and once for less, and is up after that tick |
| `ExitProtocol.NoLostExit` | src/kernel/task.c:346-351 | while whoever is through task_exit is dead, nobody waits for a child that is through it |
| `ExitProtocol.StepProtocol` | src/kernel/task.c:309-352 | a step keeps whoever is through task_exit dead if and only if it does not end an exit that had to wait |
| `ExitProtocol.ProtocolHolds` | src/kernel/task.c:309-352 | over any run every exit reaches its parent if and only if none of them had to wait for the disk |
| `ExitProtocol.ExitWakeupLost` | src/kernel/task.c:309-352 | from start-up a run of seven steps after which a parent sleeps for a child that is through task_exit |
| `Scheduler.TaskTable.constructor` | src/kernel/task.c:206-216 | the task table after start-up and the first schedule(): the three tasks with their priorities as slices, one of the latter two running |
| `Scheduler.TaskTable.SearchTask` | src/kernel/task.c:45-68 | the other ready task with most ticks, then run least recently, then in the lowest slot; the idle task if there is none |
| `Scheduler.TaskTable.Schedule` | src/kernel/task.c:87-104 | switches to the task the search picked |
| `Scheduler.TaskTable.BlockCurrent` | src/kernel/task.c:218-235 | one step of the protocol, after which the task that was running is blocked |
| `Scheduler.TaskTable.UnblockOne` | src/kernel/task.c:237-247 | one step of the protocol, after which the task is ready |
| `Scheduler.TaskTable.FindFree` | src/kernel/task.c:25-37 | the lowest free slot, if there is one |
| `Scheduler.TaskTable.ForkTask` | src/kernel/task.c:354-393 | one step of the protocol, or the panic if and only if all 64 slots are taken; the child of the running task is in the lowest free slot, ready, with a full slice of its parent's priority |
| `Scheduler.TaskTable.ExitTask` | src/kernel/task.c:309-352 | one step of the protocol, after which the task that was running is dead with the code given |
| `Scheduler.TaskTable.ExitWaitsForDisk` | src/kernel/task.c:314-333 | task_exit up to the first release that waits: marked dead, then blocked, with the code given |
| `Scheduler.TaskTable.ExitWaitsAgain` | src/kernel/task.c:322-333 | a further release that waits |
| `Scheduler.TaskTable.ExitFinally` | src/kernel/task.c:335-352 | the end of a task_exit that had to wait: the parent is woken for a task that is not dead |
| `Scheduler.TaskTable.Reparent` | src/kernel/task.c:335-344 | the loop over the children: exactly the children of the task go to its parent |
| `Scheduler.TaskTable.FindDead` | src/kernel/task.c:400-419 | the first dead child the call is about, else whether there is any child it is about |
| `Scheduler.TaskTable.WaitPidOnce` | src/kernel/task.c:395-436 | one round of waitpid: reaps the child in the lowest slot that is dead and the call is about, with the code in its slot, or sleeps, or finds no child |
| `Scheduler.TaskTable.FindPlace` | src/lib/list.c:119-138 | the place in the sleep list before the first later deadline |
| `Scheduler.TaskTable.SleepTask` | src/kernel/task.c:453-467 | one step of the protocol, after which the task sleeps until the clock has advanced by the whole ticks in ms, at least one |
| `Scheduler.TaskTable.Wakeup` | src/kernel/task.c:249-266 | the loop over the sleep list wakes what the specification wakes |
| `Scheduler.TaskTable.ClockTick` | src/kernel/clock.c:20-34 | a clock interrupt is one step of the protocol, and the clock shows one tick more |
| `Lock.MutexLockKeeps` | src/kernel/mutex.c:12-28 | one round of mutex_lock keeps mutual exclusion and the waiters |
| `Lock.MutexUnlockKeeps` | src/kernel/mutex.c:30-47 | unlocking keeps them, and if tasks still sleep one that was woken has yet to look |
| `Lock.SetHolderKeeps` | src/kernel/mutex.c:66-67 | the new holder is the one task past the mutex |
| `Lock.SetCountKeeps` | src/kernel/mutex.c:68-69 | the new holder finds repeat at 0 |
| `Lock.StartReleaseKeeps` | src/kernel/mutex.c:75-86 | only the holder releases, with repeat at 1 or more |
| `Lock.StepKeeps` | src/kernel/mutex.c:12-86 | every step of every task keeps the invariant, and no assertion of the code can fail |
| `Lock.RunSafe` | src/kernel/mutex.c:12-86 | the invariant holds in every state of every interleaving |
| `Lock.NeverStuck` | src/kernel/mutex.c:12-86 | in no interleaving are two tasks past the mutex, so no two hold the lock, or is a sleeper forgotten: while one sleeps, some task is past the mutex or has been woken and has still to look |
| `Lock.StepCounts` | src/kernel/mutex.c:12-86 | a step changes how often its own task holds the lock, by one acquire or one release, and nobody else's |
| `Lock.HeldCount` | src/kernel/mutex.c:62-86 | in every interleaving, by its events alone: the lock is held exactly by the task with more acquires than releases, repeat is how many more, and that task is past the mutex until its last release |
| `Lock.BargedWaitsAgain` | src/kernel/mutex.c:17-20 | a woken task that finds the mutex taken again queues behind everyone asleep |
| `Lock.LockObject.StartAcquire` | src/kernel/mutex.c:62-74 | the holder holds the lock once more, anyone else goes for the mutex and changes nothing yet |
| `Lock.LockObject.MutexLockOnce` | src/kernel/mutex.c:12-28 | one round of mutex_lock: the mutex is taken, or the task is the newest waiter |
| `Lock.LockObject.ClaimHolder` | src/kernel/mutex.c:66-67 | lock_acquire behind mutex_lock: the task becomes the holder |
| `Lock.LockObject.StartCount` | src/kernel/mutex.c:68-69 | the end of lock_acquire: the assertion holds and the count is 1 |
| `Lock.LockObject.BeginRelease` | src/kernel/mutex.c:75-84 | the beginning of lock_release: once less and still the holder while the lock is held more than once, else nobody's |
| `Lock.LockObject.Unlocking` | src/kernel/mutex.c:30-47 | the mutex is free and the task that has waited longest is woken |
| `Lock.LockObject.LockAcquire` | src/kernel/mutex.c:62-74 | lock_acquire with nobody else past the mutex: the task holds the lock, for the first time or once more |
| `Lock.LockObject.LockRelease` | src/kernel/mutex.c:75-86 | lock_release: held once less, and after the last release the mutex is free and who waited longest has been woken |
| `Bitmap.OtherBits` | src/lib/bitmap.c:26-38 | setting or clearing one bit of a byte leaves the other seven |
| `Bitmap.OneBit` | src/lib/bitmap.c:26-38 | rewriting one byte changes one bit of the map |
| `Bitmap.BitmapT.constructor` | src/lib/bitmap.c:10-14 | all bits clear |
| `Bitmap.BitmapT.Test` | src/lib/bitmap.c:16-24 | the bit of an index, through its byte and shift |
| `Bitmap.BitmapT.Set` | src/lib/bitmap.c:26-38 | exactly one bit changes |
| `Bitmap.BitmapT.Search` | src/lib/bitmap.c:40-62 | the lowest start of a run of clear bits, if there is one; for count 0 the place behind the first bit that is set |
| `Bitmap.BitmapT.Scan` | src/lib/bitmap.c:40-71 | for count > 0 exact first fit: the lowest run is taken and nothing else changes, or none exists and nothing changes; for count 0 nothing ever changes |
| `Bits.StreakFits` | src/lib/bitmap.c:47-60 | one more clear bit completes the first run of the length wanted or shows that there is none so far |
| `Bits.FindRun` | src/lib/bitmap.c:40-62 | the search on a map held as a value: exact first fit |
| `Heap.BlockInPage` | src/kernel/arena.c:22-33 | every block lies behind the header inside its arena's page, so the page mask finds the arena |
| `Heap.BlocksApart` | src/kernel/arena.c:22-28 | blocks of one arena do not overlap |
| `Heap.LiveInside` | src/kernel/arena.c:35-91 | a block handed out lies behind its arena's header and inside its pages |
| `Heap.LiveApart` | src/kernel/arena.c:35-91 | blocks handed out never overlap |
| `Heap.LargeFits` | src/kernel/arena.c:41-53 | the pages taken for a large request suffice if and only if the 32-bit page count did not wrap round |
| `Heap.NewArenaKeeps` | src/kernel/arena.c:64-81 | a new arena keeps all lists and counts exact and is the only one wholly free |
| `Heap.PopKeeps` | src/kernel/arena.c:83-90 | handing out the head of a list leaves no arena wholly free |
| `Heap.PushKeeps` | src/kernel/arena.c:109-112 | taking a block back keeps every count the number of the arena's free blocks |
| `Heap.DropArenaKeeps` | src/kernel/arena.c:112-122 | an arena all of whose blocks are free leaves its list and its page, and then none is left that is wholly free |
| `Heap.NewLargeKeeps` | src/kernel/arena.c:41-53 | a run of clear pages becomes one large block nobody held before, and every list, count and page stays exact |
| `Heap.DropLargeKeeps` | src/kernel/arena.c:103-107 | a large block's pages, all of them still set, go back to the map |
| `Heap.ReserveKeeps` | src/kernel/memory.c:321-326 | pages other code takes are nobody's arena |
| `Heap.UnreserveKeeps` | src/kernel/memory.c:328-333 | pages other code gives back were set |
| `Arena.KernelHeap.constructor` | src/kernel/arena.c:9-20 | an empty heap over an empty page map |
| `Arena.KernelHeap.AllocPages` | src/kernel/memory.c:298-326 | the lowest run of free pages, or none exists and nothing changes |
| `Arena.KernelHeap.FreePages` | src/kernel/memory.c:309-333 | exactly these pages are cleared; the assertion that each was set holds |
| `Arena.KernelHeap.TakePages` | src/kernel/memory.c:321-326 | pages other code takes are new to it |
| `Arena.KernelHeap.ReturnPages` | src/kernel/memory.c:328-333 | pages other code gives back are the heap's no more than before |
| `Arena.KernelHeap.FindClass` | src/kernel/arena.c:55-60 | the smallest block size that is large enough |
| `Arena.KernelHeap.GrowClass` | src/kernel/arena.c:64-81 | a new arena fills the empty free list, or there is no page |
| `Arena.KernelHeap.KMalloc` | src/kernel/arena.c:35-91 | a block nobody holds, at least as large as asked for exactly when the page count did not wrap, and 16 bytes or below twice the size for small ones; the allocated pages are exactly those of live arenas |
| `Arena.KernelHeap.KFree` | src/kernel/arena.c:93-122 | exactly this block is given back; an arena that is wholly free is returned to the page map |
| `Arena.KernelHeap.RemoveBlocks` | src/kernel/arena.c:114-120 | removing an arena's blocks one by one leaves the other arenas' blocks in their order |
| `Path.EnterAllIsDir` | src/fs/namei.c:296-364 | following names from a directory always ends in a directory at or below the root |
| `Path.EnterAllNormal` | src/fs/namei.c:296-364 | a directory reached by path names alone has no "." or ".." in its written form |
| `Path.AbsoluteRoundTrip` | src/fs/namei.c:296-364 | the written form of a directory, used as an absolute path name from anywhere, leads to that directory |
| `Path.ResolveJoin` | src/fs/namei.c:296-364 | going along one path and then along another is going along the two joined |
| `Path.Down` | src/fs/namei.c:338-356 | a name leads one step down, with either separator or none behind it |
| `Path.Here` | src/fs/namei.c:301-326 | the empty path name and "." stay, and a separator alone leads to the root |
| `Path.Up` | src/fs/namei.c:327-336 | ".." stays at the root, and from any other directory leads to the one whose written form is shorter by its last step |
| `Path.DownUp` | src/fs/namei.c:313-364 | a name, either separator and ".." lead back to where they started |
| `Path.ParseDir` | src/fs/namei.c:296-364 | every string that ends in a separator is the written form of a directory, so the result is defined for every such working directory |
| `Path.StrSep` | src/lib/string.c:233-248 | the first separator, or none |
| `Path.StrRSep` | src/lib/string.c:250-264 | the last separator, or none |
| `Path.StartsWith` | src/lib/string.c:180-193 | comparing with a literal is testing for a prefix, without looking behind the string |
| `Path.StrNCpy` | src/lib/string.c:14-26 | what strncpy leaves in the destination, with the NUL it always writes |
| `Path.PrefixIsName` | src/fs/namei.c:324-336 | comparing with "./" and "../" compares the whole name |
| `Path.PopName` | src/fs/namei.c:330-336 | ".." cuts the last name and its separator off the buffer unless only the root is left |
| `Path.PushName` | src/fs/namei.c:338-342 | a name with its separator is appended |
| `Path.AbsPath` | src/fs/namei.c:296-364 | the buffer becomes the written form of the directory the path name leads to: it again starts and ends in a separator |
| `Directory.MatchName` | src/fs/namei.c:11-27 | an entry matches if and only if its whole name is the first name of the path; the rest of the path is what follows the separator |
| `Directory.AddedIsFound` | src/fs/namei.c:102-114 | an entry added for an absent name is found under that name if and only if the name has at most 13 characters, since longer ones are cut off |
| `Directory.AddedKeeps` | src/fs/namei.c:74-117 | live names stay unique if and only if none of them is what the slot keeps of the new name; the directory grows by one slot only when none is free |
| `Directory.AddedOthers` | src/fs/namei.c:74-117 | no lookup of another name changes |
| `Directory.RemovedKeeps` | src/fs/namei.c:452-453 | clearing a slot's number removes that name and no other |
| `Directory.DirInode.FindEntry` | src/fs/namei.c:29-72 | the live entry of the first name of the path, or there is none |
| `Directory.DirInode.AddEntry` | src/fs/namei.c:74-117 | the entry that is there, or the lowest free slot taken for the name |
| `Directory.DirInode.Create` | src/fs/namei.c:245-260 | as a map: the name is added if it was absent and nothing else changes; a name of 14 characters or more is cut, and then live names stay unique if and only if the rest of it was absent too |
| `Directory.DirInode.Remove` | src/fs/namei.c:437-453 | as a map: the name is removed, and nothing else changes |
| `Files.UnusedSlot` | src/fs/file.c:12-24 | a slot has count 0 if and only if no descriptor of any task names it, so get_file never hands out a slot in use |
| `Files.OpenKeeps` | src/fs/file.c:134-156 | opening keeps every count the number of descriptors and every inode held once for each slot in use |
| `Files.ShareKeeps` | src/fs/file.c:210-225 | one more descriptor for an open file keeps that |
| `Files.ShareIs` | src/fs/file.c:210-225 | dup gives a second name to the same open file: flags, offset and inode stay, its count grows by one, and no other descriptor or slot changes |
| `Files.CloseKeeps` | src/fs/file.c:158-168 | closing keeps that, and the inode is released exactly when no other descriptor names the slot |
| `Files.FileTable.constructor` | src/fs/file.c:34-45 | the three standard files of each of the three tasks made at start |
| `Files.FileTable.GetFd` | src/kernel/task.c:287-300 | the lowest free descriptor from 3, if there is one |
| `Files.FileTable.GetFile` | src/fs/file.c:12-24 | the lowest unused slot from 3, if there is one |
| `Files.FileTable.OpenFile` | src/fs/file.c:134-156 | a new descriptor for an unused slot, which gets the inode, the flags and the offset 0, or the end of the file when appending; no other slot or descriptor changes |
| `Files.TestsExactly` | src/fs/file.c:213-214 | the range tests let a descriptor that has no entry through exactly when it is negative, and dupfd's also for 16 |
| `Files.FileTable.CloseFile` | src/fs/file.c:158-168 | outside the table exactly for a negative descriptor, a failed assertion from 16 on, else the descriptor is free, its file has one reference less and keeps its contents, and no other descriptor changes |
| `Files.FileTable.DupFd` | src/fs/file.c:210-225 | stays inside the table exactly when the old descriptor is neither negative nor 16 and, once it is found open, the new one is not negative; then the lowest free descriptor from there names the same file, whose inode, flags and offset stay, and no other moves, or it fails if and only if the old one is free or above 16 or none is left |
| `Files.FileTable.Dup2` | src/fs/file.c:232-236 | succeeds exactly for two different descriptors of the table of which the old one is open, and then both name its file; on one and the same it closes it and fails; outside the table exactly as listed |
| `Files.FileTable.Pipe` | src/fs/pipe.c:51-71 | two descriptors for two slots that each hold the pipe's inode, at the offset the slot had; fails only with at most one descriptor or slot left |
| `Files.FileTable.Fork` | src/kernel/task.c:383-388 | every file counts once more for every descriptor of the child, and keeps its inode, flags and offset |
| `Files.FileTable.Exit` | src/kernel/task.c:326-333 | all descriptors of the task are closed, no other task's are touched, and every slot keeps its inode, flags and offset |

## Left out

- Kernel-mode stores to user pages, the TLB, and faults in the kernel region or the page directory's own window: the claims are about user-mode accesses to user pages.
- Memory.Memory.LinkPage: the bytes found in a new frame are any bytes. The code's frame may have been a page table, whose contents the model keeps apart from the memory's and does not write into it; the eager machine allows any.
- Reading a file into an mmap, execve, and the copying of task fields that are not part of an address space.
- Memory.Memory.SysMmap: takes ranges that end by the top of the user stack, because the code writes the bitmap of mappings without checking the range; addresses are page numbers, since the calls assert or assume page alignment.
- Memory.Memory.Run: stops early before an mmap over pages already present; what that does is stated page by page, by `Memory.Memory.MmapOne` and `CowRefinement.MmapOverPresent`.
- FileSystem.FileSystem.InodeWrite: the splice is stated for offsets within the file, because a write behind the end leaves a hole that reads assert on. That the trees stay well formed is stated one way, for a write that is ready, that is, one all of whose calls of bmap are clean (`Growth.ReadyStep`): behind a stale zone number the bytes written may overwrite an index block with anything, so a write that is not ready can leave them well formed by accident.
- FileSystem.FileSystem.Bmap: reading an index block behind the end of the device is a failure; the maps and the inodes are not among the blocks, so a stale zone number below the first data zone overwrites neither.
- FileSystem.FileSystem.Balloc: with all eight maps full the code returns EOF as a zone number; the model reports no zone.
- Time stamps, permissions, mode bits beyond the file type, link counts, inode allocation, mkfs, mount points.
- BufferCache.Cache.GetFreeBuffer: the path that sleeps for a buffer is not modelled, because list_popback already unlinks the node that task_unblock unlinks again.
- The locks and sleeps inside bread and device_request: each operation of the cache is one step, and the disk is a map from device and block to bytes.
- Elevator.Device.Submit: sector numbers are below 2^31, where the list's signed comparison agrees with them; partitions are not modelled.
- TaskRuns.StepKeeps: the idle task never blocks, sleeps, waits or exits, as its loop does not; block_list stands for every list a blocked task can be in.
- TaskRuns.WokenOnTime: the clock counts without wrapping, so deadlines are below 2^31 ticks.
- TaskRuns.NeverPreempted: ticks are integers; the code's 32-bit count of a task without ticks comes round to the value that preempts after 2^32 of them.
- Scheduler fairness: ticks are refilled only for a task that the clock finds with one tick left, so the code does not promise that every task runs.
- ExitProtocol.ProtocolHolds: whether a release waits is the environment's choice; what a task releases is not part of the task table.
- Tasks other than their place in the tree, the lists and the scheduler: stacks, user and group, working directory, and the count of the executable's inode, which fork does not raise.
- Lock.HeldCount: repeat is a natural number; the code's is 32 bits wide and comes round after 2^32 acquires without a release.
- Lock.StepKeeps: interrupts off make each step atomic; what a task does while it holds the lock is not modelled.
- Arena.KernelHeap.KMalloc: the bytes of blocks are not modelled, only where they are; a request whose page count wraps to 0 fails the code's assertion and is excluded.
- List.List.InsertSort: keys are the integers at the offset the callers pass.
- Path.AbsPath: the caller's buffer must have room for the result, as in the code.
- Directory.DirInode.FindEntry: ".." at the root of a mounted volume, and the blocks the slots lie in.
- Bitmap.BitmapT.Set: indexes up to the last bit of the map; what an index behind it overwrites is not modelled.
- Files.FileTable.DupFd: what an entry outside the table holds is not modelled, so the call ends there.
- Files.FileTable.Pipe: says nothing about the state after a panic between the two ends.
- Transfers through pipes and devices, console, keyboard, serial line, formatting, shell, user programs and system-call stubs.
