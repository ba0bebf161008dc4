# Influx kernel: a verified model

This project models the parts of the Influx x86_64 kernel in which a wrong pointer, count or index would go unnoticed
longest, and proves what they keep over every input, every call and every run.

* **Kernel heap** (`HeapView`, `HeapRecords`, `HeapImage`, `HeapSearch`, `Liballoc`). The layout is a list of runs of
  pages (majors) holding packed blocks (minors). `HeapRecords` says what linked header records in memory spell that
  layout, `HeapImage` which byte is read at any address; the class `Liballoc.Heap` updates those records as `kmalloc`,
  `kfree` and `krealloc` do.
* **Scheduler run queues** (`RunQueues`, `RunQueueRuns`, `RoundRobin`, `TaskRings`, `Scheduler`). Rings of tasks per
  priority with a cursor each, as values; the doubly linked rings; and the class whose methods relink them.
* **Page tables through the recursive slot** (`PageTables`, `TableSteps`, `RecursiveSlot`, `PagingManager`,
  `PagePermissions`, `AddressSpaces`). Physical memory is a map from (frame, index) to entry; the hardware walk follows
  index paths; the kernel only reads and writes entries through the addresses its pointer arithmetic produces.
* **ext2 block layer** (`Ext2Words` to `Ext2Volume`). Byte blocks with little-endian pointers, inode pointer trees named
  by index paths, one bitmap and free count per group, the superblock's count, file reads, writes and frees. A ghost map
  from block to slot says who owns each block; `pending` holds blocks between allocation and attachment, and between the
  drop of an inode and the release of its blocks. `Ext2Triple` is about the lookup the others stop short of.
* **Smaller structures**: the hash map that hands out its own keys (`HashChains`, `HashTable`, `KeyList`, `UniqueKeys`,
  `UniqueHashMap`), the mutex protocol and its wait queue (`Mutex`, `WaitQueue`), the virtual memory list (`VmaList`,
  `VirtualAllocator`), vnode and descriptor counts (`VnodeCounts`, `VnodeOps`, `ProcessExit`, `Vfs`), the word bitmap and
  the page allocator on it (`BitWords`, `BitmapSearch`, `PhysicalAllocator`), the boot memory map (`BootMap`) and paths
  (`Path`, `PathMeaning`).

`Sums` and `Division` hold the arithmetic several of them share.

Modelling conventions. Pointers are integers and 0 is null. Sizes and addresses are unbounded integers; where the code's
width or wrap-around matters it is written out (`Ext2Size`, `RecursiveSlot`, `Division.U64`,
`HeapSearch.RequestFits`). Results of code outside the model come in as parameters: the page hook of the heap (`hook`), the
keys the unique maps hand out to the VFS, permission outcomes (`permitted`), the frames the page allocator finds for a new buffer of tables
(`first`), and the number of times a loop may ask `interrupted()` before it is told yes (`polls`). Class methods assign the results of methods on values, so that each
operation has a contract that does not mention the heap of objects.

Where the code does not do what it is meant to, the code is modelled as it is and the exact condition is proved:

* A `krealloc` that cannot grow a block returns null and frees the block (`HeapSearch.FailedResizeLosesBlock`).
* `kfree` and `krealloc` refuse a pointer exactly when the word at the magic's place is another one. That word is memory
  like any other: four bytes a caller may write make a pointer into its own block pass (`HeapImage.MagicSaysLive`,
  `HeapImage.ForgedHeader`).
* The tick's wake-up of a sleeper keeps the run queues consistent exactly when that level's cursor is not on the current
  task; three steps after boot it can be (`RunQueueRuns.WakeKeepsIff`, `RunQueueRuns.WokenTaskLost`,
  `RunQueueRuns.LostFromBoot`).
* A write that ends before the old end of a file shortens the file (`Ext2Size.WriteKeepsLengthIff`).
* Asked for no bytes at an end of file that is not a block boundary, `read_file` reports the tail of the last block
  (`Ext2Read.ReadFile`).
* `read_file` does not count bytes in holes, so it returns all it was asked for exactly when none of it is in a hole
  (`Ext2Read.ReadFile`).
* The triply indirect branch keeps two blocks apart exactly when their stretches of `n * n` blocks are at least four
  apart, or the same and the blocks not a multiple of `n` apart (`Ext2Triple.IndependentIff`); otherwise they share a
  pointer, or one pointer is read as part of the other (`Ext2Triple.NextStretchesSeeIt`).
* `hash_map::erase` frees a node without taking it off its chain exactly when the node's back pointer is set. It is set
  when the node was not the first of its chain as it was linked, and erasing the nodes before it does not clear it. A
  table stands for the finite map over a whole run exactly when no erase meets a set back pointer
  (`HashTable.RunRefinesIff`, `HashTable.LinkSetsBack`, `HashTable.EraseKeepsBack`, `HashTable.CollidingErases`).
* The paths of files unlinked while open are kept in such a table, so the last close of a file is sound exactly when that
  node has no back pointer (`Vfs.Vfs.Close`, `Vfs.Vfs.Exit`). While the vnodes waiting differ modulo the number of buckets
  all is well (`Vfs.Vfs.Unlink`); vnodes 0 and 16 are the first pair for which it is not
  (`ProcessExit.PendingShareBucket`).
* A task can queue on the mutex after the owner looked for waiters. The tasks left behind are exactly those
  (`Mutex.StrandsIff`, `Mutex.StrandedWaiter`).
* Freeing a region strictly inside a virtual memory node leaves nodes that do not cover it
  (`VirtualAllocator.FreedMidTilesIff`).
* Setting a range of bits that starts in the second half of a node and ends inside the next sets the rest of that node too
  (`BitmapSearch.SetRange`).
* `set_pte_permissions` tests for reading or writing before it tests for reading alone, so a page asked to be readable
  becomes writable and none is made read-only; nor does it set a page present again (`PagePermissions.ReadBackIff`,
  `PagePermissions.NeverNarrowed`).
* Parsing lets `..` cancel a first branch that is no name: `/..` is the empty path and `../..` stays where it is. A path
  leads where it says, from every working directory, exactly when that does not happen (`PathMeaning.MeaningKeptIff`,
  `PathMeaning.ShortestMisread`, `PathMeaning.JoinMeansIff`).
* A failed block allocation still adds to the file's sector count (`Ext2Blocks.TakeBlock`).
* The search for a run of bits does not see a run around the node it starts at (`BitmapSearch.Search`,
  `PhysicalAllocator.RunAcrossMissed`).

## Model

| member | source | states |
|---|---|---|
| `HeapView.UnalignUndoesAlign` | kernel/memory/liballoc.c:24-42 | for every header address, the distance byte ALIGN leaves lets UNALIGN recover exactly that header, and the byte lies between header and pointer |
| `HeapView.Align` | kernel/memory/liballoc.c:24-34 | the result is 16-aligned and 16 to 31 bytes past its argument |
| `HeapView.UsageWithinRun` | kernel/memory/liballoc.c:284-296 | on a well-formed major `usage` is between the header and the size, so the unsigned subtraction for its free bytes never wraps |
| `HeapView.FitsNeedsFree` | kernel/memory/liballoc.c:296-322 | a major skipped because its free total is too small has no gap that would have taken the request |
| `HeapView.LiveBytesDisjoint` | kernel/memory/liballoc.c:329-473 | a byte the holder of a live block may write is inside that minor, past header and alignment byte, and in no other live minor and no major header |
| `HeapView.StepKeeps` | kernel/memory/liballoc.c:208-708 | placing, growing, freeing and shrinking each keep majors disjoint and minors sorted, disjoint and inside their major |
| `HeapView.TraceWellFormed` | kernel/memory/liballoc.c:208-708 | every heap along every run from an empty one is well formed |
| `HeapView.RunNeverOverlaps` | kernel/memory/liballoc.c:208-708 | over every run, at every moment, a user byte belongs to exactly one live block |
| `HeapRecords.InsertRepresents` | kernel/memory/liballoc.c:329-473 | linking a new minor between its neighbours gives records that spell the layout with the block inserted: both-way links, owner, magic, sizes, `usage`, `first`, alignment byte |
| `HeapRecords.RemoveRepresents` | kernel/memory/liballoc.c:579-591 | unlinking a minor gives records that spell the layout without it, its dead header left among the bytes |
| `HeapRecords.DropRepresents` | kernel/memory/liballoc.c:595-603 | unlinking a major's last minor and the major gives records that spell the layout without that run |
| `HeapRecords.AppendRepresents` | kernel/memory/liballoc.c:316-319 | a fresh major hung after the last one spells the layout with the empty run appended |
| `HeapRecords.SetRequestRepresents` | kernel/memory/liballoc.c:693-698 | rewriting the request size changes the layout in that block's request only |
| `HeapImage.HeaderFound` | kernel/memory/liballoc.c:534-540 | from every live user pointer UNALIGN, reading memory, reaches its own minor, and the magic is read there |
| `HeapImage.MagicSaysLive` | kernel/memory/liballoc.c:534-540 | for every pointer the magic is read exactly where a live header is or where none is and it was forged |
| `HeapImage.ForgedHeader` | kernel/memory/liballoc.c:534-540 | in every heap, four bytes of a live block that spell the magic make the pointer sixteen bytes on pass the test although no live header is there |
| `HeapImage.DeadRead` | kernel/memory/liballoc.c:540-556 | after a free, and while its major stays, the freed pointer leads to the same header and the dead mark is read there |
| `HeapRecords.LiveAfterRemove` | kernel/memory/liballoc.c:579-611 | a free ends the life of exactly one header |
| `HeapSearch.PagesFor` | kernel/memory/liballoc.c:159-175 | at least the minimum, enough for request and headers, and not a page more than one of those needs |
| `HeapSearch.NewRunFits` | kernel/memory/liballoc.c:315-321 | a fresh major always has room for the request it was made for, so the search grows at most once |
| `HeapSearch.Exhausted` | kernel/memory/liballoc.c:483-503 | when the search reaches the last major for good, no major of the list had a fitting gap |
| `HeapSearch.EndsAtFirst` | kernel/memory/liballoc.c:271-322 | where the search ends is the first major with a gap, counted from where it started and round to the root, and none up to it has a larger free total than the bet noted |
| `HeapSearch.Finish` | kernel/memory/liballoc.c:329-473 | placing the block ends the search with an allowed answer and leaves no major empty |
| `HeapSearch.ServedIsStep` | kernel/memory/liballoc.c:208-518 | every answer of `kmalloc` is one of the steps the whole-run results range over |
| `HeapSearch.ServedKeepsBlock` | kernel/memory/liballoc.c:208-518 | while a request is served every live block stays where it is, and the new one is none of them |
| `HeapSearch.FreeUndoesAlloc` | kernel/memory/liballoc.c:208-619 | freeing the pointer just allocated restores the layout exactly |
| `HeapSearch.UserByteIsNoSlot` | kernel/memory/liballoc.c:33-38 | no byte a caller may write is where any live block keeps its alignment distance |
| `HeapSearch.FailedResizeLosesBlock` | kernel/memory/liballoc.c:703-708 | `krealloc` of a live block returns null exactly when it must grow, no major has room and the hook gives nothing; the block is then freed |
| `Liballoc.FindGap` | kernel/memory/liballoc.c:328-476 | following the links finds a gap exactly when the major has one, and then its first, with the right neighbours |
| `Liballoc.WriteMinor` | kernel/memory/liballoc.c:409-425 | the writes of the placement cases produce exactly the records of the layout with the block inserted |
| `Liballoc.UnlinkRecords` | kernel/memory/liballoc.c:579-591 | the writes of a free produce exactly the records with the minor unlinked and dead |
| `Liballoc.Memcpy` | kernel/memory/liballoc.c:103-123 | for ranges that do not overlap, the word loop and the byte loop together copy every byte and touch no other |
| `Liballoc.Heap.constructor` | kernel/memory/liballoc.c:80-93 | the empty heap satisfies the invariant, whatever memory holds |
| `Liballoc.Heap.AllocateNewPage` | kernel/memory/liballoc.c:159-206 | null from the hook is a warning and no change; otherwise one empty major record and the allocated total |
| `Liballoc.Heap.SearchMajors` | kernel/memory/liballoc.c:283-504 | the loop ends and answers the request from a gap, from the hook, or with null only when nothing fits and the hook gave nothing; a gap is in the first major that has one, in the order from the best bet, if its free total is more than needed, round to the root; no major passed on the way has a larger free total than the best bet noted |
| `Liballoc.Heap.Kmalloc` | kernel/memory/liballoc.c:208-518 | keeps links, counts and best bet; answers with the user pointer of a block in the first fitting gap, of the first major with one in the order of the search, or in a new major, or null exactly when neither exists; changes no byte but the alignment byte |
| `Liballoc.Heap.Kfree` | kernel/memory/liballoc.c:520-619 | null is a warning without change; a pointer is refused, counted and without change, exactly when the word read is not the magic; a live block goes, alone, and its major if it was the last, and no byte changes but its header's; freed again while its major stays it is seen dead; a magic with no live header under it is reported |
| `Liballoc.Heap.Release` | kernel/memory/liballoc.c:579-611 | the new layout is the old one without the block; the best bet is dropped with its major, becomes this major exactly when that now has more free bytes, and stays otherwise; only the dead header's bytes change |
| `Liballoc.Heap.Krealloc` | kernel/memory/liballoc.c:634-708 | all outcomes: free, allocate, refuse exactly by the word read, shrink in place, move, fail, forged; a resized block keeps its first bytes |
| `Liballoc.Heap.MoveBlock` | kernel/memory/liballoc.c:703-708 | after allocate, copy and free the old bytes are at the new pointer |
| `Liballoc.Heap.Shrink` | kernel/memory/liballoc.c:693-698 | only the block's request size changes |
| `Liballoc.Heap.UserWrite` | kernel/memory/liballoc.c:342-351 | a caller's write inside its block keeps the whole heap invariant |
| `RunQueues.AdvanceLands` | kernel/threading/scheduler.cpp:458-487 | the cursor lands on another runnable task if there is one, else on the same if it can run, else on null |
| `RunQueues.RescheduleKeeps` | kernel/threading/scheduler.cpp:405-445 | `reschedule` keeps the queue invariant |
| `RunQueues.RescheduleChoosesHighest` | kernel/threading/scheduler.cpp:405-456 | idle is chosen exactly when nothing queued can run; otherwise a runnable task above which nothing can run |
| `RunQueues.RescheduleTouches` | kernel/threading/scheduler.cpp:405-445 | a reschedule changes no ring and no state but that of the task it leaves, running to ready, and of the task it takes, to running, and no cursor but that task's |
| `RunQueues.QueueKeeps` | kernel/threading/scheduler.cpp:1706-1731 | `queue_task` keeps the queue invariant |
| `RunQueues.QueueTouches` | kernel/threading/scheduler.cpp:1706-1731 | the queued task is last on its ring with its state and priority; every other ring, state and cursor is kept; the cursor of its level moves to it exactly when it is ready and nobody else was next |
| `RunQueues.BlockKeeps` | kernel/threading/scheduler.cpp:762-784 | blocking the current task keeps it, changes no other task's state and no ring, and leaves the task blocked |
| `RunQueues.UnblockKeeps` | kernel/threading/scheduler.cpp:786-805 | unblocking any task keeps it; a blocked, sleeping or waiting task becomes ready, any other keeps its state, and no other task and no ring changes |
| `RunQueues.SuspendKeeps` | kernel/threading/scheduler.cpp:566-598 | the sleep and wait transitions of the current task keep it and change no other task's state and no ring |
| `RunQueues.RemoveKeeps` | kernel/threading/scheduler.cpp:720-760 | unlinking the killed task keeps it; the task is marked killed and on no ring, its ring keeps the others in order, and every other ring and state is as before |
| `RunQueueRuns.Apply` | kernel/threading/scheduler.cpp:405-805 | every entry point, applied where it may be called, keeps the invariant |
| `RunQueueRuns.Run` | kernel/threading/scheduler.cpp:405-805 | so does every run of them |
| `RunQueueRuns.KillTouches` | kernel/threading/scheduler.cpp:720-760 | after a kill the task is on no ring and killed, everyone else keeps ring and order, the cleaner is awake, a task of the highest level that can run is running, and no other state changed |
| `RunQueueRuns.BootEstablishesInvariant` | kernel/threading/scheduler.cpp:216-352 | the invariant fails while only the main thread and the blocked cleaner are queued and holds once the init task is |
| `RunQueueRuns.WakeKeepsIff` | kernel/threading/scheduler.cpp:504-537 | the tick's wake-up keeps the invariant exactly when that level's cursor is not on the current task |
| `RunQueueRuns.WokenTaskLost` | kernel/threading/scheduler.cpp:504-598 | when it is, and nothing else can run, the current task going to sleep hands the processor to idle although the woken task is ready |
| `RunQueueRuns.LostFromBoot` | kernel/threading/scheduler.cpp:216-598 | for every four tasks a boot starts with: switch, sleep, switch is a legal run to such a state |
| `RoundRobin.StepApproaches` | kernel/threading/scheduler.cpp:447-487 | each pick from its level brings a waiting task a place nearer; only a new task sets it back, by one |
| `RoundRobin.WaitIsBounded` | kernel/threading/scheduler.cpp:447-487 | in every run a task that stays ready is passed over at most its ring distance plus the tasks queued meanwhile |
| `RoundRobin.AdvanceRotates` | kernel/threading/scheduler.cpp:458-487 | serving the task under the cursor moves it to the back of the order of runnable tasks |
| `RoundRobin.EachServedOnce` | kernel/threading/scheduler.cpp:405-487 | with n runnable tasks on the served level, n consecutive reschedules pick each exactly once, in ring order |
| `RoundRobin.OrderMembers` | kernel/threading/scheduler.cpp:458-487 | the service order is exactly the runnable tasks of the ring, without repetition |
| `TaskRings.AppendLinked` | kernel/threading/scheduler.cpp:1714-1722 | hooking a task in before the start gives the two-way links of the ring with it appended |
| `TaskRings.UnhookLinked` | kernel/threading/scheduler.cpp:733-742 | closing the neighbours over a task gives the links of the ring without it |
| `TaskRings.ScanRing` | kernel/threading/scheduler.cpp:458-487 | following `next` once round the ring computes the cursor's next place |
| `TaskRings.HighestLevel` | kernel/threading/scheduler.cpp:447-456 | the loop finds the highest level with a cursor |
| `Scheduler.Scheduler.constructor` | kernel/threading/scheduler.cpp:216-352 | linked rings and the queue invariant hold when the tick handler is registered |
| `Scheduler.Scheduler.UpdatePriorityQueueNextTask` | kernel/threading/scheduler.cpp:458-487 | the linked level's cursor is the one the value model computes; nothing else changes |
| `Scheduler.Scheduler.Reschedule` | kernel/threading/scheduler.cpp:405-445 | the linked state follows the value model's reschedule, and the invariant holds |
| `Scheduler.Scheduler.QueueTask` | kernel/threading/scheduler.cpp:1706-1731 | the linked state follows the value model's queueing |
| `Scheduler.Scheduler.BlockTask` | kernel/threading/scheduler.cpp:762-784 | the linked state follows the value model's blocking |
| `Scheduler.Scheduler.UnblockTask` | kernel/threading/scheduler.cpp:786-805 | the linked state follows the value model's unblocking |
| `Scheduler.Scheduler.SuspendCurrent` | kernel/threading/scheduler.cpp:566-598 | the linked state follows the value model's sleep and wait transitions |
| `Scheduler.Scheduler.KillCurrentTask` | kernel/threading/scheduler.cpp:720-760 | unlink, wake the cleaner, reschedule: the linked state follows; the killed task is on no ring and killed, everyone else keeps ring and order, the cleaner is awake, and a task of the highest level that can run is running |
| `PageTables.StoreElsewhere` | kernel/memory/paging_manager.cpp:104-178 | writing one entry of one table changes only walks that go through that entry |
| `PageTables.AttachedKeepsPages` | kernel/memory/paging_manager.cpp:91-168 | hanging a cleared table where none was changes no page's translation |
| `TableSteps.GrowTables` | kernel/memory/paging_manager.cpp:91-168 | clearing the first buffer page and hanging it keeps the tables a tree, the recursive slot, every translation, every entry and table already there, and every other unused frame unused; the new entry is the one written |
| `TableSteps.LeafStore` | kernel/memory/paging_manager.cpp:170-180 | writing a page's entry changes that page's translation and entry, no other walk, and makes no frame a table |
| `TableSteps.NewLevelsTakeNothing` | kernel/memory/paging_manager.cpp:89-168 | writable and executable being the conjunction over the levels of a walk (section 4.6 of volume 3A of the Intel manual), the levels that were missing take neither right away: after the call a walk through any table allows what its levels that were there allow |
| `TableSteps.UnmapUndoesMap` | kernel/memory/paging_manager.cpp:80-196 | unmapping a page that had no translation before it was mapped restores every translation |
| `RecursiveSlot.PointerPaths` | kernel/memory/paging_manager.cpp:15-35 | the four pointer computations give the addresses whose indices go through slot 511 the right number of times |
| `RecursiveSlot.PointerReachesEntry` | kernel/memory/paging_manager.cpp:15-35 | for every address, table state and level, walking the computed pointer succeeds exactly when the walk of the address reaches that table, and lands on the very entry that walk uses |
| `RecursiveSlot.LoadIsEntry` | kernel/memory/paging_manager.cpp:37-47 | what is read through the pointer is the entry the hardware would read, and says where the walk goes next |
| `RecursiveSlot.SoftWalk` | kernel/memory/paging_manager.cpp:37-47 | testing the levels from the top through the pointers is the hardware walk |
| `RecursiveSlot.GetPhysicalAddress` | kernel/memory/paging_manager.cpp:37-47 | the hardware's translation plus the page offset, or 0 when there is none |
| `PagingManager.EnsureTable` | kernel/memory/paging_manager.cpp:89-114 | one table step: present and untouched, or built from the buffer with an entry that is present, writable and executable and keeps its other bits, or failed without change |
| `PagingManager.BuildTables` | kernel/memory/paging_manager.cpp:89-168 | the three table steps together, how much of the buffer they used, and that the rest of it is a buffer still |
| `PagingManager.MapInto` | kernel/memory/paging_manager.cpp:80-181 | succeeds exactly when the buffer has a page per missing table; then only this page's translation changes, to the given frame, read-only and not executable, and the rest of the buffer serves the next call; otherwise no translation changes; either way every level that was missing and is there now is writable and executable, every entry that was present keeps all its bits, and other unused frames stay unused |
| `PagingManager.UnmapFrom` | kernel/memory/paging_manager.cpp:183-196 | the page has no translation afterwards, its entry is zero where there is one, and every other page keeps its own |
| `PagingManager.MapTwice` | kernel/memory/paging_manager.cpp:61-78 | a call and, if it fails, another with a second buffer on other unused frames: succeeds exactly when the two have a page per missing table, always with three in the second, and then the page is mapped, with the rights of every level, as one call would have mapped it |
| `PagePermissions.SetPermissions` | kernel/memory/paging_manager.cpp:396-435 | for every set of flags, without user access: a page whose table exists gets exactly the granted entry, no other entry or walk changes, and only no flags at all takes a translation away |
| `PagePermissions.GetPermissions` | kernel/memory/paging_manager.cpp:437-455 | readable exactly when the page is translated, and writable as its entry says |
| `PagePermissions.ReadBackIff` | kernel/memory/paging_manager.cpp:396-455 | what was asked for is read back exactly when a present page was to be readable and writable or taken away, or an absent one neither readable nor writable |
| `PagePermissions.NeverNarrowed` | kernel/memory/paging_manager.cpp:396-435 | over any sequence of calls a writable page stays writable, an absent one absent, and the frame the same |
| `AddressSpaces.FreeBuffer` | kernel/memory/paging_manager.cpp:490-500 | every page of the buffer's range loses its translation, and nothing else changes |
| `AddressSpaces.AllocateBuffer` | kernel/memory/paging_manager.cpp:457-488 | the range is mapped to the consecutive frames, writable, and nothing else changes |
| `AddressSpaces.Retry` | kernel/memory/paging_manager.cpp:65-77 | after the exchange of the buffer the call succeeds exactly with new frames or when no table is missing |
| `AddressSpaces.AddressSpace.MapPage` | kernel/memory/paging_manager.cpp:49-78 | the two calls with the kernel's own buffer: succeeds exactly when sixteen new frames are found or the buffer has a page per missing table; the page is then mapped and protected, every page but it and the buffer's keeps its translation; every level that was missing and is there now is writable and executable and every other entry but the buffer's keeps all its bits; the buffer is ready for the next call |
| `AddressSpaces.AddressSpace.UnmapPage` | kernel/memory/paging_manager.cpp:183-196 | keeps the tables and the buffer with the outcome of `UnmapFrom` |
| `Ext2Words.WordAfterPut` | kernel/fs/ext2/ext2.cpp:690-705 | a pointer written into a block of bytes is read back, and no other pointer of the block changes |
| `Ext2Words.LowestByteFirst` | kernel/fs/ext2/ext2.cpp:690-705 | the bytes of a pointer are its digits to base 256, lowest first |
| `Ext2Tree.SlotsDisjoint` | kernel/fs/ext2/ext2.cpp:567-712 | no two pointer slots, of one inode or two, hold the same block |
| `Ext2Tree.HungOwned` | kernel/fs/ext2/ext2.cpp:669-709 | hanging a fresh block on an unset pointer of an indirect block sets that slot only, and every block still has exactly one owner slot |
| `Ext2Tree.RootOwned` | kernel/fs/ext2/ext2.cpp:583-622 | the same for an unset pointer of the inode |
| `Ext2Tree.DropOwned` | kernel/fs/ext2/ext2.cpp:1463-1545 | clearing an inode leaves the ownership of all other inodes |
| `Ext2Alloc.FreeCountIsClearBits` | kernel/fs/ext2/ext2.cpp:1263-1461 | the superblock's count is the number of clear bits of all bitmaps |
| `Ext2Alloc.FindGroup` | kernel/fs/ext2/ext2.cpp:1284-1298 | the first group with free blocks, or none |
| `Ext2Alloc.AllocBlock` | kernel/fs/ext2/ext2.cpp:1263-1337 | fails exactly when the superblock counts no free block; otherwise returns the lowest block whose bit is clear, sets that bit only, and moves both counts |
| `Ext2Alloc.FreeBlock` | kernel/fs/ext2/ext2.cpp:1415-1461 | a clear bit is left alone; a set one is cleared, alone, and both counts move |
| `Ext2State.TakenOk` | kernel/fs/ext2/ext2.cpp:1263-1337 | a block just allocated was neither metadata nor in any file |
| `Ext2State.DropOk` | kernel/fs/ext2/ext2.cpp:1463-1545 | once an inode is cleared, the used blocks nobody reaches are exactly its blocks |
| `Ext2Slots.LeafSlotInjective` | kernel/fs/ext2/ext2.cpp:583-622 | block indices below 12 + N + N*N resolve to distinct slots |
| `Ext2Slots.LeafSlotAscends` | kernel/fs/ext2/ext2.cpp:583-622 | slots follow the order of the file: a lower block index has a lexicographically lower slot |
| `Ext2Slots.LeafSlotOnto` | kernel/fs/ext2/ext2.cpp:583-622 | every leaf slot under pointers 0 to 13 is the slot of a block index below 12 + N + N*N |
| `Ext2Slots.LeafSlotInOrder` | kernel/fs/ext2/ext2.cpp:583-622 | the index arithmetic finds block i where a depth-first walk of the pointers meets its i-th leaf |
| `Ext2Slots.FileOrderSorted` | kernel/fs/ext2/ext2.cpp:583-622 | that walk meets exactly the leaf slots under pointers 0 to 13, in ascending order |
| `Ext2Slots.DoublyIndex` | kernel/fs/ext2/ext2.cpp:618-622 | the two indices of the doubly indirect range are in bounds and name the slot that a walk of the pointers in order meets as that block |
| `Ext2Triple.IndependentIff` | kernel/fs/ext2/ext2.cpp:635-669 | beyond that range, over all pairs: the byte ranges of the pointers of two blocks coincide or are disjoint on the way and part before the end exactly when the stretches of N*N are four or more apart, or the same with the blocks not a multiple of N apart |
| `Ext2Triple.FirstClashes` | kernel/fs/ext2/ext2.cpp:635-669 | blocks 0 and N of that range have one pointer, blocks 0 and N*N overlapping ones |
| `Ext2Triple.NextStretchesSeeIt` | kernel/fs/ext2/ext2.cpp:635-654 | in a cleared block, the pointer stored for one stretch is read, shifted by one to three bytes, as that of each of the next three |
| `Ext2Blocks.TakeBlock` | kernel/fs/ext2/ext2.cpp:593-601 | allocation, sector count and clearing move no slot and no data; the sectors gained pay for the block taken, and are counted even when none was free |
| `Ext2Blocks.RootPointer` | kernel/fs/ext2/ext2.cpp:583-616 | the inode's pointer, allocated when unset and wanted, with every other slot kept |
| `Ext2Blocks.IndirectPointer` | kernel/fs/ext2/ext2.cpp:669-709 | the same for a pointer of an indirect block |
| `Ext2Blocks.GetBlockForOffset` | kernel/fs/ext2/ext2.cpp:567-712 | returns what the slot of the offset holds, which is the leaf a walk of the pointers meets after as many others as there are blocks before the offset; allocating changes only unset slots on the way to it, no data block and no other inode; a failed allocation means no block is free; a lookup past the end is 0 |
| `Ext2Content.DistinctBlocks` | kernel/fs/ext2/ext2.cpp:583-622 | different blocks of a file, and blocks of different files, are different disk blocks |
| `Ext2Content.ExtendKeepsBytes` | kernel/fs/ext2/ext2.cpp:567-712 | adding blocks to one file changes no byte of any file |
| `Ext2Content.WrittenKeepsBytes` | kernel/fs/ext2/ext2.cpp:815-822 | writing inside one block changes exactly the named bytes of that file |
| `Ext2Size.NewSizeIs` | kernel/fs/ext2/ext2.cpp:793-835 | whatever the unsigned 32- and 64-bit steps do, a write that moved a byte sets the size to where it stopped, modulo 2^32 |
| `Ext2Size.WriteKeepsLengthIff` | kernel/fs/ext2/ext2.cpp:793-835 | the size is the larger of old size and end of write exactly when the write ends at or past the old end |
| `Ext2Io.WriteChunk` | kernel/fs/ext2/ext2.cpp:803-825 | one turn of the loop: the chunk is in the file and every other byte of every file is kept, or no block was free |
| `Ext2Io.WriteLoop` | kernel/fs/ext2/ext2.cpp:803-825 | the bytes done so far are in place and nothing else changed; it stops early only for an interrupt or a full volume |
| `Ext2Io.LargestFile` | kernel/fs/ext2/ext2.cpp:567-581 | the end of the largest file is a block for every leaf slot under all fifteen pointers |
| `Ext2Io.WriteFile` | kernel/fs/ext2/ext2.cpp:787-838 | the same, with the size set, or nothing at all when the end is past the largest file |
| `Ext2Read.Lookup` | kernel/fs/ext2/ext2.cpp:567-579 | a lookup without allocation is the block of the offset, 0 in a hole and at or past the end |
| `Ext2Read.ReadMiddle` | kernel/fs/ext2/ext2.cpp:742-760 | the loop that compares block numbers stops at the last boundary, or at a hole before it exactly when 0 is looked up there too; complete blocks are copied, holes stay zero and are not counted |
| `Ext2Read.ReadFile` | kernel/fs/ext2/ext2.cpp:714-785 | the buffer is what is in the file from the offset, holes as zeros; unless interrupted all that was asked for comes exactly when none of it is in a hole; bytes nobody asked for are reported exactly for an empty read at an end of file inside a block |
| `Ext2Branches.BeforeNext` | kernel/fs/ext2/ext2.cpp:1589-1595 | what is behind the first i + 1 pointers is what is behind the first i and, disjoint from it, behind pointer i |
| `Ext2Free.FreeSlot` | kernel/fs/ext2/ext2.cpp:1559-1576 | exactly the blocks at and below the slot are returned, and counted |
| `Ext2Free.FreeIndirect` | kernel/fs/ext2/ext2.cpp:1581-1638 | exactly the blocks below the indirect block are returned, at any of the three levels |
| `Ext2Free.FreeInodeBlocks` | kernel/fs/ext2/ext2.cpp:1547-1579 | exactly the inode's blocks, data and indirect, are returned, once each |
| `Ext2Free.FreeInode` | kernel/fs/ext2/ext2.cpp:1463-1545 | bits cleared are exactly those of the inode's blocks, the count rises by their number, an inode already free changes nothing |
| `Ext2Volume.WrittenFile` | kernel/fs/ext2/ext2.cpp:787-838 | for a file without holes and a write at or before its end, the file is its old prefix followed by the bytes written |
| `Ext2Volume.OtherFile` | kernel/fs/ext2/ext2.cpp:787-838 | every other file reads as before |
| `Ext2Volume.WriteOutcome` | kernel/fs/ext2/ext2.cpp:787-838 | the contents of every file after a write, complete, partial or empty |
| `Ext2Volume.Volume.Write` | kernel/fs/ext2/ext2.cpp:787-838 | keeps: a bit is set exactly for metadata and blocks reached from one slot, and counts are true; with the contents of `WriteOutcome` |
| `Ext2Volume.Volume.Read` | kernel/fs/ext2/ext2.cpp:714-785 | the same; of a file without holes it is that part of the file |
| `Ext2Volume.Volume.Free` | kernel/fs/ext2/ext2.cpp:1463-1545 | keeps the invariant, returns exactly the inode's blocks, and every other file reads as before |
| `HashTable.FindNode` | include/kernel/structures/hash_map.h:199-208 | the walk finds a key exactly when the chain has it |
| `HashTable.At` | include/kernel/structures/hash_map.h:189-211 | the value of the finite map the chains hold, or the empty item |
| `HashTable.Link` | include/kernel/structures/hash_map.h:329-358 | the walk to the end of the chain computes the linking the next row is about |
| `HashTable.LinkNodeRep` | include/kernel/structures/hash_map.h:329-362 | a new key goes into the finite map the chains hold; a key already there changes nothing |
| `HashTable.Rehash` | include/kernel/structures/hash_map.h:374-403 | the loops over old buckets and their nodes compute the rehashing the next row is about |
| `HashTable.RehashedRep` | include/kernel/structures/hash_map.h:374-403 | moving every node of every chain to any number of buckets keeps the finite map |
| `HashTable.Insert` | include/kernel/structures/hash_map.h:327-372 | inserts exactly new keys, and doubles exactly when the nodes would outnumber the buckets |
| `HashTable.ErasedDangles` | include/kernel/structures/hash_map.h:300-318 | a node with its back pointer set is still on its chain after it is freed, so the table stands for no finite map |
| `HashTable.LinkSetsBack` | include/kernel/structures/hash_map.h:336-357 | linking sets a back pointer exactly when the chain was not empty, and changes no other |
| `HashTable.EraseKeepsBack` | include/kernel/structures/hash_map.h:300-318 | erasing clears no other node's back pointer |
| `HashTable.RunRefinesIff` | include/kernel/structures/hash_map.h:288-372 | over any run of inserts and erases the table stands for the finite map throughout exactly when no erase meets a set back pointer |
| `HashTable.SpreadStep` | include/kernel/structures/hash_map.h:288-372 | while the keys differ modulo the number of buckets no back pointer is ever set, so every step is sound |
| `HashTable.CollidingErases` | include/kernel/structures/hash_map.h:288-372 | keys 0 and 16 in sixteen buckets: erasing 16 is unsound, before or after erasing 0 |
| `UniqueKeys.SmallKeysSpread` | include/kernel/structures/hash_map.h:171-171 | keys below the number of buckets have a bucket each |
| `HashTable.Erase` | include/kernel/structures/hash_map.h:288-325 | erases exactly a key that is there; the key leaves the map exactly when its node has no back pointer |
| `KeyList.Insert` | include/kernel/structures/node.h:21-52 | the two-way linked list stays linked and ascending and gains exactly the new value |
| `KeyList.RemoveHead` | include/kernel/structures/node.h:68-76 | the list without its head, relinked |
| `UniqueKeys.NextKeyIsSmallest` | include/kernel/structures/unique_hash_map.h:18-26 | the next key is free and every smaller one is live |
| `UniqueKeys.KeysCount` | include/kernel/structures/unique_hash_map.h:18-75 | live and deleted keys together are as many as the counter |
| `UniqueKeys.NewKeyPartition` | include/kernel/structures/unique_hash_map.h:22-34 | a new key keeps the partition, and the counter within the buckets after the table doubles |
| `UniqueKeys.ReusedKeyPartition` | include/kernel/structures/unique_hash_map.h:22-38 | a reused key keeps the partition and never makes the table grow |
| `UniqueKeys.StoredApart` | include/kernel/structures/unique_hash_map.h:18-60 | a key handed out shares its bucket with none, if need be after the table doubles, so a unique map never sets a back pointer |
| `UniqueHashMap.UniqueHashMap.constructor` | include/kernel/structures/unique_hash_map.h:11-16 | an empty map |
| `UniqueHashMap.UniqueHashMap.InsertUnique` | include/kernel/structures/unique_hash_map.h:18-41 | always succeeds, under the smallest free key; the map gains exactly that binding |
| `UniqueHashMap.UniqueHashMap.EmplaceUnique` | include/kernel/structures/unique_hash_map.h:43-60 | the same, with the key taken first |
| `UniqueHashMap.UniqueHashMap.EraseKey` | include/kernel/structures/unique_hash_map.h:62-75 | exactly a live key is removed, and becomes reusable |
| `UniqueHashMap.UniqueHashMap.Lookup` | include/kernel/structures/hash_map.h:189-211 | the finite map's value or the empty item |
| `Mutex.StepKeeps` | kernel/threading/mutex.cpp:10-86 | every step of every task keeps: at most one owner, value 1 exactly while there is one, the queue is the waiting tasks |
| `Mutex.MutualExclusion` | kernel/threading/mutex.cpp:10-86 | in every interleaving one owner at most, none at value 0, never a hand-over from an empty queue; the tasks handed the mutex and then those still queued are exactly those that queued, in order of arrival |
| `Mutex.FreeIsTaken` | kernel/threading/mutex.cpp:10-68 | in every run a task that looks at a mutex nobody owns owns it from that step on, by `lock` or `try_lock`; one that finds an owner goes to queue, or gets false with nothing changed |
| `Mutex.LockWaits` | kernel/threading/mutex.cpp:10-28 | a call of `lock` while somebody owns the mutex waits behind all who wait |
| `Mutex.LockUnlock` | kernel/threading/mutex.cpp:10-86 | `lock` makes the caller the owner of a free mutex, and `unlock` with nobody waiting leaves the mutex as it was |
| `Mutex.HandsToFirst` | kernel/threading/mutex.cpp:72-86 | in every run an owner that found a waiter hands the mutex to the one that waited longest, whatever others do in between; nobody else comes to own it, and the rest keep their places |
| `Mutex.StrandsIff` | kernel/threading/mutex.cpp:10-86 | in every run: between an owner finding the queue empty and its resetting the value the others may do anything; the tasks then left waiting are exactly those that queued in between, so there are some exactly when one did |
| `Mutex.StrandedWaiter` | kernel/threading/mutex.cpp:10-86 | an interleaving that ends with the mutex free and a task waiting |
| `Mutex.StrandingStarts` | kernel/threading/mutex.cpp:10-86 | its first steps, from a fresh mutex |
| `WaitQueue.EnqueueNode` | kernel/threading/task_wait_queue.cpp:10-26 | the circular list stays linked and the task is last |
| `WaitQueue.DequeueNode` | kernel/threading/task_wait_queue.cpp:28-50 | the list stays linked without its head, which is returned |
| `WaitQueue.DequeueNodes` | kernel/threading/task_wait_queue.cpp:52-80 | the cut-open list is walked once and yields all tasks in order |
| `WaitQueue.FindTask` | kernel/threading/task_wait_queue.cpp:85-101 | once round the ring finds the first node of the task, if any |
| `WaitQueue.RemoveNode` | kernel/threading/task_wait_queue.cpp:82-117 | only the first node of the task leaves, wherever it is |
| `WaitQueue.TaskWaitQueue.constructor` | kernel/threading/task_wait_queue.cpp:8-8 | nobody waits |
| `WaitQueue.TaskWaitQueue.Empty` | kernel/threading/task_wait_queue.cpp:119-122 | true exactly when nobody waits |
| `WaitQueue.TaskWaitQueue.Enqueue` | kernel/threading/task_wait_queue.cpp:10-26 | the waiting tasks, then the newcomer |
| `WaitQueue.TaskWaitQueue.Dequeue` | kernel/threading/task_wait_queue.cpp:28-50 | the oldest leaves |
| `WaitQueue.TaskWaitQueue.DequeueAll` | kernel/threading/task_wait_queue.cpp:52-80 | all leave, in order |
| `WaitQueue.TaskWaitQueue.RemoveTask` | kernel/threading/task_wait_queue.cpp:82-117 | one task leaves, the others keep their order |
| `VmaList.MergeSame` | kernel/memory/virtual_allocator.cpp:377-403 | merging neighbours with equal attributes keeps the tiling and changes no address's attributes |
| `VmaList.ReplaceOne` | kernel/memory/virtual_allocator.cpp:182-240 | replacing a node by others over the same range changes attributes in that range only |
| `VirtualAllocator.InsertedMidOk` | kernel/memory/virtual_allocator.cpp:182-240 | each of the four splits covers the container, and only the region changes attributes |
| `VirtualAllocator.FreedMidOk` | kernel/memory/virtual_allocator.cpp:274-311 | freeing a whole node, its start or its end covers the container, and only the region becomes free |
| `VirtualAllocator.FreedMidTilesIff` | kernel/memory/virtual_allocator.cpp:274-338 | the nodes a free leaves cover the container exactly when the region touches one of its ends |
| `VirtualAllocator.FindNode` | kernel/memory/virtual_allocator.cpp:405-408 | the first node holding an address, or none |
| `VirtualAllocator.Combine` | kernel/memory/virtual_allocator.cpp:377-403 | both merges keep the tiling and every attribute |
| `VirtualAllocator.InsertRegion` | kernel/memory/virtual_allocator.cpp:174-253 | the list still tiles the range, and attributes change exactly on the region |
| `VirtualAllocator.FreeRegion` | kernel/memory/virtual_allocator.cpp:264-375 | refused exactly when the address is not allocated; otherwise attributes change exactly on the region, to free |
| `VirtualAllocator.SkippedIff` | kernel/memory/virtual_allocator.cpp:415-429 | the loop's test skips a node exactly when it has no page-aligned room outside the ignored region |
| `VirtualAllocator.FindFreeRegion` | kernel/memory/virtual_allocator.cpp:410-450 | the lowest page-aligned room in the first free node that has any, or the empty region exactly when no node has any |
| `VirtualAllocator.Allocator.constructor` | kernel/memory/virtual_allocator.cpp:9-17 | one free region over the whole range |
| `VirtualAllocator.Allocator.Allocate` | kernel/memory/virtual_allocator.cpp:70-81 | null exactly for a size that is no positive number of pages or when no free node has page-aligned room; otherwise the lowest page-aligned stretch that was free becomes allocated with the given protection; nothing else changes |
| `VirtualAllocator.Allocator.Free` | kernel/memory/virtual_allocator.cpp:264-375 | succeeds exactly on an allocated address, and frees exactly the region |
| `VnodeCounts.CloseKeeps` | kernel/vfs/vfs.cpp:586-609 | closing one open file keeps: a vnode's count is its open files, it is listed while that is not 0, its file is in the directory |
| `VnodeCounts.ReferenceKeeps` | kernel/vfs/vfs.cpp:130-135 | one more open file on a listed vnode keeps it |
| `VnodeCounts.NewVnodeKeeps` | kernel/vfs/vfs.cpp:546-565 | so does a vnode made for a file that had none |
| `VnodeCounts.UnlinkNowKeeps` | kernel/vfs/vfs.cpp:466-471 | and removing the path of a file nobody has open |
| `VnodeCounts.UnlinkLaterKeeps` | kernel/vfs/vfs.cpp:455-461 | and marking the vnode of one that is open |
| `VnodeCounts.AddFileKeeps` | kernel/threading/scheduler.cpp:1220-1228 | a new open file with one descriptor keeps descriptor counts true |
| `VnodeCounts.DuplicateKeeps` | kernel/threading/scheduler.cpp:1267-1288 | so does a second descriptor |
| `VnodeCounts.RemoveKeeps` | kernel/threading/scheduler.cpp:1254-1265 | removing a descriptor keeps them, and removes the open file exactly with its last one |
| `VnodeCounts.ExitKeeps` | kernel/threading/scheduler.cpp:1614-1619 | dropping a process's tables keeps them |
| `Vfs.DescriptorsReach` | kernel/threading/scheduler.cpp:1230-1244 | whatever a descriptor names exists: open file, vnode and file |
| `VnodeOps.FindVnode` | kernel/vfs/vfs.cpp:526-544 | finds the file's vnode exactly when it has one |
| `VnodeOps.ReferenceFile` | kernel/vfs/vfs.cpp:112-131 | the vnode of the path's file with one more open file, or a new one with one, all others unchanged; refused exactly for a path unlinked while open |
| `VnodeOps.TakePath` | kernel/vfs/vfs.cpp:601-604 | the path kept for a vnode is looked up and erased; the map stays sound exactly when its node has no back pointer |
| `VnodeOps.CloseOpenFile` | kernel/vfs/vfs.cpp:586-609 | the statements of the close compute the step `CloseKeeps` speaks of, and the map of deleted paths stays sound exactly when the close is not the last of a deleted vnode whose node has its back pointer set |
| `VnodeOps.UnlinkFile` | kernel/vfs/vfs.cpp:429-474 | a path whose file is not open goes, one whose file is open is kept for the last close; refused exactly when unknown or kept already; indices that differ modulo the number of buckets keep the chains apart |
| `VnodeOps.ClosedOnlyCloses` | kernel/vfs/vfs.cpp:586-609 | along any closes, the paths gone are exactly those unlinked under vnodes that were erased |
| `VnodeOps.ListedWhileOpen` | kernel/vfs/vfs.cpp:596-608 | a vnode is listed exactly while an open file names it |
| `ProcessExit.CloseAll` | kernel/threading/scheduler.cpp:1614-1619 | the closes of a dying process go through exactly when no deleted path that only it had open is behind another node |
| `ProcessExit.PendingTable` | kernel/vfs/vfs.cpp:455-461 | two files unlinked while open under vnodes 0 and 16 are a sound table |
| `ProcessExit.PendingShareBucket` | kernel/vfs/vfs.cpp:455-461 | in it the second path's node has its back pointer set, so that file's last close and the end of the process are not sound |
| `Vfs.Vfs.constructor` | kernel/vfs/vfs.cpp:526-565 | a directory with nothing open |
| `Vfs.Vfs.Open` | kernel/vfs/vfs.cpp:57-136 | succeeds exactly when permitted, the file exists or is to be created, and its path was not unlinked while open; refused exactly when it exists or is created and is not permitted; then the descriptor names a new open file on the file's vnode, which counts one more or is new with one, and nothing else changes; keeps all counts |
| `Vfs.Vfs.Close` | kernel/vfs/vfs.cpp:138-156 | keeps all counts; the open file goes exactly with its last descriptor, and a file unlinked while open exactly with its last open file; the map of deleted paths stays sound exactly when that erase meets no back pointer, and always while the chains are apart |
| `Vfs.Vfs.Duplicate` | kernel/threading/scheduler.cpp:1267-1288 | the new descriptor names the same open file |
| `Vfs.Vfs.Unlink` | kernel/vfs/vfs.cpp:429-474 | at once when nobody has the file open, otherwise deferred; refused exactly for an unknown or already unlinked path; the chains of deleted paths stay apart while the vnodes waiting differ modulo the number of buckets |
| `Vfs.Vfs.Exit` | kernel/threading/scheduler.cpp:1614-1619 | goes through exactly when no deleted path that only this process had open is behind another node; then all of its files are closed, the vnodes left are exactly those other processes have open, and the files gone those unlinked under the others |
| `BitWords.SetOne` | include/kernel/structures/bitmap.h:19-26 | setting a bit through its word changes that bit only, in either bit order |
| `BitWords.FullNode` | include/kernel/structures/bitmap.h:187-189 | a word equal to all ones or zero is a node of matching bits, in either order |
| `BitWords.OtherNode` | include/kernel/structures/bitmap.h:210-214 | any other word has a bit that does not match |
| `BitmapSearch.SetRange` | include/kernel/structures/bitmap.h:84-133 | from any start: exactly the range takes the value, unless it starts in the second half of a node and ends inside the next, whose rest then takes it too; so the range alone is set exactly when it does not, or those bits had the value |
| `BitmapSearch.SearchBit` | include/kernel/structures/bitmap.h:149-160 | succeeds exactly when some bit matches, with the first from the remembered node on and round to the start, and remembers its node |
| `BitmapSearch.SearchStep` | include/kernel/structures/bitmap.h:185-218 | one turn: the batch grows, or every start up to this node is ruled out |
| `BitmapSearch.SearchIn` | include/kernel/structures/bitmap.h:176-226 | finds the first node from which the whole batch matches, exactly when there is one |
| `BitmapSearch.Search` | include/kernel/structures/bitmap.h:135-147 | a node-aligned run of matching bits, the first from the remembered node on or else the first that ends by that node, found exactly when there is one; the node the run ends in is remembered |
| `PhysicalAllocator.FreeRunInside` | kernel/memory/physical_allocator.cpp:137-148 | with the padding bits set a free run lies among the pages |
| `PhysicalAllocator.Allocator.AllocPage` | kernel/memory/physical_allocator.cpp:124-135 | fails exactly when every page is in use; otherwise exactly one page becomes used: the one named, or the first free one from the remembered node on and round to the start, whose node is remembered |
| `PhysicalAllocator.RunAcrossMissed` | kernel/memory/physical_allocator.cpp:137-148 | with all pages free but the search to start at the second of three nodes, three nodes of pages are not found |
| `PhysicalAllocator.Allocator.AllocConsecutivePages` | kernel/memory/physical_allocator.cpp:137-148 | fails exactly when neither stretch of the search holds a free node-aligned run; otherwise exactly the first such run becomes used, and the node it ends in is remembered |
| `PhysicalAllocator.Allocator.FreePage` | kernel/memory/physical_allocator.cpp:150-154 | exactly that page becomes free |
| `BootMap.SplitOk` | boot/kernel_parser.c:94-160 | the pieces of an entry stay inside it, in order, cover it, and are the kernel's exactly inside the range |
| `BootMap.PiecesWithin` | boot/kernel_parser.c:84-165 | the map stays sorted and disjoint |
| `BootMap.PiecesKind` | boot/kernel_parser.c:84-165 | same coverage, and the kernel's exactly where it was or the range is |
| `BootMap.GrowsByTwo` | boot/kernel_parser.c:84-165 | however many entries the range meets, at most two are added |
| `BootMap.AddPieces` | boot/kernel_parser.c:101-160 | the branches append exactly the pieces |
| `BootMap.AddEntries` | boot/kernel_parser.c:93-161 | the loop over the old entries computes exactly the map the results above are about |
| `BootMap.AddAllOk` | boot/kernel_parser.c:84-165 | after any sequence of calls: sorted, disjoint, same coverage, the kernel's exactly where it was or was added, at most two entries per call |
| `BootMap.MemoryMap.AddKernelEntry` | boot/kernel_parser.c:84-165 | the three results for the map in place |
| `Path.Append` | kernel/vfs/path.cpp:61-70 | `..` takes off the branch before it and `.` only itself, if there is one before; anything else, and either as the first branch, is added |
| `Path.BuildPath` | kernel/vfs/path.cpp:50-94 | the loop over start and size of the branch computes the parse that the laws below decide for every string |
| `Path.OneBranch` | kernel/vfs/path.cpp:50-94 | a string without a divider is one branch, or none when empty |
| `Path.FirstDivider` | kernel/vfs/path.cpp:50-94 | a leading divider is an empty branch, which `.` keeps, `..` cancels and a name follows |
| `Path.LastBranch` | kernel/vfs/path.cpp:50-94 | for every string: a last divider or `.` changes nothing, `..` drops the last branch, a name is added; on an empty path `.` and `..` are added |
| `Path.InAndOut` | kernel/vfs/path.cpp:34-94 | after a parsed path a name adds that branch, the name and `..` give the path back, and `.` stays |
| `Path.ParentDropsLast` | kernel/vfs/path.cpp:34-94 | a parsed path followed by `..` is that path without its last branch |
| `Path.ToString` | kernel/vfs/path.cpp:34-48 | every branch followed by a divider, the last divider dropped unless it is all there is |
| `Path.BuildCanonical` | kernel/vfs/path.cpp:50-94 | a parsed path has no dividers in it and, after its first branch, no empty, `.` or `..` branch |
| `Path.ParsePrinted` | kernel/vfs/path.cpp:34-94 | parsing a printed path of that kind gives it back |
| `Path.RoundTrip` | kernel/vfs/path.cpp:34-94 | for every string, parsing what its parse prints as changes nothing |
| `Path.PrintedAlikeIff` | include/kernel/vfs/path.h:51-51 | two parsed paths print alike exactly when their branches are equal |
| `Path.JoinPushes` | kernel/vfs/path.cpp:14-16 | onto a first path that is not empty, joining puts the second path's branches; its first, if relative or empty, goes, `..` with the last branch of the first path |
| `PathMeaning.MeaningKeptIff` | kernel/vfs/path.cpp:50-94 | parsing keeps where a string leads, component by component, from every working directory, exactly when no `..` in it follows a path of the single branch `/`, `.` or `..` |
| `PathMeaning.ShortestMisread` | kernel/vfs/path.cpp:61-70 | the parent of the root, `./..` and `../..` are parsed as the empty path, which leads nowhere |
| `PathMeaning.JoinMeansIff` | kernel/vfs/path.cpp:14-16 | a joined path leads where the second leads from where the first does, exactly when the second does not begin with `..` or the first is not such a single branch |

## Left out

- Liballoc.Heap.Kmalloc: stated for requests whose 32-bit page arithmetic does not overflow (`HeapSearch.RequestFits`); larger ones truncate in the code.
- Liballoc.Heap.Kfree: says nothing of the heap after a forged header was accepted (`forged`), because the code then follows whatever pointers it finds there.
- Liballoc.Heap.Krealloc: the same.
- `calloc`, and callers that write outside their blocks: user writes are modelled inside live blocks only. What fresh pages hold is whatever was at their addresses before.
- `memcpy` from and to null inside a failing `krealloc` is modelled as a copy that changes no heap byte.
- Scheduler context switching, quanta, signals, `fork` and `exec`; timed wake-up is kept out of the runs and has its exact condition instead.
- Ext2Blocks.GetBlockForOffset: does not model the triply indirect lookup, whose slots collide; freeing does cover that pointer.
- Ext2Io.WriteFile: stated below the triply indirect range, with blocks as units of the disk, so the 32-bit product of block number and block size is not modelled.
- Ext2Read.ReadFile: stated for files below the triply indirect range.
- The branches of `alloc_block` for counts that disagree with the bitmap: the invariant rules them out, so the model has no such path.
- ext2 I/O failures, timestamps, directories, inode allocation and the inode bitmap; an inode is in the table or not.
- `hash_map` keys inserted by `operator[]` into unique maps, reads through nodes already freed, and the float rounding of its load test for more than 2^24 nodes.
- `lock_interruptible`, and progress of the mutex: a stranded waiter shows it can be lost.
- VirtualAllocator.FreeRegion: requires that a region inside an allocated node touches one of its ends, because the middle case leaves nodes that do not tile; the refill of list pages and the mapping of physical pages are left out.
- `fork`, `exec`, duplication onto a descriptor in use, pipes, terminals and directories in the VFS counts, and mount selection.
- Vfs.Vfs.constructor: requires that no file has two names, so hard links are left out.
- Vfs.Vfs.Exit: says nothing after an erase that met a set back pointer, because later lookups read freed nodes.
- AddressSpaces.AddressSpace.MapPage: requires the tables above the buffer's own pages to be there and not in the one-page mapping buffer, so hanging and dropping that table during an exchange is left out.
- PagePermissions.SetPermissions: without user access, which also marks the three levels above.
- BitmapSearch.SetRange: requires a range that ends inside the bitmap, because the code writes past it otherwise.
- The capacity of 30 entries of the boot map, which the code does not test; the growth bound says when it suffices.
- Drivers, consoles, interrupts, the ELF loader and system call argument handling.
