# Pintos, verified

This project models the algorithms and protocols at the heart of the Pintos teaching kernel, and the sequence
comparison its test suite uses, and proves what they promise. `dafny verify dfyconfig.toml` checks all of it.

- **Lists** (`KernelList`, with `Ordering`, `MergeSort`, `Deduplication`): `lib/kernel/list.c` on the heap, as linked
  elements between two sentinels. The in-place natural merge sort is a stable sort for every strict weak order and ends
  because each pass halves the number of runs.
- **Threads** (`Threads`, `ThreadsInv`, `ThreadsSched`, `ThreadsWait`, `ThreadsLock`, `ThreadsCond`, `ThreadsRun`,
  `ThreadsProperties`, `ThreadsCondWait`, `ThreadsSignal`, `ThreadsLaws`): `threads/synch.c` and `threads/thread.c` as a
  step system. A step is what runs with interrupts off, so that every interleaving of the code is a run of the system.
  The invariants are proved for every step and so for every run, and the lock and condition calls from their call to
  their return.
- **Thread lists** (`ThreadQueues`, `KernelObject`): the interrupts-off sections on linked lists, the ready list and one
  wait list per semaphore, that share a single element per thread. Each section carries out its step, and is allowed to
  push because the invariants say that the element is on no list.
- **Allocators** (`Bits`, `Bitmaps`, `Palloc`, `Malloc`, `MallocInv`, `MallocRuns`, `MallocObject`): a bitmap packed
  into 32-bit words, page pools on top of it, and size-class arenas on top of those.
- **Hash table** (`HashTable`): agrees with a plain set over every run, whichever allocations fail.
- **File system** (`InodeIo`, `Directory`, `FileSys`, `FileSysRuns`, `FileSysData`, `FileSysFiles`): sector transfers
  that act on a flat file, a file of slots that acts as a map, the lifetimes of inodes, sectors and open files over every
  run, and writes that reach no other file.
- **Page tables and loader** (`PageDir`, `Loader`): two levels of tables that stand for one partial map, and segments
  loaded exactly where their headers say.
- **Library** (`HeapSort`, `Printf`, `PrintfText`, `Arith64`, `Lcs`): heapsort and bisection, the integer printer and
  `atoi`, 64-bit division from 32-bit instructions, and longest common subsequences.

`Wrappers`, `Powers`, `Sequences` and `Vaddr` hold what several modules share.

Where the code and its comments disagree, the model follows the code:

- `umod64` and `smod64` return 32-bit types, so they are right for every dividend exactly when the divisor's magnitude
  is at most 2^32, respectively 2^31.
- `malloc` computes its page count in 32 bits. A block is smaller than asked for exactly when `size + 12` wraps around
  and a page is free; some sizes just below that always fail.
- `filesys_create` gives back only the inode's sector when the name cannot be added, so the data sectors stay marked.
- `dir_add` relies on reads that come up short only at the end of the directory. Each read also needs a bounce buffer:
  without one, the scan for a free slot may stop at a slot in use and overwrite it, and the search for the name may miss
  the slot that holds it, so that the name is taken twice. `Directory.AddExact` says exactly when this does harm.
- `bitmap_scan_and_flip` finds an empty group at `start`, not always at 0.
- The `'` flag puts commas into a number, which `atoi` does not read past.
- A negative `*` width brings the minus flag together with the zero flag, and the field is then padded on both sides.

What the code does not decide is a parameter or an action: whether `malloc` has memory, for each bounce buffer of a
directory read or write too, whether a page is free, whether the free map can be written, and which thread an interrupt
wakes. A result that needs some of them to go well says so in its own condition.

## Model

| member | source | states |
|---|---|---|
| `KernelList.ChainDistinct` | pintos/src/lib/kernel/list.c:59-68 | a chain whose prev and next links are mutually inverse between the two sentinels never visits an element twice |
| `KernelList.ListInsert` | pintos/src/lib/kernel/list.c:168-178 | the chain gains exactly the new element, just before `before`; only the three elements involved are written |
| `KernelList.ListRemove` | pintos/src/lib/kernel/list.c:256-263 | the chain loses exactly that element, and the element behind it is returned |
| `KernelList.ListSpliceWithin` | pintos/src/lib/kernel/list.c:183-204 | splicing a range to another place of the same list leaves a chain with the range moved there, in order |
| `KernelList.ListSpliceAcross` | pintos/src/lib/kernel/list.c:183-204 | splicing a range into another list leaves two chains without common elements, the range moved from one to the other |
| `KernelList.List.PushBack` | pintos/src/lib/kernel/list.c:216-220 | the list becomes the old one with the element at its end |
| `KernelList.List.Reverse` | pintos/src/lib/kernel/list.c:324-345 | in-place link swaps leave a well-formed list that is the exact reversal |
| `KernelList.List.FindEndOfRun` | pintos/src/lib/kernel/list.c:365-380 | the walk stops where the specification function EndOfRun says |
| `MergeSort.EndOfRunSorted` | pintos/src/lib/kernel/list.c:360-380 | a run is sorted, and is followed by a descent or the end of the list |
| `KernelList.List.InplaceMerge` | pintos/src/lib/kernel/list.c:382-407 | the pointer version of the merge does what the specification function Merge does to the sequence, and keeps the same elements |
| `MergeSort.MergeCorrect` | pintos/src/lib/kernel/list.c:382-407 | merging two adjacent sorted ranges sorts their union, permutes nothing else, and keeps equivalent elements in their original order |
| `KernelList.List.MergePass` | pintos/src/lib/kernel/list.c:412-448 | one pass of the outer loop does what the specification function Pass does, and counts the runs it leaves |
| `MergeSort.PassCorrect` | pintos/src/lib/kernel/list.c:412-448 | a pass over r maximal runs leaves at most ceil(r/2) of them, permutes the list and is stable |
| `KernelList.List.Sort` | pintos/src/lib/kernel/list.c:409-448 | for every strict weak order the list ends well formed and a sorted, stable permutation of what it was; the number of runs is the termination measure |
| `Ordering.StableSortUnique` | pintos/src/lib/kernel/list.c:409-448 | the stable sort of a sequence is unique, so the contract of Sort fixes its result |
| `KernelList.List.InsertOrdered` | pintos/src/lib/kernel/list.c:450-467 | the element goes after all elements it is not less than, before the first it is less than |
| `KernelList.InsertKeepsSorted` | pintos/src/lib/kernel/list.c:450-467 | inserted there, a sorted list stays sorted and every equivalent element comes before the new one |
| `KernelList.List.Unique` | pintos/src/lib/kernel/list.c:469-494 | the list keeps the first of each group of adjacent equivalent elements, and the others are appended to `duplicates`, in order |
| `Deduplication.DedupCorrect` | pintos/src/lib/kernel/list.c:469-494 | the loop, run on a sequence, yields the firsts and the rests of the groups of adjacent equivalent elements |
| `ThreadsRun.InvStep` | pintos/src/threads/synch.c:61-340 | every step of semaphores, locks, conditions and the scheduler keeps all invariants (ready list, wait lists, wake-ups, mutual exclusion, lock holders, signal tokens) |
| `ThreadsRun.InvRun` | pintos/src/threads/synch.c:61-340 | the invariants hold after every run, for every interleaving at the points where interrupts are on |
| `ThreadsRun.ReachableInv` | pintos/src/threads/thread.c:91-121 | every state reached from an initial one satisfies the invariants |
| `ThreadsProperties.OneList` | pintos/src/threads/thread.c:215-245 | in every reachable state just one thread runs, a thread is on the ready list iff it is ready and not idle, its element is on at most one list, and a destroyed thread is on none |
| `ThreadsProperties.MutualExclusion` | pintos/src/threads/synch.c:185-238 | in every reachable state at most one thread is between the end of sema_down and sema_up on a lock, also while the holder field is null |
| `ThreadsProperties.NoLostWakeup` | pintos/src/threads/synch.c:53-122 | in every reachable state, a semaphore with units and a sleeper has a woken thread on its way to take one, even when others barge in |
| `ThreadsProperties.ValueCounts` | pintos/src/threads/synch.c:61-122 | over every run a semaphore's value is its first value plus ups minus downs |
| `ThreadsProperties.NoLostSignal` | pintos/src/threads/synch.c:269-324 | a thread blocked in cond_wait is still queued on its condition, or one signaller has taken it off and is about to wake it, never both or neither |
| `ThreadsProperties.SignalDelivered` | pintos/src/threads/synch.c:306-324 | a signaller's sema_up finds its thread still asleep in cond_wait with an empty private semaphore, puts the one unit there, and changes no other semaphore |
| `ThreadsCondWait.CondWaitReturns` | pintos/src/threads/synch.c:269-304 | over every interleaving from a call of cond_wait to its return: the caller then holds the condition's lock, and in between it was taken off the front of the condition's list exactly once and its private semaphore upped exactly once |
| `ThreadsCondWait.SignalArrives` | pintos/src/threads/synch.c:306-340 | the thread that cond_signal, or a turn of cond_broadcast, wakes is the one longest on the list; however long the signaller is preempted it stays asleep on that condition, and the signaller's next step fills its semaphore and no other |
| `ThreadsSignal.BroadcastWakesAll` | pintos/src/threads/synch.c:326-340 | over every interleaving from a call of cond_broadcast to its return: nobody is left on the condition's list, and each thread that was on it at the call has been taken off exactly once and its private semaphore upped exactly once |
| `ThreadsSignal.SignalWakesOne` | pintos/src/threads/synch.c:306-324 | over every interleaving from a call of cond_signal to its return: the list is one shorter at its front, the thread that was there has been upped exactly once, and none of the others |
| `ThreadsCondWait.UnitIsLast` | pintos/src/threads/synch.c:289-324 | a sleeper whose private semaphore has its unit has no signaller left on the way, so no second signal is spent on it |
| `ThreadsRun.QueueEffect` | pintos/src/threads/synch.c:289-340 | only cond_wait adds to a condition's list, at its end, and only cond_signal and cond_broadcast take from it, at its front |
| `ThreadsProperties.CondListProtected` | pintos/src/threads/synch.c:289-340 | while a thread holds a condition's lock, no step of another thread changes that condition's list |
| `ThreadsProperties.FifoPlace` | pintos/src/threads/thread.c:299-315 | a ready thread moves up exactly one place for each call of schedule, over every run |
| `ThreadsProperties.FifoChosen` | pintos/src/threads/thread.c:462-543 | a thread with k others ahead of it on the ready list is the one chosen by exactly the (k+1)th later call of schedule |
| `ThreadsLaws.LinePlace` | pintos/src/threads/synch.c:61-122 | over every run, a thread in the line of a semaphore or lock moves up one place for each up |
| `ThreadsLaws.LineChosen` | pintos/src/threads/synch.c:109-122 | a thread with k others ahead of it in the line is the one that exactly the (k+1)th up puts at the end of the ready list |
| `ThreadsLaws.UpWakesFirst` | pintos/src/threads/synch.c:109-122 | whoever calls sema_up, the thread that waited longest, and only that one, joins the end of the ready list |
| `ThreadsLaws.AcquireReturns` | pintos/src/threads/synch.c:185-201 | over every interleaving from a call of lock_acquire to its return, the caller then holds the lock |
| `ThreadsLaws.TryAcquireReturns` | pintos/src/threads/synch.c:203-221 | when lock_try_acquire returns the caller holds the lock exactly if it was free at the call, and it never waits |
| `ThreadsLaws.SleepsUnlocked` | pintos/src/threads/synch.c:289-304 | in every reachable state, a thread asleep in cond_wait does not hold the condition's lock |
| `ThreadsLaws.CreateStarts` | pintos/src/threads/thread.c:168-207 | a new thread is ready, last in line and about to run its own code, and nothing else changes |
| `ThreadsLaws.ExitEnds` | pintos/src/threads/thread.c:282-297 | a thread that exits never runs again, is on no list, and its page is free once another thread runs, unless it is the initial thread |
| `ThreadQueues.UnlistedElem` | pintos/src/threads/thread.h:77-94 | a thread that is in no line has its one list element on no list |
| `ThreadQueues.Queues.PushBack` | pintos/src/lib/kernel/list.c:216-220 | on linked lists that share one element per thread, exactly one line gains exactly that thread at its end, and no other list is touched |
| `ThreadQueues.Queues.PopFront` | pintos/src/lib/kernel/list.c:265-273 | exactly one line loses its first thread, which list_entry recovers from the element |
| `KernelObject.RunningNowhere` | pintos/src/threads/thread.c:215-245 | in every reachable state the element of the running thread is on no list, so it may be pushed |
| `KernelObject.WaiterNowhere` | pintos/src/threads/synch.c:109-122 | in every reachable state the first waiter of a semaphore, once popped, is blocked and on no other list |
| `KernelObject.UnknownNowhere` | pintos/src/threads/thread.c:168-207 | the page of a thread yet to be created is on no list, even if a dead thread used it before |
| `KernelObject.Kernel.ScheduleNext` | pintos/src/threads/thread.c:462-543 | on the linked ready list, a switch shows what the step system's switch yields, a dying thread's page freed |
| `KernelObject.Kernel.Unblock` | pintos/src/threads/thread.c:233-245 | a blocked thread on no list goes to the end of the linked ready list, and all the other lists stay |
| `KernelObject.Kernel.YieldSection` | pintos/src/threads/thread.c:299-315 | in every reachable state, thread_yield on the linked lists carries out the step of the interleaving system; its push is legal because the running thread is on no list |
| `KernelObject.Kernel.ExitSection` | pintos/src/threads/thread.c:282-297 | in every reachable state, the end of thread_exit on the linked lists carries out the step of the system |
| `KernelObject.Kernel.CreateSection` | pintos/src/threads/thread.c:168-207 | in every reachable state, a new thread's element goes to the end of the linked ready list, as the step of the system says |
| `KernelObject.Kernel.DownTurn` | pintos/src/threads/synch.c:61-77 | in every reachable state, a turn of the loop of sema_down, queueing up on the linked wait list or taking a unit, carries out the step of the system |
| `KernelObject.DownIsStep` | pintos/src/threads/synch.c:61-77 | wherever sema_down runs, in lock_acquire and cond_wait too, its turn is the whole step |
| `KernelObject.Kernel.TryDownSection` | pintos/src/threads/synch.c:84-103 | sema_try_down leaves all linked lists alone, carries out the step of the system, and reports whether it took a unit |
| `KernelObject.Kernel.UpSection` | pintos/src/threads/synch.c:109-122 | in every reachable state, sema_up moves the longest waiter's element from the linked wait list to the end of the ready list, as the step of the system says |
| `KernelObject.UpIsStep` | pintos/src/threads/synch.c:109-122 | wherever sema_up runs, in lock_release and the condition calls too, it is the whole step but for where its caller goes on |
| `Bitmaps.Bitmap.constructor` | pintos/src/lib/kernel/bitmap.c:73-94 | a new bitmap has the given number of bits, all false |
| `Bitmaps.Bitmap.Test` | pintos/src/lib/kernel/bitmap.c:197-204 | the mask test on the packed word is the bit seen from outside |
| `Bitmaps.Bitmap.Set` | pintos/src/lib/kernel/bitmap.c:144-180 | or-ing in a mask, or and-ing with its complement, changes exactly one bit of the bitmap |
| `Bitmaps.SetPacked` | pintos/src/lib/kernel/bitmap.c:33-54 | setting bit i mod 32 of word i div 32 sets bit i of the bitmap and no other, and words stay 32-bit |
| `Bitmaps.Bitmap.SetMultiple` | pintos/src/lib/kernel/bitmap.c:217-229 | exactly the bits of the range get the value |
| `Bitmaps.Bitmap.Contains` | pintos/src/lib/kernel/bitmap.c:249-264 | true iff some bit of the range has the value |
| `Bitmaps.Bitmap.Scan` | pintos/src/lib/kernel/bitmap.c:292-311 | the first group of equal bits at or after start, or none if there is none |
| `Bitmaps.Bitmap.ScanAndFlip` | pintos/src/lib/kernel/bitmap.c:313-327 | finds the first group and flips exactly it; changes nothing when there is none |
| `Bitmaps.FirstFitUnique` | pintos/src/lib/kernel/bitmap.c:292-311 | the outcome of a search is determined by its contract |
| `Bitmaps.EmptyGroup` | pintos/src/lib/kernel/bitmap.c:313-327 | a group of no bits is found at start, hence at 0 exactly when start is 0, although the comment says always 0 |
| `Bitmaps.FlipBack` | pintos/src/lib/kernel/bitmap.c:217-229 | clearing what a search took restores the bits |
| `Palloc.GetFinds` | pintos/src/threads/palloc.c:77-108 | a group of pages is handed out whenever the pool has one, the lowest, and none of its pages was in use |
| `Palloc.FreeUndoesGet` | pintos/src/threads/palloc.c:123-149 | freeing a group just obtained restores the pool |
| `Palloc.InitPool` | pintos/src/threads/palloc.c:158-177 | the pool manages all the pages left after its bitmap, all free; the bitmap fits into the pages taken for it, which are no more than it needs; init_pool panics exactly when there are no pages |
| `Palloc.InitPools` | pintos/src/threads/palloc.c:47-69 | the kernel and user pools are disjoint and end where memory ends, the user pool having half of it or its limit; palloc_init panics exactly for fewer than two pages or a limit of 0 |
| `Palloc.PageAllocator.GetMultiple` | pintos/src/threads/palloc.c:77-108 | one pool changes as the specification function Get says, the other not at all |
| `Palloc.PageAllocator.FreeMultiple` | pintos/src/threads/palloc.c:123-149 | pages in use go back to the pool they belong to, exactly these, and the other pool is unchanged |
| `Malloc.MallocInit` | pintos/src/threads/malloc.c:70-85 | the loop makes seven descriptors, of the block sizes 16 to 1024 and their numbers of blocks per arena |
| `Malloc.DescForFits` | pintos/src/threads/malloc.c:100-105 | a request goes to the smallest size class that holds it; only requests over 1024 bytes get whole pages |
| `MallocRuns.MallocKeeps` | pintos/src/threads/malloc.c:87-154 | malloc keeps the allocator's invariant, returns a block nobody held for the size asked, and leaves everything as it was when it fails |
| `MallocRuns.MallocFails` | pintos/src/threads/malloc.c:87-154 | malloc fails exactly when there is no free block of the size class and no free page, or no free run of the computed number of pages |
| `MallocRuns.FreeKeeps` | pintos/src/threads/malloc.c:216-264 | free of a block in a caller's hands keeps the invariant, takes just that block from the caller, and gives a wholly free arena back |
| `MallocRuns.ReallocKeeps` | pintos/src/threads/malloc.c:188-214 | realloc keeps the invariant for every block in a caller's hands and every size |
| `MallocRuns.ReallocGives` | pintos/src/threads/malloc.c:188-214 | a size of 0 just frees the old block; otherwise the caller has a new block of the new size in place of the old one, exactly unless memory has run out as malloc means it, and then everything is as it was |
| `MallocRuns.LiveAfter` | pintos/src/threads/malloc.c:87-264 | which blocks are in callers' hands after each call of malloc, free and realloc, and which groups of pages other clients hold |
| `MallocRuns.FreedComesNext` | pintos/src/threads/malloc.c:216-264 | the block freed last is the next that malloc gives out of its size class, unless its arena went back |
| `MallocRuns.After` | pintos/src/threads/malloc.c:66-294 | the invariant holds after every run of malloc, free, realloc and other clients of the page allocator that frees only what it holds |
| `MallocRuns.Initial` | pintos/src/threads/malloc.c:70-85 | the invariant holds to begin with |
| `MallocInv.AllFree` | pintos/src/threads/malloc.c:241-253 | free_cnt equals the number of blocks per arena exactly when all the arena's blocks are on the free list, so the assertion and the list removals in free are right |
| `MallocRuns.BlockToArena` | pintos/src/threads/malloc.c:266-282 | the assertions of block_to_arena hold for every block in a caller's hands |
| `MallocRuns.LiveInside` | pintos/src/threads/malloc.c:284-294 | a block lies inside the pages of its arena, past the header |
| `MallocRuns.LiveApart` | pintos/src/threads/malloc.c:87-154 | no byte belongs to two blocks in callers' hands |
| `MallocRuns.LiveApartFromFree` | pintos/src/threads/malloc.c:57-61 | no byte of a block in a caller's hands is in a free block, where the list links are |
| `MallocRuns.BigPagesWrap` | pintos/src/threads/malloc.c:105-112 | the 32-bit page count is 0 exactly for sizes from 2^32-4107 to 2^32-12; otherwise the block is large enough exactly when size + 12 does not wrap around |
| `MallocRuns.ReallocCopy` | pintos/src/threads/malloc.c:194-214 | the bytes realloc copies lie inside both blocks, which do not overlap, exactly when the new size does not wrap around or the old block is at most one page |
| `MallocInv.PageAccounting` | pintos/src/threads/palloc.c:77-149 | a page is marked in the pool exactly when one group of pages in use owns it |
| `MallocRuns.EveryArenaServes` | pintos/src/threads/malloc.c:241-253 | no arena is kept without some block of it in a caller's hands |
| `MallocRuns.NothingLeaks` | pintos/src/threads/malloc.c:216-264 | once every block has been freed, every page is free again |
| `MallocObject.KernelHeap.Malloc` | pintos/src/threads/malloc.c:87-154 | the code, over the page bitmap, does what the step function says and keeps the invariant |
| `MallocObject.KernelHeap.Grow` | pintos/src/threads/malloc.c:124-146 | a new page becomes an arena, its blocks joining the free list in order |
| `MallocObject.KernelHeap.Shrink` | pintos/src/threads/malloc.c:241-253 | each block of a wholly free arena is found on the free list, and the page goes back marked in use |
| `MallocObject.KernelHeap.Free` | pintos/src/threads/malloc.c:216-264 | the code does what the step function says; no assertion in it fails |
| `MallocObject.KernelHeap.Realloc` | pintos/src/threads/malloc.c:188-214 | the code does what the step function says, and so what ReallocGives says of it |
| `HashTable.ContentsSet` | pintos/src/lib/kernel/hash.c:304-326 | a table holds a set without two elements alike, and its chains add up to the size of that set |
| `HashTable.OneChain` | pintos/src/lib/kernel/hash.c:304-326 | the chain its hash selects decides whether an element like e is in the table |
| `HashTable.RegroupKeeps` | pintos/src/lib/kernel/hash.c:390-410 | moving the elements to any number of new buckets keeps the contents, with each element where its hash selects |
| `Bits.TurnOff` | pintos/src/lib/kernel/hash.c:328-340 | x & (x-1) is smaller than x, keeps its top bit, and is zero exactly for powers of two |
| `HashTable.Hash.BucketsFor` | pintos/src/lib/kernel/hash.c:364-372 | the loop ends at the largest power of two not above max(4, elem_cnt/2) |
| `HashTable.IdealLoad` | pintos/src/lib/kernel/hash.c:342-345 | with that many buckets, chains are shorter than four on average and, past four buckets, at least two |
| `HashTable.Hash.Rehash` | pintos/src/lib/kernel/hash.c:347-413 | the contents stay the same whether or not the allocation fails |
| `HashTable.HashInit` | pintos/src/lib/kernel/hash.c:22-42 | succeeds exactly when there is memory for the first buckets, and the table is then empty |
| `HashTable.Hash.Insert` | pintos/src/lib/kernel/hash.c:94-110 | acts as insertion into a plain set: the old like element is returned, or the new one is added |
| `HashTable.Hash.Replace` | pintos/src/lib/kernel/hash.c:112-127 | acts as replacement in a plain set |
| `HashTable.Hash.Find` | pintos/src/lib/kernel/hash.c:129-135 | returns the element of the set like e, or none |
| `HashTable.Hash.Delete` | pintos/src/lib/kernel/hash.c:137-154 | acts as deletion from a plain set |
| `HashTable.Hash.Run` | pintos/src/lib/kernel/hash.c:94-154 | any run of operations answers just as a plain set would, whichever allocations fail |
| `HashTable.HashIterator.Next` | pintos/src/lib/kernel/hash.c:210-235 | visits the next element of the buckets laid end to end, or reports the end |
| `HashTable.VisitAll` | pintos/src/lib/kernel/hash.c:182-235 | the iteration idiom visits every element exactly once |
| `InodeIo.Reach` | pintos/src/filesys/inode.c:200-226 | a transfer never goes past the request or the end of the file |
| `InodeIo.Inode.WriteChunk` | pintos/src/filesys/inode.c:284-308 | one turn of the write loop replaces just those bytes of the disk; the bounce buffer is never filled with zeros, for a chunk that fills its sector is written directly |
| `InodeIo.Inode.ReadAt` | pintos/src/filesys/inode.c:197-250 | returns exactly the bytes from offset on, min(size, length - offset) of them; without a bounce buffer, a prefix up to the first partial sector |
| `InodeIo.Inode.WriteAt` | pintos/src/filesys/inode.c:252-318 | replaces exactly those bytes and no other byte of the whole disk; nothing when writes are denied; a prefix without a bounce buffer |
| `InodeIo.ChunkIntoRaw` | pintos/src/filesys/inode.c:46-54 | writing part of the sector that byte_to_sector selects writes just those bytes of the disk |
| `InodeIo.ReadBack` | pintos/src/filesys/inode.c:197-318 | what was written is read back, and a file in other sectors reads as before |
| `Directory.DecodeEncode` | pintos/src/filesys/directory.c:17-22 | a directory entry survives being laid out in its 20 bytes |
| `Directory.CStringOf` | pintos/src/filesys/directory.c:169-172 | a name copied into the 15-byte field reads back as itself, whatever bytes follow it |
| `Directory.Reassign` | pintos/src/filesys/directory.c:141-216 | giving a free slot to a new name, or giving one up, changes exactly one key of the map and keeps names unique and 1 to 14 bytes long |
| `Directory.AddExact` | pintos/src/filesys/directory.c:151-178 | for every way reads can fail for want of memory: a dir_add that succeeds adds one name and changes no other exactly when no slot that lookup missed holds the name and the slot it writes is free |
| `Directory.AddFaultless` | pintos/src/filesys/directory.c:135-140 | with memory to spare dir_add fails just for a bad name, a name in use or a full directory, and does no harm |
| `Directory.LostName` | pintos/src/filesys/directory.c:159-175 | a read that fails in the scan makes dir_add overwrite a slot in use: the name there is gone |
| `Directory.TakenTwice` | pintos/src/filesys/directory.c:155-157 | a read that fails in lookup makes dir_add take a name twice |
| `Directory.Capacity` | pintos/src/filesys/directory.c:24-30 | a directory holds at most as many names as it has slots, and has a free slot exactly while it holds fewer |
| `Directory.RemoveExact` | pintos/src/filesys/directory.c:181-216 | however its reads fail, a dir_remove that succeeds removes that name and no other; with memory to spare it fails just for a name not in use |
| `Directory.ZeroFilled` | pintos/src/filesys/directory.c:24-30 | a directory fresh from dir_create stands for the empty map |
| `Directory.OpsAreMap` | pintos/src/filesys/directory.c:135-216 | over every run of dir_add and dir_remove with memory to spare, the slots stand for the map that those calls describe |
| `Directory.Dir.Lookup` | pintos/src/filesys/directory.c:86-112 | finds the first slot that holds the name among those it can read before a read fails |
| `Directory.Dir.FreeSlot` | pintos/src/filesys/directory.c:159-169 | the scan ends at the first free slot, at the end, or at the slot whose read fails |
| `Directory.Dir.Add` | pintos/src/filesys/directory.c:135-179 | the directory's bytes change as the slot function Added says, for every name, every read that may fail, and also when the write finds no buffer or is denied |
| `Directory.Dir.Remove` | pintos/src/filesys/directory.c:181-216 | frees the slot that lookup finds and returns its sector; nothing changes when the inode cannot be opened, or the write finds no buffer or is denied |
| `Directory.Dir.Run` | pintos/src/filesys/directory.c:135-216 | any run of calls leaves in the directory's bytes what the slot functions say |
| `Directory.Dir.ReadDir` | pintos/src/filesys/directory.c:218-236 | returns the next name in slot order, or ends at the end of the directory or at a failed read |
| `Directory.ListAll` | pintos/src/filesys/directory.c:218-236 | reading an unmodified directory lists its names in order up to a failed read; with memory to spare, every name of the map exactly once |
| `FileSysRuns.FormatInv` | pintos/src/filesys/filesys.c:94-104 | a formatted disk satisfies the invariants, with no loose sector and an empty root directory of 16 slots |
| `FileSysRuns.FormatFits` | pintos/src/filesys/filesys.c:94-104 | formatting succeeds exactly when the disk has room for two inodes, the free map and the root directory |
| `FileSysRuns.AllocateTakes` | pintos/src/filesys/free-map.c:22-40 | sectors handed out were not marked; when the map cannot be written the change is undone |
| `FileSysRuns.AllocateFinds` | pintos/src/filesys/free-map.c:22-40 | free_map_allocate succeeds exactly when there are that many free sectors in a row and the map can be written |
| `FileSysRuns.AllocatedNotZero` | pintos/src/filesys/filesys.c:49-56 | an allocated inode sector is never 0, which filesys_create takes for none |
| `FileSysRuns.CreateAdds` | pintos/src/filesys/filesys.c:42-60 | a created file is new and has the length asked for; the directory changes as dir_add says, by that one name and no other exactly when no failed read did harm; a failed call names nothing |
| `FileSysRuns.CreateSucceeds` | pintos/src/filesys/filesys.c:42-60 | filesys_create succeeds exactly when there is room and dir_add finds a slot: with memory to spare, when the name is valid and new and the directory not full |
| `FileSysRuns.HasRoomIs` | pintos/src/filesys/inode.c:68-106 | there is room exactly when, next to the first free sector, there are enough free sectors in a row, the free map can be written and there is memory |
| `FileSysRuns.CreateLeaks` | pintos/src/filesys/filesys.c:49-56 | with memory to spare, a failed call leaves sectors marked exactly when the file was to have data, there was room for it, and the name is bad, taken, or the directory full |
| `FileSysRuns.CreateLoses` | pintos/src/filesys/filesys.c:49-56 | for every outcome of every allocation and read: sectors are lost exactly when a file with data could not be named, or its entry overwrote that of a file nobody has open |
| `FileSysRuns.CreateOverwrites` | pintos/src/filesys/directory.c:159-175 | a file whose entry is overwritten has no name any more; unless someone has it open it is gone, and its sectors stay marked |
| `FileSysRuns.FailsClean` | pintos/src/filesys/filesys.c:49-56 | every other failed call leaves the whole state as it was |
| `FileSysRuns.RemoveTakes` | pintos/src/filesys/filesys.c:80-92 | filesys_remove succeeds exactly when the name is found, its inode can be opened and the entry written; a removed file loses its name and no other name changes; it lives on exactly if someone has it open; a failed call changes no name |
| `FileSysRuns.OpenFinds` | pintos/src/filesys/filesys.c:62-78 | filesys_open gives the file that the name leads to and no other, exactly when a read gets that far and there is memory for a file and, unless it is open already, an inode; with memory to spare, exactly when the root directory has the name |
| `FileSys.OpenKeeps` | pintos/src/filesys/inode.c:108-151 | inode_open gives one in-memory inode per sector and keeps the invariant |
| `FileSysRuns.CloseKeeps` | pintos/src/filesys/inode.c:160-186 | inode_close keeps the invariant, and the assertion of free_map_release holds whenever it is reached |
| `FileSysRuns.LastClose` | pintos/src/filesys/inode.c:160-186 | the last close of a removed file unmarks its sectors, all of them and no others |
| `FileSysRuns.OpenStays` | pintos/src/filesys/inode.c:188-195 | a file that someone has open keeps its sectors, whatever others do |
| `FileSysRuns.ReferencesStep` | pintos/src/filesys/inode.c:108-186 | a call changes how often a file is open only by what it gives to or takes from its caller |
| `FileSysRuns.InodesStep` | pintos/src/filesys/inode.c:68-106 | no call rewrites the inode of a file that lives |
| `FileSysRuns.RootTransient` | pintos/src/filesys/directory.c:52-77 | opening and closing the root directory inside a call cancel out |
| `FileSysRuns.SectorAccounting` | pintos/src/filesys/free-map.c:22-49 | a sector is marked exactly when it is loose or a file owns it, and then one file does |
| `FileSysRuns.After` | pintos/src/filesys/filesys.c:42-92 | after every run of create, open, reopen, remove and close, whichever allocations, free-map writes and directory reads fail, the invariant holds: no two files share a sector |
| `FileSysRuns.OrderlyRun` | pintos/src/filesys/filesys.c:42-92 | after a run whose creations are neither stuck with data they cannot name nor harmed by a failed read, the directory is a map, every open file has its name or was removed, and no sector is lost |
| `FileSysRuns.NothingLost` | pintos/src/filesys/filesys.c:42-92 | after such a run the marked sectors are exactly those of the files |
| `FileSysData.WriteIsolated` | pintos/src/filesys/inode.c:252-318 | in every state of the file system, a write within a live file changes no byte of another live file or of its inode |
| `FileSysData.WriteLands` | pintos/src/filesys/inode.c:252-318 | nor of its own inode, and its own data changes by just those bytes |
| `FileSysData.WriteInode` | pintos/src/filesys/inode.c:86-101 | the inode goes to its sector and zeros to all its data sectors, and no other sector changes |
| `FileSysData.CreatedZeros` | pintos/src/filesys/inode.c:68-106 | a file that filesys_create made reads as zeros of the length asked for, and making it changed no byte of a file that lived before, nor of its inode |
| `FileSysData.WriteKeepsNames` | pintos/src/filesys/inode.c:252-318 | after every run, no write to another file changes what the root directory's names lead to |
| `FileSysFiles.MayDeny` | pintos/src/filesys/inode.c:320-327 | the assertion of inode_deny_write holds whenever file_deny_write reaches it |
| `FileSysFiles.MayAllow` | pintos/src/filesys/inode.c:329-338 | the assertions of inode_allow_write hold whenever file_allow_write reaches them |
| `FileSysFiles.AfterCalls` | pintos/src/filesys/file.c:14-54 | after every run of calls on file handles, an inode is open once for each file held and denies writes once for each of those that does |
| `FileSysFiles.OpenGets` | pintos/src/filesys/filesys.c:62-78 | a file handle from filesys_open is for the inode that the name leads to, does not deny writes, and leaves the other handles alone |
| `FileSysFiles.FilesAfter` | pintos/src/filesys/file.c:14-54 | which files are held after each call, and which deny writes: an open gives one for what the name leads to, a reopen one for the same inode, a close takes just that one away, and no other call changes any |
| `FileSysFiles.ReferencesAfter` | pintos/src/filesys/inode.c:108-186 | an inode is open once for each file held of it: once more after a reopen, once less after a close |
| `FileSysFiles.DenyBound` | pintos/src/filesys/file.c:116-141 | after every run deny_write_cnt is at most open_cnt, and is 0 exactly when no open file denies writes |
| `FileSysFiles.FormatFiles` | pintos/src/filesys/filesys.c:94-104 | a new file system, of which nobody has a file, satisfies those counts |
| `PageDir.WordFields` | pintos/src/threads/pte.h:69-104 | an entry made for a frame gives back the frame, the present bit and the writable bit |
| `PageDir.StandsForOne` | pintos/src/userprog/pagedir.c:52-88 | the tables stand for only one map from user pages to frames |
| `PageDir.PageTables.constructor` | pintos/src/userprog/pagedir.c:12-23 | a new page directory maps no user page and has the kernel's entries |
| `PageDir.PageTables.LookupPage` | pintos/src/userprog/pagedir.c:52-88 | an empty page table made on demand changes no mapping |
| `PageDir.PageTables.SetPage` | pintos/src/userprog/pagedir.c:90-121 | exactly one page is added to the map, unless there is no memory for its page table |
| `PageDir.PageTables.GetPage` | pintos/src/userprog/pagedir.c:123-139 | every user address translates to its frame with its offset, or to nothing when not mapped |
| `PageDir.PageTables.ClearPage` | pintos/src/userprog/pagedir.c:141-159 | exactly that page is taken out of the map |
| `PageDir.PageTables.Destroy` | pintos/src/userprog/pagedir.c:27-50 | the pages given to palloc_free_page, in order |
| `PageDir.FreesAll` | pintos/src/userprog/pagedir.c:27-50 | each mapped frame, each page table and the directory is freed, and nothing else |
| `PageDir.FreesOnce` | pintos/src/userprog/pagedir.c:27-50 | nothing is freed twice exactly when no frame is mapped twice and no mapped frame holds a table |
| `Loader.Accepts` | pintos/src/userprog/process.c:325-368 | validate_segment accepts exactly the headers whose segment lies in user space above page 0, however its sums wrap |
| `Loader.NoWrap` | pintos/src/userprog/process.c:276-295 | for an accepted header no 32-bit sum wraps and no count goes below zero |
| `Loader.LoadedBytes` | pintos/src/userprog/process.c:370-383 | page-aligned loading puts the file's bytes at the addresses the header names, and zeros after them |
| `Loader.LeadingBytes` | pintos/src/userprog/process.c:276-295 | the first page holds, before p_vaddr, what the file holds before p_offset, or zeros if p_filesz is 0 |
| `Loader.Process.InstallPage` | pintos/src/userprog/process.c:449-467 | the page is mapped to the new frame exactly when it was not mapped and there is a page table for it or memory for one; a failed call changes nothing, and no page of memory is lost |
| `Loader.Process.LoadPage` | pintos/src/userprog/process.c:399-425 | one page is filled and mapped exactly when there is a frame for it, it can be installed and the read is not short; otherwise the frame goes back and nothing changes |
| `Loader.Process.LoadSegment` | pintos/src/userprog/process.c:384-427 | (read_bytes + zero_bytes) / 4096 pages, all free before, are filled and mapped, or a prefix of them up to a page that cannot be: it is mapped already, there is no memory for it or its page table, the file ends before it does, or it ends inside a sector and there is no bounce buffer; no page of memory is lost |
| `Loader.Process.LoadHeader` | pintos/src/userprog/process.c:273-303 | after success user memory holds the file's bytes at p_vaddr and zeros to the end of the last page, in pages that were not mapped before and are writable exactly as the header says; a valid header fails only at a page that cannot be loaded; no other page, page 0 included, changes |
| `HeapSort.Heapify` | pintos/src/lib/stdlib.c:93-123 | the sinking element restores the heap on the whole subtree, rearranging nothing before it or past cnt |
| `HeapSort.RootIsMax` | pintos/src/lib/stdlib.c:125-152 | the root of a heap is its greatest element |
| `HeapSort.Sort` | pintos/src/lib/stdlib.c:125-152 | for every total preorder the array ends in order and with the elements it had |
| `HeapSort.BinarySearch` | pintos/src/lib/stdlib.c:172-207 | in a sorted array a match is returned if there is one, and none otherwise |
| `HeapSort.SortAndSearch` | pintos/src/lib/stdlib.c:125-207 | searching the sorted array finds a match exactly when the array had one |
| `Printf.ParseNumber` | pintos/src/lib/stdio.c:378-389 | a number is the next argument for a star, or else the decimal value of the longest run of digits |
| `Printf.ParseConversion` | pintos/src/lib/stdio.c:335-416 | width and precision are the numbers the format gives, a negative width read as the minus flag and a negative precision as none; flags that rule each other out do not come together, except that such a width adds the minus flag after that |
| `Printf.BufferFits` | pintos/src/lib/stdio.c:496-524 | no 64-bit value, base, flags or precision makes more than 64 characters |
| `Printf.FormatInteger` | pintos/src/lib/stdio.c:462-547 | writes the text of the conversion, of which TextSays tells the meaning, staying inside its 64-character buffer |
| `PrintfText.TextSays` | pintos/src/lib/stdio.c:462-547 | for every value, base and conversion: the digits, of that base and upper case only for %X, read back as the value, with commas exactly where the grouping flag wants them; before them the zeros that precision, # and 0 call for, the prefix 0x or 0X, and the sign that the value, + and space call for; and the padding on the side the flags name |
| `Printf.FieldWidth` | pintos/src/lib/stdio.c:526-547 | the field has the width asked for, or what its contents need, exactly unless the minus and zero flags come together and there is room |
| `Printf.Atoi` | pintos/src/lib/stdlib.c:7-41 | the loops read white space, a sign and digits in 32-bit arithmetic, as AtoiOf says |
| `Printf.AtoiReads` | pintos/src/lib/stdlib.c:7-41 | for every text, atoi gives the number its digits stand for after white space and a sign, negated after a minus, modulo 2^32, and 0 where there are no digits |
| `Printf.AtoiOfText` | pintos/src/lib/stdio.c:469-547 | atoi undoes %d for every int and all flags, widths and precisions, exactly unless digits are grouped and there are more than three of them |
| `Arith64.Nlz` | pintos/src/lib/arithmetic.c:39-73 | the number of leading zeros |
| `Arith64.WideEstimate` | pintos/src/lib/arithmetic.c:112-126 | the estimate from the top 32 bits of the divisor is the quotient or one more |
| `Arith64.WideDivide` | pintos/src/lib/arithmetic.c:112-126 | the corrected estimate is the quotient; the division instruction does not trap |
| `Arith64.NarrowDivide` | pintos/src/lib/arithmetic.c:80-111 | schoolbook division by a 32-bit divisor is exact and does not trap |
| `Arith64.Udiv64` | pintos/src/lib/arithmetic.c:75-127 | returns floor(n/d) for all 64-bit n and nonzero d |
| `Arith64.Umod64` | pintos/src/lib/arithmetic.c:129-135 | returns the remainder cut to 32 bits |
| `Arith64.Umod64ExactIff` | pintos/src/lib/arithmetic.c:129-135 | the remainder is right for every dividend exactly when d <= 2^32 |
| `Arith64.Sdiv64` | pintos/src/lib/arithmetic.c:137-146 | truncates toward zero, wrapping exactly for the minimum by -1 |
| `Arith64.Smod64` | pintos/src/lib/arithmetic.c:148-154 | returns the truncated remainder cut to 32 bits |
| `Arith64.Smod64ExactIff` | pintos/src/lib/arithmetic.c:148-154 | the remainder is right for every dividend exactly when the magnitude of d is at most 2^31 |
| `Lcs.ReplaceNextLargerWith` | pintos/src/tests/Algorithm/Diff.pm:66-106 | the thresholds become those with v entered at its place, or stay when v is there; the place is returned |
| `Lcs.WithPositionsOfInInterval` | pintos/src/tests/Algorithm/Diff.pm:34-64 | maps each key to all its positions in the interval, last first |
| `Lcs.EnterRow` | pintos/src/tests/Algorithm/Diff.pm:203-227 | one more row keeps the thresholds complete and attained by the links |
| `Lcs.MatchRows` | pintos/src/tests/Algorithm/Diff.pm:197-228 | after all rows the thresholds tell the length of every common subsequence's best end |
| `Lcs.Prune` | pintos/src/tests/Algorithm/Diff.pm:173-191 | matches off the common prefix and suffix |
| `Lcs.LcsFound` | pintos/src/tests/Algorithm/Diff.pm:126-244 | pruning loses nothing: prefix, suffix and the best middle make a longest common subsequence |
| `Lcs.LcsBoundsVectors` | pintos/src/tests/Algorithm/Diff.pm:126-244 | no increasing matching of equal keys is longer |
| `Lcs.LongestCommonSubsequence` | pintos/src/tests/Algorithm/Diff.pm:126-244 | the match vector is increasing, pairs equal keys and is as long as possible; counting mode returns that length |

## Left out

- Timer sleeping, interrupt frames, devices, system calls and the boot sequence before `thread_start`.
- Priority scheduling, donation and the multi-level feedback queue, of which only stubs exist.
- Time slices: a yield at the end of a slice is a `Yield` action that may come at any point with interrupts on.
- `list_max`, `list_min`, `list_size` and the reverse iterators.
- `KernelObject` has no method for all of `sema_down` or `cond_wait`: between two turns of the loop another thread runs, so that whole calls are runs of the step system. A condition's list, whose elements lie on the waiters' stacks, is a sequence.
- KernelObject.Kernel.ScheduleNext: a page that is freed is a thread that leaves the state; the page allocator is modelled on its own.
- `bitmap_read`, `bitmap_write`, `bitmap_count` and `bitmap_flip`: the free map's file is represented by whether writing it succeeds.
- The locks of the page pools and descriptors: each allocator call is one step.
- The contents of heap memory: that a block's bytes are not written by the allocator is proved as disjointness from headers and free blocks, and `realloc`'s copy as the bounds and disjointness of what it copies.
- `calloc`, whose check of the product adds nothing to the proofs about `malloc`.
- `hash_clear`, `hash_destroy`, `hash_apply` and the byte hash functions.
- Negative file offsets, which the code does not handle and its callers do not pass.
- File-system calls are steps: the code has no locking of its own and leaves that to its callers.
- `file.c`: the positions of open files.
- Disk errors, for which the driver panics, and a free map that cannot be written when sectors are released, which the code ignores.
- Accessed and dirty bits, the TLB and `pagedir_activate`.
- The ELF header, the other segment types and the stack page.
- `vsnprintf`, string conversions and the length modifiers of integer conversions.
- Printf.ParseConversion: a width or precision too large for an `int`, for which the code's arithmetic overflows.
- HeapSort.Sort: arrays of 2^31 elements or more, whose child indexes would not fit in 32 bits.
- The prepared-hash argument of `_longestCommonSubsequence` and the key function, which only changes what counts as equal.
