# MiraiOS core data structures, verified

MiraiOS is a small x86-64 kernel with its own C library.  This project models the parts of
it whose correctness rests on invariants that many functions share, and proves those
invariants and what follows from them, for every input and every run:

- the C library's `malloc`/`free`: a chain of 16-byte-unit blocks with doubled size tags and
  a free list threaded through the free blocks (`FreeList`, `MallocChain`, `Malloc`,
  `MallocClient`);
- the kernel heap: boundary-tag areas with `kmalloc`, `kfree` and `krealloc` (`HeapAreas`,
  `KernelHeap`, `KernelHeapClient`), on the same notions of a partition of an address range
  and of what is owed to clients (`Tiling`, `Payloads`);
- the list of mappings of a process, a doubly linked list of intervals (`MemoryMap` is its
  meaning, `MapEntries` its entries one by one, `Mmap` the code);
- red-black insertion and search with parent pointers (`RbModel` is the meaning, `RbTree`
  the code);
- thread queues, semaphores with direct hand-off, and the pipe between one writer and one
  reader as a system of interleaved steps (`ThreadQueue`, `Semaphore`, `Pipe`);
- the multilevel feedback queues of the scheduler (`Scheduler`), and their ready lists as
  linked queues (`ReadyLists`), and the locks that stealing takes (`StealLocks`);
- the line discipline of the terminals (`Tty`, on the ring buffer of `Ring`), the stack image that exec builds (`Exec`),
  the boot archive (`Initrd`), the bitmap of low physical pages (`LowMem`) and recursive
  page-table addressing (`Paging`).

Code that changes memory in place is modelled by classes and methods over memory: units or
words with the tags and links in them, nodes with pointers, arrays.  Each method is proved
against a partition, a list, a tree or a map that a ghost field or a parameter names.

## What the proofs found

Where the code does not deliver what its comments or interfaces suggest, the model follows
the code and proves exactly when the promise holds.

- `rbInsert` goes on climbing after a rotation (kernel/lib/rbtree.c:144-145).  The result
  is red-black if and only if no inner rotation meets a black node (`RbModel.InsertIff`);
  seven insertions can break it (`RbModel.BalanceLost`).  Order, key set and links always hold.
- A hint that `getVaddr` rejects changes the stored address but not the one the rest of
  `mmapCreateEntry` works with (kernel/mm/mmap.c:58).  The request overwrites the reported
  range, and nothing else, if and only if it was fixed or its hint fitted
  (`MemoryMap.CorrectIffAccepted`, and `MemoryMap.CorrectIff` with empty entries and
  requests, which a request without an address can make; `MemoryMap.RejectedExample`).  The
  list stays in order if and only if the request was accepted or merged, or covers the last
  entry, its start included (`MemoryMap.OrderIff`, `MemoryMap.OrderLost`,
  `MemoryMap.OrderLostBehind`).
- A request that continues an entry of the same flags becomes part of it if and only if no
  other entry starts where the request does (`MapEntries.JoinedIff`): a page that replaces one
  of other flags stays an entry of its own (`MapEntries.NotJoinedExample`).
- `krealloc` rounds sizes up with wrap-around (kernel/mm/heap.c:190-193).  For the fifteen
  largest sizes the rounded size is 0 and the area takes the way of a shrink: for an area of
  64 bytes or more, the word below it is overwritten and its own tags say that it is free.
  The heap is well formed afterwards if and only if the size is at most 2^64 - 16 or the
  area is smaller (`KernelHeap.Heap.Krealloc`, `KernelHeapClient.WipeExample`).
- `krealloc` that shrinks stores the payload size without the two tag words
  (kernel/mm/heap.c:206): the new payload is large enough if and only if the area was not
  shrunk and the rounding did not wrap (`KernelHeapClient.ShrinkExample`).  A size above the
  limit that needs a move ends in a copy to address 0 (result `fault`,
  `KernelHeapClient.FaultExample`).
- The kernel heap maps pages without clearing them (kernel/mm/heap.c:31, 146) and relies on
  the last word being 0: after growth the heap is well formed if and only if that word is
  (`KernelHeap.Heap.Kmalloc`, `KernelHeapClient.DirtyExample`,
  `KernelHeapClient.DirtyGrowthExample`).
- The growth of the libc heap is computed with wrap-around (phlibc/src/mem.c:242-246); the
  second search succeeds if and only if it did not wrap (`Malloc.GrowthEnough`,
  `Malloc.GrowthWraps`, `Malloc.Heap.GrowAndFind`).  It wraps only for sizes that the address
  space has no pages for, so no request fails for it that could be served
  (`Malloc.GrowthPages`, `Malloc.Heap.DoAlloc`).
- `deallocLowPhysPages` compares the whole count, not what is left of it, with the size of a
  segment (kernel/mm/lowmem.c:42): a request of 16 pages or more is rounded up to a whole
  segment (`LowMem.ExactIff`, `LowMem.FreesTooMany`).  A run taken at page 0 reads as failure.
  An allocation empties a segment and stores it back later without a lock
  (kernel/mm/lowmem.c:21-31): a page freed by another CPU is lost if and only if that
  happens in between (`LowMem.FreeLostIff`).
- exec gives the new program a stack pointer that is a multiple of 16, as section 3.4.1 of
  the System V AMD64 ABI asks, if and only if arguments and environment strings are odd in
  number together (`Exec.AlignedIff`, `Exec.MisalignedExample`).  A pointer is the address of
  its string if and only if the image fits in the page: of a larger one, the pointers that
  the loop reaches are moved by the wrong page, and a string that happens to start with the
  stack page has a pointer that reads as NULL, so that the loop ends early and leaves the
  pointers behind the next NULL unmoved (`Exec.RelocatedIff`, `Exec.LargeExample`).
- A newline that arrives after a reader has passed the semaphore and before it has the lock
  makes a token too many; no other key or read does (`Tty.Vtty.Key`, `Tty.Session`).  The
  read that gets it finds nothing and returns the whole ring (`Tty.StaleExample`).
- A read that faults on the caller's buffer keeps the characters and loses the token
  (kernel/drivers/tty/input.c:52-54): readers wait until another line is typed
  (`Tty.Vtty.ReadFault`, `Tty.FaultExample`).
- A key typed into a full terminal ring drops the oldest unread character, and the indices
  stay right if and only if that was a committed one or the key commits (`Tty.Vtty.Key`,
  `Tty.FullExample`).
- Loads are read without a lock in `readyQueuePush`, and `readyQueuePop` holds none between
  its scan and the theft: the choice of the CPU is only right without interference, but no
  thread is lost or linked twice whatever CPU is chosen (`Scheduler.Run`, `ReadyLists.Run`).
- `readyQueueExchange` adds the difference of the priorities to the load
  (kernel/sched/readyqueue.c:132), but a higher priority value weighs less: the load follows
  the weights if and only if the level stays (`Scheduler.LoadKeptIff`, `Scheduler.LoadExample`).
- A thief holds the victim's lock while it waits for its own (kernel/sched/readyqueue.c:74-80).
  No thief can go on if and only if the thieves and the victims are the same CPUs, and a
  circle of thieves never ends (`StealLocks.StuckIff`, `StealLocks.CircleStays`,
  `StealLocks.MutualTheft`).
- The walk over a boot archive that ends inside the data of a record reports success, and
  the last file claims more data than there is (`Initrd.CutShort`).

## How the code is read

- libc heap: memory is a sequence of 16-byte units of two words, so a tag is twice the size
  in units plus the used bit; pages from the system are zero and follow the heap; whether
  the system grants a request is the parameter `granted`.
- Kernel heap: memory is a sequence of 8-byte words, word 0 is the zero word below the first
  area and the last word is the guard word above the last one.  `system` gives the words of
  newly mapped pages.  The heap does not reach the end of the address space.  What happens
  under the heap's lock is one step; a krealloc that moves gives the lock back, so it is also
  an allocation, a copy word by word and a release, with other clients in between.
- Low pages: clients of a run take turns; the code has no lock.
- Mappings: `fixed` is the MMAP_FLAG_FIXED bit, `flags` the other bits.  The fields of
  `lower` are read before it is freed.
- Red-black tree: keys are distinct, so a node is named by its key.
- Pipe: a wait or a signal is one step, as the semaphore's lock makes it; a byte store or
  load and an index update are steps of their own.
- Terminal: a read is two steps, the wait and what happens under the lock.
- exec: strings are already validated; the stack page is the last page of both memories, and
  there are pages below it for an image that is too large.

## Model

| member | source | states |
|---|---|---|
| `Tiling.WalkAll` | kernel/mm/heap.c:49-61 | going from block to block by size meets every block of a partition once, in address order, and the sizes add up to the range |
| `Tiling.CanonicalForm` | phlibc/src/mem.c:184-221 | a partition without adjacent free blocks is determined by its blocks in use |
| `Tiling.ResizeBlocks` | kernel/mm/heap.c:199-249 | turning a block and free space above it into a used part and a free rest keeps the partition free of adjacent free blocks and changes only that block's entry among those in use |
| `Tiling.ReleaseBlocks` | kernel/mm/heap.c:94-113 | joining a block with both free neighbours removes exactly that block from those in use and leaves no two free blocks adjacent |
| `FreeList.ListIsFreeSet` | phlibc/src/mem.c:117-135 | the free list, read forwards from the first or backwards from the last entry, is the set of free blocks in increasing address order |
| `FreeList.UnlinkLinked` | phlibc/src/mem.c:87-101 | the four cases of unlinking leave the list of the remaining free blocks, both ends and both directions |
| `FreeList.InsertLinked` | phlibc/src/mem.c:198-212 | linking a block between its neighbours gives the list of the enlarged set |
| `FreeList.MoveLinked` | phlibc/src/mem.c:153-169 | replacing an entry by one higher up that passes no other entry gives the list of the changed set, and only link units are written |
| `MallocChain.ChainWalk` | phlibc/src/mem.c:55-63 | walking the chain by next tags meets every block once in address order up to the sentinel, and sizes add up to the heap |
| `MallocChain.SplitStep` | phlibc/src/mem.c:145-151 | the tag writes of a split keep the chain (each next tag equals the successor's prev tag), the free list and all payloads |
| `MallocChain.JoinStep` | phlibc/src/mem.c:188-194 | the tag writes of a merge keep the chain, the free list and all payloads |
| `MallocChain.GrowStep` | phlibc/src/mem.c:253-258 | turning the sentinel into the header of the new pages extends the chain by one free block and keeps list and payloads |
| `Malloc.Heap.constructor` | phlibc/src/mem.c:103-115 | the first page is one free block and the whole invariant holds |
| `Malloc.Heap.DelFreeBlock` | phlibc/src/mem.c:87-101 | afterwards the list is that of the other free blocks, and only their links were written |
| `Malloc.Heap.FindBlock` | phlibc/src/mem.c:117-135 | returns the lowest free block that is large enough, for a clean request only the last free block counts, and none if and only if none fits |
| `Malloc.Heap.SplitBlock` | phlibc/src/mem.c:137-170 | the block becomes used with exactly the requested size, or whole if at most one unit would be left, everything else in use and every payload is unchanged, the invariant holds |
| `Malloc.Heap.TakeWhole` | phlibc/src/mem.c:139-144 | only that block's used bit changes in the partition |
| `Malloc.Heap.TakeFront` | phlibc/src/mem.c:145-169 | the front becomes the used block, the rest stays free and takes over the list entry |
| `Malloc.Heap.MoveFreeBlock` | phlibc/src/mem.c:153-169 | the list holds the new entry in place of the old one |
| `Malloc.Heap.FindFreeBlock` | phlibc/src/mem.c:172-182 | returns the nearest free blocks below and above an address |
| `Malloc.Heap.InsertFreeBlock` | phlibc/src/mem.c:198-212 | the list becomes that of the set with the new block |
| `Malloc.Heap.MergeLower` | phlibc/src/mem.c:186-213 | the released block joins a free block below it or enters the list; blocks in use and payloads are unchanged |
| `Malloc.Heap.MergeHigher` | phlibc/src/mem.c:215-220 | afterwards no two free blocks are adjacent |
| `Malloc.Heap.JoinTags` | phlibc/src/mem.c:215-217 | the tags of two free neighbours become those of one block, while the list still has both entries |
| `Malloc.Heap.MergeBlock` | phlibc/src/mem.c:184-221 | from a heap that is coalesced except around one free block, the whole invariant is restored without touching a block in use |
| `Malloc.Heap.Grow` | phlibc/src/mem.c:253-259 | the heap grows at its end, the last free block takes the new units, everything else is unchanged |
| `Malloc.GrowthEnough` | phlibc/src/mem.c:242-246 | the rounded number of bytes covers the missing units if and only if the size arithmetic does not wrap |
| `Malloc.GrowthWraps` | phlibc/src/mem.c:231-246 | for the largest size that can be asked for, a single page is requested |
| `Malloc.UnitsEnough` | phlibc/src/mem.c:231-234 | a block is large enough in units if and only if its payload holds the bytes asked for |
| `Malloc.PagesLeast` | phlibc/src/mem.c:237-246 | the missing units rounded up to pages are the least growth after which the request fits |
| `Malloc.GrowthPages` | phlibc/src/mem.c:242-246 | without wrap-around the bytes asked for are that growth; with it, no address space has them |
| `Malloc.GrownFit` | phlibc/src/mem.c:259-265 | after growth the search finds the last free block if it is large enough, for clean and ordinary requests alike, and nothing otherwise |
| `Malloc.Heap.GrowAndFind` | phlibc/src/mem.c:236-266 | when no block fitted: success if and only if the system granted the pages and the size did not wrap, and then the block found fits |
| `Malloc.Heap.DoAlloc` | phlibc/src/mem.c:223-269 | in bytes: the result is the lowest free block whose payload holds the request, for a clean request the last one, with no unit more than needed unless one would be left over; without such a block it is the free end of the heap, grown by the least number of pages, if and only if these are granted and the address space has them; other blocks in use and all payloads are unchanged |
| `Malloc.Heap.Free` | phlibc/src/mem.c:271-279 | exactly that block leaves the blocks in use, other payloads are unchanged, the invariant holds; NULL does nothing |
| `MallocClient.Run` | phlibc/src/mem.c:223-279 | over every run of allocations, stores and releases the invariant holds, the blocks in use are the client's live ones, and each payload unit holds what the client last stored |
| `MallocClient.AllocateRelease` | phlibc/src/mem.c:223-279 | releasing what was just allocated without growth restores the same partition |
| `HeapAreas.HeapWalk` | kernel/mm/heap.c:49-61 | adding header sizes from the first header meets every area once and ends at the upper guard word, and the sizes add up to the heap |
| `HeapAreas.OddStarts` | kernel/mm/heap.c:30-36 | every header lies at an odd word, so every payload is aligned to 16 bytes |
| `HeapAreas.LowerNeighbour` | kernel/mm/heap.c:107-109 | the word below a header tells whether a free area ends there and where it starts |
| `HeapAreas.UpperNeighbour` | kernel/mm/heap.c:97-98 | the word after a footer tells whether a free area starts there; a zero guard word reads as an empty one |
| `HeapAreas.ResizeStep` | kernel/mm/heap.c:206-220 | writing the four tags of a used area and a free rest keeps the heap well formed and coalesced and all other payloads |
| `HeapAreas.ReleaseStep` | kernel/mm/heap.c:94-113 | writing the two tags of the joined area keeps the heap well formed and coalesced and the payloads still in use |
| `HeapAreas.GrowStep` | kernel/mm/heap.c:135-151 | new words at the end become part of the last free area, or one, and no payload changes |
| `HeapAreas.SameHeaders` | kernel/mm/heap.c:49-61 | the partition is determined by the header words from below |
| `HeapAreas.WipedBroken` | kernel/mm/heap.c:206-219 | once the word below an area has become 1, no partition fits the words any more |
| `KernelHeap.Heap.constructor` | kernel/mm/heap.c:30-36 | one free area between the two guard words; well formed if and only if the page came with zeroes there |
| `KernelHeap.Heap.FindArea` | kernel/mm/heap.c:49-64 | the lowest free area that is large enough, or none if and only if none fits |
| `KernelHeap.Heap.HeapAlloc` | kernel/mm/heap.c:45-84 | takes the lowest fit, exactly the words of the request unless just two would be left over, everything else in use and all payloads unchanged; fails without change if nothing fits |
| `KernelHeap.Heap.CutArea` | kernel/mm/heap.c:66-83 | the front of the area is in use with exactly the requested size, the rest is a free area |
| `KernelHeap.Heap.TakeArea` | kernel/mm/heap.c:76-83 | the area is in use with its old size |
| `KernelHeap.Heap.HeapFree` | kernel/mm/heap.c:86-115 | exactly that area leaves those in use, both neighbours are joined, remaining payloads are unchanged |
| `KernelHeap.Heap.MergeHigher` | kernel/mm/heap.c:94-105 | the tags cover the area and the free area above it, and nothing outside is written |
| `KernelHeap.Heap.MergeLower` | kernel/mm/heap.c:107-113 | the tags cover the free area below as well, if there is one |
| `KernelHeap.Heap.Kfree` | kernel/mm/heap.c:172-180 | an address outside the heap, or whose header word is not marked as in use, changes nothing, otherwise exactly its area is released |
| `KernelHeap.Heap.KfreeTwice` | kernel/mm/heap.c:86-92 | a second release of the same payload has no effect, even after its area was joined with others |
| `KernelHeap.Heap.LastArea` | kernel/mm/heap.c:135-145 | the free area at the end of the heap, or the guard word when the last area is in use |
| `KernelHeap.Heap.Extend` | kernel/mm/heap.c:139-151 | the tags of the last area cover the new words, the last of which becomes the guard word as it is, and no other old word changes |
| `KernelHeap.Heap.Grow` | kernel/mm/heap.c:131-151 | the free area at the end of the heap, or a new one there, takes the least number of pages that make it large enough; no other area and no payload changes |
| `KernelHeap.Heap.AddPages` | kernel/mm/heap.c:146-151 | only the last area grows, by the new pages, and the last new word is the guard |
| `KernelHeap.LeastPages` | kernel/mm/heap.c:134-147 | what the last area lacks, rounded up to pages, is the least growth that will do |
| `KernelHeap.WordsLeast` | kernel/mm/heap.c:125-128 | the request takes the least even number of words, two tags included, that hold its bytes |
| `KernelHeap.Heap.Retry` | kernel/mm/heap.c:131-157 | the search after growth finds the grown area at the end of the heap |
| `KernelHeap.Heap.Kmalloc` | kernel/mm/heap.c:117-161 | null if and only if the size is zero or above the limit; otherwise the lowest fit if one existed, else the free end of the heap after the least growth, with no more words than needed unless two would be left over; all payloads unchanged; well formed afterwards if and only if the guard word is 0, which after growth is what the system left there |
| `KernelHeap.Heap.Shrink` | kernel/mm/heap.c:199-223 | the area has exactly the requested payload size as its whole size, the rest is free and joined with a free area above, payloads unchanged; for size 0 the heap is no longer well formed |
| `KernelHeap.Heap.Expand` | kernel/mm/heap.c:235-249 | the area grows into the free one above, the old contents and all other payloads stay |
| `KernelHeap.Heap.Transfer` | kernel/mm/heap.c:231-232 | the payload is copied to the other area and exactly the first area is released, other payloads unchanged |
| `KernelHeap.Heap.Move` | kernel/mm/heap.c:227-234 | the contents are copied to a new area that is large enough and the old one is released; for a size above the limit the code copies to address 0 |
| `KernelHeap.Heap.Choose` | kernel/mm/heap.c:196-227 | which of the four ways is taken, in terms of the sizes of the area and of its upper neighbour |
| `KernelHeap.RoundedFacts` | kernel/mm/heap.c:190-193 | rounding gives 0 for the fifteen largest sizes and the next multiple of 16 for all others |
| `KernelHeap.Heap.Resize` | kernel/mm/heap.c:194-250 | what each of the four ways leaves, size 0 included |
| `KernelHeap.Heap.Krealloc` | kernel/mm/heap.c:182-250 | for every size below 2^64 the heap is well formed afterwards if and only if the size is at most 2^64 - 16 or the area smaller than 64 bytes, and new pages end with a zero word; then contents survive as far as both payloads reach, no other payload changes, the new payload is large enough if and only if the area was not shrunk and the rounding did not wrap, and a fault occurs if and only if a move is needed for a size above the limit; the area stays where it is if and only if the size, rounded to 16, and its tags fit it, or fit strictly into it and a free area above, and the size it then has is told in bytes for each way |
| `KernelHeapClient.Run` | kernel/mm/heap.c:117-250 | over every run of kmalloc, kfree, krealloc, stores and single copied words of any clients the heap is tiled and coalesced, the areas in use are the live ones, and payloads hold what their owners expect, up to the first fault or loss of the structure; neither happens with clean pages and krealloc sizes up to the limit |
| `KernelHeapClient.DoResize` | kernel/mm/heap.c:182-250 | old and new contents agree as far as both reach, and every other live payload is as before, unless the heap is lost, which is told exactly |
| `KernelHeapClient.AllocateRelease` | kernel/mm/heap.c:117-180 | releasing what was just allocated without growth restores the same partition |
| `KernelHeapClient.ShrinkExample` | kernel/mm/heap.c:199-223 | a concrete shrink to 64 bytes that leaves fewer |
| `KernelHeapClient.FaultExample` | kernel/mm/heap.c:229-233 | a concrete krealloc that copies to address 0 |
| `KernelHeapClient.WipeExample` | kernel/mm/heap.c:190-214 | a concrete krealloc that destroys the heap and reports success |
| `KernelHeapClient.DirtyExample` | kernel/mm/heap.c:30-36 | a first page with other words than zeroes gives no well-formed heap |
| `KernelHeapClient.DirtyGrowthExample` | kernel/mm/heap.c:146-151 | a request that succeeds and leaves a heap that is not well formed |
| `MemoryMap.CreateOverwrites` | kernel/mm/mmap.c:78-198 | read as a map from addresses to flags, the list after an accepted request is the old map overwritten on the requested range and unchanged elsewhere |
| `MemoryMap.CreateOrdered` | kernel/mm/mmap.c:78-198 | the list stays sorted and without overlaps |
| `MapEntries.NewEntry` | kernel/mm/mmap.c:105-192 | the whole list after a request that joins no entry: what it leaves of each old entry below and above it, and one new entry in between |
| `MapEntries.JoinedEntry` | kernel/mm/mmap.c:111-117 | the whole list after a request that joins an entry: that entry covers its old range and the request, the others above it are cut, and the list does not get longer |
| `MapEntries.JoinedIff` | kernel/mm/mmap.c:109-117 | an entry of the same flags that reaches the start of a request covers both afterwards if and only if no other entry starts there |
| `MapEntries.NotJoinedExample` | kernel/mm/mmap.c:118-133 | a page that replaces one of other flags next to an entry of its own flags |
| `MapEntries.JoinedExample` | kernel/mm/mmap.c:111-117 | a growing heap stays one entry |
| `MapEntries.HintIff` | kernel/mm/mmap.c:35-56 | a hint is taken if and only if every entry ends at or below it or starts above it and not below its end |
| `MapEntries.TrimIsHigh` | kernel/mm/mmap.c:172-192 | the loop that stops early leaves what cutting every higher entry would |
| `MemoryMap.OrderIff` | kernel/mm/mmap.c:35-59 | for every ordered list, empty entries included, the list is in order afterwards if and only if the request was accepted or merged, or covers the last entry, its start included |
| `MemoryMap.OrderLost` | kernel/mm/mmap.c:57-58 | a concrete rejected hint that leaves the list out of order |
| `MemoryMap.OrderLostBehind` | kernel/mm/mmap.c:180-182 | a concrete rejected hint that reaches the end of the list and still leaves an empty entry out of order |
| `MemoryMap.CreatePositive` | kernel/mm/mmap.c:78-198 | no request of positive size makes an empty entry |
| `MemoryMap.RunMaps` | kernel/mm/mmap.c:78-198 | after any run of accepted requests an address has the flags of the latest request that covers it, and the list is sorted |
| `MemoryMap.TrimMaps` | kernel/mm/mmap.c:172-192 | trimming and deleting higher entries removes exactly the addresses below the end of the new one |
| `MemoryMap.CorrectIff` | kernel/mm/mmap.c:35-59 | the range reported to the caller, and only that, is overwritten if and only if the request was accepted, or empty, or rejected for empty entries only and not merged |
| `MemoryMap.CorrectIffAccepted` | kernel/mm/mmap.c:35-59 | without empty entries and for a positive size: if and only if the request was fixed or its hint fitted |
| `MemoryMap.RejectedMerge` | kernel/mm/mmap.c:111-117 | a rejected hint merged into the entry below leaves the end of the reported range unmapped |
| `MemoryMap.RejectedMaps` | kernel/mm/mmap.c:105-192 | the map after any other rejected hint: the hinted range is cut out of the entries there, and the reported range, behind everything else, is mapped |
| `MemoryMap.RejectedExample` | kernel/mm/mmap.c:57-58 | a concrete rejected hint for one anonymous page whose reported address stays unmapped |
| `MemoryMap.NullAccepted` | kernel/mm/mmap.c:92-95 | a request without an address is always accepted, behind the last entry |
| `Mmap.Process.FindLowerHigher` | kernel/mm/mmap.c:19-33 | the last entry that starts at or below the address and the first that starts above it |
| `Mmap.Process.GetVaddr` | kernel/mm/mmap.c:35-59 | the stored address is the one asked for if accepted, else the end of the last entry |
| `Mmap.Process.PlaceInside` | kernel/mm/mmap.c:118-163 | an entry of other flags below is cut, replaced or split in three, with all links in both directions |
| `Mmap.Process.ReplaceLower` | kernel/mm/mmap.c:125-133 | the new entry takes the place of the one below, also at the head of the list |
| `Mmap.Process.AppendUpper` | kernel/mm/mmap.c:138-163 | the upper part becomes an entry of its own behind the new one, also at the tail of the list |
| `Mmap.Process.Place` | kernel/mm/mmap.c:105-170 | the part of the list up to the new entry is what the meaning of the request says |
| `Mmap.Process.LinkHigher` | kernel/mm/mmap.c:172-192 | covered entries are dropped, a partly covered one is trimmed, and the list is doubly linked with correct ends |
| `Mmap.Process.CreateEntry` | kernel/mm/mmap.c:78-198 | the linked list afterwards, first and last pointers and both link directions included, is the list of the meaning of the request, and the caller is told the stored address |
| `Mmap.Process.GetEntry` | kernel/mm/mmap.c:200-211 | an entry that contains the address, and none if and only if the address is not mapped |
| `Mmap.Run` | kernel/mm/mmap.c:78-198 | after any run of accepted requests on a new process the linked list is in order and shows for every address the flags of the latest request that covers it |
| `RbModel.InsertOrdered` | kernel/lib/rbtree.c:88-147 | inserting a fresh key adds exactly that key and keeps the search order |
| `RbModel.InsertAllOrdered` | kernel/lib/rbtree.c:88-147 | after any run of insertions of distinct keys the tree is ordered, its root is black and its keys are exactly those inserted |
| `RbModel.FixUpInorder` | kernel/lib/rbtree.c:104-146 | recolouring and rotations move no key in the in-order sequence |
| `RbModel.RecolourFits` | kernel/lib/rbtree.c:114-123 | recolouring keeps all black heights and moves the one red-red conflict two levels up |
| `RbModel.RotateFits` | kernel/lib/rbtree.c:125-145 | an outer rotation, or an inner one that lifts a red node, with the exchange of colours removes the conflict and keeps all black heights |
| `RbModel.RotateBreaks` | kernel/lib/rbtree.c:125-145 | an inner rotation that lifts a black node leaves uneven black heights |
| `RbModel.RotateExchanges` | kernel/lib/rbtree.c:125-143 | a rotation round exchanges the colours of the lifted node and the grandparent, and no other node changes colour |
| `RbModel.RotateReds` | kernel/lib/rbtree.c:125-143 | a rotation round keeps the number of red nodes |
| `RbModel.RecolourExchanges` | kernel/lib/rbtree.c:114-119 | recolouring changes exactly parent, uncle and grandparent |
| `RbModel.UnevenStays` | kernel/lib/rbtree.c:104-146 | no later step of the climb repairs uneven black heights |
| `RbModel.FixUpIff` | kernel/lib/rbtree.c:104-146 | the climb ends in a red-black tree if and only if it is safe, a condition on the path alone |
| `RbModel.InsertIff` | kernel/lib/rbtree.c:88-147 | insertion into a red-black tree gives a red-black tree if and only if the climb from the place of the key is safe |
| `RbModel.OneRotationSafe` | kernel/lib/rbtree.c:104-146 | a climb that never rotates, or whose first rotation ends at the root or below a black node, is safe |
| `RbModel.BalanceLost` | kernel/lib/rbtree.c:144-145 | six insertions give a red-black tree and a seventh one does not |
| `RbModel.SearchFinds` | kernel/lib/rbtree.c:149-163 | a search in an ordered tree finds a node with the key if and only if the key is in the tree |
| `RbTree.RbRoot.constructor` | kernel/lib/rbtree.c:91-96 | the empty tree |
| `RbTree.RbRoot.BstInsert` | kernel/lib/rbtree.c:29-49 | the new red node hangs at the end of the search path, with child and parent pointers |
| `RbTree.RbRoot.RotateLeft` | kernel/lib/rbtree.c:51-68 | the pointer writes turn the subtree into its left rotation, and the rest of the tree, parent pointers and root included, is unchanged |
| `RbTree.RbRoot.RotateRight` | kernel/lib/rbtree.c:69-86 | the mirror image |
| `RbTree.RbRoot.RecolourStep` | kernel/lib/rbtree.c:114-122 | the three colour writes are the recolouring of the tree |
| `RbTree.RbRoot.RotateStep` | kernel/lib/rbtree.c:125-145 | the rotations and the exchange of colours of one round are the rotation of the tree |
| `RbTree.RbRoot.Insert` | kernel/lib/rbtree.c:88-147 | the node structure afterwards is the tree after insertion, with agreeing parent and child pointers; the loop ends and never follows a missing grandparent |
| `RbTree.RbRoot.Search` | kernel/lib/rbtree.c:149-163 | the node of the key if and only if one was inserted |
| `RbTree.InsertAll` | kernel/lib/rbtree.c:88-147 | after any run of insertions of distinct keys the node structure is the tree of the model and holds exactly those keys |
| `ThreadQueue.Queue.Pop` | kernel/sched/queue.c:10-25 | removes and returns the head, null if and only if the queue is empty |
| `ThreadQueue.Queue.Push` | kernel/sched/queue.c:27-40 | appends at the tail |
| `ThreadQueue.Queue.PushFront` | kernel/sched/queue.c:42-52 | puts at the head |
| `Semaphore.SemaphoreT.constructor` | kernel/sched/lock.c:8-10 | the given value and no waiters |
| `Semaphore.SemaphoreT.SemWait` | kernel/sched/lock.c:12-28 | takes a token, or queues the caller at the tail if there is none |
| `Semaphore.SemaphoreT.SemSignal` | kernel/sched/lock.c:30-45 | releases the head of the queue, or returns a token if nobody waits |
| `Semaphore.RunInvariant` | kernel/sched/lock.c:8-45 | in every run the value is never negative, threads wait only when it is zero, initial value plus signals equals value plus granted waits, and threads leave the queue in the order they came |
| `Semaphore.RunWaiters` | kernel/sched/lock.c:8-45 | in every run exactly the threads that wait are granted a token or queued |
| `Semaphore.ReleasedInTurn` | kernel/sched/lock.c:12-45 | the threads waiting at some point are released first, in order, whatever others do meanwhile, and nobody overtakes them |
| `Semaphore.ReleasedBy` | kernel/sched/lock.c:30-45 | the k-th waiter in the queue is released by exactly the k-th later signal |
| `Pipe.InvStep` | kernel/fs/pipe.c:9-36 | every step of writer or reader keeps the token counts, the indices and every unread byte in its slot |
| `Pipe.StoreStep` | kernel/fs/pipe.c:12-18 | a store never hits the slot of an unread byte |
| `Pipe.RunInv` | kernel/fs/pipe.c:9-36 | the invariant holds at every point of every interleaving from the state that sysPipe sets up |
| `Pipe.RunLogs` | kernel/fs/pipe.c:9-36 | what counts as written are the bytes given to the writer in order, and each load reads one byte |
| `Pipe.PipeSafety` | kernel/fs/pipe.c:9-36 | at every point of every interleaving the bytes read are a prefix of those given to the writer, one for each load, free, used and held tokens add up to the buffer size of 4096, some side can go on, and sides block only when the pipe is empty or full |
| `Scheduler.NewPriorityOk` | kernel/sched/readyqueue.c:12-32 | priorities stay below the number of levels, and those that are not fixed stay at 1 or above |
| `Scheduler.Sinks` | kernel/sched/readyqueue.c:19-24 | a thread that uses up every slice sinks one level each time and stays at the last one |
| `Scheduler.Rises` | kernel/sched/readyqueue.c:25-31 | a thread that leaves at least half of every slice it gets rises one level each time and stays at level 1 |
| `Scheduler.Stays` | kernel/sched/readyqueue.c:15-18 | a thread that blocks with less than half of every slice left keeps its level |
| `Scheduler.SliceOf` | kernel/sched/readyqueue.c:41 | the slices of the eight levels: 100 jiffies, doubled from level to level |
| `Scheduler.LevelExample` | kernel/sched/readyqueue.c:12-32 | a thread at level 3 through slices of which nothing, a third and all is left, and one at the last levels |
| `Scheduler.LoadKeptIff` | kernel/sched/readyqueue.c:130-132 | the load follows the weight of an exchanged thread if and only if its level stays |
| `Scheduler.LoadExample` | kernel/sched/readyqueue.c:132 | a thread that gets lighter while the load gets larger |
| `Scheduler.FixedStays` | kernel/sched/readyqueue.c:15-18 | a fixed priority never changes |
| `Scheduler.TakenInv` | kernel/sched/readyqueue.c:36-44 | removing the head of a level keeps counts, places and levels right for all other threads |
| `Scheduler.AddedInv` | kernel/sched/readyqueue.c:113-117 | adding a thread at either end of the level of its priority keeps them right |
| `Scheduler.ReadyQueues.GetThread` | kernel/sched/readyqueue.c:34-46 | takes the head of the lowest-numbered level that has a thread and gives it the slice of that level, 100 jiffies shifted by the level, leaves every other list and every load as it was, and finds none if and only if the count is zero |
| `Scheduler.ReadyQueues.Scan` | kernel/sched/readyqueue.c:59-72 | the first of the busiest other CPUs with ready threads, or none if all others are idle |
| `Scheduler.ReadyQueues.AddLoad` | kernel/sched/readyqueue.c:79-81 | one load changes, in 32-bit arithmetic, and nothing else |
| `Scheduler.ReadyQueues.Steal` | kernel/sched/readyqueue.c:73-87 | the next thread of the given CPU, if it still has one, now belongs to this CPU; only that list loses its head |
| `Scheduler.ReadyQueues.Pop` | kernel/sched/readyqueue.c:48-89 | without interference: the next local thread if there is one, else the next thread of the busiest other CPU; only that list loses its head |
| `Scheduler.ReadyQueues.ChooseCpu` | kernel/sched/readyqueue.c:101-111 | the thread's own CPU if it is idle, else the first idle one, else its own |
| `Scheduler.ReadyQueues.Enqueue` | kernel/sched/readyqueue.c:98-117 | on whatever CPU was chosen, the thread goes to the back of the level of its new priority; no other list and no other thread changes |
| `Scheduler.ReadyQueues.Push` | kernel/sched/readyqueue.c:91-122 | without interference: both together |
| `Scheduler.ReadyQueues.Requeue` | kernel/sched/readyqueue.c:124-136 | the running thread goes to the front of the list of its priority, or to the back of the list of its new one |
| `Scheduler.ReadyQueues.Exchange` | kernel/sched/readyqueue.c:124-140 | after queueing the running thread the head of the lowest non-empty level is taken; there always is one, and only that list loses its head, and the thread taken has the slice of its level |
| `Scheduler.Run` | kernel/sched/readyqueue.c:34-140 | over every run of pushes, pops, steals and exchanges on all CPUs, in any interleaving of their locked parts, each thread is either queued in exactly one place or out of the queues |
| `ReadyLists.NotLinked` | kernel/sched/queue.c:27-52 | the entry of a thread that the scheduler does not have queued is in no linked list, as the queue operations require |
| `ReadyLists.LinkedLists.PushBack` | kernel/sched/queue.c:27-40 | the entry goes to the tail of its list, every other list keeps its links, and no entry is in two lists |
| `ReadyLists.LinkedLists.PushFront` | kernel/sched/queue.c:42-52 | the entry goes to the head of its list, likewise |
| `ReadyLists.LinkedLists.PopFrom` | kernel/sched/queue.c:10-25 | the head leaves its list, likewise |
| `ReadyLists.LinkedLists.PopFirst` | kernel/sched/readyqueue.c:36-44 | the head of the first list of a CPU that is not empty, or null if all are |
| `ReadyLists.EnqueueLinked` | kernel/sched/readyqueue.c:98-117 | linking the entry keeps the linked lists equal to those of the scheduler |
| `ReadyLists.RequeueLinked` | kernel/sched/readyqueue.c:124-136 | likewise for either end of the list of the running thread |
| `ReadyLists.GetLinked` | kernel/sched/readyqueue.c:34-46 | the entry unlinked is that of the thread the scheduler takes |
| `ReadyLists.StealLinked` | kernel/sched/readyqueue.c:73-87 | likewise for a thread taken from another CPU |
| `ReadyLists.ExchangeLinked` | kernel/sched/readyqueue.c:124-140 | the running thread is linked and an entry is always returned, that of the thread the scheduler takes |
| `ReadyLists.Run` | kernel/sched/readyqueue.c:34-140 | over every run of all CPUs on linked queues no entry is ever in two lists, and each thread is linked in the list of its priority or in none |
| `StealLocks.RunExclusive` | kernel/sched/readyqueue.c:73-85 | in every run no lock is held by two thieves |
| `StealLocks.StuckIff` | kernel/sched/readyqueue.c:73-85 | no thief can go on if and only if the thieves are exactly the victims |
| `StealLocks.CircleStays` | kernel/sched/readyqueue.c:73-85 | thieves that steal from one another in a circle never go on, whatever other CPUs do |
| `StealLocks.MutualTheft` | kernel/sched/readyqueue.c:73-85 | two CPUs that steal from each other are both stuck |
| `Tty.CommittedStays` | kernel/drivers/tty/input.c:123-138 | no key, backspace included, takes away committed characters |
| `Tty.TypedIs` | kernel/drivers/tty/input.c:123-151 | without a backspace the lines are the keys pressed, committed up to the last newline |
| `Tty.TakesBack` | kernel/drivers/tty/input.c:126-138 | an ordinary key and a backspace after it can be dropped from any sequence of keys |
| `Tty.NothingToTakeBack` | kernel/drivers/tty/input.c:128-137 | a backspace changes nothing if and only if the line is empty, as it is at the start and after a newline |
| `Tty.TypedAgain` | kernel/drivers/tty/input.c:123-151 | the lines of any sequence of keys have no backspace in them, and typing them gives the same lines |
| `Tty.TypingExample` | kernel/drivers/tty/input.c:123-151 | a mistake, corrected |
| `Tty.Vtty.constructor` | kernel/drivers/tty/input.c:62-77 | an empty ring with no input announced |
| `Tty.Vtty.SignalInput` | kernel/drivers/tty/input.c:16-20 | a token is made only when there is none in the semaphore, and goes to the first waiting reader if there is one |
| `Tty.Vtty.WaitInput` | kernel/drivers/tty/input.c:32 | the reader takes the token or is queued, and no token is made or lost |
| `Tty.Vtty.Key` | kernel/drivers/tty/input.c:119-152 | the ring shows the edited lines after the key, less the oldest unread character in a full ring, if and only if there was room, or a committed character was dropped, or the key commits or is backspace; the tokens stay right if and only if it is no newline that comes between a reader's wait and its lock, and does not drop the last committed character |
| `Tty.Vtty.Backspace` | kernel/drivers/tty/input.c:126-138 | removes the last character of the line being edited, if there is one |
| `Tty.Vtty.StoreChar` | kernel/drivers/tty/input.c:143-152 | the ring holds the character at the end of the stream, and the oldest unread one is gone if and only if the ring was full |
| `Tty.Vtty.Drain` | kernel/drivers/tty/input.c:35-49 | the characters up to the last committed one, or the whole ring if none is left, as far as the caller's buffer reaches |
| `Tty.Vtty.Read` | kernel/drivers/tty/input.c:33-60 | returns the next committed characters, as many as there are and fit; with none left it returns what the ring holds; right tokens stay right |
| `Tty.Vtty.ReadFault` | kernel/drivers/tty/input.c:52-54 | the ring is as before and a token is gone, so right tokens are never right afterwards |
| `Tty.Session` | kernel/drivers/tty/input.c:16-152 | over every session of keys, waits, reads and faulting reads all that was read is a prefix of the lines as edited, and without a backspace of the keys themselves; no key is lost as long as there are no more than the ring holds; no read finds the ring empty unless a newline came between a reader's wait and its lock; without such a newline and without a fault there is a token if and only if committed characters are left |
| `Tty.StaleExample` | kernel/drivers/tty/input.c:40-49 | two newlines in that window, after which a read returns the whole ring |
| `Tty.FaultExample` | kernel/drivers/tty/input.c:52-54 | a line left without a token by a fault, and freed by the next line |
| `Tty.FullExample` | kernel/drivers/tty/input.c:143-147 | one character more than the ring holds |
| `Exec.DecodeEncode` | kernel/main/exec.c:126-146 | reading a stored word gives the value written |
| `Exec.LittleEndian` | kernel/main/exec.c:126-146 | words are stored lowest byte first |
| `Exec.Measure` | kernel/main/exec.c:79-114 | counts and total lengths of both vectors, terminators included |
| `Exec.CopyStrings` | kernel/main/exec.c:122-144 | the strings stand one after the other, the vector holds their distances from the stack page and a NULL, and nothing else in memory is written |
| `Exec.CreateStack` | kernel/main/exec.c:79-149 | for images of any size the memory holds argc, both vectors and all strings, and the reported position is that of argc |
| `Exec.Relocate` | kernel/main/exec.c:344-357 | every word that is not NULL is moved by the page address up to the second NULL, whatever that stands for, the words behind it stay, and nothing else is written |
| `Exec.RelocatedUpTo` | kernel/main/exec.c:344-357 | the words before the second NULL are moved, except the first NULL, and all words from the second NULL on stay |
| `Exec.ExecStack` | kernel/main/exec.c:327-357 | for images of any size at the user's stack pointer stand argc and the words as relocated, and all strings are copied; if the image fits in the page these are pointers to all arguments, NULL, pointers to all environment strings, NULL, each to a terminated copy of its string |
| `Exec.AlignedIff` | kernel/main/exec.c:121-147 | the stack pointer is a multiple of 16 if and only if arguments and environment strings are odd in number together |
| `Exec.StackTight` | kernel/main/exec.c:115-121 | the strings end with the page, and the vectors end at the last multiple of 16 below them |
| `Exec.RelocatedIff` | kernel/main/exec.c:341-357 | for images of any size, after the loop a pointer of either vector is the address of its own string if and only if the image fits in the page |
| `Exec.MisalignedExample` | kernel/main/exec.c:121-147 | one argument and one environment string give a stack pointer that is no multiple of 16 |
| `Exec.LargeExample` | kernel/main/exec.c:341-357 | arguments of 15 and 4095 bytes: the pointer to the second one is NULL after the loop |
| `Exec.ReadsVector` | kernel/main/exec.c:122-144 | a program that follows the pointers up to NULL reads exactly the strings of the vector |
| `Exec.ExecReadsBack` | kernel/main/exec.c:327-357 | the new program reads back the arguments and the environment it was given |
| `Initrd.HexPrint` | kernel/main/print.c:12-24 | the digits of the value, most significant first |
| `Initrd.ParseHex` | kernel/fs/initrd.c:36-46 | the digits in base 16, in 32-bit arithmetic, for all bytes, those read as negative characters included |
| `Initrd.HexRoundTrip` | kernel/fs/initrd.c:36-46 | parsing inverts 8-digit printing on all 32-bit values |
| `Initrd.DigitOfHex` | kernel/fs/initrd.c:38-43 | the digits are 0-9 and A-F |
| `Initrd.WalkAt` | kernel/fs/initrd.c:93-121 | one round, in literal bytes and positions: a header is accepted if and only if it begins with 070701, sizes stand at 54 and 94, the name at 110, and TRAILER!!! ends the walk |
| `Initrd.ParseInitrd` | kernel/fs/initrd.c:87-124 | the loop visits the records that the layout defines, and ends at the trailer, at the end of the archive, at a bad header, or in a header or name past the end |
| `Initrd.CutShort` | kernel/fs/initrd.c:106-123 | an archive that ends inside the data of a record is walked without complaint, and the last file has less data than its size |
| `Initrd.WalkRecord` | kernel/fs/initrd.c:93-121 | a record at a multiple of 4 is visited with its name and data, and the walk goes on right behind it |
| `Initrd.ArchiveRoundTrip` | kernel/fs/initrd.c:87-124 | the walk over any newc archive visits exactly the stored files, in order, with their names and contents, and stops at the trailer |
| `LowMem.TestIff` | kernel/mm/lowmem.c:25 | the shift-and-mask test is true if and only if all bits of the run are set |
| `LowMem.ClearOn` | kernel/mm/lowmem.c:27 | taking a run clears exactly its bits |
| `LowMem.AllocLowPhysPages` | kernel/mm/lowmem.c:14-34 | takes exactly the lowest free run inside one segment and returns its address; with page 0 reserved, returns 0 if and only if there is no such run, and then nothing changes |
| `LowMem.DeallocLowPhysPages` | kernel/mm/lowmem.c:36-58 | frees exactly the pages from the first one up to the end, rounded up to a segment for 16 pages or more |
| `LowMem.FreedEnd` | kernel/mm/lowmem.c:42-46 | the end is exact below 16 pages, and the next multiple of 16 otherwise |
| `LowMem.ExactIff` | kernel/mm/lowmem.c:42-46 | exactly the named pages are freed if and only if there are fewer than 16, or they end with a segment, or the rest of the segment was free already |
| `LowMem.FreesTooMany` | kernel/mm/lowmem.c:42-46 | a concrete request that frees pages it does not name |
| `LowMem.FreeLostIff` | kernel/mm/lowmem.c:21-31 | a page freed by another CPU during an allocation from the same segment is lost if and only if that happens between the exchange and the store, and no other page is affected |
| `LowMem.Run` | kernel/mm/lowmem.c:14-58 | over every run of clients each page that was free at the start is free, held by exactly one client, or lost in a run at page 0; no other page is, and such a run is lost at most once and only if page 0 was free |
| `LowMem.TakePages` | kernel/mm/lowmem.c:14-34 | the client gets a run if and only if there is one and it is not at page 0, where it would be lost |
| `LowMem.TakeGive` | kernel/mm/lowmem.c:14-58 | giving back what was just taken restores the bitmap bit for bit |
| `Paging.RoundTrip` | kernel/arch/x86_64/mm/map.c:15-51 | for every canonical address and level, going to the entry and back rounds the address down to what the entry maps |
| `Paging.EntrySlots` | kernel/arch/x86_64/mm/map.c:15-51 | for every address and level the entry lies behind slot 510, once for the top table and once for each level, then behind the slots of the address, at eight bytes for its slot, and is a canonical address |
| `Paging.EntryOfEntry` | kernel/arch/x86_64/mm/map.c:46-51 | the entry that maps an entry is the entry one level up |

## Left out

- `rbDelete`: it cuts off the right child of a successor, so no claim about the key set holds.
- `sysMunmap`: it leaves back links and the last pointer stale, so the list invariant stops at `mmapCreateEntry`.
- Page stacks, the kernel's free list of virtual pages, the file page cache, the directory cache and the file descriptor table.
- Sleep queues, joins, signals and process groups, and `threadQueueRemove`.
- Back links of thread queues: `threadQueuePushFront` does not set them, so a queue means its forward chain.
- Conservation of `threadLoad` over runs: exchanges do not keep it, and blocking and exiting threads change it elsewhere; each operation states what it does to the loads.
- Zeroing by `calloc`, the C library's `realloc`, and `kzalloc`.
- Terminals in raw mode, and echo.
- Page faults, TLB, interrupt controllers, boot, framebuffer, keyboard decoding, ELF loading, shell programs and system call wrappers.
- Spinlocks: what happens under one is an atomic step; they are not modelled themselves.
- Malloc.Heap.DoAlloc: a clean request is only a search from the last free block; nothing is claimed about the contents of the payload.
- Mmap.Process.CreateEntry: allocation of list nodes succeeds, address arithmetic does not wrap, and reference counts of shared pages and the release of physical pages are not part of the model; a request without an address needs a non-empty list, as the code reads its last entry.
- Pipe.PipeSafety: one writer and one reader; several of either side share an index without a lock, so the claims do not extend to them.
- Scheduler.ReadyQueues.Push: the branch for an entry with a pending signal is not modelled.
- Exec.ExecStack: pointer validation and its error paths are not modelled, and the pages below the stack page are taken to be there when an image reaches into them.
- Exec.ExecReadsBack: only for images that fit in the page; larger ones do not read back.
- Initrd.ParseInitrd: creating directories and files for the visited records is not modelled.
- KernelHeap.Heap.Kfree: an address inside the heap must be that of an area, or have a header word that is not marked as in use; a stray address in the middle of a live payload is not modelled.
- LowMem.Run: clients take turns; of concurrent ones only the case of one page freed during an allocation is covered.
- KernelHeap.Heap.Move: one step, as in a run without other CPUs; the steps between which the lock is free are those of KernelHeapClient.Run.
- Scheduler.ReadyQueues.Steal: that the second lock may never come is the subject of StealLocks; the lock of the stolen thread is not modelled.
- LowMem.DeallocLowPhysPages: the pages must lie in low memory, which the code does not check.
