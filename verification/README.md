# The RT-Thread kernel, modelled and proved in Dafny

The model covers the kernel vendored under `rt-thread/`: its four memory managers, its blocking objects, the bitmap
scheduler, the timers, the intrusive lists under all of them, formatted output, and the stack-depth analysis
`tools/WCS.py`. Each file is one module.

| module | models | main result |
|---|---|---|
| `Objects`, `Blocks` | what both heaps promise their users | a heap refines a memory of separate objects; a tiling without free neighbours is determined by its payloads |
| `SmallHeap` | `src/mem.c` | every run of every program refines `Objects`; the scan from `lfree` finds the lowest fitting block |
| `MemHeap` | `src/memheap.c` | the same refinement, with two rings of pointers and the byte counter |
| `Pages`, `Zones`, `SlabHeap` | `src/slab.c` | the page list is the one list of maximal free runs; chunks and large blocks in use never overlap, and no block and no page is lost, in every interleaving |
| `MemPool` | `src/mempool.c` | free and used blocks make up the pool; no wakeup is lost |
| `WaitList`, `Semaphore`, `Mutex`, `Event`, `Mailbox`, `MessageQueue` | `src/ipc.c` | safety over every interleaving of the regions that run with interrupts disabled; messages arrive in order and with the bytes sent |
| `ReadyMap`, `Scheduler` | `src/scheduler.c`, `src/thread.c` | bitmap, ready lists and thread states agree, and the most urgent thread runs; a used-up slice makes it give way to its equals |
| `SkipList`, `Timer` | `src/timer.c`, `src/clock.c` | a timer that is left alone fires at exactly the ticks it should; with callbacks that leave the timers alone the check ends if and only if no due periodic timer has the time 0 |
| `Printf`, `Formats`, `Memory` | `src/kservice.c` | every conversion is read as written and its digits are worth the word; truncation of the whole output; overlapping copies |
| `Rings`, `Chains` | `include/rtservice.h` | `next` and `prev` stay inverse |
| `WorstCaseStack` | `tools/WCS.py` | the memoised search finds the deepest path, or recursion, whatever the order |

## How to read the model

- A C object whose fields change in place is a class; its methods are the C functions. Pointers are indices into arrays
  of links or offsets into a buffer. Ghost fields (`blocks`, `ring`, `queue`, `list`, `place`, ...) name the abstract
  value that the pointers spell out, and `Valid()` ties the two together.
- In `src/ipc.c` and `src/mempool.c` one method is one region between disabling and enabling interrupts. A call that
  blocks ends its region; the thread's next region is a new call of the same method from the phase `Woken`. Suspending,
  resuming and timing out are separate steps, so `Run` ranges over all interleavings of all threads. A step carries the
  priorities of all threads at that moment.
- `Run` returns its trace: the states it went through, as values. A predicate of the module (`Next`, `Steps`, `Right`,
  `Ticked`) says which states a step may lead to, and `Run` ensures it between any two that follow one another; each
  kind of step is tied to it by the methods named `Do...`.
- Messages are copied byte by byte as steps of their own, because the copies run with interrupts enabled.
- The heaps of `src/mem.c` and `src/memheap.c` are guarded by a lock, so allocating, freeing and resizing in place are
  atomic. A resizing that moves is not: it allocates, copies and frees under locks of their own. Its parts are the
  operations `Allocate`, `Store` and `Release` of `Objects`, which `Run` interleaves with those of other threads;
  `Objects.Copied` says what then arrives. `Resize` is the case that nobody gets in between.
- The heap of `src/slab.c` releases its lock between asking for a zone and using it, and its pages have a lock of their
  own. One method of `SlabHeap` is what happens under one lock, and `Run` interleaves them.
- In `MemHeap` links, marks and payload bytes are separate arrays; `MemHeap.Heap.HeadersApart` says why a store to a
  payload cannot meet a header. `SmallHeap` keeps all of them in one buffer.
- Configuration switches are parameters: priority inheritance order (`flag`), one or two bitmap levels (`wide`), the
  height of the skip list (`level`) and its mask, the `#` flag of the formatter (`prefixes`).
- Integer widths are written out where they matter: ticks wrap at 2^32 and are compared as the code does, counters stop
  at 16 or 8 bits, the scan bound of `rt_malloc` is an unsigned difference, priority words are bit vectors.

## What the proofs found

- `SmallHeap.ScanNeverEnds`: on a heap of 4 or 8 bytes a small request makes the scan bound of `rt_malloc` wrap around,
  and the scan never ends. `ScanEnds` is the exact guard that the other results ask for.
- `SmallHeap.RefusedWhen`: a request is refused although a block of just its size is free when that block is the last.
- `MemHeap.RefusedThoughItFits`: `rt_memheap_alloc` refuses a request that fits exactly when the fitting block is all
  the free memory there is, to the byte.
- `Timer.System.QuietTurns`: with callbacks that leave the timers alone the loop of `rt_timer_check` ends if and only if
  no due periodic timer has the time 0. `Timer.System.ZeroPeriodSpins`: such a timer keeps the loop going for ever,
  whatever happens to other timers. `Timer.System.RolesFound`: the other timer theorems cover exactly the systems in
  which every periodic timer of time 0 is dormant; the timers of threads, created one-shot with the time 0, are among
  them.
- `Timer.System.CallbackClearsPeriodic`: a timer that fired is marked active exactly if it is on the list again, except
  when it was periodic and its callback makes it one-shot and neither starts nor stops it: then it stays marked active
  on no list.
- `SkipList.OrderIff`: two deadlines are ordered correctly exactly when they are comparable, that is less than about
  half the tick range apart in the right direction.
- `Mutex.FifoInversion`: in first-come order a hand-over leaves the new owner less urgent than a waiter; the owner is
  protected exactly when the first waiter leads (`Mutex.Mutex.Release`).
- `Scheduler.Scheduler.StaleYield`: a yield to nobody is remembered, and the next thread of the same priority to become
  ready takes over at once.
- `Printf.OctalRight`: the octal conversion prints hexadecimal digits, right exactly below 8. `Printf.NumberWidth`: a
  number has the width it needs if and only if the precision is not 0; with precision 0 all its digits are missing
  (`Printf.ZeroPrecision`), also when it is not 0.
- `Formats.ReadsAsWritten`: a format is read as it is written except that a width of 0 is taken for a flag.
- `MessageQueue.SlotHolds`: the size of a message, rounded up, is kept in 16 bits, so a node holds a message if and only
  if it has at most 65532 bytes; `MessageQueue.SlotsFit`: so is the number of nodes.
- `Memory.OtherAlignmentsFail`: `rt_malloc_align` is right for powers of two; every other alignment up to
  0xFFFF_FFF8, rounded to four bytes as the code does, fails for some block, and alignment 0 gives null (`Memory.ZeroAlignment`).
- `MemPool.LastLinkInside`: `rt_mp_init` writes the link of the last block inside the pool if and only if a block fits;
  otherwise it writes in front of the pool. `MemHeap.PoolTooSmall`: the available size comes out right if and only if
  the pool has room for two headers.
- `Mutex.Mutex.ChangeFromOutside`: when a priority is changed behind the mutex's back, exactly when its owner stays
  protected, and that the owner's own change is lost at the release.

## Model

| member | source | states |
|---|---|---|
| `Rings.Init` | rt-thread/include/rtservice.h:47-50 | a node initialised is a ring of one |
| `Rings.InsertAfter` | rt-thread/include/rtservice.h:58-65 | the four writes put the node right behind its place in the ring, `next` and `prev` stay inverse all the way round, other rings are untouched |
| `Rings.InsertBefore` | rt-thread/include/rtservice.h:73-80 | the same in front of a node, the head included |
| `Rings.Remove` | rt-thread/include/rtservice.h:86-92 | the rest stays a ring in the same order and the removed node becomes a ring of its own |
| `Rings.Unlink` | rt-thread/include/rtservice.h:86-92 | the two writes of a removal alone already leave the rest a ring |
| `Rings.IsEmpty` | rt-thread/include/rtservice.h:98-101 | true exactly for a ring of just the head |
| `Rings.Len` | rt-thread/include/rtservice.h:107-118 | the walk ends and counts every node but the head |
| `Rings.Linked` | rt-thread/include/rtservice.h:58-80 | any memory that differs by those four writes spells the longer ring |
| `Rings.Unlinked` | rt-thread/include/rtservice.h:86-92 | any memory that differs by those two writes spells the shorter ring |
| `Chains.Pushed` | rt-thread/src/ipc.c:1896-1903 | one write in front of a null-ended list gives the longer list |
| `Chains.Appended` | rt-thread/src/ipc.c:2173-2184 | one write behind its last node gives the longer list |
| `Chains.Popped` | rt-thread/src/mempool.c:374-379 | what the head links to begins the list of the others |
| `Blocks.LiveDisjoint` | rt-thread/src/mem.c:272-410 | two payloads in use never overlap, and they lie inside the heap |
| `Blocks.Canonical` | rt-thread/src/memheap.c:495-595 | a tiling without free neighbours is determined by its payloads in use, so freeing what was allocated must restore it |
| `Blocks.DropKeeps` | rt-thread/src/mem.c:156-194 | merging two free neighbours keeps tiling, payloads, used bytes and the lowest free block |
| `Objects.ReadsLastStored` | rt-thread/src/mem.c:421-516 | in every run a byte that no release or shrinking cuts off holds what was last stored to it, whatever happens to other objects |
| `Objects.Allocated` | rt-thread/src/mem.c:272-410 | a new payload that was in no payload in use is a new object and leaves the contents of the others alone |
| `Objects.Moved` | rt-thread/src/memheap.c:284-492 | a payload that gave way to another keeps its first min(old, new) bytes, and the other objects keep theirs |
| `Objects.Released` | rt-thread/src/mem.c:552-615 | giving a payload back removes that object and no other |
| `Objects.WholeMoved` | rt-thread/src/memheap.c:284-492 | if every payload in use was held, the same is true when one payload gives way to another: nothing leaks |
| `Objects.Stored` | rt-thread/src/mem.c:421-516 | a write through one object changes that byte of that object and nothing else |
| `Objects.Copied` | rt-thread/src/mem.c:507-515 | when a moving payload is allocated, copied and freed in separate regions, in any interleaving in which nobody else names the two objects, the bytes copied arrive, the other bytes of the new object and the whole old one are as they were |
| `SmallHeap.Heap.constructor` | rt-thread/src/mem.c:235-256 | one free block and the end marker make a valid heap without payloads |
| `SmallHeap.SystemHeapInit` | rt-thread/src/mem.c:204-257 | refuses exactly the ranges too small for two headers; otherwise the heap fills the aligned range less two headers |
| `SmallHeap.Heap.Scan` | rt-thread/src/mem.c:305-311 | the scan from `lfree` ends and finds what a first-fit scan from the bottom of the heap finds |
| `SmallHeap.FirstFit` | rt-thread/src/mem.c:305-311 | the reference search: the lowest fitting block, or none at all |
| `SmallHeap.RefusedWhen` | rt-thread/src/mem.c:305-311 | a request is refused if and only if no free block is large enough, other than a last block of exactly the rounded size |
| `SmallHeap.RoundedLeast` | rt-thread/src/mem.c:288-300 | a request takes the least multiple of four that holds it and the twelve bytes of a least block |
| `SmallHeap.ScanNeverEnds` | rt-thread/src/mem.c:305-311 | on a heap below the minimum block every turn of the scan stays below the wrapped bound and no turn fits |
| `SmallHeap.Heap.TakeBlock` | rt-thread/src/mem.c:313-387 | splitting or not, the heap stays valid, exactly one payload of at least the size is added, and `lfree` is the lowest free block again |
| `SmallHeap.Heap.AdvanceFree` | rt-thread/src/mem.c:380-387 | the walk of `lfree` stops at the lowest free block or at the end marker |
| `SmallHeap.Heap.Malloc` | rt-thread/src/mem.c:272-410 | null exactly for size 0, too large a size or no fitting block, and then nothing changed; else the lowest fitting block serves and no payload in use is written |
| `SmallHeap.CarveShape` | rt-thread/src/mem.c:316-371 | the list after serving a request still tiles, has no free neighbours, is aligned, and its used bytes grew by the extent taken |
| `SmallHeap.CarveLive` | rt-thread/src/mem.c:316-371 | serving a request adds one payload of at least the size and less than a header and a least block more, which begins in no payload in use |
| `SmallHeap.CarveLowest` | rt-thread/src/mem.c:380-387 | taking a block moves the lowest free block only if it was that one |
| `Blocks.PayloadAligned` | rt-thread/src/mem.c:390-391 | every payload in use of an aligned list begins at an aligned offset, in both heaps |
| `SmallHeap.Heap.PlugHoles` | rt-thread/src/mem.c:156-194 | from a heap whose only free neighbours are around the block, the merged heap is valid, with the same payloads and contents |
| `SmallHeap.Heap.Free` | rt-thread/src/mem.c:552-615 | exactly the given payload leaves; null and pointers outside the heap change nothing; the other payloads keep their bytes |
| `SmallHeap.FreeFacts` | rt-thread/src/mem.c:595-610 | clearing the mark takes away that payload, its extent from the used bytes, and makes `lfree` the lower of two |
| `SmallHeap.Heap.ShrinkBlock` | rt-thread/src/mem.c:471-504 | the payload is cut to the new size, the tail is merged, the heap stays valid |
| `SmallHeap.Heap.MovePayload` | rt-thread/src/mem.c:507-515 | if nobody gets in between, a payload moves with its first min(old, new) bytes, or the call fails and nothing changed |
| `SmallHeap.Heap.Realloc` | rt-thread/src/mem.c:421-516 | for every pointer and size what is returned, where the payload is, which bytes it carries, and that all other payloads are intact |
| `SmallHeap.Heap.MallocThenFree` | rt-thread/src/mem.c:272-410 | allocating and freeing restores the heap block for block, with `lfree` and `used_mem` |
| `SmallHeap.Heap.Do` | rt-thread/src/mem.c:272-615 | each call is a step of the memory of objects; an allocation is refused exactly when the first-fit search finds nothing, a resizing changes its own payload only, and a payload in use stays held |
| `SmallHeap.Heap.Run` | rt-thread/src/mem.c:272-615 | every run of every program of allocations, releases, resizings and stores is a run of the memory of objects, no payload in use is ever held by nobody, and the heap is valid throughout |
| `MemHeap.Heap.constructor` | rt-thread/src/memheap.c:50-121 | both rings are set up, the aligned pool less two headers is available |
| `MemHeap.PoolTooSmall` | rt-thread/src/memheap.c:61-75 | the wrapping difference computed as available size is at most the pool if and only if the pool has room for two headers |
| `MemHeap.RoundedLeast` | rt-thread/src/memheap.c:147-150 | a request takes the least multiple of four that holds it and the twelve bytes of a least block |
| `MemHeap.Heap.FindFit` | rt-thread/src/memheap.c:169-183 | the walk along the free ring ends, and finds the first block in ring order with room, or shows that none has room |
| `MemHeap.Heap.TakeBlock` | rt-thread/src/memheap.c:187-258 | the block is split or taken whole, both rings, marks and `available_size` agree again, no payload is written |
| `MemHeap.Heap.Alloc` | rt-thread/src/memheap.c:138-281 | null if and only if the size reaches `available_size` or no free block has room, and then nothing changed; else one disjoint, aligned payload from the first fit of the ring |
| `MemHeap.Heap.HeadersApart` | rt-thread/src/memheap.c:187-258 | the bytes of headers belong to no payload in use |
| `MemHeap.RefusedThoughItFits` | rt-thread/src/memheap.c:155-156 | a request with a fitting block is refused if and only if that block is all the free memory, to the byte |
| `MemHeap.CarveFacts` | rt-thread/src/memheap.c:187-258 | blocks, payloads, free addresses and free bytes after serving a request; the payload has less than a header and a least block more than was asked for |
| `MemHeap.Heap.MergeLeft` | rt-thread/src/memheap.c:540-557 | a free left neighbour takes the block over, payloads stay, the byte counter grows by what was gained |
| `MemHeap.Heap.MergeRight` | rt-thread/src/memheap.c:559-591 | a free right neighbour is swallowed and leaves the free ring, the block enters it if it has to, and the heap is valid |
| `MemHeap.Heap.Free` | rt-thread/src/memheap.c:495-595 | exactly the given payload leaves; tiling, both rings, no free neighbours and `available_size` are kept |
| `MemHeap.Heap.GrowBlock` | rt-thread/src/memheap.c:334-402 | growing into the free neighbour gives the payload exactly the new size, keeps every byte in use and both rings |
| `MemHeap.GrowAll` | rt-thread/src/memheap.c:334-402 | after growing in place there are no free neighbours, exactly that payload changed, the free addresses and free bytes are right, and the new header lies in no payload |
| `MemHeap.Heap.ShrinkBlock` | rt-thread/src/memheap.c:419-491 | the payload gets exactly the new size, the tail is merged and put on the free ring, the byte counter is right |
| `MemHeap.Heap.MovePayload` | rt-thread/src/memheap.c:408-417 | if nobody gets in between, a growing payload that cannot stay moves with all its bytes, or the call fails and nothing changed |
| `MemHeap.Heap.Realloc` | rt-thread/src/memheap.c:284-492 | null, grown, shrunk, kept or moved: exactly when, with which bytes, and that all other payloads are intact |
| `MemHeap.Heap.AllocThenFree` | rt-thread/src/memheap.c:138-281 | allocating and freeing restores the block list and the number of available bytes |
| `MemHeap.Heap.Do` | rt-thread/src/memheap.c:138-595 | each call is a step of the memory of objects; an allocation is refused exactly when no free block has room or the size reaches the free bytes, a resizing changes its own payload only, and a payload in use stays held |
| `MemHeap.Heap.Run` | rt-thread/src/memheap.c:138-595 | every run of every program is a run of the memory of objects, no payload in use is ever held by nobody, and the heap is valid throughout |
| `Pages.OneList` | rt-thread/src/slab.c:236-322 | the free pages determine the list: it is the one sorted list of maximal runs |
| `Pages.PatchedFacts` | rt-thread/src/slab.c:272-322 | replacing runs by one run or none keeps the list sorted and maximal and changes just those pages |
| `Pages.PageList.constructor` | rt-thread/src/slab.c:327-334 | the whole heap is one free run |
| `Pages.PageList.Alloc` | rt-thread/src/slab.c:236-270 | null if and only if no run is long enough (or no page is asked for); else exactly the lowest pages of the first run long enough leave |
| `Pages.PageList.Free` | rt-thread/src/slab.c:272-322 | exactly the given pages join, and the list is again the list of maximal runs |
| `Pages.PageList.Extend` | rt-thread/src/slab.c:291-299 | pages behind a run join it |
| `Pages.PageList.Bridge` | rt-thread/src/slab.c:291-299 | pages that close the gap between two runs make one run of them |
| `Pages.PageList.JoinRight` | rt-thread/src/slab.c:302-309 | pages in front of a run become its beginning |
| `Pages.PageList.Insert` | rt-thread/src/slab.c:311-317 | pages that touch no run become a run of their own |
| `Pages.PageList.AllocThenFree` | rt-thread/src/slab.c:236-322 | freeing the run just allocated restores the list run for run |
| `Zones.ChunkSizesGrow` | rt-thread/src/slab.c:401-459 | size classes and chunk sizes correspond one to one |
| `Zones.ClassFits` | rt-thread/src/slab.c:401-459 | a request goes to the class with the smallest chunks that hold it, and wastes at most max(7, n/8) bytes |
| `Zones.PowersOfTwo` | rt-thread/src/slab.c:635-638 | the test for a power of two is right for every number |
| `Zones.OffsetBound` | rt-thread/src/slab.c:628-638 | chunks begin at the first place behind the zone's header that is a multiple of the chunk size if that is a power of two and of eight otherwise, no later than 71 bytes or one chunk |
| `Zones.CapacityBound` | rt-thread/src/slab.c:628-644 | a zone holds at least three chunks, all of them lie inside it, and no further one would |
| `Zones.ChunksApart` | rt-thread/src/slab.c:628-648 | chunks meet neither the header, nor the end of the zone, nor each other |
| `Zones.UsedCount` | rt-thread/src/slab.c:539-577 | chunks in use and the free count make up the zone |
| `Zones.TakenFacts` | rt-thread/src/slab.c:543-568 | the chunk taken was free, and from then on it and all earlier ones are in use |
| `Zones.GivenFacts` | rt-thread/src/slab.c:830-846 | exactly the chunk given back is free again, and the counts stay consistent |
| `Zones.NothingUsed` | rt-thread/src/slab.c:854-855 | a zone with a full free count has no chunk in use |
| `Zones.Slab.constructor` | rt-thread/src/slab.c:374-383 | the zone size is the largest the doubling reaches below its bound, requests are small below a quarter of it and at most below 16384 bytes, no zone is in use |
| `Zones.Slab.TakeChunk` | rt-thread/src/slab.c:539-577 | a chunk not in use from the first zone of the class; each class list still holds exactly its zones with free chunks |
| `Zones.Slab.OpenZone` | rt-thread/src/slab.c:625-652 | an empty zone is cut for the class, goes first in its list whatever others put there meanwhile, and gives its first chunk out |
| `Zones.Slab.TryMalloc` | rt-thread/src/slab.c:534-596 | before asking for pages: none if and only if the class and the kept zones have nothing; else a chunk that was not in use, of the best class |
| `Zones.Slab.MallocIn` | rt-thread/src/slab.c:596-659 | with a zone from the page allocator: its first chunk, of the best class, and the zone is owned from then on |
| `Zones.Slab.GiveChunk` | rt-thread/src/slab.c:830-846 | exactly that chunk is free again, and its zone is on the class list |
| `Zones.Slab.Retire` | rt-thread/src/slab.c:862-865 | an empty zone leaves its class, and no chunk in use is lost |
| `Zones.Slab.Free` | rt-thread/src/slab.c:822-901 | exactly that chunk is free again; a zone is retired if and only if it is empty and not the last of its class with room, and goes to the front of the kept zones, or to the page allocator if and only if enough are kept already |
| `SlabHeap.Heap.constructor` | rt-thread/src/slab.c:336-396 | the pages of the page table are in use and all others free, no zone yet |
| `SlabHeap.Heap.GetPages` | rt-thread/src/slab.c:236-270 | none if and only if no run is long enough; else pages that were free and meet no zone and no large block |
| `SlabHeap.Heap.PutPages` | rt-thread/src/slab.c:272-322 | exactly those pages are free again, and the others in use stay in use |
| `SlabHeap.Heap.BeginLarge` | rt-thread/src/slab.c:492-525 | null if and only if no run of pages holds the size; else a block of whole pages that was not in use |
| `SlabHeap.Heap.BeginSmall` | rt-thread/src/slab.c:528-596 | a chunk that was not in use, exactly if a zone is kept or one of the best class has a free chunk; otherwise the thread goes on to ask for pages |
| `SlabHeap.Heap.Fetch` | rt-thread/src/slab.c:596-606 | with the lock released: fails if and only if no run holds a zone; otherwise the pages are in the thread's hands alone |
| `SlabHeap.Heap.Open` | rt-thread/src/slab.c:608-667 | the pages become a zone, and its first chunk, with room for the request, is in use in addition |
| `SlabHeap.Heap.FreeSmall` | rt-thread/src/slab.c:819-903 | exactly that chunk is in use no more; an empty zone is in the thread's hands exactly if it retires and enough zones are kept |
| `SlabHeap.Heap.Return` | rt-thread/src/slab.c:888-898 | the pages of the empty zone are free again, and no block in use is touched |
| `SlabHeap.Heap.FreeLarge` | rt-thread/src/slab.c:794-817 | exactly that block is in use no more |
| `SlabHeap.Heap.InsideExtent` | rt-thread/src/slab.c:596-667 | a block in use lies inside its pages, behind the zone's header if it is a chunk, and inside the heap |
| `SlabHeap.Heap.BlocksApart` | rt-thread/src/slab.c:478-904 | two blocks in use never overlap, be they chunks of one zone, of two, or pages |
| `SlabHeap.Heap.NoPageLost` | rt-thread/src/slab.c:236-322 | a page is free if and only if it belongs to no large block and no zone; a zone is active, kept, or in the hands of a thread |
| `SlabHeap.Heap.Do` | rt-thread/src/slab.c:478-904 | a small request gains a chunk at most max(7, n/8) bytes longer, at once exactly if a zone or chunk is at hand; a large one the fewest pages that hold it, exactly if some run of pages is long enough; a step gains, gives back or changes nothing else |
| `SlabHeap.Heap.Run` | rt-thread/src/slab.c:478-904 | in every interleaving of threads the blocks held do not overlap, none is lost, a block stays with its holder until it is freed, and each state follows from the one before by what its step may do |
| `MemPool.BlocksFit` | rt-thread/src/mempool.c:97-104 | the blocks fit into the pool with their words and hold what they should, and no further block would fit |
| `MemPool.Pool.constructor` | rt-thread/src/mempool.c:77-124 | all blocks that fit are free and on the list |
| `MemPool.LastLinkInside` | rt-thread/src/mempool.c:111-119 | the last write of the initialisation lies inside the pool if and only if a block fits |
| `MemPool.Pool.Alloc` | rt-thread/src/mempool.c:303-391 | gives a block that was not in use, tags it, times out or waits at the front |
| `MemPool.Pool.Free` | rt-thread/src/mempool.c:399-449 | exactly that block is free again and the first waiter, if any, is resumed |
| `MemPool.Pool.Timeout` | rt-thread/src/thread.c:858-880 | the waiter leaves, and no wakeup is lost by it |
| `MemPool.Pool.Conservation` | rt-thread/src/mempool.c:303-449 | the free count and the tagged blocks make up the pool |
| `MemPool.Pool.Run` | rt-thread/src/mempool.c:303-449 | in every interleaving free and used blocks make up the pool, and when nobody is on the way, waiters wait only for a pool all in use; each state follows from the one before by what its step does |
| `WaitList.PrioOrder` | rt-thread/src/ipc.c:93-122 | by priority an ordered list stays ordered, and the new thread waits behind all that are as urgent |
| `WaitList.EnqueuedHas` | rt-thread/src/ipc.c:83-129 | suspending adds exactly one thread, in either order |
| `WaitList.AheadOfNew` | rt-thread/src/ipc.c:83-129 | in order of arrival everybody waits ahead of the new thread; by priority exactly those that are as urgent |
| `WaitList.AheadStays` | rt-thread/src/ipc.c:83-129 | the threads that wait already keep their order |
| `WaitList.DroppedHas` | rt-thread/src/thread.c:858-880 | a thread that leaves a list is the only one to leave, and the others keep their order |
| `WaitList.Suspend` | rt-thread/src/ipc.c:83-129 | the pointer surgery yields the ring with the thread in that place |
| `Semaphore.Semaphore.constructor` | rt-thread/src/ipc.c:205-226 | the value is the initial count and nobody waits |
| `Semaphore.Semaphore.Take` | rt-thread/src/ipc.c:330-415 | taken, timed out or blocked exactly by value and time, with the whole new state |
| `Semaphore.Semaphore.Release` | rt-thread/src/ipc.c:439-487 | the unit goes to the first waiter or to the value; full exactly at the maximum |
| `Semaphore.Semaphore.Timeout` | rt-thread/src/thread.c:858-880 | the waiter leaves and no unit is lost |
| `Semaphore.Semaphore.Reset` | rt-thread/src/ipc.c:499-531 | all waits end and the count starts afresh, kept in 16 bits |
| `Semaphore.Semaphore.Run` | rt-thread/src/ipc.c:330-487 | over every run, releases less takes is the change of the value, and while anyone waits every unit has been taken; each state follows from the one before by what its step does |
| `Mutex.Mutex.constructor` | rt-thread/src/ipc.c:546-566 | nobody owns the mutex and priorities are as given |
| `Mutex.Mutex.Inherit` | rt-thread/src/ipc.c:755-762 | the owner is raised to the waiter's urgency, never lowered, and stays at least as urgent as all waiters |
| `Mutex.Mutex.Take` | rt-thread/src/ipc.c:670-815 | nested, free, timed out or blocked exactly when, with the whole new state; keeps the owner protected |
| `Mutex.Mutex.Release` | rt-thread/src/ipc.c:826-933 | only the owner releases; the last release restores every priority and hands the mutex to the first waiter, who is protected if and only if he leads the list |
| `Mutex.Mutex.Timeout` | rt-thread/src/thread.c:858-880 | a waiter may leave; the owner keeps what it inherited and stays protected |
| `Mutex.Mutex.ChangeFromOutside` | rt-thread/src/thread.c:663-713 | for a waiter, the owner and anyone else exactly when the owner stays protected, and that the owner's change outlives the release only if it equals the remembered priority |
| `Mutex.Mutex.Run` | rt-thread/src/ipc.c:670-933 | over every run value, owner and hold agree, only an owned mutex is waited for, in priority order no waiter is more urgent than the owner, and without an owner all priorities are their own; each state follows from the one before by what its step does |
| `Mutex.FifoInversion` | rt-thread/src/ipc.c:881-902 | in first-come order a run ends with a waiter more urgent than the new owner |
| `Mutex.TailUrgent` | rt-thread/src/ipc.c:881-902 | in an ordered list the first waiter leads the others |
| `Event.MetBits` | rt-thread/src/ipc.c:1116-1133 | a wish for all bits is met if and only if every bit asked for is set; a wish for any, if and only if some bit asked for is; any other never |
| `Event.SentBits` | rt-thread/src/ipc.c:1102 | a bit is set after a send if and only if it was set or sent |
| `Event.ReceivedBits` | rt-thread/src/ipc.c:1236-1242 | a bit is received if and only if it is set and asked for |
| `Event.LeftBits` | rt-thread/src/ipc.c:1244-1246 | a bit is left if and only if it was set and not both asked for and to be cleared |
| `Event.HandedIsReceived` | rt-thread/src/ipc.c:1116-1133 | what a send hands to a thread whose wish is met is what the thread would have received |
| `Event.EitherWay` | rt-thread/src/ipc.c:1116-1151 | for a wish that is met, being handed bits by a send and receiving them give the same bits and the same set |
| `Event.SendServesInTurn` | rt-thread/src/ipc.c:1109-1159 | one send serves the waiters, bits and remaining set, as if it had come first and they had received one after another |
| `Event.NobodyServed` | rt-thread/src/ipc.c:1109-1159 | whoever is left suspended by the walk is not met by the set the walk leaves, although bits are cleared on the way |
| `Event.SetShrinks` | rt-thread/src/ipc.c:1149-1151 | the walk only takes bits away |
| `Event.KeptHas` | rt-thread/src/ipc.c:1109-1159 | exactly the waiters not served stay, in their order |
| `Event.EventSet.constructor` | rt-thread/src/ipc.c:967-985 | no bit is set and nobody waits |
| `Event.EventSet.Turn` | rt-thread/src/ipc.c:1110-1159 | one turn resumes the waiter with the bits due to it or passes it by, while the list is being edited |
| `Event.EventSet.Walk` | rt-thread/src/ipc.c:1106-1160 | the walk reaches every waiter once although it removes some on the way |
| `Event.EventSet.Send` | rt-thread/src/ipc.c:1081-1170 | refused exactly for no bits; otherwise the bits join the set, every waiter whose wish is met gets its bits in turn, and nobody left is met |
| `Event.EventSet.Receive` | rt-thread/src/ipc.c:1186-1280 | got exactly when the wish is met, with the bits due to it received and cleared; otherwise timed out, refused or blocked exactly when, with the whole new state |
| `Event.EventSet.Finish` | rt-thread/src/ipc.c:1291-1304 | a resumed thread returns the bits the send handed it |
| `Event.EventSet.Timeout` | rt-thread/src/thread.c:858-880 | the waiter leaves |
| `Event.EventSet.Reset` | rt-thread/src/ipc.c:1317-1345 | nobody waits and no bit is set |
| `Event.EventSet.Run` | rt-thread/src/ipc.c:1081-1345 | in every reachable state no suspended thread's wish is met by the event set, and each state follows from the one before by what its step does |
| `Mailbox.PutCell` | rt-thread/src/ipc.c:1603-1608 | writing the cell behind the last one appends to the ring buffer |
| `Mailbox.TakeCell` | rt-thread/src/ipc.c:1760-1766 | reading the first cell takes the oldest mail |
| `Mailbox.Mailbox.constructor` | rt-thread/src/ipc.c:1362-1390 | an empty box of the size kept in 16 bits |
| `Mailbox.Mailbox.Send` | rt-thread/src/ipc.c:1510-1638 | sent, full or blocked exactly by room and time; the mail goes last, a receiver is resumed, no wakeup is lost |
| `Mailbox.Mailbox.Receive` | rt-thread/src/ipc.c:1667-1795 | got the oldest mail, timed out or blocked exactly by contents and time; a sender is resumed, no wakeup is lost |
| `Mailbox.Mailbox.Timeout` | rt-thread/src/thread.c:858-880 | the thread leaves its list, and no wakeup is lost by it |
| `Mailbox.Mailbox.Reset` | rt-thread/src/ipc.c:1807-1839 | the box is empty and nobody waits |
| `Mailbox.Mailbox.NeverStuck` | rt-thread/src/ipc.c:1510-1795 | in every state every thread has a step it can take |
| `Mailbox.Mailbox.Quiescent` | rt-thread/src/ipc.c:1510-1795 | when nobody is on the way, receivers wait only for an empty box, senders only for a full one, and not both |
| `Mailbox.Mailbox.Do` | rt-thread/src/ipc.c:1510-1839 | each step only adds to what was sent and what was received, and does what the phase of its thread calls for |
| `Mailbox.Mailbox.Run` | rt-thread/src/ipc.c:1510-1795 | in every interleaving the mails received are the mails sent, in order, those missing are in the box, nobody sleeps on mail, and each state follows from the one before by what its step does |
| `MessageQueue.SlotsFit` | rt-thread/src/ipc.c:1888-1889 | the nodes fit into the pool; no further one would, if and only if 16 bits can count those that fit |
| `MessageQueue.SlotHolds` | rt-thread/src/ipc.c:1888-1889 | a node holds a message of the size asked for, with less than a word to spare, if and only if that is at most 65532 bytes |
| `MessageQueue.Queue.constructor` | rt-thread/src/ipc.c:1862-1912 | all nodes that fit are free, the queue is empty, sizes are kept in 16 bits |
| `MessageQueue.Queue.Append` | rt-thread/src/ipc.c:2173-2190 | the node goes behind the tail, which is the last node, or null with the head |
| `MessageQueue.Queue.Prepend` | rt-thread/src/ipc.c:2286-2298 | the node goes in front, and the tail is set if the queue was empty |
| `MessageQueue.Queue.Send` | rt-thread/src/ipc.c:2056-2167 | rejected, full, blocked or holding a node exactly when, with the whole new state |
| `MessageQueue.Queue.CopyIn` | rt-thread/src/ipc.c:2168-2169 | copying with interrupts enabled keeps every invariant |
| `MessageQueue.Queue.FinishSend` | rt-thread/src/ipc.c:2171-2213 | the bytes sent are now the last message, or the first if urgent, and a receiver is resumed |
| `MessageQueue.Queue.Urgent` | rt-thread/src/ipc.c:2244-2278 | rejected, full or holding a node, never blocking |
| `MessageQueue.Queue.Receive` | rt-thread/src/ipc.c:2337-2452 | the first message, a timeout or blocking, exactly by contents and time |
| `MessageQueue.Queue.CopyOut` | rt-thread/src/ipc.c:2454-2455 | copying with interrupts enabled keeps every invariant |
| `MessageQueue.Queue.FinishReceive` | rt-thread/src/ipc.c:2457-2483 | the caller has the message's bytes, as many as it asked for, the node is free again, and a sender is resumed |
| `MessageQueue.Queue.Timeout` | rt-thread/src/thread.c:858-880 | the thread leaves its list, and no wakeup is lost by it |
| `MessageQueue.Queue.Reset` | rt-thread/src/ipc.c:2497-2545 | the queue is empty and nobody waits; nodes being copied stay with their threads |
| `MessageQueue.Queue.NeverStuck` | rt-thread/src/ipc.c:2056-2484 | in every state every thread has a step it can take |
| `MessageQueue.Queue.Quiescent` | rt-thread/src/ipc.c:2056-2484 | at rest, receivers wait only for an empty queue, senders only for a full one, and free and queued nodes make up the pool |
| `MessageQueue.Queue.Do` | rt-thread/src/ipc.c:2056-2545 | every step keeps the partition of the pool, does what the phase of its thread calls for, and changes messages, threads and lists as its event says |
| `MessageQueue.Queue.Run` | rt-thread/src/ipc.c:2056-2545 | in every interleaving, urgent messages and resets included: the messages received and queued are the replay of the log, every linked message is what its sender was called with, every delivered buffer begins with the message taken; without urgent messages and resets they come in the order linked |
| `MessageQueue.InOrder` | rt-thread/src/ipc.c:2173-2190 | without urgent messages and resets a replay appends: received and queued messages are the linked ones, in order |
| `MessageQueue.NothingLost` | rt-thread/src/ipc.c:2056-2484 | without resets, with urgent messages too, received and queued messages are exactly the linked ones, each as often |
| `MessageQueue.Told` | rt-thread/src/ipc.c:2056-2545 | in every sequence of states that follow from one another step by step, the messages are the replay of the log, and every message linked is what some thread was sending |
| `ReadyMap.LowestByte` | rt-thread/src/kservice.c:1293-1311 | the table gives the lowest bit of every byte |
| `ReadyMap.FfsFinds` | rt-thread/src/kservice.c:1323-1337 | the bit at the place found is set, and no lower one is |
| `ReadyMap.SetFacts` | rt-thread/src/scheduler.c:724-728 | setting a bit changes that bit only, whatever the word |
| `ReadyMap.ClearFacts` | rt-thread/src/scheduler.c:811-822 | clearing a bit changes that bit only |
| `ReadyMap.Bitmap.Mark` | rt-thread/src/scheduler.c:724-728 | one priority more is ready, in one or two levels |
| `ReadyMap.Bitmap.Unmark` | rt-thread/src/scheduler.c:811-822 | one priority less is ready; the group bit falls only with the last of its eight |
| `ReadyMap.Bitmap.PlaceIsReady` | rt-thread/src/scheduler.c:153-175 | the bit searches lead to a ready priority |
| `ReadyMap.Bitmap.PlaceIsLeast` | rt-thread/src/scheduler.c:153-175 | and to the least of them |
| `ReadyMap.Bitmap.First` | rt-thread/src/scheduler.c:153-175 | the most urgent ready priority, for one and two levels |
| `ReadyMap.Bitmap.Any` | rt-thread/src/scheduler.c:423-424 | the group word is zero exactly when nothing is ready |
| `Scheduler.Scheduler.constructor` | rt-thread/src/scheduler.c:182-230 | empty lists, nobody runs |
| `Scheduler.Scheduler.Start` | rt-thread/src/scheduler.c:237-261 | the most urgent ready thread runs |
| `Scheduler.Scheduler.Insert` | rt-thread/src/scheduler.c:699-733 | the current thread goes on running, any other goes to the end of the list of its priority |
| `Scheduler.Scheduler.Dequeue` | rt-thread/src/scheduler.c:796-826 | the thread leaves its list, and the bit falls exactly when the list is empty |
| `Scheduler.Scheduler.Highest` | rt-thread/src/scheduler.c:153-175 | the first list that is not empty |
| `Scheduler.Scheduler.SwitchTo` | rt-thread/src/scheduler.c:447-462 | the thread relieved joins the end of its list, the first of the foremost list runs, and nobody ready is more urgent |
| `Scheduler.Scheduler.Schedule` | rt-thread/src/scheduler.c:409-529 | locked or with nobody ready nothing changes; else the current thread stays exactly when it is more urgent, or as urgent and did not yield, and the most urgent thread runs |
| `Scheduler.Scheduler.StaysIff` | rt-thread/src/scheduler.c:430-446 | the current thread stays if and only if it is running and every ready thread is less urgent, or as urgent while it has not yielded |
| `Scheduler.Scheduler.Launch` | rt-thread/src/thread.c:315-347 | a thread starts at its initial priority, at the end of that list |
| `Scheduler.Scheduler.Startup` | rt-thread/src/thread.c:315-347 | and then the most urgent thread runs |
| `Scheduler.Scheduler.Suspend` | rt-thread/src/thread.c:766-805 | fails exactly for threads neither ready nor running; a ready thread leaves its list |
| `Scheduler.Scheduler.Resume` | rt-thread/src/thread.c:815-849 | fails exactly for threads not suspended; the thread joins the end of its list |
| `Scheduler.Scheduler.ChangePriority` | rt-thread/src/thread.c:673-713 | a ready thread moves to the end of the list of its new priority, any other only changes its number |
| `Scheduler.Scheduler.Yield` | rt-thread/src/thread.c:508-521 | the thread goes behind its equals and the first of them runs; with none it stays |
| `Scheduler.Scheduler.YieldRound` | rt-thread/src/thread.c:508-521 | as many yields as there are equals give each exactly one turn, in order, and restore the lists |
| `Scheduler.Scheduler.StaleYield` | rt-thread/src/scheduler.c:430-445 | a yield to nobody is remembered and acted on later |
| `Scheduler.Scheduler.Close` | rt-thread/src/thread.c:358-399 | the thread is on no list and closed |
| `Scheduler.Scheduler.Exit` | rt-thread/src/thread.c:105-141 | the current thread is closed and another one runs |
| `Scheduler.Scheduler.EnterCritical` | rt-thread/src/scheduler.c:872-887 | one lock more, nothing else |
| `Scheduler.Scheduler.ExitCritical` | rt-thread/src/scheduler.c:936-961 | the last lock lifted schedules, an outer one does not |
| `Scheduler.Scheduler.TickIncrease` | rt-thread/src/clock.c:62-89 | the slice falls by one; used up, it is refilled and the thread goes behind its equals, the first of whom runs; unless locked or with nobody ready, when only the yield is remembered |
| `Scheduler.Scheduler.UseSlice` | rt-thread/src/clock.c:62-89 | with n ticks left and equals ready a thread runs for n - 1 further ticks and gives way to the first of them at exactly the n-th |
| `Scheduler.Scheduler.Do` | rt-thread/src/thread.c:105-849 | every operation keeps bitmap, lists and states in agreement; what it does to every thread and list, and each of the seven kinds that call `rt_schedule` leaves the most urgent thread running unless locked |
| `Scheduler.Scheduler.Run` | rt-thread/src/scheduler.c:409-529 | in every run bitmap, lists and states agree, each state follows from the one before by what its operation does, and after every call of `rt_schedule` that is not locked out, those of start-up, unlocking and used-up slices included, the most urgent thread runs |
| `SkipList.OrderIff` | rt-thread/src/timer.c:374-381 | two ticks less than a turn apart are ordered and told apart correctly if and only if they are comparable |
| `SkipList.PastIff` | rt-thread/src/timer.c:548-552 | a deadline is found past if and only if it is not after now, within half a turn |
| `SkipList.LinearIs` | rt-thread/src/timer.c:357-385 | there is one place behind all deadlines up to the new one and before all later ones |
| `SkipList.TallOfTall` | rt-thread/src/timer.c:394-406 | each upper row is a subsequence of the row below |
| `SkipList.SpotAbove` | rt-thread/src/timer.c:357-385 | the place in an upper row is the place in the bottom row less the low timers before it |
| `SkipList.RowsEnter` | rt-thread/src/timer.c:394-406 | inserting at the place found in each row, up to any height, keeps every row the tall part of the bottom row |
| `SkipList.InsertKeeps` | rt-thread/src/timer.c:394-395 | the bottom row stays sorted and gains just the timer |
| `SkipList.MinusTall` | rt-thread/src/timer.c:136-144 | removing a timer from every row keeps the rows in step |
| `SkipList.MinusKeeps` | rt-thread/src/timer.c:136-144 | removal keeps the order and the other timers |
| `Timer.System.constructor` | rt-thread/src/timer.c:86-111 | no timer is pending |
| `Timer.System.Remove` | rt-thread/src/timer.c:136-144 | the timer leaves every row, or the temporary list |
| `Timer.System.Scan` | rt-thread/src/timer.c:360-382 | the inner loop stops at the place for the deadline, by wrapping comparisons only |
| `Timer.System.Search` | rt-thread/src/timer.c:357-385 | going down row by row, for any height, finds in every row the place a scan from its head finds |
| `Timer.System.LinkIn` | rt-thread/src/timer.c:391-406 | the timer enters the bottom row and exactly as many rows above it as the lowest digits of the counter are 0 |
| `Timer.System.Start` | rt-thread/src/timer.c:315-428 | the timer is pending with deadline now + init, behind all equal deadlines as a linear scan would place it, and no other timer changes |
| `Timer.System.Stop` | rt-thread/src/timer.c:438-462 | fails exactly for inactive timers; otherwise the timer is nowhere and inactive |
| `Timer.System.Detach` | rt-thread/src/timer.c:217-239 | the timer is nowhere and inactive |
| `Timer.System.Do` | rt-thread/src/timer.c:474-520 | a command changes what concerns its own timer, by `Effect`, and nothing of any other; only starting with time 0 makes a timer due |
| `Timer.System.Take` | rt-thread/src/timer.c:556-563 | the due timer is on the temporary list, active only if periodic |
| `Timer.System.Settle` | rt-thread/src/timer.c:573-585 | after the callback the timer is restarted exactly if it is still waiting, active and periodic |
| `Timer.System.Fire` | rt-thread/src/timer.c:543-586 | one turn fires the first timer once, and there is one due timer less |
| `Timer.System.Turn` | rt-thread/src/timer.c:543-586 | the loop goes on if and only if a timer is due; then one due timer fires, and what becomes of every timer |
| `Timer.System.Check` | rt-thread/src/timer.c:529-594 | the check ends if from some callback on none starts a timer of time 0; it fires an earliest due timer at each turn, by the deadlines its callbacks leave, until none is due, and each timer fires at most once and only if it was due, except those started with time 0 by callbacks |
| `Timer.System.QuietTurns` | rt-thread/src/timer.c:529-594 | with callbacks that issue no commands the loop ends if and only if no due periodic timer has time 0, and then within one turn for each due timer and one more |
| `Timer.System.RolesFound` | rt-thread/src/timer.c:86-111 | the systems the run theorems speak of are exactly those in which no periodic timer of time 0 is on a list |
| `Timer.System.TickIncrease` | rt-thread/src/clock.c:62-89 | firings so far and still expected, taken together, do not change for a timer left alone; for the others, what became of each and in which order they fired |
| `Timer.System.Tick` | rt-thread/src/clock.c:62-89 | the same with the program's commands before the tick |
| `Timer.System.Run` | rt-thread/src/timer.c:529-594 | over any number of ticks, across wraparound, a timer left alone fires at exactly the expected ticks, whatever programs and callbacks do to other timers short of starting a periodic timer of time 0 or starting timers of time 0 without end; each tick fires the due timers in order of their deadlines and leaves none due |
| `Timer.System.SetAndStart` | rt-thread/src/thread.c:548-549 | the timer is pending with the time just set, and no other timer changes |
| `Timer.System.Sleep` | rt-thread/src/thread.c:531-560 | the timer of a sleeping thread fires once, d ticks after the call, whatever other timers do meanwhile |
| `Timer.ExpectedPeriodic` | rt-thread/src/timer.c:529-594 | the expected ticks of a periodic timer are the multiples of its period after the start, and all of them |
| `Timer.SetFires` | rt-thread/src/timer.c:489-491 | a timer set to d by any list of commands, whatever they do before and between, and started at s fires once at s + d, or at s + 1 if d is 0, or if periodic at s + d, s + 2d, ... and never else |
| `Timer.TimeSet` | rt-thread/src/timer.c:489-491 | the time set last is the timer's time, whatever commands follow |
| `Timer.KindSet` | rt-thread/src/timer.c:493-499 | the kind set last is the timer's kind, whatever commands follow |
| `Timer.StoppedNever` | rt-thread/src/timer.c:438-462 | a timer that is stopped or detached and not started again never fires |
| `Timer.StartedFires` | rt-thread/src/timer.c:315-428 | started at s with time d: once at s + d, or at the next tick if d is 0, or at s + d, s + 2d, ... and at no other tick |
| `Timer.FiredRest` | rt-thread/src/timer.c:556-585 | a firing uses up the first expected tick and no other |
| `Timer.System.HeadFirst` | rt-thread/src/timer.c:114-134 | no pending timer is due before the first |
| `Timer.System.NextTimeout` | rt-thread/src/timer.c:114-134 | the earliest deadline, or the largest tick if there is none |
| `Timer.System.ZeroPeriodSpins` | rt-thread/src/timer.c:529-594 | a due periodic timer of time 0 that no callback concerns makes any number of firings happen in one check |
| `Timer.System.CallbackClearsPeriodic` | rt-thread/src/timer.c:556-585 | for every callback: after its turn a timer is marked active exactly if it is on the list, if and only if not (periodic before, made one-shot, neither started nor stopped) |
| `Timer.CallbackEffect` | rt-thread/src/timer.c:556-585 | where every callback leaves its own timer: waiting with the kind last set, or consistently on a list or off it |
| `Timer.ActiveIffListed` | rt-thread/src/timer.c:573-585 | the same equivalence for one timer and every series of commands |
| `Printf.ReadBack` | rt-thread/src/kservice.c:591-598 | decimal digits of every number read back as that number |
| `Printf.ReadNumber` | rt-thread/src/kservice.c:591-598 | the loop reads the digits that are there and stops behind them |
| `Printf.SignedReadBack` | rt-thread/src/kservice.c:609-778 | a plain signed conversion prints sign and magnitude, and the magnitude reads back |
| `Printf.NumberWidth` | rt-thread/src/kservice.c:609-778 | a number is as wide as asked for, or as its sign, prefix, digits and precision need, if and only if the precision is not 0 |
| `Printf.DigitsWorth` | rt-thread/src/kservice.c:571-588 | digits of base ten or sixteen are worth the number in that base |
| `Printf.DigitsProper` | rt-thread/src/kservice.c:679-686 | they are digits of that base, in one case, without a leading zero |
| `Printf.OctalRight` | rt-thread/src/kservice.c:571-588 | the octal conversion is right if and only if the number has one octal digit |
| `Printf.ZeroPrecision` | rt-thread/src/kservice.c:762-768 | with precision 0 the text is that without precision less all its digits, for every number, width and flags |
| `Printf.Sink.Put` | rt-thread/src/kservice.c:817-819 | the buffer holds as much of the output as fits, and nothing past its end is written |
| `Printf.Sink.Collect` | rt-thread/src/kservice.c:679-686 | the digits, last one first |
| `Printf.Sink.PrintNumber` | rt-thread/src/kservice.c:609-778 | the counter arithmetic of padding, sign, prefix, zeros and digits comes to the text described |
| `Printf.Sink.Convert` | rt-thread/src/kservice.c:891-1024 | each conversion prints its text, stored or not |
| `Printf.ReadSpec` | rt-thread/src/kservice.c:823-886 | the flags, width, precision and qualifier that are there, with stars taken from the arguments |
| `Printf.PlainText` | rt-thread/src/kservice.c:813-821 | text without percent signs is printed as it is |
| `Printf.DecimalOutput` | rt-thread/src/kservice.c:981-1024 | a plain decimal conversion prints the number alone |
| `Formats.ReadsAsWritten` | rt-thread/src/kservice.c:823-886 | every conversion written as flags, width, dot and precision, qualifier and letter is read back as just these |
| `Formats.NumberLaid` | rt-thread/src/kservice.c:609-778 | the text of a number is blanks, sign, prefix, zeros, digits and blanks that make up the width, on the side and of the kind the flags ask for |
| `Formats.IntegerOutput` | rt-thread/src/kservice.c:971-1028 | `d`, `i`, `u`, `x`, `X`, `o`, with or without `h` or `l`: the digits printed are worth the word, cut to 16 bits by `h` and signed for `d` and `i`, in base ten, or in base sixteen with small or large letters, with the sign and prefix due and padded to the width |
| `Formats.PointerOutput` | rt-thread/src/kservice.c:948-963 | `p`: the word in base sixteen, eight digits wide unless another width is written |
| `Formats.StringOutput` | rt-thread/src/kservice.c:916-946 | `s`: the string, or its beginning if a precision but 0 says so, padded to the width on the side the flags ask for |
| `Formats.CharOutput` | rt-thread/src/kservice.c:893-914 | `c`: the low byte of the word, padded likewise |
| `Formats.OtherOutput` | rt-thread/src/kservice.c:965-1001 | any other letter is printed behind a percent sign, a second percent sign once, and no argument is used |
| `Formats.EndOutput` | rt-thread/src/kservice.c:987-1000 | a percent sign at the end of the format is printed as it is |
| `Printf.PutNext` | rt-thread/src/kservice.c:813-1028 | each turn moves one piece of the remaining output to the output so far |
| `Printf.Terminate` | rt-thread/src/kservice.c:1030-1037 | the buffer holds the first characters and a NUL, which may overwrite the last one stored |
| `Printf.Vsnprintf` | rt-thread/src/kservice.c:780-1043 | for every format and size: the first size - 1 characters of the whole output and a NUL, nothing past the buffer, and the length of the whole output as result |
| `Memory.Memmove` | rt-thread/src/kservice.c:293-312 | the target gets the bytes the source had, for every overlap, and nothing else changes |
| `Memory.ForwardMoves` | rt-thread/src/kservice.c:297-309 | a copy from the front is right whenever the guard fails |
| `Memory.ForwardSpoils` | rt-thread/src/kservice.c:297-309 | and for every overlap in which the guard holds, some contents come out wrong |
| `Memory.AlignedInside` | rt-thread/src/kservice.c:1236-1273 | for a power of two the address is aligned, with room in front for the word that `rt_free_align` reads and room behind for the size |
| `Memory.WordOfBytes` | rt-thread/src/kservice.c:1266-1288 | a word put together from its four bytes is that word |
| `Memory.AlignedThenFreed` | rt-thread/src/kservice.c:1266-1288 | the address stored in front is found again whatever the program writes behind, and nothing in front of it is written |
| `Memory.OtherAlignmentsFail` | rt-thread/src/kservice.c:1256-1264 | every other multiple of four up to 0xFFFF_FFF8 gives some block an address strictly between two multiples |
| `Memory.ZeroAlignment` | rt-thread/src/kservice.c:1256-1264 | alignment 0 gives the null address for every block |
| `WorstCaseStack.FromCallees` | rt-thread/tools/WCS.py:269-290 | the deepest callee plus the own stack is the maximum over all call paths, and it is attained |
| `WorstCaseStack.CallerAgain` | rt-thread/tools/WCS.py:264-267 | meeting a caller again shows recursion |
| `WorstCaseStack.EndlessSplit` | rt-thread/tools/WCS.py:278-281 | without a pointer call of its own a function is unbounded only through a callee |
| `WorstCaseStack.UnresolvedSplit` | rt-thread/tools/WCS.py:286-288 | the names a function reaches are its own and those its callees reach |
| `WorstCaseStack.AnswerIsUnique` | rt-thread/tools/WCS.py:245-299 | a function has one right answer, so the visiting order cannot change it |
| `WorstCaseStack.Analysis.constructor` | rt-thread/tools/WCS.py:255-257 | functions with a depth given by hand are right from the start |
| `WorstCaseStack.Analysis.VisitCallee` | rt-thread/tools/WCS.py:271-288 | after each turn the callees seen are bounded by the running maximum, which one of them attains, or the function is unbounded |
| `WorstCaseStack.Analysis.CalcWcs` | rt-thread/tools/WCS.py:246-290 | the search ends on every graph, cyclic ones included, and every answer in the table is right |
| `WorstCaseStack.Analysis.CalcAllWcs` | rt-thread/tools/WCS.py:292-299 | in any order: unbounded if and only if a cycle or a pointer call is reached, otherwise the maximum sum over call paths; for bounded functions the collected names are exactly those reached |

## Left out

- SMP branches and `rt-thread/src/cpu.c`, context switch, stack set-up and overflow check, `signal.c`: they depend on assembly that is not shown; a switch is a change of the current thread.
- Hooks, names, object containers, debug logs, MEMTRACE, `list_mem` and other shell commands: they observe the kernel and do not change what is modelled. `rt_calloc`: an allocation and stores of 0.
- Drivers, peripherals and `applications/`: register traffic and floating point.
- Detaching and deleting IPC objects, pools and threads that others wait for: the waiters are resumed with an error, as in the resets that are modelled; what happens to the memory of the object is not.
- Requests within a header of 2^32 bytes, and addresses that wrap: sizes are unbounded where the code adds to them.
- MemHeap.Heap.Alloc: addresses are offsets from the pool; the pool itself is taken to be aligned, as it is in the original when its caller aligns it.
- MemHeap.Heap.constructor: requires room for two headers; for smaller pools the original computes a wrong size, which `MemHeap.PoolTooSmall` proves to be exactly then.
- MemPool.Pool.constructor: requires room for a block; without it the original writes in front of the pool, which `MemPool.LastLinkInside` proves to be exactly then.
- SmallHeap.Heap.Store: a cell holds a byte or a whole header, so a program that overwrites a header is not expressible.
- SmallHeap.Heap.MovePayload: allocation, copy and release of a move are one step; with other threads in between they are the three operations of `Objects.Copied`.
- SmallHeap.Heap.Realloc: a move is one step, as in `SmallHeap.Heap.MovePayload`.
- MemHeap.Heap.MovePayload: allocation, copy and release of a move are one step, as in `SmallHeap.Heap.MovePayload`.
- MemHeap.Heap.Realloc: a move is one step, as in `MemHeap.Heap.MovePayload`.
- SmallHeap.Heap.Malloc: requires `ScanEnds`; for the remaining requests the scan does not end, which `SmallHeap.ScanNeverEnds` proves.
- Zones.Slab.MallocIn: the zone is a parameter here; `SlabHeap.Heap.Open` passes pages that the page allocator gave.
- SlabHeap.Heap.Run: what programs store in their blocks is not modelled, and the map from addresses to zones (`memusage`) is the pair of zone and chunk number; a program frees only what it holds.
- `rt_realloc` of `slab.c`: allocate, copy and free, or keep; it adds no new state.
- Pages.PageList.Free: freeing pages that are not in use is an assertion failure in the original and a precondition here.
- Timer.System.Start: requires that all pending deadlines be comparable with the new one, as the original's half-range assertion intends; soft timers and their thread are the same list run by a thread and are not modelled, nor is `rt_tick_set`.
- Timer.System.Run: the check runs at every tick; missed ticks are not modelled. Starting a periodic timer of time 0, or starting timers of time 0 from ever more callbacks of one check, is excluded: the check need not end then (`Timer.System.ZeroPeriodSpins`).
- Mutex.Mutex.Run: one mutex, and nothing but the mutex changes priorities; what a change from outside does, another mutex's included, is `Mutex.Mutex.ChangeFromOutside`.
- WaitList.PrioOrder: a list is not re-sorted when the priority of a suspended thread changes, so the order is that of the priorities at the time of suspension.
- Event.EventSet.Receive: requires an option that asks for all or for any bits, which the original asserts.
- Scheduler.Scheduler.Run: thread priorities are recomputed masks in the original; here the mask follows from the priority. A run starts after `rt_system_scheduler_start`.
- Scheduler.Scheduler.TickIncrease: the timer half of the tick is `Timer.System.TickIncrease`; the two are not combined into one state.
- ReadyMap.LowestByte: the table of 256 entries is given by its sixteen rows and their first column, which are what it repeats.
- Printf.Vsnprintf: 32-bit numbers, with precision support; a missing or ill-typed argument, undefined in the original, reads as 0 or as the missing string.
- Memory.AlignedInside: alignments are powers of two and rounded to four bytes, and the block does not wrap.
- Time left after a wakeup (`timeout` less the ticks slept) in the blocking calls is an arbitrary number of the next region, so every way it can come out is covered.
- `tools/WCS.py`: reading of object files and call lists; the graph with resolved calls is the input. A function is told from another by its place in the list, where the original compares records by value.
