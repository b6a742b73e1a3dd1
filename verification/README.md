# Verified models of the auos kernel's allocators, scheduler and buffers

This project models the parts of the auos teaching kernel whose correctness rests
on an invariant over every run, and proves those invariants.

* **Page allocator** (`Bits`, `Lists`, `Buddy`, `PageOrders`, `PageAlloc`, `Setup`). A
  zone is a set of free pages, a map of live blocks and eleven free lists. Module
  `Buddy` states what the allocator computes on values and proves that the lists are a
  function of the set of free pages: list k holds exactly the maximal aligned free
  blocks of order k. `PageOrders` adds the order field of every page: which fields each
  operation writes, and that the stale values left inside larger blocks are never
  mistaken for free blocks. `PageAlloc` is the code itself, on an array of order fields
  and on lists threaded through the pages; each method is proved to act as those
  functions. `Setup` joins initialisation to the boot-time ranges.
* **Slab cache** (`SlabLayout`, `Slab`, `SlabCaches`). The layout arithmetic, the
  bitmap scans, the partial and full lists and the page back pointers, on top of the
  page allocator. The end-to-end result is that destroying a cache gives every page
  back and leaves all free lists with the blocks they held before.
* **Boot-time ranges** (`BootMem`). Interval arrays changed in place, and the
  two-pointer first-fit search, proved to return the least suitable address.
* **Tasks** (`StackSwitch`, `Scheduler`, `TaskSystem`). The assembly routine that swaps
  stacks, the initial frame, the preemptive round-robin queue with its time slices, and
  the two as one machine: a waiting task is served in time, with its own context.
* **Small machines** (`Kmap`, `Printer`, `Serial`). The kernel page table with its
  permanent low memory and the mapping window above it, the number printer and the
  interrupt-fed ring buffer.

Code that updates memory is modelled by classes whose methods have the loops and
assignments of the source; each is specified by a function on values, and the theorems
are lemmas about those functions and about runs of them.

## Findings

Six things the code does not do as its callers or its own checks suggest, each with
an input that shows it and the exact condition under which the code is right.

* The assertion in `free_pages` accepts pages inside free blocks: after a zone of two
  pages is initialised with both accepted, page 1 still carries the mark it was born
  with (`PageOrders.AssertionAcceptsAbsorbed`). For a page of the zone it accepts exactly
  the live blocks if and only if the page heads a block or its order field is not
  negative (`PageOrders.AssertionExactIff`). A second free of the same block passes it
  exactly when the first one merged the block into one that starts at another page
  (`PageOrders.SecondFreeAccepted`).
* Adding a range may leave overlapping ranges (`BootMem.SwallowingBreaksGaps`); the
  ranges stay apart exactly under `BootMem.KeepsGaps` (`BootMem.CanonicalKeptIff`).
* `boot_mem_is_free` answers "free" for reserved ranges (`BootMem.IsFreeMeaning`), and
  as `init_zone` calls it, it accepts every frame but frame 0
  (`BootMem.FrameVerdict`). Initialisation therefore frees every frame of the zone but
  frame 0, and frame 0 exactly when it is not free (`Setup.ReservationsIgnored`).
* `slab_cache_create` accepts requests that no slab can serve: objects too large, a
  count that wraps around, and a size that wraps around to zero
  (`SlabLayout.OversizedRequest`). A request for `size` and `align` is served exactly
  when the greatest multiple of `align` within 8172 bytes is not zero and at least
  `size` (`SlabLayout.UsableIff`, `Slab.CreateOk`).
* The slab layout is not always the best possible: a slab of 16-byte objects has room
  for one more (`SlabLayout.LayoutMissesOne`). The count is the greatest possible
  exactly when the remainder of its division and the count modulo 32 together stay
  below the divisor (`SlabLayout.CountIsBestIff`).
* `kmap` drops the offset of a physical address above low memory: the address it returns
  translates to the one asked for exactly when that is in low memory or page aligned
  (`Kmap.MapTranslation`).

## Model

| member | source | states |
|---|---|---|
| `Bits.BuddyShift` | kernel/page_alloc.c:5-8 | flipping bit k of an aligned frame number adds or subtracts 2^k: the buddy is the other half of the enclosing aligned block |
| `Bits.Halves` | kernel/page_alloc.c:5-8 | the block of order k + 1 around a block is that block together with its buddy, and nothing else |
| `Buddy.AddMaximal` | kernel/page_alloc.c:33-34 | listing one more maximal free block leaves every other maximal block as it was |
| `Buddy.RemoveMaximal` | kernel/page_alloc.c:25-25 | unlinking a listed block leaves exactly the maximal blocks of the remaining pages |
| `Buddy.FreeListsCanonical` | kernel/page_alloc.c:10-35 | coalescing upwards keeps the canonical form: the lists hold the maximal aligned blocks of the enlarged free set |
| `Buddy.SplitCanonical` | kernel/page_alloc.c:64-71 | halving a block and listing the upper halves keeps the canonical form for the pages that stay free |
| `Buddy.FreePreserves` | kernel/page_alloc.c:10-45 | a free keeps canonical form and tiling, touches only pages that were not free, and adds exactly 2^order free pages |
| `Buddy.AllocPreserves` | kernel/page_alloc.c:47-75 | an allocation keeps canonical form and tiling and makes one aligned block of free pages live, removing exactly 2^order free pages; a failed one changes nothing |
| `Buddy.AllocComplete` | kernel/page_alloc.c:47-58 | looking only at list heads, allocation fails exactly when no aligned run of 2^order free pages exists, and otherwise splits a smallest sufficient maximal block |
| `Buddy.Tiling` | kernel/page_alloc.c:10-75 | every page of the zone lies in exactly one block, free or live, and no block reaches outside the zone |
| `Buddy.LiveBlocksDisjoint` | kernel/page_alloc.c:47-75 | two live blocks share no page |
| `Buddy.NoFreeBuddies` | kernel/page_alloc.c:14-32 | below the top order no free block has a free buddy of its own order |
| `Buddy.FreePagesDecide` | kernel/page_alloc.c:10-75 | two valid zones with the same free pages have the same blocks on every list |
| `Buddy.LiveBlocksDecide` | kernel/page_alloc.c:10-75 | two valid zones with the same live blocks have the same free pages and blocks |
| `Buddy.AllocThenFree` | kernel/page_alloc.c:10-75 | freeing what was just allocated restores the blocks of every order |
| `Buddy.RunPreserves` | kernel/page_alloc.c:10-75 | canonical form and tiling hold after every run of allocations and legal frees |
| `Buddy.RunsAgree` | kernel/page_alloc.c:10-75 | any two runs that end with the same free pages, or the same live blocks, end with the same free blocks of every order |
| `Buddy.FreeOrderIrrelevant` | kernel/page_alloc.c:10-45 | freeing the same live blocks in two different orders gives the same free blocks |
| `Buddy.StepQueues` | kernel/page_alloc.c:25-34 | every operation moves every free list on as a queue: at most one block leaves it, or one joins at the tail |
| `Buddy.FirstInFirstOut` | kernel/page_alloc.c:60-71 | over every run, while a block stays on its list no block that was behind it or joined later is handed out or split |
| `Buddy.AbsorbPreserves` | kernel/page_alloc.c:14-32 | each round of the coalescing loop goes from one valid zone to another and leaves the final result unchanged |
| `PageOrders.StaleOrdersHarmless` | kernel/page_alloc.c:20-23 | although absorbed pages keep old orders, the buddy's order field equals the order exactly when the buddy heads a free block of that order |
| `PageOrders.CoalescedMaximal` | kernel/page_alloc.c:14-34 | the block whose order field a free writes is the maximal free block around the freed one, on its list |
| `PageOrders.MemRunPreserves` | kernel/page_alloc.c:10-75 | after every run of allocations and legal frees the order field of every block's first page tells whether it is free and its order, although pages inside blocks keep old values |
| `PageOrders.StepInside` | kernel/page_alloc.c:10-75 | no operation writes an order field outside its zone |
| `PageOrders.StepWritesHeads` | kernel/page_alloc.c:10-75 | an operation writes only order fields of pages that head a block afterwards; the stale values of all others stay |
| `PageOrders.AssertionExactIff` | kernel/page_alloc.c:39-40 | for a page of the zone the assertion accepts exactly the live blocks if and only if the page heads a live or free block or its order field is not negative |
| `PageOrders.SecondFreeAccepted` | kernel/page_alloc.c:39-44 | after a legal free a second free of the same block passes the assertion exactly when the first one merged the block into one that starts at another page |
| `PageOrders.AssertionAcceptsAbsorbed` | kernel/page_alloc.c:39-40 | after init_zone on two accepted pages, whatever their order fields held, page 1 is inside a free block and the assertion accepts it as a live block of order 0 |
| `PageAlloc.Zone.FreePagesNode` | kernel/page_alloc.c:10-35 | the pointer code frees exactly as specified, for any zone bounds: of all order fields it writes that of the coalesced block's first page only, of all lists only the zone's |
| `PageAlloc.Zone.FreePages` | kernel/page_alloc.c:37-45 | for a live block of the given order the assertion passes, and lists and order fields change exactly as specified |
| `PageAlloc.Zone.AllocPages` | kernel/page_alloc.c:47-75 | the pointer code allocates exactly as specified: first block of the smallest non-empty list, upper halves listed at the tail, and only the order fields of these halves and of the result written |
| `PageAlloc.Zone.InitZone` | kernel/arch/x86/setup_page_alloc.c:9-39 | from unused pages, for any predicate on frames, the zone is valid with exactly the accepted pages free and all others live at order 0, and every order field is what the frees in ascending order leave |
| `PageOrders.InitialisedMeaning` | kernel/arch/x86/setup_page_alloc.c:27-35 | the loop of frees keeps the zone valid, every accepted page is still live when its turn comes, and no order field outside the zone changes |
| `PageOrders.InitialBlocks` | kernel/arch/x86/setup_page_alloc.c:27-35 | after initialisation list k holds exactly the maximal aligned blocks of accepted frames |
| `Setup.ReservationsIgnored` | kernel/arch/x86/setup_page_alloc.c:27-35 | with the answers boot_mem_is_free gives, every frame of the zone above 0 ends up free, reserved or not, and frame 0 exactly when it is not free |
| `PageAlloc.FreeBeside` | kernel/page_alloc.c:14-18 | with two zones in one page array, freeing in one leaves the other zone and its validity untouched |
| `PageAlloc.AllocBeside` | kernel/page_alloc.c:47-75 | so does allocating |
| `PageAlloc.InitBeside` | kernel/arch/x86/setup_page_alloc.c:63-66 | so does initialising the next zone of a node |
| `Lists.InsertWellLinked` | kernel/list.c:9-16 | linking a detached node inserts it into one list and leaves all lists well formed and disjoint |
| `Lists.RemoveWellLinked` | kernel/list.c:28-38 | unlinking removes the node from its list and leaves all lists well formed and disjoint |
| `Lists.WalksAgree` | kernel/list.c:3-38 | walking forward from a head visits its contents in order and returns to the head; walking backward visits them in reverse |
| `Lists.ListPool.InitHead` | kernel/list.c:3-7 | the node becomes the head of an empty list, the other lists are unchanged |
| `Lists.ListPool.InsertAfter` | kernel/list.c:18-21 | inserts after any position of one list, other lists unchanged |
| `Lists.ListPool.InsertBefore` | kernel/list.c:23-26 | inserts before any position of one list, other lists unchanged |
| `Lists.ListPool.AddTail` | hw3/list.c:15-16 | insertion before the head appends at the tail |
| `Lists.ListPool.Remove` | kernel/list.c:35-38 | removes the node from its list, other lists unchanged, and the node may be linked again |
| `Lists.ListPool.Empty` | kernel/include/kernel/list.h:14-17 | the head points to itself exactly when the list is empty |
| `SlabLayout.SizeIsLeastMultiple` | kernel/slab_cache.c:19-24 | for every 32-bit request the object size is the least multiple of the alignment, not zero, that holds the object, unless the addition wraps around: then it is zero |
| `SlabLayout.NoSmallerMultiple` | kernel/slab_cache.c:19-24 | no smaller positive multiple of the alignment holds the object |
| `SlabLayout.CountMeaning` | kernel/slab_cache.c:26-33 | for any size, n objects are not too many exactly when header, objects, n bits and 31 spare bits fit into the space |
| `SlabLayout.LayoutFits` | kernel/slab_cache.c:26-33 | header, whole bitmap words and the chosen number of objects fit into the slab, for any space with room for one word |
| `SlabLayout.LayoutTight` | kernel/slab_cache.c:31-32 | when the last bitmap word would hold one object, the count is exactly the largest that fits |
| `SlabLayout.LayoutNearOptimal` | kernel/slab_cache.c:26-33 | for objects of at least one bitmap word no layout holds more than one extra object |
| `SlabLayout.OneMoreFits` | kernel/slab_cache.c:26-33 | one more object would fit exactly when the division's remainder and the count modulo 32 add up to the divisor or more |
| `SlabLayout.CountIsBestIff` | kernel/slab_cache.c:26-33 | the count is the greatest that fits exactly when they add up to less |
| `SlabLayout.FitsIff` | kernel/slab_cache.c:26-33 | for objects of at least one bitmap word: exactly which numbers of objects fit |
| `SlabLayout.LayoutMissesOne` | kernel/slab_cache.c:26-33 | for 16-byte objects the count is 506 and 507 fit |
| `SlabLayout.UsableIff` | kernel/slab_cache.c:42-55 | over all 32-bit sizes and alignments, wrap-around included: the objects are as large as requested, at least one fits and the layout fits, exactly when the greatest multiple of the alignment within the room of a slab is positive and at least the size |
| `SlabLayout.OversizedRequest` | kernel/slab_cache.c:19-55 | three accepted requests: the count is zero, has wrapped to a layout that does not fit, or the size has wrapped to zero so that 65377 objects share one place |
| `SlabLayout.ObjectsApart` | kernel/slab_cache.c:109-109 | objects lie behind header and bitmap, inside the slab, and do not overlap |
| `SlabLayout.IndexOfObject` | kernel/slab_cache.c:117-117 | the division in slab_free recovers the index used by slab_alloc |
| `SlabLayout.ObjectsAligned` | kernel/slab_cache.c:42-55 | every object is aligned when the alignment divides slab size and base |
| `Slab.Locate` | kernel/slab_cache.c:154-160 | from the address of an object the page arithmetic finds its slab and index |
| `Slab.LiveObjectsApart` | kernel/slab_cache.c:90-110 | live objects never overlap, within a slab or across slabs |
| `Slab.ObjectInside` | kernel/slab_cache.c:90-110 | a live object lies behind the header of its slab and inside a live block of two pages |
| `Slab.LiveObjectAligned` | kernel/slab_cache.c:90-110 | every live object is aligned as requested |
| `Slab.AllocObjectPreserves` | kernel/slab_cache.c:135-152 | allocation keeps the slab invariant and makes exactly one new object live; other clients' pages are untouched |
| `Slab.AllocObjectComplete` | kernel/slab_cache.c:135-141 | allocation fails exactly when no slab has a free object and the zone has no aligned pair of free pages |
| `Slab.GrowsOnlyWhenFull` | kernel/slab_cache.c:135-141 | a slab is added, or memory refused, only when every place of every slab is taken; a refusal changes nothing |
| `Slab.LowestPlace` | kernel/slab_cache.c:90-110 | the new object takes the lowest free place of its slab |
| `Slab.LiveAddressIff` | kernel/slab_cache.c:154-160 | an address that slab_cache_free takes apart to a live slab and index is exactly the address of a live object |
| `Slab.FreeObjectPreserves` | kernel/slab_cache.c:154-165 | freeing a live object keeps the invariant and ends the life of that object only |
| `Slab.AllocThenFreeObject` | kernel/slab_cache.c:135-165 | freeing the address just allocated brings back the same live objects |
| `Slab.DestroyAssertsIff` | kernel/slab_cache.c:57-73 | both assertions of destruction pass exactly when no object is live |
| `Slab.DestroyReturnsPages` | kernel/slab_cache.c:61-72 | with no live object, destruction frees legally and leaves exactly the other clients' blocks live |
| `Slab.FiniStopsAt` | kernel/slab_cache.c:64-72 | destruction frees exactly the slabs in front of the first that is not empty, in list order |
| `Slab.DestructionMeaning` | kernel/slab_cache.c:57-73 | both assertions pass exactly when no object is live; with a full slab nothing is freed, and up to a failing assertion no slab with a live object and no block of another client is |
| `Slab.CreateOk` | kernel/slab_cache.c:42-55 | creation gives a cache in good order, with objects as large as requested, exactly for usable requests |
| `Slab.CreatedLayout` | kernel/slab_cache.c:42-55 | a usable cache has the least object size that will do and as many objects in a slab as fit, or one less exactly if the layout wastes that much |
| `Slab.SixteenByteObjects` | kernel/slab_cache.c:42-55 | a cache of 16-byte objects has 506 in each slab |
| `Slab.RunKeepsInvariant` | kernel/slab_cache.c:135-165 | the invariant holds after every run of object operations interleaved with page operations of other clients |
| `Slab.RunCapacity` | kernel/slab_cache.c:125-165 | after creation and any run slabs still hold the number of objects of the layout, and only when all of them are live is another slab added or memory refused |
| `Slab.ActQueues` | kernel/slab_cache.c:75-165 | every operation moves the partial list on as a queue |
| `Slab.FullStacks` | kernel/slab_cache.c:147-150 | a slab that fills up goes to the front of the full list, one with a freed object leaves it |
| `Slab.OlderSlabFirst` | kernel/slab_cache.c:143-145 | over any run, while a slab stays partial no object comes from a slab that was behind it or joined the partial list later |
| `Slab.RunObjects` | kernel/slab_cache.c:125-165 | after creation for a usable request and any run every live object is aligned as requested, at least as large as requested, and apart from every other live object |
| `Slab.Lifecycle` | kernel/slab_cache.c:125-165 | for a usable request: create, any run, destroy; the assertions pass iff nothing is live, and then every free list holds the blocks it held before, if other clients hold what they held |
| `SlabCaches.SetBit` | kernel/slab_cache.c:108-108 | setting the bit adds exactly one index to the set the bitmap represents |
| `SlabCaches.ClearBit` | kernel/slab_cache.c:121-121 | clearing the bit removes exactly one index |
| `SlabCaches.FindFree` | kernel/slab_cache.c:92-105 | both scans stop inside the bitmap, at the lowest free index |
| `SlabCaches.SlabCache.constructor` | kernel/slab_cache.c:42-55 | creation accepts every request with a positive alignment and has the size, count and offset of the created cache, with empty lists; for a usable request the invariant holds |
| `SlabCaches.SlabCache.Grow` | kernel/slab_cache.c:75-88 | adds a slab at the tail of the partial list, with a cleared bitmap that ends before the first object and both back pointers, if pages are available |
| `SlabCaches.SlabCache.SlabCacheAlloc` | kernel/slab_cache.c:135-152 | the code allocates exactly as specified and moves a slab that became full to the full list |
| `SlabCaches.SlabCache.SlabCacheFree` | kernel/slab_cache.c:154-165 | the code frees exactly as specified, finding the slab through the back pointer |
| `SlabCaches.SlabCache.Destroy` | kernel/slab_cache.c:57-73 | the assertions are executed as in the code, and the list walk frees the slabs of the partial list, head to tail, up to the first that fails |
| `BootMem.AddIsUnion` | kernel/bootmem.c:68-95 | a successful add covers exactly the old addresses and the new range, also when it swallows several; failure means a full, unchanged array |
| `BootMem.AddKeepsSorted` | kernel/bootmem.c:68-95 | ranges stay non-empty and strictly sorted by first address for every add |
| `BootMem.RefusedIff` | kernel/bootmem.c:68-95 | a range is refused exactly when the array is full and the first old range it reaches begins behind it or is strictly swallowed |
| `BootMem.AddAllIsUnion` | kernel/bootmem.c:147-155 | after any run of adds the array is sorted and covers exactly the accepted ranges and what it covered before |
| `BootMem.CanonicalKeptIff` | kernel/bootmem.c:77-94 | gaps between ranges survive an add exactly when it neither strictly swallows the first range it touches nor reaches a third |
| `BootMem.SwallowingBreaksGaps` | kernel/bootmem.c:41-46 | two adds after which the ranges overlap |
| `BootMem.DisjointKeepsGaps` | kernel/bootmem.c:77-94 | a range disjoint from everything covered, touching allowed, keeps the gaps |
| `BootMem.RangeArray.Remove` | kernel/bootmem.c:48-53 | shifting down removes one element |
| `BootMem.RangeArray.Insert` | kernel/bootmem.c:55-66 | shifting up inserts one element, or fails unchanged when full |
| `BootMem.RangeArray.Add` | kernel/bootmem.c:68-95 | the in-place code adds exactly as specified |
| `BootMem.AlignUpLeast` | kernel/include/kernel/kernel.h:9-17 | without wrap-around align_up gives the least multiple of a power of two at or above its argument |
| `BootMem.FoundMeaning` | kernel/bootmem.c:97-145 | for a non-empty request the specified result is the least fitting address, or `to` exactly when none fits |
| `BootMem.BootMem.Find` | kernel/bootmem.c:97-145 | the two-pointer search terminates and returns exactly that result, in 32-bit arithmetic that does not wrap |
| `BootMem.BootMem.SearchRange` | kernel/bootmem.c:120-141 | inside one memory range the shared cursor never skips a reserved range that still matters |
| `BootMem.BootMem.Alloc` | kernel/bootmem.c:157-165 | searches, reserves the result, and reports `to` when either fails |
| `BootMem.AllocReserves` | kernel/bootmem.c:157-165 | the result is the least fitting block, or `to` when none fits or the array is full; success reserves exactly an aligned free block of memory and keeps the reserved array canonical; failure changes nothing |
| `BootMem.EmptyRequest` | kernel/bootmem.c:97-165 | an empty request gets its lower bound, aligned or not, and reserves nothing |
| `BootMem.AllocRun` | kernel/bootmem.c:157-165 | over any run of non-empty requests granted blocks are aligned, in memory, pairwise disjoint and avoid everything reserved before |
| `BootMem.IsFreeMeaning` | kernel/bootmem.c:167-170 | the answer is "free" unless the range starts at 0 and is free; it is right exactly for free ranges that start above 0 |
| `BootMem.ImproperVerdict` | kernel/bootmem.c:167-170 | an empty or reversed range is called free unless it ends at zero |
| `BootMem.BootMem.IsFree` | kernel/bootmem.c:167-170 | the code gives that answer |
| `BootMem.FrameVerdict` | kernel/arch/x86/setup_page_alloc.c:29-29 | as init_zone calls it, every frame above 0 is accepted, and frame 0 exactly when it is not free |
| `StackSwitch.Machine.TaskStateSwitch` | hw3/switch.S:3-19 | the instructions save four registers and the stack pointer of the caller and load those of the next task |
| `StackSwitch.SwitchKeepsInv` | hw3/switch.S:7-15 | a switch parks the caller on its own stack and disturbs no other suspended task |
| `StackSwitch.SwitchRestores` | hw3/switch.S:13-19 | the next task gets exactly its parked registers, stack pointer, stack and continuation |
| `StackSwitch.SwitchEnabled` | hw3/switch.S:4-5 | in a valid system every operand of the routine is in range |
| `StackSwitch.SwitchIntegrity` | hw3/scheduler.c:24-43 | over any interleaving of switches, computations and task creations, a task resumes with the registers, stack pointer, stack and return address it left with |
| `StackSwitch.TaskNewParks` | hw3/scheduler.c:55-73 | the initial frame parks a task as if it were about to return into its entry point |
| `StackSwitch.FirstResume` | hw3/scheduler.c:55-73 | the first switch to a new task enters the entry point with (task, fptr, data) as arguments of the System V i386 calling sequence |
| `Scheduler.SchedulePreserves` | hw3/scheduler.c:24-43 | schedule keeps the queue equal to the READY tasks that do not run, once each |
| `Scheduler.RunPreserves` | hw3/scheduler.c:24-53 | the queue invariant holds after every run of yields, interrupts, exits and task creations |
| `Scheduler.ExitIsFinal` | hw3/scheduler.c:45-53 | from the moment the function of the running task returns it is in no queue, and once switched out it never runs again over any run, unless its structure is used for a new task |
| `Scheduler.FinishedStaysOut` | hw3/scheduler.c:45-53 | a finished task stays finished and out of the queue, and never runs again once it does not |
| `Scheduler.TicksCounted` | hw3/time.c:70-76 | over every run the counter advances by the number of timer ticks |
| `Scheduler.SliceKept` | hw3/scheduler.c:24-43 | a task's slice changes only when it is picked, and with the ticks while it runs |
| `Scheduler.FirstSlice` | hw3/scheduler.c:45-79 | however long a new task waits, when it is first picked it has what its structure held when it was created |
| `Scheduler.LaterSlice` | hw3/scheduler.c:38-40 | a task that has run gets a full slice every time it is picked again |
| `Scheduler.AloneGoesOn` | hw3/scheduler.c:29-41 | while no other task is ready, calls of schedule change nothing and the slice only counts the ticks |
| `Scheduler.WaitsInOrder` | hw3/scheduler.c:29-40 | a queued task moves up one place with every call of schedule and does not run before it is first |
| `Scheduler.ServedAfterCalls` | hw3/scheduler.c:29-40 | a task at place k runs at call k + 1 of schedule |
| `Scheduler.WaitBound` | hw3/irq.c:12-25 | whatever happens, and whatever the remain fields of new tasks held, a queued task has run before the slices of the running task and of those before it are used up in timer ticks |
| `Scheduler.WaitExact` | hw3/irq.c:12-25 | that bound is exact: under timer ticks alone it runs after exactly so many, and not before |
| `Scheduler.BoundedWaiting` | hw3/irq.c:12-25 | if no task structure holds more than a slice, that is at most k + 1 time slices |
| `Scheduler.RunQueue.Schedule` | hw3/scheduler.c:24-43 | the list code schedules exactly as specified, renewing the slice of a resumed task only |
| `Scheduler.RunQueue.TaskNew` | hw3/scheduler.c:73-79 | any structure that is not in use, also that of a finished task, becomes READY at the tail of the queue; its remain field keeps what it held |
| `Scheduler.RunQueue.SetupIrqHandler` | hw3/irq.c:27-28 | sets one entry of the handler table, tasks unchanged |
| `Scheduler.RunQueue.IrqRawHandler` | hw3/irq.c:12-25 | the handler of that interrupt's table entry runs, if there is one, then the preemption point |
| `Scheduler.RunQueue.PitIrqHandler` | hw3/time.c:70-76 | one more tick, one less left of the slice |
| `TaskSystem.BootCoupled` | hw3/main.c:63-66 | the first task alone on the boot stack is a coupled state |
| `TaskSystem.SwitchDefined` | hw3/scheduler.c:35-38 | whenever schedule switches, the next task is suspended and the routine stays inside memory |
| `TaskSystem.StepPreserves` | hw3/scheduler.c:24-79 | every event keeps run queue and stacks coupled: the current task runs, every other created task is parked; a queued task keeps its context or resumes with it |
| `TaskSystem.RunCoupled` | hw3/scheduler.c:24-79 | so does every run |
| `TaskSystem.Served` | hw3/scheduler.c:24-79 | over any run of both, a queued task runs before its wait bound is over, with exactly the registers, stack and return address it was parked with |
| `Kmap.EntryMeaning` | kernel/include/x86/arch/memory.h:64-84 | flags and frame of an entry are read back as put in |
| `Kmap.EntryGrants` | kernel/arch/x86/kmap.c:17-17 | the entry of a mapping has the requested flags, the present bit and no other, and the frame asked for |
| `Kmap.DeviceFlags` | kernel/arch/x86/apic.c:165-165 | a device page mapped with write and no-cache has exactly those flags and the present bit |
| `Kmap.MapAdds` | kernel/arch/x86/kmap.c:11-21 | a mapping takes a free entry, grants frame and flags asked for, and leaves the other entries |
| `Kmap.MapTranslation` | kernel/arch/x86/kmap.c:11-21 | the returned address translates to the one asked for exactly when that is in low memory or page aligned, else to the start of its page |
| `Kmap.LowMemoryKept` | kernel/arch/x86/kmap.c:11-40 | no operation touches a permanent entry; mapping or unmapping a low address changes nothing |
| `Kmap.UnmapRemoves` | kernel/arch/x86/kmap.c:23-40 | unmapping any window address removes that entry only and keeps the top mark tight |
| `Kmap.RunTranslates` | kernel/arch/x86/kmap.c:11-40 | over any run the table grants every live address the frame and flags asked for it, the low entries are those of boot, and with none live the window is back at its base |
| `Kmap.RunAddresses` | kernel/arch/x86/kmap.c:11-40 | at any time of a run the hardware translates every kernel address as expected: low memory at the fixed offset, live pages to their frames, nothing else |
| `Kmap.ActTranslates` | kernel/arch/x86/kmap.c:11-40 | one operation keeps frame and flags of all live addresses; a new address is not live yet |
| `Kmap.UnmapAllRestores` | kernel/arch/x86/kmap.c:32-39 | unmapping all that is mapped, in any order, restores the base |
| `Kmap.KernelMap.FillLowMemory` | kernel/arch/x86/boot/boot.S:38-44 | the boot loop fills the entries of low memory, each mapping its own frame, and no other |
| `Kmap.KernelMap.Kmap` | kernel/arch/x86/kmap.c:11-21 | the code maps exactly as specified |
| `Kmap.KernelMap.Kunmap` | kernel/arch/x86/kmap.c:23-40 | the descending loop stops inside the window and unmaps exactly as specified |
| `Printer.RoundTrip` | kernel/utility.c:34-50 | reading the printed numeral back in the same base gives the number |
| `Printer.LeadingDigit` | kernel/utility.c:34-50 | the numeral starts with a zero only for zero |
| `Printer.NumeralUnique` | kernel/utility.c:34-50 | the printed numeral is the only one of its value without a leading zero |
| `Printer.NumeralShortest` | kernel/utility.c:34-50 | no numeral of the same value is shorter |
| `Printer.SignedRoundTrip` | kernel/utility.c:52-61 | decimal text of every signed value reads back, the minimum included |
| `Printer.WordText` | kernel/utility.c:52-61 | in any other base the numeral of a negative value is that of its two's complement word |
| `Printer.FitsPrintfBuffer` | kernel/io.c:36-56 | 32-bit values in base 10 and 16 fit the 20-byte buffer with sign and terminator |
| `Printer.SignedFitsPrintfBuffer` | kernel/io.c:36-56 | so does the decimal text of every signed value |
| `Printer.Utoa` | kernel/utility.c:34-50 | digit loop and in-place reversal leave the numeral and a terminator in the buffer and touch nothing else |
| `Printer.Itoa` | kernel/utility.c:52-61 | the buffer holds sign, numeral and terminator |
| `Serial.KeepsPrefix` | hw3/serial.c:91-102 | of the bytes of one interrupt exactly the longest prefix with room is kept |
| `Serial.Fifo` | hw3/serial.c:73-118 | over any interleaving the bytes returned followed by those stored are the input bytes that arrived while there was room, in order |
| `Serial.ReadsDrain` | hw3/serial.c:104-118 | reads without interrupts in between return the stored bytes in order, up to the sum of their sizes, and leave the rest |
| `Serial.RingBuffer.PutChar` | hw3/serial.c:73-78 | appends one byte and keeps end at begin plus size modulo the capacity |
| `Serial.RingBuffer.GetChar` | hw3/serial.c:80-87 | removes the oldest byte |
| `Serial.RingBuffer.IrqHandler` | hw3/serial.c:91-102 | stores what fits, in order |
| `Serial.RingBuffer.SerialRead` | hw3/serial.c:104-118 | returns the longest prefix that fits and leaves the rest of both buffers |

## Left out

- 32-bit wrap-around in `align_up` and `begin + size`: the search of `boot_mem_find` requires that `to + align + size` does not exceed 2^32; near the top of the address space the code's comparison can wrap and accept a block that does not fit.
- Double frees and frees of foreign pointers, in the page allocator and the slab cache: freeing requires a live block or object.
- `alloc_pages` flags, `alloc_page_array` and `init_node`: only the zone-level operations are modelled; the node starts at frame 0, as `init_node` sets it.
- Several slab caches on one zone: the other caches are the page clients that may interleave with one cache.
- Slab fields in place: counter, bitmap and back pointer are sequence-valued fields of the cache indexed by page frame, not bytes of the slab's own pages; the links use a node pool of their own.
- The text of panics and debug output, and what happens after a failed assertion.
- Instruction-level interleaving of interrupts in hw3: an interrupt is one atomic step, and interrupts are disabled between steps.
- The field `remain` of a new task: `task_new` does not set it, so the model lets it hold anything, and the wait bound depends on it.
- `task_start` enables interrupts before it sets `current`; in the model the switch to a new task makes it current in the same step, so an interrupt in between is not covered.
- Overflow of the tick counter and of `remain`, which keeps falling while the queue is empty.
- The BLOCKED state: no code sets it, so no step does.
- Interrupt controller, timer and UART registers, the GDT and IDT, consoles, ACPI and multiboot tables, boot assembly other than the page table loop, the TSS-based task switch, hw1 and hw2: hardware plumbing with fixed bit patterns.
- `printf` itself, apart from its use of the number printer.
- A full mapping window: `kmap` does not check for room, the model requires it.
- An alignment of zero, for which `slab_cache_create` divides by zero.
- The negation in `itoa` of the minimum integer, which C leaves undefined: the model takes the two's complement result.
