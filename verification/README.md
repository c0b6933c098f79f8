# A model of the kernel's resource managers

This project models the resource managers and the cooperative scheduler of a 32-bit x86 kernel and
proves what they keep. Each C file that works by updating state is a class whose methods follow the
C functions branch by branch, proved against functions and relations on values; the main theorems
are about those values, over all inputs, all states that satisfy the invariant, or whole runs.

- **Physical memory and address spaces** (`FrameTable`, `AddressSpaces`, `Accounts`, `CopyOnWrite`,
  `CallEffects`, `UserMaps`, `DirectoryWalks`, `Supply`, `Paging`, `FullMemory`, with `Holders` for
  counting).
  One array counts uses of 4 KiB and 4 MiB frames; page tables are a map from (directory, page) to
  entries. The central invariant says that every count equals the number of entries naming the frame,
  that a writable entry is the only one on its frame, and that no directory maps a frame twice. A
  relation in `CopyOnWrite` says what each call does to entries, bytes, heap and table of frames,
  without the invariant; the invariant after each call is derived from it. Every call of
  `src/mm/paging.c` is a method of `Pager` proved to make such a step, or to fail under an exact
  condition on the frames, pages and mappings at the call (`Supply`); every run of steps reads the same as a machine without sharing in which fork copies all pages at
  once.
- **The kernel heap** (`HeapLayout`, `HeapLinks`, `KernelHeap`, `HeapRuns`). Linked headers of
  regions ("majors") and blocks ("minors") refine a list of regions with address-ordered, disjoint
  blocks. `kmalloc` with its best-bet restart and five placements, `kfree` and `krealloc` are proved
  against that list, and no call touches a byte of another live block.
- **Scheduler and mutexes** (`Scheduling`, `Mutexes`). A step system in which tasks switch only in
  `schedule()` and interrupts wake tasks anywhere: no lost wakeup, queue position is waiting time,
  mutual exclusion, grants in arrival order, and exactly which step can strand a waiter.
- **Paths and mounts** (`Paths`, `PathObjects`, `Mounts`). Parser, printer, normaliser, joining, and
  nested longest-prefix mount resolution that preserves the place a path names.
- **Open files** (`OpenFiles`, `GrowArrays`). Reference counts of files and descriptor tables over
  open, close, dup, chdir, clone, exec and exit.
- **Archives, lists, sleeping, disk reads and clocks** (`Ustar`, `Lists`, `Sleeping`, `BlockReads`,
  `Uptime`, `Calendar`); `Sequences` has what the linked structures share.

Conventions: a pointer is a number and 0 is null; a C integer is an `int` with its wrap-around
written out where it can happen; hardware answers (a sector read, a clock interrupt, a granted run
of pages, a pending signal, memory for a list node) are parameters; a halt or a dereference of a bad
pointer is an explicit outcome (`Panic`, `crashed`, `bug`, `useAfterFree`).

Where the code does not do what its comments or its callers expect, the code is kept and the exact
condition is proved:

- the 16-bit scan counters make allocation refuse memory from about 252 MiB on
  (`FrameTable.ChosenIsFirstFit`, `FrameTable.FirstRunIsFirstFit`; one frame: `FrameTable.FreeFrameRefused`);
- a boot memory region that starts at address 0 is never marked usable (`FrameTable.MarksMeansInside`;
  256 MiB: `FrameTable.RegionFromZero`);
- resolving a copy-on-write fault leaves a writable entry on a shared frame exactly when no frame is
  left for the copy (`Paging.Pager.CloneCow`; a full machine: `FullMemory.NoFrameForCopy`);
- a signal that ends an interruptible wait strands the next waiter (`Mutexes.StepKeepsMutexes`,
  `Mutexes.StrandedWaiter`);
- `..` removes even a kept `..`, so joining two parsed paths differs from parsing the joined text
  exactly as `Paths.JoinIsParseOfJoined` says (for instance `Paths.JoinPopsKept`);
- the test whether a run of pages leaves its page table fails for runs that come round the 4 GiB to it
  (`Paging.CrossesMeans`), and request_pages then goes on behind the table
  (`Paging.Pager.RequestUserPages`; 2^20 pages: `Paging.WholeSpacePasses`);
- forking halts when fewer kernel pages are left than the directory and its tables need
  (`Paging.Pager.CloneDirectory`), and a copy-on-write fault when no temporary page is to be had beside
  the new frame (`Paging.Pager.CloneCow`);
- an array of pointers keeps its promise only for indices inside it or below 2^25
  (`GrowArrays.GetAfterSet`; index -1: `GrowArrays.StoreAtMinusOne`);
- `dup2` leaves wrong counts exactly for the last reference duplicated onto itself and for a new
  descriptor without a place in the array (`OpenFiles.Files.Dup2`; the two inputs:
  `OpenFiles.LastReferenceLost`, `OpenFiles.MinusOneLoses`);
- the direct-descendant test also accepts an empty path outside the directory, which crashes a
  listing exactly if the archive has one (`Ustar.DirectDescendantMeans`, `Ustar.ListingDeliversAll`;
  the entry `./`: `Ustar.DotEntryMistaken`);
- the sleep queue passes a comparison of times to pointers to larger records, so that it is ordered
  by task and then by second; an insertion keeps the order of end times exactly if the two neighbours
  of the new sleeper are in that order (`Sleeping.EndOrderKeptExactly`; two tasks:
  `Sleeping.QueueNotOrderedByEnd`);
- the comparison of times is their order only where the seconds are less than 2^31 apart, or exactly
  2^31 with the earlier time first (`Sleeping.CmpIsTimeOrder`);
- the uptime product overflows 32 bits exactly above 4295 interrupts a second (`Uptime.ProductFits`).

## Model

| member | source | states |
|---|---|---|
| FrameTable.ChosenIsFirstFit | src/mm/paging.c:246-276 | the scan finds a frame if and only if one within its reach is acceptable, and then the lowest; a 4 MiB frame is acceptable only if it and all 1024 small frames in it are unused, a 4 KiB frame only if the large frame around it is unused as well |
| FrameTable.FreeMeansUntouched | src/mm/paging.c:246-276 | a frame is free for the allocator exactly if it shares no physical page with a frame, of either size, that is taken or missing |
| FrameTable.FreeFrameRefused | src/mm/paging.c:257-261 | a machine with one free 4 MiB frame, number 63, gets none |
| FrameTable.ReachOfScans | src/mm/paging.c:196-276 | the scans reach free 4 MiB frames exactly below 252 MiB, and consecutive free 4 KiB frames exactly if they end below 256 MiB |
| FrameTable.FirstRunIsFirstFit | src/mm/paging.c:196-222 | the consecutive scan finds a run of free small frames if and only if there is one within its reach, the lowest one, and marking it keeps the two sizes exclusive |
| FrameTable.FramesInUseAreDisjoint | src/mm/paging.c:246-305 | two different frames in use, of either size, never share a physical page |
| FrameTable.TakeKeepsGood | src/mm/paging.c:246-276 | taking any acceptable frame with any mark keeps the exclusion of the two sizes |
| FrameTable.ChangeKeepsGood | src/mm/paging.c:284-324 | changing the count of a frame in use to any value keeps the exclusion |
| FrameTable.IncrementIsOneMore | src/mm/paging.c:313-324 | the count goes up by one in 16 bits |
| FrameTable.MarksMeansInside | src/mm/paging.c:96-147 | a boot region makes a frame usable if and only if the frame lies wholly inside it and behind the first 12 MiB, and the region does not start at address 0 |
| FrameTable.RegionFromZero | src/mm/paging.c:126-141 | 256 MiB from address 0 on make no frame usable |
| FrameTable.BootEntry | src/mm/paging.c:87-147 | every entry after boot, from the addresses of its frame: kernel below 12 MiB, free exactly if one usable region that does not start at 0 has all of them, missing otherwise |
| FrameTable.InitialTableGood | src/mm/paging.c:87-183 | the table made from any list of boot regions keeps the exclusion, and no small frame of a free large frame is marked otherwise |
| FrameTable.FrameDirectory.Init | src/mm/paging.c:87-147 | boot fills the array with the kernel's frames, the union of the usable regions, and unavailable for all else |
| FrameTable.FrameDirectory.MarkRange | src/mm/paging.c:137-141 | exactly the entries of the range become unused |
| FrameTable.FrameDirectory.Free | src/mm/paging.c:284-305 | a user frame loses one use, a kernel frame becomes unused, all other entries stay |
| FrameTable.FrameDirectory.Use | src/mm/paging.c:313-324 | one entry gains one use, with the wrap of the 16-bit count; all others stay |
| FrameTable.FrameDirectory.Alloc | src/mm/paging.c:246-276 | the loop takes the first-fit frame and marks only it, or changes nothing |
| FrameTable.FrameDirectory.SomeSmallTaken | src/mm/paging.c:257-261 | tells whether one of the small frames of a large one is taken or out of reach of the 16-bit counter |
| FrameTable.FrameDirectory.AllocRun | src/mm/paging.c:196-222 | the loops take the first-fit run and mark only it, or change nothing |
| FrameTable.FrameDirectory.SomeOfRunTaken | src/mm/paging.c:206-210 | tells whether a run that starts here is not acceptable |
| AddressSpaces.UserSpace | src/mm/paging.h:81-93 | user space is the addresses from 8 MiB up to 3 GiB |
| AddressSpaces.KernelHeapSpace | src/mm/paging.h:81-101 | the pages of the kernel heap are those from 0xC0400000 up to 4 GiB |
| AddressSpaces.FramesDetermined | src/mm/paging.c:284-324 | the frame table is a function of who holds what: two states with the same holders have the same counts |
| AddressSpaces.MappingsBounded | src/mm/paging.h:64-70 | no frame is mapped more often than there are address spaces, so the 16-bit count holds |
| AddressSpaces.MappedFrameCounted | src/mm/paging.c:284-324 | a mapped frame is in use and its count is its number of entries |
| AddressSpaces.TakeHeapPageKeepsCore | src/mm/paging.c:535-549 | mapping a kernel page on a free frame keeps the whole accounting |
| AddressSpaces.TakeRunKeepsCore | src/mm/paging.c:522-534 | mapping a consecutive run of kernel pages keeps the whole accounting |
| AddressSpaces.DropHeapPageKeepsCore | src/mm/paging.c:642-680 | unmapping a kernel page that holds no directory and no table keeps the accounting |
| AddressSpaces.UnmapKeepsCore | src/mm/paging.c:642-680 | removing a user entry together with one use of its frame keeps the accounting |
| AddressSpaces.ShareKeepsCore | src/mm/paging.c:769-803 | sharing an entry with a second directory keeps the accounting and does not overflow the count |
| AddressSpaces.SharePrivate | src/mm/paging.c:769-803 | sharing makes no writable entry shared |
| AddressSpaces.SharedIsReadOnly | src/mm/paging.c:755-810 | of two entries on one frame neither is writable |
| Accounts.MappingsMove | src/mm/paging.c:284-324 | when only one directory changes, the number of entries on a frame moves by that directory's one entry |
| Accounts.FollowedAccounts | src/mm/paging.c:284-324 | a table of frames that moved by the entries of one directory, the new and the returned kernel pages, all taken frames having been available, is right for the new mappings |
| Accounts.TakenWasAvailable | src/mm/paging.c:246-276 | a frame that a call took was unused before and overlapped nothing in use |
| CopyOnWrite.SamePageSameFrame | src/mm/paging.c:246-305 | virtual pages that reach the same physical page are mapped through the same frame, whatever the sizes |
| CopyOnWrite.WritableReachedOnce | src/mm/paging.c:830-893 | a physical page reached through a writable entry is reached by no other virtual page of any space |
| CopyOnWrite.ForkCopies | src/mm/paging.c:755-810 | after a fork every old space reads as before and the new one reads what its parent reads |
| CopyOnWrite.ForkRefines | src/mm/paging.c:755-810 | a lazy fork, given by its entries, tables and one more use of each shared frame, leads to a state with the invariant and is the eager copy of all pages |
| CopyOnWrite.ForkedKeepsInv | src/mm/paging.c:755-810 | the invariant, counts and privacy included, follows from what fork does |
| CopyOnWrite.ResolveInvisible | src/mm/paging.c:830-893 | resolving a copy-on-write fault changes what no address space reads |
| CopyOnWrite.ResolvedKeepsInv | src/mm/paging.c:830-893 | the invariant follows from what resolving a fault does: keep a frame used once, or move to an available one and leave one use less |
| CopyOnWrite.StoreIsolated | src/exception.c:66-84 | a store through a writable entry changes one byte of one page of one space and nothing anywhere else |
| CopyOnWrite.MapAddsZeros | src/mm/paging.c:429-577 | a granted request adds exactly the requested pages, 4096 bytes of 0 each, none present before, and other spaces read as before |
| CopyOnWrite.MappedKeepsInv | src/mm/paging.c:429-577 | the invariant follows from mapping new pages on available frames of their own |
| CopyOnWrite.UnmapRemoves | src/mm/paging.c:642-680 | freeing a page removes just its addresses from one space |
| CopyOnWrite.UnmappedKeepsInv | src/mm/paging.c:642-680 | the invariant follows from one entry and one use less |
| CopyOnWrite.ExitedKeepsInv | src/mm/paging.c:913-949 | the invariant follows from one use less of every frame of the directory and its kernel pages returned |
| CopyOnWrite.KernelRefines | src/mm/paging.c:511-561 | kernel page requests and frees keep the invariant and change what no address space reads |
| CopyOnWrite.StepRefines | src/mm/paging.c:755-949 | each step (fork, write, map, refused map, kernel pages, release, exit) leads to a state with the invariant and is the corresponding step of the machine without sharing |
| CopyOnWrite.RunRefines | src/mm/paging.c:755-949 | every run, kernel page requests and frees in between, reads the same as with eager copying, and the invariant holds throughout |
| CopyOnWrite.OthersInvisible | src/mm/paging.c:830-893 | a space reads the same bytes after any run of events in other spaces and in the kernel, its own forks included |
| CopyOnWrite.ForkExitRestores | src/mm/paging.c:913-949 | clone_directory followed by free_directory of the clone restores every count, heap page and table |
| CallEffects.ForkFollows | src/mm/paging.c:755-810 | what the fork loops do to the entries, with right accounts, is the fork step with its effect on the table of frames |
| CallEffects.ResolveFollows | src/mm/paging.c:830-893 | the same for a resolved fault |
| CallEffects.MapFollows | src/mm/paging.c:429-577 | the same for granted user pages |
| Supply.NoneSpare | src/mm/paging.c:246-276 | the allocator fails exactly when no frame of that size is left to be had |
| Supply.FrameSpent | src/mm/paging.c:246-276 | taking a frame leaves one less of its size to be had: no other frame of that size is lost |
| Supply.KernelPageSpent | src/mm/paging.c:535-549 | a kernel page taken is one frame and one kernel page less to be had |
| Supply.HadBesideOne | src/mm/paging.c:586-634 | the search for a page after one frame was taken succeeds exactly if it would succeed before with one frame more |
| Paging.CrossesMeans | src/mm/paging.c:446-451 | for any page and number, the exact condition under which the crossing test tells whether the run reaches the end of its page table; for up to 2^20 pages it does so if and only if the run does not come round the 4 GiB to its own page table |
| Paging.WholeSpacePasses | src/task/exec.c:322-323 | a run of 2^20 pages from 0x08048000, which the loader asks for when a segment says it is that long, passes the test |
| Paging.RunByAddress | src/mm/paging.c:446-509 | the pages of a request are those of the addresses from the given one on, 4 KiB or 4 MiB for each |
| Paging.GrantedBytesAreZero | src/mm/paging.c:571-574 | every byte of a granted range was not mapped before, reads 0 afterwards, and allows writing unless read-only was asked |
| Paging.SmallGrantedExactly | src/mm/paging.c:429-509 | in addresses: a request of 4 KiB pages is granted exactly for an aligned range of user space that ends before the last page of its 4 MiB, with nothing mapped and a frame for each page, and a frame and a kernel page for the table if there is none |
| Paging.LargeGrantedExactly | src/mm/paging.c:429-477 | a request of 4 MiB pages is granted exactly for an aligned range of user space of at most 1024 pages with every directory entry free and a frame for each |
| Paging.FoundIsLowest | src/mm/paging.c:586-634 | alloc_pages finds the lowest page that request_pages would give, for 4 KiB pages from 12 MiB on |
| Paging.SearchIsComplete | src/mm/paging.c:586-634 | it finds one whenever request_pages would give one, if no 4 MiB page is in the way and a second frame is free |
| Paging.Pager.constructor | src/mm/paging.c:87-183 | boot establishes the invariant with no address spaces |
| Paging.Pager.RequestKernel | src/mm/paging.c:511-561 | granted if and only if no page of the range is mapped and so many frames are free, or a run of them where they are to be consecutive; then exactly the asked pages are mapped on unused frames, as a step of a run; otherwise nothing has changed |
| Paging.Pager.MapEach | src/mm/paging.c:535-561 | the loop with its undo: all pages are mapped if and only if so many frames are free, otherwise the state is as before |
| Paging.Pager.MapRun | src/mm/paging.c:522-534 | all pages are mapped to consecutive frames if and only if the scan finds a run, otherwise the state is as before |
| Paging.Pager.FreeKernel | src/mm/paging.c:688-692 | exactly the given kernel pages are unmapped, as a step of a run |
| Paging.Pager.TakeKernelPage | src/mm/paging.c:586-634 | the first free page of the heap that is not the last of a directory entry, if and only if there is one and a free frame; otherwise no change |
| Paging.Pager.MakeUserTable | src/mm/paging.c:358-376 | if and only if a kernel page can be had: one new page table in that page, and not one other table, page, frame or byte changed |
| Paging.Pager.MapPages | src/mm/paging.c:464-509 | the user mapping loop with its undo: exactly the run is mapped on unused frames if and only if so many frames are free, otherwise the state is as before |
| Paging.Pager.UnmapOne | src/mm/paging.c:642-680 | one entry goes and its frame loses one use |
| Paging.Pager.UnmapPages | src/mm/paging.c:688-692 | exactly the present entries of a run go |
| Paging.Pager.ZeroPages | src/mm/paging.c:571-574 | the loop zeroes the frames of the run and no other byte |
| Paging.Pager.RequestHuge | src/mm/paging.c:457-477 | 4 MiB user pages, all or nothing, granted if and only if no slot of the run is present and so many frames are free |
| Paging.Pager.RequestSmall | src/mm/paging.c:478-509 | 4 KiB user pages, granted if and only if no page is in the way and there is a free frame for each, and a kernel page and one more frame where the page table is missing; a refusal leaves nothing but the new empty table of that slot, where one could be made; a halt exactly for a slot with a 4 MiB page |
| Paging.Pager.RequestPastTable | src/mm/paging.c:478-509 | a run that the test lets pass although it leaves its page table: the code goes on behind the table if and only if nothing is in the way up to its end, with frames for all those pages if the table is new; otherwise it is refused like any other |
| Paging.Pager.RequestUserPages | src/mm/paging.c:429-577 | for every address and every 32-bit number of pages exactly one of four outcomes, each with its exact condition at the call: success, the map step of the run theorem; a refusal that leaves at most one empty page table, in the slot of the address; a halt without change for a 4 MiB page there; leaving the page table for a run that goes around the 4 GiB |
| Paging.Pager.AllocUserPage | src/mm/paging.c:586-634 | the search maps the first page that can be given, and finds one if and only if there is a slot that has one with no 4 MiB page, and no table that takes the last frame, before it; it halts exactly if there is none and a 4 MiB page lies in the way |
| Paging.Pager.FreeUserPage | src/mm/paging.c:642-680 | the release step for a present page, nothing for an absent one, a halt exactly if a 4 MiB page is asked for where a 4 KiB page is present |
| Paging.Pager.CloneDirectory | src/mm/paging.c:755-810 | the double loop makes the fork step of the run theorem; it halts if and only if at the call fewer kernel pages can be had than one and one for each page table with a page in it |
| Paging.Pager.FreeDirectory | src/mm/paging.c:913-949 | the double loop makes the exit step, and a directory in use is left first |
| Paging.Pager.CloneCow | src/mm/paging.c:830-893 | a resolved fault is invisible; without a fault nothing changes; it returns false on a fault, and leaves the invariant broken, if and only if the frame is shared and no other frame is left; it halts if and only if the frame is shared, another one is left, and beside that one the search for a temporary page finds none |
| Paging.Pager.UserWrite | src/exception.c:66-84 | a user write, with its fault if there is one, is the write step of the run theorem; on a page that does not allow it, it is refused if and only if there is no fault to resolve or no frame for the copy, and halts if and only if the fault does |
| Paging.LeftOpenIsSeen | src/mm/paging.c:830-893 | when the copy fails, the entry left behind is writable on a frame that another space still maps |
| FullMemory.NoFrameForCopy | src/mm/paging.c:830-893 | 16 MiB of memory, all taken, and a page shared by parent and child: the invariant holds, the fault finds no frame, and the entry left open breaks it |
| HeapLayout.AlignRoundTrip | src/liballoc/liballoc.c:20-39 | the pointer of a block is 16-aligned with its whole request inside the block, and UNALIGN with the stored byte gives back the start |
| HeapLayout.LeastPages | src/liballoc/liballoc.c:169-209 | a new region has the least number of pages, from 16 on, for the two headers, the request and its alignment |
| HeapLayout.FirstPointer | src/liballoc/liballoc.c:315-345 | the pointer of the first block of a region is 64 bytes behind its pages, and the block ends 56 bytes after its header and request |
| HeapLayout.AllApart | src/liballoc/liballoc.c:315-445 | any two blocks, with their headers, are disjoint, and no block overlaps the header of any region |
| HeapLayout.ApartMeansNoByte | src/liballoc/liballoc.c:315-445 | regions and blocks that are kept apart have no byte in common, and lie below 4 GiB |
| HeapLayout.UsedFits | src/liballoc/liballoc.c:276-312 | used bytes never exceed the region, and a region whose free bytes are too few has no gap that fits, so that the search may skip it |
| HeapLayout.AllocationIsFresh | src/liballoc/liballoc.c:315-445 | an allocation adds exactly one aligned block, apart from all others, which all stay |
| HeapLayout.AllocationIsFirstFit | src/liballoc/liballoc.c:315-445 | the new block stands at the first gap of its region that is long enough for headers, request and alignment |
| HeapLayout.FreeingIsLocal | src/liballoc/liballoc.c:478-566 | freeing removes exactly the block at that address, and an emptied region goes |
| HeapLayout.ShrinkingIsLocal | src/liballoc/liballoc.c:641-645 | shrinking a block keeps all others |
| HeapLinks.InsertLinked | src/liballoc/liballoc.c:315-445 | the pointer updates of all placements are the insertion of one block: prev, next, first, block and usage agree again everywhere |
| HeapLinks.RemoveLinked | src/liballoc/liballoc.c:530-540 | unlinking a header is the removal of its block |
| HeapLinks.RegionUnlinked | src/liballoc/liballoc.c:546-553 | unlinking an emptied region keeps all other links right |
| HeapLinks.AppendLinked | src/liballoc/liballoc.c:447-465 | linking a new region behind the last one keeps all other links right |
| KernelHeap.HeaderOfPointer | src/liballoc/liballoc.c:490-496 | from the pointer of any live block the code finds the header of that block |
| KernelHeap.Heap.constructor | src/liballoc/liballoc.c:89-99 | an empty heap satisfies the invariant |
| KernelHeap.Heap.AllocateNewPage | src/liballoc/liballoc.c:169-209 | a granted run becomes a region header for at least 16 pages, just enough for the request, and the total grows by its bytes |
| KernelHeap.Heap.PlaceIn | src/liballoc/liballoc.c:315-445 | within one region the first gap that fits gets the block; failure changes nothing and means that no gap fits |
| KernelHeap.Heap.PlaceBehind | src/liballoc/liballoc.c:370-445 | the loop over the headers of a region tries every gap behind a block in order |
| KernelHeap.Heap.PlaceAfter | src/liballoc/liballoc.c:376-443 | the gap behind one block, with or without a next block, is used exactly if it fits |
| KernelHeap.Heap.Grow | src/liballoc/liballoc.c:447-465 | one new region behind the last one, or no change |
| KernelHeap.Heap.Search | src/liballoc/liballoc.c:276-466 | the search over regions terminates with its restart from the root and at most one new region; it fails only if no pages are granted and every region is full |
| KernelHeap.Heap.Kmalloc | src/liballoc/liballoc.c:212-476 | a fresh block of the asked size and not one byte changed but its own alignment byte; null only if no pages are granted and no gap fits, and then nothing changed |
| KernelHeap.AllocatesFresh | src/liballoc/liballoc.c:212-476 | what kmalloc promises a caller: aligned, inside one new block, apart from every live block, all of whose bytes stay |
| KernelHeap.Heap.Retire | src/liballoc/liballoc.c:546-561 | an emptied region is unlinked and returned with its pages, any other stays |
| KernelHeap.Heap.Kfree | src/liballoc/liballoc.c:478-566 | frees the one block of the pointer; null and pointers without a live header change nothing and are counted |
| KernelHeap.Heap.Copy | src/liballoc/liballoc.c:110-130 | the word and byte loops copy exactly the range between disjoint places |
| KernelHeap.Heap.Shrink | src/liballoc/liballoc.c:641-645 | the stored request shrinks and the block stays where it is |
| KernelHeap.Heap.Resize | src/liballoc/liballoc.c:637-655 | shrinks in place, or moves to a new block with the old bytes copied and the old block freed; if no memory is left the exact outcome is given |
| KernelHeap.Heap.Krealloc | src/liballoc/liballoc.c:583-655 | size zero frees (nothing for null), null allocates, a pointer without a live header is an error without effect, a live block is resized |
| HeapRuns.RunKeepsBlock | src/liballoc/liballoc.c:212-655 | over any run of allocations, frees, shrinks and writes by others a block stays live, unmoved, apart from all others and with all its bytes |
| HeapRuns.ReallocationMoves | src/liballoc/liballoc.c:583-655 | a growing krealloc gives exactly one new block in place of the old one, starting with all its bytes, and leaves all other blocks and their bytes alone |
| HeapRuns.ReallocationShrinks | src/liballoc/liballoc.c:641-645 | krealloc to a size that is not larger gives the same pointer and changes no byte and no other block |
| HeapRuns.ReallocationFails | src/liballoc/liballoc.c:646-655 | krealloc gives null for a larger size only if no pages are granted and no gap is long enough; no byte changes, the old block stays and the copy crashes, or is freed if it was empty |
| HeapRuns.FreeReturnsRegion | src/liballoc/liballoc.c:546-561 | kfree returns pages exactly when a region goes, all of that region |
| Scheduling.RunKeepsInv | src/task/sched.c:41-113 | over every run the queue has no duplicate and never holds the current task |
| Scheduling.RestingLeaves | src/task/sched.c:57-83 | schedule() takes the processor from a task that is stopped, or sleeps and was not woken, and does not queue it |
| Scheduling.OthersGoLast | src/task/sched.c:57-83 | any other current task but the swapper goes behind all that are queued, or stays if there are none, and its early wakeup is used up |
| Scheduling.NextRuns | src/task/sched.c:57-83 | when the current task leaves, the first of the queue runs, the swapper if there is none |
| Scheduling.StatesOfCurrent | src/task/sched.c:63-70 | leaving TASK_RUNNING or being stopped makes the current task one that must leave, and changes nothing for any other |
| Scheduling.StatesUndone | src/task/sched.c:63-70 | entering TASK_RUNNING again, or going on, undoes it |
| Scheduling.NoTurnBeforeWake | src/task/sched.c:57-113 | over any run a task off the processor and the queue gets no turn before it is woken |
| Scheduling.RestsUntilWoken | src/task/sched.c:57-113 | a stopped or sleeping task that schedule() took off the processor stays off it over any run without its wakeup |
| Scheduling.WakeTakesHold | src/task/sched.c:97-113 | after a wakeup the woken one is queued, or is current and flagged |
| Scheduling.WakeQueuesOnce | src/task/sched.c:97-113 | a wakeup queues its receiver once and behind all others, does nothing for one that is woken already, and wakes nobody else |
| Scheduling.NoLostWakeup | src/task/sched.c:57-113 | a wakeup holds over every run until its receiver gets to run or is stopped, also if it comes before the receiver sleeps |
| Scheduling.RunsInTurn | src/task/sched.c:57-83 | queue index k runs at the (k+1)-th following schedule(), whatever wakeups interleave |
| Scheduling.Scheduler.Schedule | src/task/sched.c:57-83 | queue, flags and current task after schedule(), with the invariant |
| Scheduling.Scheduler.WakeUpProcess | src/task/sched.c:97-113 | queue and flags after a wakeup, with the invariant |
| Scheduling.Scheduler.SwitchTo | src/task/sched.c:41-55 | the target becomes current and nothing else changes |
| Mutexes.StepKeepsMutexes | src/mutex.c:12-59 | every step keeps the queues right, and keeps a waiter at the front runnable if and only if the step is not a signalled give-up in front of a sleeping waiter |
| Mutexes.WaitEndsWithLock | src/mutex.c:33-48 | a wait that may not be interrupted goes on unchanged over any step until its task holds the mutex, at the front of the queue |
| Mutexes.GivingUpEndsWait | src/mutex.c:12-31 | a wait is given up, without the mutex and out of its queue, exactly if it may be interrupted and a signal is found |
| Mutexes.StepKeepsAsleep | src/mutex.c:12-48 | every step keeps who waits out of TASK_RUNNING |
| Mutexes.BlockedLeaves | src/mutex.c:20-48 | a waiter that looks in vain leaves the processor and the schedule queue until it is woken; a wakeup that came before keeps it queued once |
| Mutexes.EndedWaitRuns | src/mutex.c:20-48 | a task whose wait ended is running again |
| Mutexes.MutualExclusion | src/mutex.c:12-59 | in every run at most one task holds a mutex, and it is at the front of its queue |
| Mutexes.RunStrandsNone | src/mutex.c:12-59 | over every run without such a give-up no waiter at the front is stranded |
| Mutexes.GrantedInOrder | src/mutex.c:12-59 | while nobody gives up on the mutex, what was granted plus who waits is who waited plus who arrived, in that order: locks are granted in arrival order |
| Mutexes.NobodyOvertakes | src/mutex.c:12-59 | in every run, give-ups included, what was granted plus who waits is a subsequence of who waited plus who arrived |
| Mutexes.FrontGetsItsTurn | src/mutex.c:33-59 | a waiter at the front stays there over any steps of others and becomes current after as many switches as its place in the schedule queue |
| Mutexes.TurnTakesLock | src/mutex.c:33-48 | the waiter at the front that is current takes the lock with its next own step |
| Mutexes.StrandedWaiter | src/mutex.c:12-31 | a concrete run of three tasks that ends with a free mutex, an empty schedule queue and a waiter at the front that nobody will wake |
| Mutexes.Kernel.Init | src/mutex.c:8-10 | a new mutex has no waiters |
| Mutexes.Kernel.Enter | src/mutex.c:12-20 | entering the wait queue, or a report for a task that is queued already |
| Mutexes.Kernel.Round | src/mutex.c:20-48 | one round of either lock loop: interrupted, locked, or one schedule() and again |
| Mutexes.Kernel.Unlock | src/mutex.c:50-59 | the owner leaves and the next waiter is woken; a report for anybody else |
| Paths.ParseIsNormal | src/vfs/path.c:49-89 | parsing fails exactly on the empty text and never yields empty or `.` components, nor `..` but as the first of a relative path |
| Paths.LastComponentMeans | src/vfs/path.c:25-89 | a last component that is empty or `.` adds nothing to a text, `..` takes the one before it away or is kept in a relative text that has none, any other is added |
| Paths.DotsAlone | src/vfs/path.c:25-89 | the texts `..`, `/..`, `/` and `.` |
| Paths.JoinIsNormal | src/vfs/path.c:91-128 | joining yields such a normal path for any two paths |
| Paths.JoinAbsolute | src/vfs/path.c:91-95 | joining with a normal absolute path gives that path |
| Paths.JoinRoot | src/vfs/path.c:91-128 | joining fails exactly for a second path inside a mount, and a relative one keeps the root and mount of the first |
| Paths.CloneIdentity | src/vfs/path.c:130-143 | cloning gives back the same path if and only if it is normal |
| Paths.TextRoundTrip | src/vfs/path.c:258-303 | parsing the text of a normal absolute path gives the path back |
| Paths.PrintedParses | src/vfs/path.c:258-303 | any absolute text, parsed and printed, parses to the same path |
| Paths.NetMeans | src/vfs/path.c:25-47 | adding components one by one is some number of `..` steps followed by plain components, for any list and any start |
| Paths.JoinIsParseOfJoined | src/vfs/path.c:91-128 | joining the parses of a and relative b equals parsing a/b if and only if b climbs less than twice or only kept `..` are in its way |
| Paths.JoinPopsKept | src/vfs/path.c:25-47 | "a" joined with "../.." is "a", while "a/../.." is ".." |
| PathObjects.Strncmp | src/lib/string.c:201-215 | zero exactly if the first n bytes agree |
| PathObjects.Strchr | src/lib/string.c:269-276 | the first place of the character, or none |
| PathObjects.DotsExact | src/vfs/path.c:26-29 | comparing with the component's own length finds `.` exactly, and `..` also for `.`, which is filtered before |
| PathObjects.PathObject.AddComponent | src/vfs/path.c:25-47 | one component is skipped, popped or appended in place as the specification says |
| PathObjects.PathObject.AddComponents | src/vfs/path.c:109-121 | the loop adds all components in order |
| PathObjects.FromStr | src/vfs/path.c:49-89 | the scanning loop builds the path of the specification, null exactly for the empty text |
| PathObjects.JoinPaths | src/vfs/path.c:91-128 | error for a second path with a mount, a clone for an absolute one, both lists otherwise |
| PathObjects.ClonePath | src/vfs/path.c:130-143 | a new object with the normalised components |
| PathObjects.PathSubsumes | src/vfs/path.c:156-186 | the length of the parent if it is a prefix with the same root, otherwise -1 |
| PathObjects.SubsumesExtension | src/vfs/path.c:156-186 | a path that goes on from the parent by any number of components gives the length of the parent |
| PathObjects.SubsumesOnlyExtensions | src/vfs/path.c:156-186 | any other path gives -1 |
| PathObjects.PrintPath | src/vfs/path.c:258-303 | the buffer gets the first bytes of the text and its terminator, however small it is |
| PathObjects.FirstBytesFit | src/vfs/path.c:258-303 | what reaches the buffer is the text from its start, all of it if it fits |
| Mounts.BestIsLongest | src/vfs/path.c:202-216 | the scan finds a mount exactly if one matches, the longest, the latest on ties |
| Mounts.BelowEnters | src/vfs/path.c:196-236 | a path any number of components below a mount goes on at the root of that mount with these components, where no longer or newer mount path fits |
| Mounts.ChecksExactly | src/vfs/path.c:196-236 | path_checkmnt changes a path if and only if it lies below some mount |
| Mounts.ChecksCompletely | src/vfs/path.c:196-236 | its result lies below no mount |
| Mounts.CheckKeepsResolved | src/vfs/path.c:196-236 | path_checkmnt terminates, its result matches no mount any more, and it resolves to the same place as the original path |
| Mounts.ResolvedIsUnmounted | src/vfs/path.c:238-256 | resolution ends, since each mount hangs under an earlier one, at a normal path without mount, absolute for rooted paths |
| Mounts.TextNamesSamePlace | src/vfs/path.c:258-303 | the printed text of any rooted path parses, and mount resolution of it is the same place again |
| Mounts.MountingKeeps | src/vfs/mount.c:12-59 | mounting keeps the table acyclic and duplicate-free |
| Mounts.UnmountingKeeps | src/vfs/mount.c:93-113 | unmounting keeps it too |
| Mounts.MountThenUnmount | src/vfs/mount.c:12-113 | the mount point leads to the root of the new mount, and unmounting restores the table |
| Mounts.MountTable.BestMatch | src/vfs/path.c:202-216 | the loop over the table finds the best match |
| Mounts.MountTable.PathCheckMnt | src/vfs/path.c:196-236 | the hop loop builds a new path object with the resolved path |
| Mounts.MountTable.PathResolveMnt | src/vfs/path.c:238-256 | the loop joins outwards through all mounts |
| Mounts.MountTable.PathToString | src/vfs/path.c:258-303 | the text of the resolved path, cut to the buffer |
| Mounts.MountTable.DoMount | src/vfs/mount.c:12-59 | one new live mount behind all others |
| Mounts.MountTable.DoUmount | src/vfs/mount.c:93-113 | an error unless the path is the root of a mount, which then leaves the table |
| OpenFiles.GoneWithLastHolder | src/vfs/file.c:420-431 | a file disappears between two counted states exactly if it had a holder and has none any more |
| OpenFiles.CountsDetermined | src/vfs/file.c:420-431 | the counts are a function of who holds what |
| OpenFiles.ReleasesAddUp | src/vfs/file.c:420-431 | releases of consecutive calls add up, each file once |
| OpenFiles.DupKeeps | src/vfs/filesyscall.c:419-435 | for a descriptor that is stored, closing, storing and counting keeps the counts right if and only if it is not the last reference duplicated onto itself |
| OpenFiles.LastReferenceLost | src/vfs/filesyscall.c:419-435 | one descriptor, the only holder of its file, duplicated onto itself: the counts are wrong afterwards |
| OpenFiles.LostUncounted | src/vfs/filesyscall.c:428-429 | a use counted for a pointer that was not stored leaves wrong counts, whatever descriptors were lost with it |
| OpenFiles.MinusOneLoses | src/vfs/filesyscall.c:419-435 | two descriptors, and the first one duplicated onto -1: the second one is lost, nothing is stored, the counts are wrong |
| OpenFiles.CutsExactly | src/structure/array.c:16-43 | which descriptors and marks an array that was cut keeps |
| OpenFiles.CloneThenExit | src/task/clone.c:101-167 | a clone that exits leaves every holder and every count as before |
| OpenFiles.FlagsCopiedAre | src/task/clone.c:161-165 | the copied table has exactly the close-on-exec marks of the original, and no other mark changes |
| OpenFiles.CloneThenExec | src/task/clone.c:150-165 | an exec in a cloned task with its own table leaves there exactly the unmarked descriptors of the parent, and the parent its own |
| OpenFiles.ExecPlaces | src/task/exec.c:197-254 | where each file is after exec: executable, working directory, default descriptors, and all others where they were |
| OpenFiles.ClosesExactly | src/task/exec.c:225-235 | which descriptors and marks stay when the marked ones of a table, or all of them, are closed |
| OpenFiles.Files.FilpClose | src/vfs/file.c:420-431 | one use less, and the release hook called exactly when it was the last |
| OpenFiles.Files.SetSlot | src/structure/array.c:16-43 | the descriptor is stored and every other one kept if it lies inside the array or below 2^25; otherwise it is not stored and the descriptors without memory are lost |
| OpenFiles.Files.FirstFree | src/vfs/filesyscall.c:123-130 | the lowest free descriptor at or above the start |
| OpenFiles.Files.Openat | src/vfs/filesyscall.c:103-138 | the lowest free descriptor gets the new file with count one and its close-on-exec mark; the counts stay right if and only if that descriptor is below 2^25; a failed open changes nothing |
| OpenFiles.Files.CloseFd | src/vfs/filesyscall.c:162-179 | the slot and its mark go, the file is released if that was its last holder, EBADF without change otherwise |
| OpenFiles.Files.Dup2 | src/vfs/filesyscall.c:419-435 | the new slot holds the old file and the displaced file loses a holder; the counts stay right if and only if the new descriptor has a place in the array and the last reference is not duplicated onto itself; without a place, the exact descriptors, counts and marks that are left |
| OpenFiles.Files.DupFd | src/vfs/filesyscall.c:468-498 | the lowest free descriptor from the argument on holds the file, with the mark inherited or set; the counts stay right if and only if that descriptor has a place in the array |
| OpenFiles.Files.Chdir | src/vfs/filesyscall.c:511-538 | the old directory loses its holder and is released once if it was the last; failure changes nothing |
| OpenFiles.Files.Clone | src/task/clone.c:101-167 | the child gets cwd, exe and a shared or copied descriptor table, each pointer to the same file and with exactly the parent's marks; every count follows and nothing is released |
| OpenFiles.Files.CopyTable | src/task/clone.c:150-165 | two loops copy every descriptor with one more use of each file, and every mark |
| OpenFiles.Files.Exit | src/task/exit.c:42-64 | cwd and exe go, and the descriptors if nobody shares the table; exactly the files without other holders are released, once each |
| OpenFiles.Files.LeaveTable | src/task/exit.c:51-64 | the table goes with its last user, with all its descriptors and marks |
| OpenFiles.Files.CloseAll | src/task/exit.c:54-58 | the loop closes every descriptor of the table and no other |
| OpenFiles.Files.CloseMarked | src/task/exec.c:225-235 | exactly the descriptors marked close-on-exec go, and the marks with them |
| OpenFiles.Files.Install | src/task/exec.c:217-220 | a new executable takes the place of the old one, which is released if it had no other holder |
| OpenFiles.Files.DefaultFiles | src/task/exec.c:235-254 | a new table with the terminal at the standard descriptors, one file used three times or two files, with right counts |
| OpenFiles.Files.Execve | src/task/exec.c:197-254 | executable, cwd and the descriptors that are not marked, or the default ones of a task without a table, after exec, and every file without holders released once; it gives up, with the new executable released and nothing else changed, exactly if a missing working directory does not open |
| GrowArrays.NewSizeFits | src/structure/array.c:16-20 | the new length is a power of two above the index, and the least one, if and only if the index is below 2^31; from there on it is 1 |
| GrowArrays.BytesHoldIndex | src/structure/array.c:16-43 | the 32-bit number of bytes holds the index if and only if it is below 2^29, and is zero from there to 2^31 |
| GrowArrays.RoomExactly | src/structure/array.c:16-43 | the grown array has memory for the index if and only if the index is below 2^25, and then for its whole length |
| GrowArrays.PageCountFits | src/mm/kmalloc.c:15-17 | the number of pages asked for fits 16 bits exactly for requests up to the limit of the heap |
| GrowArrays.RequestCut | src/mm/kmalloc.c:15-17 | of the 65537 pages for the first array beyond the limit one page is granted |
| GrowArrays.GetAfterSet | src/structure/array.c:9-43 | reading after writing gives the written value if and only if it was null or the index lies inside the array or below 2^25, and then the old value everywhere else, through growth |
| GrowArrays.StoreAtMinusOne | src/structure/array.c:16-43 | a store at index -1 cuts any array to one entry and stores nothing |
| GrowArrays.PointerArray.ArrayGet | src/structure/array.c:9-14 | the element, null beyond the end |
| GrowArrays.PointerArray.ArraySet | src/structure/array.c:16-43 | the array after growth and store; exactly which stores write outside the memory of the array |
| Ustar.Oct2Bin | src/fs/ustar.c:59-70 | the value modulo 2^32 of the longest prefix of octal digits |
| Ustar.OctalRoundTrip | src/fs/ustar.c:59-70 | a number printed in octal reads back as that number |
| Ustar.LeadingZero | src/fs/ustar.c:59-70 | leading zeros do not matter |
| Ustar.SectorsHoldFile | src/fs/ustar.c:91-93 | one header sector plus the least number of sectors that hold the file |
| Ustar.SectorGrows | src/fs/ustar.c:119-197 | the sector number strictly grows along the archive, so the loops end |
| Ustar.DirectDescendantMeans | src/vfs/path.c:192-194 | the test holds exactly for direct children and, since -1 wraps, for empty paths that are not below the parent |
| Ustar.DotEntryMistaken | src/vfs/path.c:192-194 | the entry "./" passes the test for a child of "a" and is none |
| Ustar.CallsDeliverOnce | src/fs/ustar.c:119-197 | any number of calls of the listing, wherever the receiver or the device refuses or stops them, deliver together each direct child up to the header they reach once and in archive order |
| Ustar.ListingDeliversAll | src/fs/ustar.c:119-197 | if the device refuses no call and the receiver never refuses the first entry of a call, at most one call more than there are entries delivers exactly the children of the directory, in archive order, without a crash if and only if the archive has no empty path outside the directory |
| Ustar.ListedIsChild | src/fs/ustar.c:119-197 | each delivered entry is a direct child with its name, offset, inode number, and the kind of its type flag |
| Ustar.ChildIsListed | src/fs/ustar.c:119-197 | each direct child is delivered |
| Ustar.NamesUnique | src/fs/ustar.c:199-270 | with unique paths a name stands for at most one child |
| Ustar.LookupFindsListed | src/fs/ustar.c:199-270 | looking up a listed name stops at that entry, with the inode number the listing gave |
| Ustar.InodePath | src/fs/ustar.c:74-89 | prefix and name are parsed and joined |
| Ustar.PathOfText | src/fs/ustar.c:74-89 | the path of a header is the parse of prefix, slash and name, or of the name alone where there is no prefix or the name is absolute, with the exact exception of a name that climbs out of its prefix twice |
| Ustar.PlainName | src/fs/ustar.c:74-89 | prefix "etc" and name "passwd", or any two plain components, give etc/passwd |
| Ustar.KindsExactly | src/fs/ustar.c:142-165 | each kind of entry is given for exactly its type flags |
| Ustar.IsDirectDescendant | src/vfs/path.c:192-194 | the unsigned comparison of the match length |
| Ustar.UstarDirectory.Readdir | src/fs/ustar.c:119-197 | one call asks the receiver for each child in turn and goes on exactly while the answer is 0: a refused child is not passed, one taken with a stop is the last, and otherwise only the end, a sector that the device refuses, whose error it returns, or an empty path outside the directory stops it |
| Ustar.InoLookup | src/fs/ustar.c:199-270 | finds the first child of that name, or reaches the end because there is none, or returns the error of the first header that the device refuses, or crashes exactly at an empty path outside the directory |
| Lists.FilterSplits | src/structure/list.h:44-64 | removed and kept entries are those that do and do not meet the condition, and together as many as before |
| Lists.FilterInOrder | src/structure/list.h:44-64 | removed and kept entries stay in order: the results of two lists in a row are the two results in a row |
| Lists.OrderedInsertKeeps | src/structure/list.c:71-102 | ordered insertion keeps a list non-increasing under any total preorder |
| Lists.List.constructor | src/structure/list.c:6-19 | two joined sentinels and no entries |
| Lists.List.LinkBehind | src/structure/list.c:21-102 | the four pointer writes insert one value, and forward and backward links stay inverse |
| Lists.List.Unlink | src/structure/list.c:117-154 | the two pointer writes remove one entry, and the links stay inverse |
| Lists.List.InsertFront | src/structure/list.c:21-44 | the value is the new first entry; null is refused |
| Lists.List.InsertBack | src/structure/list.c:46-69 | the value is the new last entry; null is refused |
| Lists.List.InsertOrdered | src/structure/list.c:71-102 | the value goes before the first entry that does not compare greater |
| Lists.InsertFails | src/structure/list.c:21-69 | null is refused with EINVAL, a missing node reported with ENOMEM, and nothing else fails |
| Lists.List.PeekFront | src/structure/list.c:104-109 | the first value, or null |
| Lists.List.PeekBack | src/structure/list.c:110-115 | the last value, or null |
| Lists.List.PopFront | src/structure/list.c:117-135 | the first entry is removed and returned |
| Lists.List.PopBack | src/structure/list.c:136-154 | the last entry is removed and returned |
| Lists.List.Contains | src/structure/list.c:164-172 | true exactly if the value is an entry |
| Lists.List.RemoveOnCond | src/structure/list.h:44-64 | all entries meeting the condition go, in order, the others stay in order |
| Lists.List.Remove | src/structure/list.c:174-176 | all entries with this value go |
| Sleeping.CmpIsTimeOrder | src/time/sleep.c:27-31 | the comparison is the order of times if and only if the seconds differ by less than 2^31, or by exactly 2^31 with the earlier one first |
| Sleeping.AddThenSub | src/time/sleep.c:33-51 | addition carries, subtraction borrows, and one undoes the other even when seconds wrap |
| Sleeping.SubIsDifference | src/time/sleep.c:42-51 | subtraction is exact to the nanosecond for every time that is not earlier than the other |
| Sleeping.ClonedTasksAreNear | src/task/clone.c:95-100 | tasks made by do_clone lie in the kernel heap, from 0xC0400000 on, and so close enough together |
| Sleeping.QueueOrderedByTask | src/time/sleep.c:62-73 | the order the queue really keeps: by task pointer and second, for task pointers and seconds pairwise less than 2^31 apart |
| Sleeping.EndOrderKeptExactly | src/time/sleep.c:62-73 | the new sleeper goes behind all with a higher task pointer, or the same and a later second; the order of end times is kept if and only if its two neighbours there are in order with it |
| Sleeping.QueueNotOrderedByEnd | src/time/sleep.c:62-73 | two tasks of the kernel heap: a queue in the order of end times that one insertion puts out of that order |
| Sleeping.SleepQueue.SleepAdd | src/time/sleep.c:62-73 | a record with the end time at the place the comparison gives |
| Sleeping.SleepQueue.Tick | src/time/sleep.c:53-60 | exactly the expired sleepers leave the queue and are woken in queue order |
| Sleeping.SleepQueue.Finalize | src/time/sleep.c:82-85 | the record goes, from the queue as well |
| Sleeping.TickWakesExpired | src/time/sleep.c:53-60 | each queued sleeper is woken and removed if its time has come, and stays otherwise, whatever the order of the queue |
| Sleeping.DueMeansNotLater | src/time/sleep.c:53-60 | a sleeper within 2^31 seconds of the present is due exactly if its end time is not later than now |
| Sleeping.SleepsAsLong | src/time/sleep.c:53-73 | a task put to sleep for a time is due exactly when at least that time has passed |
| Sleeping.WakesWake | src/task/sched.c:97-113 | after a list of wakeups each receiver is queued or flagged |
| Sleeping.WakesNobodyElse | src/task/sched.c:97-113 | a list of wakeups changes nothing for a task that is not among its receivers |
| BlockReads.CacheGrows | src/block/ata.c:257-275 | filling one slot keeps every cached sector equal to its disk sector, through the growth of the array |
| BlockReads.InOneBlock | src/fs/ece391fs.c:61-84 | within one block the bytes of a file are a slice of the disk at the block the index names |
| BlockReads.BlocksApart | src/fs/ece391fs.c:61-84 | data blocks follow one another behind the boot block and all inode blocks and overlap none of them |
| BlockReads.IdsInInode | src/fs/ece391fs.c:61-76 | the block numbers stand one behind the other after the size in the block of the inode, 1023 of them |
| BlockReads.WordRoundTrip | src/fs/ece391fs.c:69-72 | a number laid out low byte first reads back as that number |
| BlockReads.FileIsItsBlocks | src/fs/ece391fs.c:61-84 | the k-th 4096 bytes of a file are those of the data block whose number is the k-th in its inode, cut to the size of the file |
| BlockReads.BlockFile.CachedSector | src/block/ata.c:257-275 | the bytes of the sector, cached or not; an error only when the device gave it, for a sector that was not cached, and then the cache is as before |
| BlockReads.BlockFile.Read | src/block/ata.c:241-300 | exactly the disk bytes from the position on, clamped to the size; after an error the position is behind the bytes delivered |
| BlockReads.BlockFile.SeekTo | src/block/ata.c:340-376 | the position moves exactly if the target is on the disk |
| BlockReads.BlocksFile.ReadBlockId | src/fs/ece391fs.c:61-76 | the block number stored in the index of the file; an error is the device's at some sector |
| BlockReads.BlocksFile.ReadData | src/fs/ece391fs.c:61-84 | the bytes of the file from the offset up to the end of its block; an error is the device's at some sector |
| BlockReads.BlocksFile.Read | src/fs/ece391fs.c:87-104 | exactly the file's bytes from the position on, clamped to its size; an error is the device's at some sector, with the position behind the bytes delivered |
| BlockReads.BlocksFile.ReadTwice | src/fs/ece391fs.c:87-104 | two reads one after the other give the bytes of one, unless the device refuses a sector |
| Uptime.ClockIsRight | src/time/uptime.c:11-39 | through every state of the calibration the rate is positive and within bounds and the counter is the number of interrupts in this second |
| Uptime.RateIsLastSecond | src/time/uptime.c:11-39 | in every state the rate: the one set at first, 1 in the first aligned second, then the number of interrupts of the last whole second; and the counter |
| Uptime.UptimeIs | src/time/uptime.c:41-57 | after a whole second the time is the changes of the register and the interrupts since over those of the last second |
| Uptime.UptimeAtFirst | src/time/uptime.c:41-57 | before the first change it is 0 seconds and the interrupts over 1024 |
| Uptime.HalfSecond | src/time/uptime.c:41-57 | 512 interrupts after a second of 1024 are 500000000 ns |
| Uptime.ProductFits | src/time/uptime.c:41-57 | the product stays within 32 bits for every counter value if and only if the rate is at most 4295 |
| Uptime.NanosecondsBelowSecond | src/time/uptime.c:41-57 | the reported fraction is below one second and exact |
| Uptime.UptimeIsMonotone | src/time/uptime.c:11-57 | reported times never decrease over any sequence of interrupts with at most 4295 a second |
| Uptime.SecondsCountChanges | src/time/uptime.c:11-39 | the seconds are the number of changes of the second register |
| Uptime.UptimeClock.RtcHandler | src/time/uptime.c:11-39 | the fall-through state machine makes one step of the specification |
| Uptime.UptimeClock.GetUptime | src/time/uptime.c:41-57 | reports the time of the specification |
| Calendar.YearsInClosedForm | src/time/clock.c:7-24 | the leap-year divisions are the recursive count of days in all years before |
| Calendar.MonthsInClosedForm | src/time/clock.c:7-24 | 367*mon/12 after the shift is the recursive count of days in the months before, leap years included |
| Calendar.MktimeCountsDays | src/time/clock.c:7-24 | mktime64 is the Gregorian day count since 1970 times 86400 plus the time of day |
| Calendar.MktimeIsPosix | src/time/clock.c:7-24 | mktime64 agrees with the formula of POSIX.1-2017 Base Definitions, section 4.16 |
| Calendar.MktimeIncreases | src/time/clock.c:7-24 | a later date gets a larger number |
| Calendar.DatesInOrder | src/time/clock.c:7-24 | of two different dates exactly one is the later one |

## Left out

Memory:
- Paging.Pager.CloneDirectory: nothing is claimed of the state after `Panic`; the 16-bit count asks for fewer than 32767 live directories.
- Paging.Pager.RequestPastTable: what the code reads and writes behind the page table, and so the state after an overrun, is not modelled.
- Paging.Pager.FreeKernel: a range that holds a page directory or page table in use is left out, as the callers free memory of their own.
- Paging.Pager.UserWrite: writes by user code only; copy-on-write triggered by the kernel's own buffer checks (addr_is_safe, safe_buf) is not modelled.
- remap_to_user and vidmap map frames they do not own, and PAGE_SHARED is never set: not modelled.
- User page tables are flattened into one map from pages to entries; that a table entry holds a physical address, the CR3 register, TLB flushes and the kernel's own directory entries are not modelled.
- FrameTable.ChosenIsFirstFit: says what the 16-bit scan counter reaches, not that all memory is reached.

Heap:
- KernelHeap.Heap.Kmalloc: requests up to 65535 pages, where 32-bit sums and the 16-bit page count do not wrap.
- KernelHeap.Heap.AllocateNewPage: the same limit; what a larger request is cut to is in `GrowArrays.RequestCut`.
- KernelHeap.Heap.Kfree: a header is live or not; what a freed or overwritten header contains, the distinction between a dead and a garbage magic number and the possible-overrun counter are left out, and headers are kept apart from the bytes of memory.
- KernelHeap.Heap.Krealloc: pointers into the middle of something that happens to look like a live header are excluded.
- kcalloc (a product that may wrap, then kmalloc) and the statistics printout.

Scheduler and mutexes:
- The timer that sets the reschedule flag (pit_schedule, cond_schedule), the register switch of _switch_to, do_free_tasks, and memory for list nodes in schedule() and the lock queue.
- Mutexes.Kernel.Round: one round of the lock loop is one method; the code between two schedule() calls is not cut further, since the kernel does not preempt itself.
- Delivery of signals: whether one is pending is an input of each round; being stopped is an event.

Paths, mounts and files:
- Failing allocations inside the path functions.
- Mounts.MountTable.PathResolveMnt: reference counts of mounts are left out (the loop drops a reference it did not take, src/vfs/path.c:245).
- Mounts.MountTable.DoMount: opening the device, reading the super block and the error paths around them are left out; the mount path is one that path_checkmnt made of a rooted path, never an unnormalised one or one relative to nothing.
- OpenFiles.Files.Execve: the terminal is taken to open; the error that stands for the working directory after a failed open, and the loading of the program, are left out.
- Open modes, positions and contents of files, F_GETFD and F_SETFD, getdents64, sessions, signal tables, next_pid and the memory part of clone, exec and exit beyond the address-space steps above.
- GrowArrays.PointerArray.ArraySet: the heap grants a request that it can meet (kcalloc writes through the null pointer of one it does not grant); what an overrun writes over is not modelled.

File systems and disk:
- Ustar.UstarDirectory.Readdir: for archives whose name and prefix texts, up to the first zero byte, end within the header; a listing stops with `crashed` at an entry whose path is empty.
- Ustar.InoLookup: for the same archives; memory is available.
- ustar_read, link targets and inode modes; an unknown entry type is `Unset`, where the code reads an uninitialised variable.
- The ATA command protocol and the mutex around it: filling a sector is an input with three outcomes.
- BlockReads.BlocksFile.Read: for files whose index and blocks lie on the disk.
- Directory entries of the ECE391 file system, and default_file_seek.

Time:
- nanosleep's own loop and failing allocation in sleep_add; interrupts that come between two statements of sleep_add.
- Sleeping.QueueOrderedByTask: for end times within 2^31 seconds of one another, where the comparison is an order.
- Uptime.UptimeIsMonotone: seconds are unbounded; the code wraps them after 136 years.
- Calendar.MktimeCountsDays: years before 11,000,000, where 365 times the year fits 32 bits.
- Reading the CMOS clock (time_now) and setting up the interrupt rate.

Left out because nothing is proved that is not in one body: terminals, keyboard, console output, the shell, PCI and network drivers, sockets, ELF loading, user stacks and signal frames.
