# StOS: a verified model of its memory, names, time and processes

StOS is a small i386 kernel with its own C library. This project models the parts of it that carry the most state and
proves what they keep over whole runs. It is written for Dafny 4.11; `dafny verify dfyconfig.toml` checks all of it.

Layers and files:

- **Physical pages.** `Blocks`, `BuddyOwners` and `BuddyState` hold the theory of the buddy allocator on values: who owns
  each page, what the eleven free lists hold, what the counters say. `BuddyRuns` states the theorems about runs.
  `PmmMeta`, `PmmBoot` and `FreeLists` connect the status map, the order map and the links inside free pages to it, and
  `PageAllocator` is the code itself over arrays, from boot to free.
- **Address spaces.** `CowMachine` is the machine of single page-table entries over that allocator, `CowRuns` proves that
  copy-on-write refines eager copying, `CowConservation`, `CowRestored` and `CowExample` say when a clone and its
  teardown give back what they took. `PageTables`, `SpaceMemory`, `SpaceClone` and `SpaceFrames` hold the theory of page
  directories and page tables (32-bit paging, section 4.3 of the Intel SDM, volume 3A), `Paging` is the code over them,
  `SpaceRuns` carries clone, use and teardown through on the code, and `Brk` is the heap end of a task on top of it.
- **Virtual regions and slabs.** `VmmRegions`, `VmmNodes` and `Vmm`; `SlabLists` and `Slab`.
- **User heap.** `Bytes` is byte memory with little-endian words; `HeapBlocks`, `HeapMemory` and `HeapSteps` hold the
  theory and `UserHeap` the code of malloc, free and realloc over bytes.
- **Names.** `PathText`, `PathResolve` and `PathRuns` for path resolution (section 4.13 of the POSIX.1-2017 Base
  Definitions), `PathLaws` for what it means on directory contents, and `PathWalker` for the code over character
  buffers.
- **Processes.** `ProcessArgs` for the argument block (chapter 3 of the System V ABI i386 supplement); `SignalFrames` and
  `SignalRuns` for signal delivery and `SignalTask` for its code over bytes.
- **Time and sorting.** `Calendar`, `BrokenDownTime` and `LibTime` for the two calendar implementations; `Qsort` for the
  heap sort behind qsort_r.

State that the C code changes in place is a class or an array here, and every such method is proved against functions on
values. Page 0, node 0 and slab 0 stand for the null pointer. Each locked operation is one step.

Where the code does something other than its comments or callers may expect, the model follows the code:

- A clone and its teardown need not restore the number of used pages once the parent has written to a page that a third
  space shares (`CowExample.CloneUsedNotRestored`; exactly when in `CowRestored.AlwaysRestoredIff`, and by how much on the
  code in `SpaceRuns.CloneUseDestroy`).
- The comment above sys_brk promises a new heap end for every address in range; an address in the page of the current
  end leaves the end where it is (`Brk.Task.Brk`).
- A heap shrink of a page that is still shared leaves its reference behind, and the frame is never free again
  (`CowRuns.LostForever`, and exactly when in `CowMachine.UnmapKeeps`).
- pmm_alloc_pages caps the order, so more than 1024 pages yield a block that is too small (`PageAllocator.Allocator.AllocPages`).
- malloc does not recover from a refusal of its very first page (`UserHeap.Allocator.Malloc`).
- A symbolic link with an empty target in front of more text restarts at the root (`PathResolve.EmptyTargetAstray`,
  and exactly when that matters in `PathResolve.EmptyTargetIff`).
- tm_wday is wrong for most dates before year 0 (`Calendar.WeekdayIff`), and libtime timestamps outside
  0000-03-01 to 65536-02-29 do not survive a round trip (`LibTime.TimestampRoundTripIff`).
- qsort_r leaves two elements as they are (`Qsort.Sort`).
- A slab that becomes empty is put at the front of the empty list before the code looks for a second empty slab, so no
  slab is ever destroyed (`Slab.Cache.Free`).
- A handler with SA_RESETHAND is reset before its address is read, so address 0 is entered instead
  (`SignalRuns.ResetHandlerLost`, and exactly when in `SignalRuns.EnteredBy`).
- The bounds check of sigreturn adds in 32 bits, so it lets a frame through that ends at the very end of the address
  space (`SignalRuns.ReturnOkIff`).
- Merging ignores the boundary between user space and the kernel heap, so a kernel request can be refused although the
  kernel heap is free (`Vmm.FreedKernelPage`, and exactly when in `VmmRegions.RefusedWithRoomIff`).

## Model

| member | source | states |
|---|---|---|
| `Blocks.BuddyHalves` | kernel/kernel/memory/pmm.c:228-231 | for an aligned block the page with bit k flipped is the other half of the one block of order k + 1 that holds both |
| `Blocks.BlockInside` | kernel/kernel/memory/pmm.c:237-241 | an aligned block whose first page lies in a larger aligned block lies wholly inside it, so aligned blocks never overlap partly |
| `BuddyOwners.BuddyIsHead` | kernel/kernel/memory/pmm.c:349-361 | the buddy page that coalescing looks at is never strictly inside another block, so what is read there is the metadata of a block head |
| `BuddyOwners.CanonicalUnique` | kernel/kernel/memory/pmm.c:343-377 | when no free block below order 10 has a free buddy of its order, the free blocks are a function of the free pages |
| `BuddyOwners.SplitReleaseInverse` | kernel/kernel/memory/pmm.c:320-377 | splitting a block down to an order and giving the piece back restores exactly the former owner of every page |
| `BuddyOwners.MergeProps` | kernel/kernel/memory/pmm.c:343-377 | the merge loop ends with whole aligned blocks over the same pages and no free buddy of equal order anywhere |
| `BuddyState.AllocInv` | kernel/kernel/memory/pmm.c:382-431 | an allocation keeps the whole invariant: tiling, canonical form, lists, used-page count and reference counts |
| `BuddyState.FreeInv` | kernel/kernel/memory/pmm.c:436-499 | a free, refused or not, keeps the whole invariant |
| `BuddyRuns.RunInv` | kernel/kernel/memory/pmm.c:178-499 | the invariant holds after every run of allocations, frees and reference count changes |
| `BuddyRuns.RunOneMore` | kernel/kernel/memory/pmm.c:178-499 | a run is its operations one after the other, each from the state the ones before it left |
| `PageAllocator.Perform` | kernel/kernel/memory/pmm.c:178-499 | the code over arrays takes every legal run of operations to the state that the run has on values |
| `BuddyRuns.ExactlyOneBlock` | kernel/kernel/memory/pmm.c:382-499 | every managed page lies in exactly one block, which is order-aligned, inside memory, and either handed out or free |
| `PageAllocator.Allocator.StatusMap` | kernel/kernel/memory/pmm.c:136-176 | in every state of the running allocator the status map is set exactly at reserved pages and at the first page of each block handed out, all of whose pages are then handed out together and whose size the order map gives; it is clear at every page on a free list, where the order map names the list |
| `BuddyRuns.AllocComplete` | kernel/kernel/memory/pmm.c:382-404 | an allocation fails exactly when memory holds no aligned run of that many free pages |
| `BuddyRuns.AllocFailsIff` | kernel/kernel/memory/pmm.c:382-404 | and exactly when no free list from the wanted order up holds a block |
| `BuddyRuns.RoomAllocs` | kernel/kernel/memory/pmm.c:733-739 | a single page can be had exactly when some page is free |
| `BuddyRuns.AllocSound` | kernel/kernel/memory/pmm.c:406-431 | a successful allocation hands out an aligned run that was free, sets its counts to 1, adds its size to the used pages and touches no other block that is in use |
| `BuddyRuns.AllocChoice` | kernel/kernel/memory/pmm.c:390-416 | the block is the first one of the first list from the wanted order up that is not empty; the lists below that one get the upper halves left over, and no other list changes |
| `BuddyRuns.FreeRefusedIff` | kernel/kernel/memory/pmm.c:436-473 | a free changes nothing exactly when it is aimed beyond memory, at a page that is not the head of a handed-out block, or at a block with a page that still has two references |
| `BuddyRuns.FreeSound` | kernel/kernel/memory/pmm.c:475-499 | any other free makes exactly the pages of the block free, clears their counts and lowers the used pages by their number |
| `BuddyRuns.FreeChoice` | kernel/kernel/memory/pmm.c:343-377 | the merged block goes to the front of the list of its order; each list between the freed order and that one loses exactly one block, and no other list changes |
| `BuddyRuns.BlocksFromPages` | kernel/kernel/memory/pmm.c:275-377 | two reachable states with the same free pages have the same blocks on every list |
| `BuddyRuns.AllocFreeRestores` | kernel/kernel/memory/pmm.c:382-499 | an allocation followed by its free restores the set of free blocks of every order, the used pages and all reference counts |
| `BuddyRuns.RunRestoresBlocks` | kernel/kernel/memory/pmm.c:382-499 | any run that ends with the free pages it began with ends with the same free blocks and the same used-page count |
| `FreeLists.LinkedPush` | kernel/kernel/memory/pmm.c:275-289 | pushing a block that is on no list keeps all eleven doubly linked lists well-formed and disjoint |
| `FreeLists.LinkedRemove` | kernel/kernel/memory/pmm.c:294-310 | unlinking a block keeps all lists well-formed and disjoint and removes exactly that block |
| `PmmMeta.BuddyReadExact` | kernel/kernel/memory/pmm.c:349-361 | the test made at the buddy page, clear status bit and equal order, is true exactly for a free buddy of that order, except that a single unmanaged page passes it at order 0 |
| `PmmBoot.AddNoBuddy` | kernel/kernel/memory/pmm.c:510-575 | in the greedy cut of a memory region the buddy of the next block is never a free block of its order, so no two added blocks are free buddies |
| `PmmBoot.AddBlockInv` | kernel/kernel/memory/pmm.c:510-575 | adding such a block keeps the boot invariant: tiling, canonical form, lists and counts |
| `PmmBoot.TouchesIff` | kernel/kernel/memory/pmm.c:584-590 | a reservation takes a page exactly when some byte of the page lies in it |
| `PmmBoot.WithinIff` | kernel/kernel/memory/pmm.c:510-516 | an available region offers a page exactly when every byte of the page lies in it |
| `PageAllocator.Allocator.constructor` | kernel/kernel/memory/pmm.c:663-676 | all maps cleared, nothing reserved and nothing available |
| `PageAllocator.Allocator.ReserveRegion` | kernel/kernel/memory/pmm.c:584-613 | marks exactly the pages that the range touches and that were not marked, and counts them as used |
| `PageAllocator.Allocator.PickOrder` | kernel/kernel/memory/pmm.c:538-564 | the largest order whose block is aligned, fits and holds no reserved page |
| `PageAllocator.Allocator.AddRegion` | kernel/kernel/memory/pmm.c:510-575 | makes exactly the unreserved whole pages of the range available, cut into blocks in canonical form |
| `PageAllocator.Allocator.Boot` | kernel/kernel/memory/pmm.c:619-726 | after the boot sequence the full invariant holds; a page below the total is reserved exactly when some byte of it lies in a reservation, and free exactly when it is not reserved and all of its 4096 bytes lie in one available region |
| `PageAllocator.Allocator.AddToFreeList` | kernel/kernel/memory/pmm.c:275-289 | the list gains the block at its front and all other links stay |
| `PageAllocator.Allocator.RemoveFromFreeList` | kernel/kernel/memory/pmm.c:294-310 | the list loses exactly the block |
| `PageAllocator.Allocator.SplitBlock` | kernel/kernel/memory/pmm.c:320-337 | the upper halves of every order passed are labelled and listed |
| `PageAllocator.Allocator.Coalesce` | kernel/kernel/memory/pmm.c:343-377 | computes the merged block and unlinks exactly the buddies it absorbed |
| `PageAllocator.Allocator.AllocOrder` | kernel/kernel/memory/pmm.c:382-431 | the maps, links and counters refine the allocation step of the abstract allocator |
| `PageAllocator.Allocator.AllocPages` | kernel/kernel/memory/pmm.c:741-752 | takes the allocation step at the capped order, so it fails exactly when no list from that order up holds a block; the block handed out holds the requested number of pages exactly when at most 1024 are requested, and is then the smallest such block |
| `PageAllocator.CalculateOrder` | kernel/kernel/memory/pmm.c:247-266 | the smallest order that holds the pages, capped at 10 |
| `PageAllocator.Allocator.FreePage` | kernel/kernel/memory/pmm.c:436-499 | the maps, links and counters refine the free step, refusals included |
| `PageAllocator.Allocator.GetRefcount` | kernel/kernel/memory/pmm.c:880-893 | the reference count of a page |
| `PageAllocator.Allocator.IncRefcount` | kernel/kernel/memory/pmm.c:178-190 | adds one reference unless the count is saturated at 65535, and returns the resulting count |
| `PageAllocator.Allocator.DecRefcount` | kernel/kernel/memory/pmm.c:192-211 | removes one reference unless the count is saturated, and returns the resulting count |
| `CowRuns.ShareSound` | kernel/arch/i386/paging/paging.c:812-840 | sharing a page is, for every reader, the same as copying it, and counts one more reference |
| `CowMachine.FaultKeeps` | kernel/arch/i386/paging/paging.c:1106-1152 | a copy-on-write fault changes nothing that any space reads, keeps exact counts exact, and leaves the entry writable if a frame is left |
| `CowMachine.DropKeeps` | kernel/arch/i386/paging/paging.c:1187-1209 | a teardown step removes exactly one page of one space, keeps every other page readable and exact counts exact |
| `CowMachine.UnmapKeeps` | kernel/kernel/task/syscall/brk.c:101-112 | a heap shrink step removes exactly one page of one space; since the free of a shared frame is refused, no count falls below the number of mappers, every count stays the number of mappers and of references left behind, and one more is left behind exactly when the frame had more than one |
| `CowMachine.WriteKeeps` | kernel/arch/i386/paging/paging.c:1088-1153 | a permitted write changes that byte of that page of that space and nothing else anywhere |
| `CowRuns.RunRefines` | kernel/arch/i386/paging/paging.c:737-1225 | over every run of shares, copies, fresh pages, writes, faults, teardowns and shrinks on any number of spaces, each space reads exactly what it would read if every shared page had been copied eagerly; every reference count stays the number of mappers and of references that shrinks left behind, of which there are none without shrinks |
| `CowRuns.RunOneMore` | kernel/arch/i386/paging/paging.c:760-1225 | a run of clones, faults, writes and teardowns is its steps one after the other |
| `CowRuns.MappedNeverFree` | kernel/arch/i386/paging/paging.c:1130-1134 | in every reachable state a mapped frame is live, has at least as many references as mappers and is on no free list |
| `CowRuns.LostForever` | kernel/kernel/task/syscall/brk.c:101-112 | a frame that a heap shrink left a reference behind on is never free again in any later run, whoever drops it |
| `CowConservation.UsedFollowsData` | kernel/kernel/memory/pmm.c:382-499 | over any run the used-page counter moves by exactly the change in the number of frames that hold user data |
| `CowConservation.SameMappingSameMemory` | kernel/arch/i386/paging/paging.c:906-1225 | two states of one run that map the same frames at the same places, with the same references left behind, agree on every reference count, on the used pages and on the set of free blocks |
| `CowConservation.CloneTeardownRestores` | kernel/arch/i386/paging/paging.c:906-1225 | cloning a space and tearing the clone down, with any writes and any faults of the clone in between, restores every reference count, the used pages and the exact free blocks |
| `CowConservation.CloneUsedRestoredIff` | kernel/arch/i386/paging/paging.c:1088-1225 | with faults of the parent as well, one more page is in use at the end for every page of the parent that left a frame which had another holder at the start, so the used pages are restored exactly when there is none |
| `CowExample.CloneUsedNotRestored` | kernel/arch/i386/paging/paging.c:1088-1225 | a concrete run in which a clone and its teardown leave one more page in use: the page that the parent writes to was already shared with a third space |
| `CowRestored.CloneUsedRestored` | kernel/arch/i386/paging/paging.c:906-1225 | the used pages are restored by every run if every page of the parent was in a frame with a single reference before the clone |
| `CowRestored.AlwaysRestoredIff` | kernel/arch/i386/paging/paging.c:906-1225 | told from the state before the clone: every run that makes a clone of a space, lets both write and fault and ends with the clone gone restores the used pages if and only if no page is free or every page of the space is in a frame with a single reference |
| `PageTables.SetPteAgrees` | kernel/arch/i386/paging/paging.c:317-383 | writing one entry of a page table changes the mapping at that address and nowhere else |
| `PageTables.WalkFinds` | kernel/arch/i386/paging/paging.h:214-231 | the entry of an address is the one at bits 31 to 22 of the directory and bits 21 to 12 of the table |
| `PageTables.TablesFollow` | kernel/arch/i386/paging/paging.c:906-1225 | a directory that comes or goes takes exactly its own tables with it: all other tables stay, and none is left behind |
| `SpaceFrames.KernelIsHeld` | kernel/arch/i386/paging/paging.c:460-474 | the used pages without user data are exactly the directories, the tables and the pages of the rest of the kernel, so the used-page counter is pinned |
| `SpaceFrames.SpacesKernel` | kernel/arch/i386/paging/paging.c:906-1225 | two states of the address spaces with the same directory and table frames agree on every page that holds no user data, owner and count |
| `SpaceMemory.CloneSlotsAt` | kernel/arch/i386/paging/paging.c:906-1086 | the specification of a clone, page by page: contents of the source, copies or zeroes for the stack, and every other space unchanged |
| `SpaceClone.SlotsAreUser` | kernel/arch/i386/paging/paging.c:760-905 | slot by slot cloning is, page by page and in byte addresses, a copy inside the stack and a shared page outside it, and touches no third space |
| `SpaceClone.CloneIsRead` | kernel/arch/i386/paging/paging.c:769-771 | what the clone reads at every byte of the stack, and where the pages lie that only the clone has |
| `Paging.AddressSpaces.CreateDirectory` | kernel/arch/i386/paging/paging.c:460-474 | a directory that maps nothing, in a frame of its own, unless no frame is left |
| `Paging.AddressSpaces.SharePage` | kernel/arch/i386/paging/paging.c:812-840 | both locations map the frame of the source, read-only and copy-on-write, and no other entry changes; fails only when the count is at its end |
| `Paging.AddressSpaces.CopyPage` | kernel/arch/i386/paging/paging.c:774-810 | the new location is a writable page on a frame that held no data, with a copy of the source page or zeroes, and no other entry changes; fails only when no frame is left |
| `Paging.AddressSpaces.CloneEntry` | kernel/arch/i386/paging/paging.c:760-845 | one entry of a table: a private copy for a stack page, with the entry of the source as it was, and a shared read-only page otherwise |
| `Paging.AddressSpaces.CloneTable` | kernel/arch/i386/paging/paging.c:737-852 | all 1024 entries of a table; the clone reads what the source reads |
| `Paging.AddressSpaces.CreateStackTable` | kernel/arch/i386/paging/paging.c:857-904 | a table whose stack pages are zeroed and that maps nothing else |
| `Paging.AddressSpaces.CloneDirectory` | kernel/arch/i386/paging/paging.c:906-1086 | the new space reads what an eager copy of the source would read; in byte addresses, a page of the source that begins in the stack is copied to a frame of its own and stays as it was in the source, any other is shared read-only; every byte of a page-aligned stack in one slot is there, with the byte of the source or 0, and a page that only the clone has begins in the stack; the new directory brings exactly its own tables, every other directory is the same, every other space maps the same frames, and every page in use by no address space keeps its owner and count; it fails only when no frame is left or a reference count is at its end |
| `Paging.AddressSpaces.HandleCowFault` | kernel/arch/i386/paging/paging.c:1088-1153 | succeeds exactly for a present copy-on-write entry when a frame is left; memory reads the same in every space; the entry is then writable and on a frame that held no data before, and no other entry changes its frame |
| `Paging.AddressSpaces.FreeTable` | kernel/arch/i386/paging/paging.c:1177-1215 | every page of the table is gone from its space and from no other, and the table frame is free |
| `Paging.AddressSpaces.FreeUserPages` | kernel/arch/i386/paging/paging.c:1155-1225 | all user pages of the space are gone and every other space reads on as before |
| `Paging.AddressSpaces.Destroy` | kernel/arch/i386/paging/paging.c:1155-1225 | pages, tables and directory of the space are given back; every other directory, table and page frame stays, every other space reads on as before, and every page in use by no address space keeps its owner and count |
| `Paging.AddressSpaces.Store` | kernel/arch/i386/paging/paging.c:1088-1153 | a user write succeeds exactly when the page is writable or can be made so; it then changes one byte of one space and moves at most that page to a new frame, otherwise nothing |
| `SpaceRuns.GivenBack` | kernel/arch/i386/paging/paging.c:906-1225 | when the directories are back, so are the tables; the used pages have grown by the number of pages of p that left a frame with another holder, and if p kept its frames then every reference count, the used pages and the blocks of every free list are as before |
| `SpaceRuns.CloneUseDestroy` | kernel/arch/i386/paging/paging.c:906-1225 | on the code, from any state: clone a space, let the parent and the clone write and fault in any order, tear the clone down. Directories and table frames are as before and third spaces read and map what they did; one more page is used for every parent page that left a frame with another holder, none if every parent page was in a frame with a single reference; with accesses of the clone only, memory, every reference count, the used pages and the blocks of every free list are restored |
| `Paging.AddressSpaces.MapFresh` | kernel/kernel/task/syscall/brk.c:67-99 | adds one zeroed page to the space exactly when there are frames for the page and for a missing table, and uses exactly those; otherwise changes nothing that any space reads and no frame |
| `Paging.AddressSpaces.UnmapPage` | kernel/kernel/task/syscall/brk.c:101-112 | removes the page at the address if there is one, and nothing else; the frame of a writable page is free again |
| `Brk.GrowUndone` | kernel/kernel/task/syscall/brk.c:72-80 | taking back the pages added so far gives the memory before the call |
| `Brk.Task.Grow` | kernel/kernel/task/syscall/brk.c:64-99 | all of the pages are mapped and zeroed, exactly when there are frames for them and for the tables they need; otherwise none is, and the frames used in addition are exactly those of the tables made before memory ran out |
| `Brk.Task.Shrink` | kernel/kernel/task/syscall/brk.c:101-112 | exactly the pages of the range are gone; if they were writable, so are their frames |
| `Brk.Task.Brk` | kernel/kernel/task/syscall/brk.c:25-116 | the error and no-op answers; in byte addresses, pages that begin below the new heap end and not below the old one are mapped and zero, those the other way round are gone, and no other page changes; the end moves exactly when a page begins between the two addresses and, for a growth, there are frames enough; no page that begins at or above the end and below the limit is ever mapped |
| `Brk.PageUpIff` | kernel/kernel/task/syscall/brk.c:56-57 | the page number that an address is rounded up to is the first page that begins at or above it |
| `Brk.GrownByte` | kernel/kernel/task/syscall/brk.c:64-99 | after a growth every byte below the new end whose page begins at or above the old one is mapped and 0 |
| `HeapBlocks.AllocateNeat` | libc/src/stdlib/malloc.c:82-111 | handing out part of a free block leaves no two free neighbours and no block shorter than 16 bytes |
| `HeapBlocks.ReleaseNeat` | libc/src/stdlib/free.c:6-40 | giving a block back and joining both sides leaves no two free neighbours |
| `HeapBlocks.ReleaseUndoesAllocate` | libc/src/stdlib/malloc.c:82-168 | freeing what malloc has just handed out restores the very same list of blocks |
| `HeapMemory.LiveDisjoint` | libc/src/stdlib/_stdlib_mem.h:20-33 | distinct live allocations are at least a header apart and lie inside the heap |
| `HeapMemory.SwapSpelled` | libc/src/stdlib/malloc.c:82-111 | replacing a stretch of blocks by others of the same total size keeps the headers in memory and the list of blocks in agreement |
| `HeapMemory.SwapViews` | libc/src/stdlib/free.c:6-40 | and keeps the contents of every allocation outside the stretch |
| `HeapSteps.AppendBlock` | libc/src/stdlib/malloc.c:60-69 | a grown heap with a new block behind a used one: the blocks still tile it and no allocation changes |
| `HeapSteps.GrowLast` | libc/src/stdlib/malloc.c:69-73 | a grown heap whose last free block takes the new bytes |
| `UserHeap.Allocator.constructor` | libc/src/stdlib/_stdlib_mem.c:6-16 | no heap yet |
| `UserHeap.Allocator.Sbrk` | libc/include/unistd.h:111-120 | contiguous growth, or a refusal that changes nothing |
| `UserHeap.Allocator.FindFit` | libc/src/stdlib/malloc.c:16-28 | the first free block that is long enough, or none |
| `UserHeap.Allocator.ExtendHeap` | libc/src/stdlib/malloc.c:34-74 | a refusal changes nothing; otherwise the blocks are those of the grown heap and the last one is free and large enough |
| `UserHeap.Allocator.SplitBlock` | libc/src/stdlib/malloc.c:82-111 | the block is cut in two exactly when the rest can hold a header and 16 bytes |
| `UserHeap.Allocator.Initialise` | libc/src/stdlib/malloc.c:113-138 | one free block of a page, or, when the first page is refused, a heap without a first block |
| `UserHeap.Allocator.Malloc` | libc/src/stdlib/malloc.c:113-168 | a fresh address with at least the bytes asked for, less than 28 more than needed, and all other allocations untouched; or none, exactly when no free block fits and the heap cannot grow; the first block that fits is cut, or the last one after the heap has grown; the heap stays usable unless its very first page is refused |
| `UserHeap.Allocator.FindPrevious` | libc/src/stdlib/_stdlib_mem.h:53-65 | the block whose next pointer is the given one |
| `UserHeap.Allocator.Free` | libc/src/stdlib/free.c:6-40 | exactly the allocation is gone, the blocks are the released ones, all other contents stay |
| `UserHeap.Allocator.Store` | libc/src/stdlib/_stdlib_mem.h:20-33 | a write inside an allocation changes that byte and no other allocation |
| `UserHeap.Allocator.Realloc` | libc/src/stdlib/realloc.c:9-36 | the new allocation begins with the common prefix of the old one and every other allocation stays; it fails exactly when no free block fits and the heap cannot grow, and then leaves the old one as it was; size 0 frees |
| `VmmRegions.TilesOrder` | kernel/kernel/memory/vmm.c:606-640 | regions that lie end to end are sorted and do not overlap |
| `VmmRegions.UsedDisjoint` | kernel/kernel/memory/vmm.c:148-231 | live allocations never overlap |
| `VmmRegions.FreeIsRest` | kernel/kernel/memory/vmm.c:148-231 | the free addresses are exactly the managed ones that no allocation covers |
| `VmmRegions.TakeIs` | kernel/kernel/memory/vmm.c:165-184 | marking or cutting off a region adds exactly one allocation and keeps the tiling |
| `VmmRegions.UnmarkIs` | kernel/kernel/memory/vmm.c:272-276 | marking a region free removes exactly its allocation |
| `VmmRegions.MergeFromIs` | kernel/kernel/memory/vmm.c:683-700 | merging changes no allocation, keeps the tiling and leaves no two free neighbours |
| `VmmRegions.RefusedWithRoomIff` | kernel/kernel/memory/vmm.c:156-168 | a kernel request is refused although the kernel has enough free addresses in a row exactly when no free region that begins at a kernel address is long enough and a free region that begins in user space reaches far enough past 0x40000000 |
| `VmmNodes.SpellsInsert` | kernel/kernel/memory/vmm.c:606-640 | linking a node between two neighbours keeps the doubly linked list well-formed |
| `VmmNodes.PoolRelease` | kernel/kernel/memory/vmm.c:570-601 | a node taken out of the list is on the reuse list afterwards if it came from the page, and on none otherwise |
| `Vmm.Manager.constructor` | kernel/kernel/memory/vmm.c:91-143 | the three initial regions, tiling the range from 0x00100000 to 0xC0000000 |
| `Vmm.Manager.EnableDynamic` | kernel/kernel/memory/vmm.c:58-86 | only the source of nodes changes |
| `Vmm.Manager.CreateRegion` | kernel/kernel/memory/vmm.c:504-565 | a node that is in no list, or none exactly when the pool in use is exhausted |
| `Vmm.Manager.InsertRegion` | kernel/kernel/memory/vmm.c:606-640 | the node stands before the first region that does not start below it |
| `Vmm.Manager.RemoveRegion` | kernel/kernel/memory/vmm.c:645-662 | exactly that node leaves the list and none is lost |
| `Vmm.Manager.FindRegion` | kernel/kernel/memory/vmm.c:667-678 | the region that holds an address, or none |
| `Vmm.Manager.MergeFree` | kernel/kernel/memory/vmm.c:683-700 | the list after the pass is the merged one |
| `Vmm.Manager.SplitRegion` | kernel/kernel/memory/vmm.c:705-734 | two regions for one, or no change exactly when the point is outside or no node is left |
| `Vmm.Manager.Alloc` | kernel/kernel/memory/vmm.c:148-231 | success cuts the bytes asked for off the front of the lowest free region that is long enough and begins in user space exactly when the flags ask for it; the allocation has those flags and the present bit, the rest of the region stays free and no other region changes; the exact conditions of failure; a failure changes neither the allocations nor the free addresses, and without lack of physical pages it changes nothing |
| `Vmm.Manager.Free` | kernel/kernel/memory/vmm.c:236-280 | succeeds exactly when an allocation of that many pages holds the aligned address; the regions are then the merged ones without that allocation, with no two free neighbours and every other allocation as it was, flags included; any other call changes nothing |
| `Vmm.FreedKernelPage` | kernel/kernel/memory/vmm.c:148-280 | a run of the code: one kernel page is allocated and freed; all free space is then one region that begins in user space, and the next kernel request is refused |
| `SlabLists.HandedCount` | kernel/kernel/memory/slab.c:279-319 | the free counter of a slab tells how many of its objects are handed out |
| `SlabLists.ObjectsDisjoint` | kernel/kernel/memory/slab.c:143-186 | two different objects of a cache never overlap |
| `SlabLists.PageOf` | kernel/kernel/memory/slab.c:380-405 | rounding the address of an object down to its page finds its slab, and the offset its number |
| `SlabLists.MovedListed` | kernel/kernel/memory/slab.c:215-277 | after a move every slab is on exactly the list that its list field names |
| `Slab.Cache.constructor` | kernel/kernel/memory/slab.c:59-72 | no slabs, nothing handed out |
| `Slab.Cache.RemoveFromList` | kernel/kernel/memory/slab.c:114-127 | the slab is on no list afterwards and all three lists are well-formed |
| `Slab.Cache.AddToList` | kernel/kernel/memory/slab.c:132-141 | the slab is at the front of the list |
| `Slab.Cache.CreateSlab` | kernel/kernel/memory/slab.c:143-186 | a slab whose objects are all free, on the empty list; nothing changes hands |
| `Slab.Cache.UpdateLists` | kernel/kernel/memory/slab.c:215-277 | the slab is on the list that its number of free objects dictates |
| `Slab.Cache.ListsMean` | kernel/kernel/memory/slab.c:215-277 | in every state a slab is on the first list exactly when all its objects are free, on the third exactly when none is, and on the second otherwise |
| `Slab.Cache.AllocFromSlab` | kernel/kernel/memory/slab.c:279-295 | the first free object, and one fewer on the list and in the counter |
| `Slab.Cache.Alloc` | kernel/kernel/memory/slab.c:321-378 | hands out the first free object of a slab and changes no other; where the object lies in its page; a new page is used only when no object is free, and a wholly free slab only when no slab has objects of both kinds; fails exactly when no object is free and no page is granted; the active count goes up by one |
| `Slab.Cache.GetSlab` | kernel/kernel/memory/slab.c:380-405 | the one slab among whose objects the address lies, and none exactly when there is no such slab |
| `Slab.Cache.FreeToSlab` | kernel/kernel/memory/slab.c:297-319 | refuses exactly an object that is on the free list already |
| `Slab.Cache.Free` | kernel/kernel/memory/slab.c:407-453 | takes back exactly the object at the address when it is handed out, to the front of its free list; anything else changes nothing at all; a slab that becomes empty is at the front of the empty list, so it is never destroyed |
| `PathText.SplicedComponents` | kernel/kernel/vfs/path.c:123-137 | the components of a spliced text are those of the target followed by those of the rest |
| `PathResolve.Confined` | kernel/kernel/vfs/path.c:37-78 | for every path, link graph and mode, resolution stays under the root |
| `PathResolve.StructuralAppend` | kernel/kernel/vfs/path.c:59-159 | structural resolution of two parts is resolution of the first and then of the second, with one counter of links |
| `PathResolve.SpliceIsStructural` | kernel/kernel/vfs/path.c:59-159 | following links by splicing text arrives exactly where structural resolution arrives, links counted to 40 over the whole path, if no splice is cut short and no empty target stands before more text |
| `PathResolve.ShortIsClean` | kernel/kernel/vfs/path.c:123-137 | a bound on the path and on the targets under which no splice is cut short |
| `PathResolve.EmptyTargetIff` | kernel/kernel/vfs/path.c:130-139 | for every tree: a link with an empty target before more text is resolved as structure says exactly when that text leads from the root where it leads from the directory of the link |
| `PathResolve.EmptyTargetAstray` | kernel/kernel/vfs/path.c:130-139 | a tree where that loses a path that structural resolution finds |
| `PathLaws.NameDown` | kernel/kernel/vfs/path.c:80-82 | a name in a directory that is no link leads to its entry below that directory, with at most 255 characters of the name |
| `PathLaws.NameMissing` | kernel/kernel/vfs/path.c:83-98 | a name that is not there fails, or is reported missing exactly when that is allowed and only slashes follow |
| `PathLaws.StepUp` | kernel/kernel/vfs/path.c:72-78 | two dots lead to the parent, and from the root to the root |
| `PathLaws.DownUp` | kernel/kernel/vfs/path.c:69-82 | a name that is no link followed by two dots is no step at all, whatever follows |
| `PathLaws.Starts` | kernel/kernel/vfs/path.c:44-51 | a text with a leading slash is resolved from the root and does not depend on the caller; any other from where the caller stands |
| `PathLaws.LinkStep` | kernel/kernel/vfs/path.c:100-158 | a link that is followed restarts with its target in front of the rest, from the root or its own directory, cut off after 4095 characters, one link deeper; the fortieth link is refused |
| `PathLaws.LinkEnds` | kernel/kernel/vfs/path.c:100-118 | a link as the last component is returned itself when the caller does not follow it, and one whose target cannot be read fails |
| `PathLaws.ChainIff` | kernel/kernel/vfs/path.c:37-39 | a chain of links is followed to its end exactly when it has fewer than forty |
| `PathLaws.NormalForm` | kernel/kernel/vfs/path.c:59-164 | where there are no links, a text resolves exactly when the directory contents have every stage of its normal form, and to the entry the normal form names |
| `PathRuns.ResolveGenuine` | kernel/kernel/vfs/vfs.c:305-328 | resolution from an entry whose chain the filesystem confirms only reaches such entries |
| `PathRuns.AbsolutePathResolves` | kernel/kernel/vfs/path.c:236-274 | the absolute path of such an entry resolves to the same chain of names and the same object |
| `PathLaws.NamesSpelled` | kernel/kernel/vfs/path.c:236-274 | the absolute path has the names on the way from the root as its components, with one slash before each |
| `PathRuns.GetcwdRoundTrip` | kernel/kernel/task/syscall/chdir.c:16-26 | after any sequence of chdir calls the working directory is under the root and its absolute path resolves back to it |
| `PathRuns.RunOneMore` | kernel/kernel/task/syscall/chdir.c:9-28 | each chdir of a run starts where the ones before it left the working directory |
| `PathRuns.OptionalAgrees` | kernel/kernel/vfs/path.c:211-234 | allowing a missing last entry changes no other answer |
| `PathRuns.CreateThenResolve` | kernel/kernel/vfs/path.c:83-98 | when a missing last entry is made in the directory that was named, the same path finds it |
| `PathWalker.CutComponent` | kernel/kernel/vfs/path.c:64-68 | the component is cut off in place and the copy is restored |
| `PathWalker.Splice` | kernel/kernel/vfs/path.c:119-137 | the text that replaces a link and what follows it, clipped to the buffers |
| `PathWalker.ResolvePath` | kernel/kernel/vfs/path.c:27-173 | the walk over the copied path, with its recursion on links, computes the outcome that splicing defines |
| `PathWalker.BuildAbsolute` | kernel/kernel/vfs/path.c:236-274 | the buffer holds the absolute path and its terminator exactly when both fit, and no other byte changes |
| `PathWalker.WorkingDirectory.constructor` | kernel/kernel/task/task.c:201-202 | a process starts in the directory given to it, under its root |
| `PathWalker.WorkingDirectory.Chdir` | kernel/kernel/task/syscall/chdir.c:9-28 | moves to what the path resolves to, or stays |
| `PathWalker.WorkingDirectory.Getcwd` | kernel/kernel/task/syscall/getcwd.c:7-19 | what is delivered resolves back to the working directory from any start |
| `ProcessArgs.StringReads` | kernel/kernel/task/task_args.c:40-53 | a string and its terminator in memory read back as the string |
| `ProcessArgs.StringBytes` | usermode/crt0.c:26-30 | a string read is the bytes from its address up to the first zero byte |
| `ProcessArgs.VectorReads` | kernel/kernel/task/task_args.c:58-73 | an array of pointers with its NULL sentinel reads back as the strings |
| `ProcessArgs.VectorWords` | usermode/crt0.c:26-30 | the strings read through an array are those at its consecutive words, up to a zero word |
| `ProcessArgs.PushStrings` | kernel/kernel/task/task_args.c:40-53 | every string is in memory below the old stack pointer, its address is noted, and nothing else changes |
| `ProcessArgs.PushVector` | kernel/kernel/task/task_args.c:58-73 | the pointers stand in order below a NULL sentinel, and nothing else changes |
| `ProcessArgs.PushArgs` | usermode/crt0.c:26-30 | the count, the arguments and the environment stand at the new stack pointer in this order, each array with its sentinel, and are what the start-up code reads; the stack pointer is 4-aligned and as high as the sizes allow; only bytes between the new and the old stack pointer changed |
| `SignalFrames.MaskRoundTrip` | libc/include/signal.h:8-8 | the mask word of a set of signals gives the set back |
| `SignalFrames.MaskBit` | libc/include/signal.h:8-8 | bit x of the mask word is set exactly when signal x is in the set |
| `SignalFrames.PutFrameIs` | kernel/kernel/task/sighandler.c:110-137 | the frame holds return address, signal, registers, mask and trampoline, and no byte outside it changes |
| `SignalRuns.DispatchSelects` | kernel/kernel/task/sighandler.c:70-150 | the signal taken is the lowest that is pending and not blocked, and nothing happens exactly when there is none; it is dropped exactly when its action is 1, or 0 with one of the five defaults that ignore; it ends the process exactly when its action is 0 otherwise, or as signal 11 when there are less than 68 bytes of user stack; in every other case its handler is entered |
| `SignalRuns.EnteredBy` | kernel/kernel/task/sighandler.c:98-149 | entering a handler: the aligned frame next below the stack pointer holds the registers, the mask bit by bit and the return code; the handler runs with the old mask, its own mask, and its signal unless deferring is off blocked; only two registers change; the action is reset exactly when it asks for it, and then address 0 is entered |
| `SignalRuns.ResetHandlerLost` | kernel/kernel/task/sighandler.c:143-148 | a concrete task whose handler with SA_RESETHAND is not entered |
| `SignalRuns.FramesDisjoint` | kernel/kernel/task/sighandler.c:98-108 | live frames never overlap |
| `SignalRuns.ReturnRestores` | kernel/kernel/task/sighandler.c:152-185 | sigreturn restores every register and the blocked mask that the newest live frame saved |
| `SignalRuns.ReturnOkIff` | kernel/kernel/task/sighandler.c:158-168 | a return succeeds exactly when its 68 bytes lie in user space, or are the last of the 4 GiB, where the 32-bit sum of the check is 0; a failed one changes nothing |
| `SignalRuns.ReturnReads` | kernel/kernel/task/sighandler.c:170-184 | every register but the two segments comes from the words of the frame, and the mask from its last word bit by bit |
| `SignalRuns.RunKeeps` | kernel/kernel/task/sighandler.c:70-185 | over every run of user code, dispatches and returns, live frames are disjoint and intact, and the oldest ones are untouched while they are live |
| `SignalRuns.RunOneMore` | kernel/kernel/task/sighandler.c:70-185 | a run is its events one after the other |
| `SignalRuns.NestedRestores` | kernel/kernel/task/sighandler.c:70-185 | a delivery, then anything with further deliveries and returns nested inside, then the return: registers, mask and live frames are what they were before the delivery |
| `SignalRuns.NoReentry` | kernel/kernel/task/sighandler.c:139-142 | while a handler is live, over every run of user code, dispatches and returns, no dispatch takes a signal that its delivery blocked unless user code unblocks it: not its own signal, none of its mask, and none that was blocked before |
| `SignalTask.Task.WriteFrame` | kernel/kernel/task/sighandler.c:110-137 | the bytes written one after the other and the words written field by field are the frame |
| `SignalTask.Task.DispatchPending` | kernel/kernel/task/sighandler.c:70-150 | the code over the bytes of user memory and the saved registers takes the dispatch step, with its exits |
| `SignalTask.Task.Return` | kernel/kernel/task/sighandler.c:152-185 | the code reads the frame word by word and takes the return step, with its exit |
| `Calendar.FloorIs` | libc/src/time/_time.c:5-11 | floor_div and floor_mod are the floor quotient and remainder, for negative numbers too |
| `Calendar.MonthStep` | libc/src/time/mktime.c:5-14 | the closed day number advances by exactly the table length of each month, for every year, negative ones included |
| `Calendar.DayOrder` | libc/src/time/mktime.c:5-14 | later dates have larger day numbers |
| `Calendar.DateUnique` | libc/src/time/mktime.c:5-14 | a day number belongs to one valid date only |
| `Calendar.WeekdayIff` | libc/src/time/_time.c:23-27 | tm_wday is the weekday of the day number exactly when the year the formula works with is not negative, or is a leap year whose sum is not negative or is divisible by 7 |
| `Calendar.WeekdayWrong` | libc/src/time/_time.c:23-27 | the first of January of year 0 was a Saturday and comes out as a Sunday |
| `BrokenDownTime.CanonicalUnique` | libc/src/time/_time.c:29-72 | canonical fields are determined by the second they denote |
| `BrokenDownTime.YdayIs` | libc/src/time/_time.c:65-70 | the offset tables count the days since the first of January |
| `BrokenDownTime.Tm.Normalize` | libc/src/time/_time.c:29-72 | arbitrary fields become canonical and denote the same second; tm_yday is the day of the year; tm_wday is the weekday for years from 1 on |
| `BrokenDownTime.Tm.Gmtime` | libc/src/time/gmtime_r.c:5-31 | canonical fields that denote the given second, for every second |
| `BrokenDownTime.Tm.Mktime` | libc/src/time/mktime.c:16-33 | the second that the fields denote, and canonical fields for it |
| `BrokenDownTime.NormalizeTwice` | libc/src/time/_time.c:29-72 | normalising canonical fields changes none of them |
| `BrokenDownTime.MktimeOfGmtime` | libc/src/time/gmtime_r.c:12-26 | mktime undoes gmtime_r for every second |
| `BrokenDownTime.GmtimeOfMktime` | libc/src/time/mktime.c:16-33 | gmtime_r of mktime gives the fields that mktime has normalised |
| `LibTime.YearOfEraIs` | libtime/src/timestamp_to_datetime.c:20-22 | the closed formula finds the year of every day of a 400-year era |
| `LibTime.CivilIs` | libtime/src/timestamp_to_datetime.c:19-30 | the closed inverse yields a valid date with the given day number, for every day |
| `LibTime.DaysAgree` | libtime/src/days_since_epoch.c:4-15 | the library counts the same days as the C library, from 2001-01-01 |
| `LibTime.WeekdayIs` | libtime/src/weekday_from_days.c:4-8 | the two branches are one floor remainder and name the weekday that the C library names |
| `LibTime.TimestampRoundTripIff` | libtime/src/timestamp_to_datetime.c:5-31 | breaking a timestamp down and putting it together gives it back exactly for the days from 0000-03-01 to 65536-02-29 |
| `LibTime.TimestampLost` | libtime/src/timestamp_to_datetime.c:5-31 | a timestamp that is not given back |
| `LibTime.DateTimeRoundTrip` | libtime/src/datetime_to_timestamp.c:5-17 | every valid date-time of the years 1 to 65535 survives the trip through a timestamp |
| `LibTime.LibrariesAgree` | libtime/src/unix_to_timestamp.c:5-8 | both libraries give the same calendar fields for the same Unix second |
| `LibTime.Compare` | libc/src/time/gmtime_r.c:5-31 | gmtime_r and the kernel conversion side by side |
| `Qsort.SiftHeap` | libc/src/stdlib/qsort_r.c:16-44 | sifting mends the one bad node of a heap |
| `Qsort.SiftPermutes` | libc/src/stdlib/qsort_r.c:16-44 | sifting permutes |
| `Qsort.HeapMax` | libc/src/stdlib/qsort_r.c:63-67 | the root of a heap is largest |
| `Qsort.ExtractNext` | libc/src/stdlib/qsort_r.c:63-67 | moving the root behind the heap settles one more element |
| `Qsort.SiftDown` | libc/src/stdlib/qsort_r.c:16-44 | the loop computes the sift |
| `Qsort.Sort` | libc/src/stdlib/qsort_r.c:46-68 | the result is a permutation; it is sorted for every length but two, and for two exactly when it was sorted; up to two elements are left untouched |

## Left out

- PageAllocator.Allocator.Boot: takes the memory map as given, with regions that neither overlap nor adjoin and holes that are no order-0 buddy of an available page; the multiboot parsing and the placement of the metadata are not modelled.
- PageAllocator.Allocator.FreePage: callers never free a reserved page; the statistics per order are not modelled.
- PageAllocator.Allocator.IncRefcount: a page whose status bit is clear ends in a kernel abort and is excluded.
- PageAllocator.Allocator.DecRefcount: a page whose status bit is clear, or without references, ends in a kernel abort and is excluded.
- PmmMeta.BuddyReadExact: the packing of status and order maps into bits of words is not modelled; they are arrays.
- Paging.AddressSpaces.CloneDirectory: kernel entries of a directory are not modelled; when memory runs out in the middle the kernel aborts, and the model stops there with no claim about the half-made clone.
- Paging.AddressSpaces.CloneEntry: the kernel stops counting at 65535 references; the model stops one earlier, where the kernel would abort or saturate.
- CowConservation.UsedFollowsData: on the machine of single entries, whose used pages leave out directories and tables; SpaceFrames.KernelIsHeld accounts for those.
- CowConservation.CloneTeardownRestores: on the machine of single entries; SpaceRuns.CloneUseDestroy states it of the code, with directory and table frames.
- CowConservation.CloneUsedRestoredIff: on the machine of single entries, for a parent that maps no frame twice, which every state of the code satisfies; SpaceRuns.CloneUseDestroy states it of the code.
- SpaceRuns.CloneUseDestroy: no other part of the kernel allocates or frees pages in between, and neither space moves its heap end.
- Paging.AddressSpaces.SharePage: the kernel stops counting at 65535 references; the model refuses to share one earlier.
- Paging.AddressSpaces.MapFresh: mapping over a page that is already mapped is excluded; the heap never does it.
- CowRuns.RunRefines: contents only; write protection of pages that were read-only before a clone is not preserved by the code and not claimed. TLB flushes are not modelled.
- UserHeap.Allocator.Malloc: requests within 12 bytes of 4 GiB, where the size wraps, are excluded; alignment of payloads is not claimed.
- UserHeap.Allocator.Free: an address that is not a live allocation is excluded, as the C library demands.
- Vmm.Manager.Alloc: requests of 4 GiB and more, where the size wraps, are excluded; which physical pages are mapped and unmapped is not modelled, only how many are granted.
- Vmm.Manager.Free: as in the code, the region that holds the address is freed; that the pages unmapped are those of the region needs the address to be its start.
- PageAllocator.CalculateOrder: more than 2^31 pages, for which the loop of the code has no end in 32 bits, are excluded.
- Slab.Cache.Free: an address inside an object, off its start, is excluded; global statistics and the lookup of a size class are not modelled.
- PathResolve.SpliceIsStructural: in follow mode without missing entries; the no-follow and create modes are covered by Confined, OptionalAgrees and CreateThenResolve.
- PathRuns.GetcwdRoundTrip: the tree does not change and names have at most 255 characters; mount points and the allocation of path copies are not modelled.
- SignalRuns.Dispatch: a user stack pointer outside user space, where the 32-bit subtraction can wrap, is excluded.
- SignalRuns.ReturnOkIff: a frame that would wrap around the end of the address space, which the 32-bit check lets through as well, is refused in the model.
- SignalRuns.NestedRestores: user code leaves live frames intact and keeps its stack pointer at or below the newest frame until it returns.
- BrokenDownTime.Tm.Normalize: integers are unbounded; overflow of the int fields is not modelled.
- Qsort.Sort: elements are whole values and the comparison is a pure function; the byte-wise swap is not modelled.
- ProcessArgs.PushArgs: arguments that do not fit below the stack pointer are excluded, as the writer does not check.
- The scheduler, its run queues and context switches.
- ELF loading, the page cache and all filesystems behind the VFS callbacks.
- Drivers, terminal, debugger, multiboot parsing and all formatted output.
- getopt, memmem, string functions, ctype tables, the ring buffer and the dictionary: easy or incorrect in ways that leave no theorem worth stating.
- Floating-point formatting and ceil.
