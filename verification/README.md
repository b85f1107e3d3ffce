# Verified model of the OS/161 kernel core

This project models the parts of an OS/161 kernel (with demand paging and swap added) and
its compiler support library whose correctness is hardest to see, and proves what they
promise. `dafny verify dfyconfig.toml` checks the whole project.

**Demand-paged virtual memory.** `VmState` gives the coremap, page tables, swap file and TLB
as one value and each kernel operation as a function of it; `VmInvariant`, `VmSteps` and
`VmDestroy` prove the cross-structure invariant step by step; `VmRuns` runs whole machines and
proves that every process reads flat private memory; `VmHistory` follows what else whole runs
keep (lost frames, the TLB of a space that is gone, the victim's hand); `VmTheorems` says what
this means in every reachable state and exactly when a fault fails; `VmOutcomes` says which
events take place, what each fault and page request comes to, and that every access completes,
in terms of what has happened; `VmWitness` gives runs from boot for what can go wrong.
`VmKernel` is the same system as a class over arrays, with the kernel's own loops, proved to compute those functions.
`AddressSpace`, `Coremap` and `Bitmap` are its parts.

**64-bit arithmetic.** `Qdivrem` is Knuth's Algorithm D on digit arrays of any length, with the
digit argument for any base,
`Qdivrem64` the whole of `__qdivrem`, `LongLong` the signed division, remainder and
multiplication; `Digits` holds the place-value arithmetic.

**Kernel heap.** `HeapDescriptors` (descriptor bitmap), `HeapLists` (linked lists and free
lists), `HeapState` and `HeapRuns` (invariant and runs), `KernelHeap` (the code, in place),
`HeapWindows` (descriptors taken while the heap's lock is dropped), `HeapCallers` (the whole
heap with every such window open). `HeapHistory` says what such runs leave a client: its
pointers, its data, and which steps can come next. `HeapOverVm` puts the heap on the coremap
and runs both together.

**Threads and locking.** `ContextSwitch` (interrupt accounting on several processors),
`Migration` (run-queue migration, in place), `MigrationRuns` (its locked sections under
interference), `MigrationAlone` (the same sections with nothing between them), `Semaphore`,
`Hangman` (deadlock detection), `ThreadList`.

Operations are tied down from outside as well as step by step: a program's memory to its ELF
headers and stores (`VmRuns.PagingInvisible`), a thread's place, level and processor to the
log of events (`ContextSwitch.Whereabouts`), the waits-for graph to the operations that have
returned (`Hangman.RunsAreRecorded`), the semaphore's count to the calls that have returned
(`Semaphore.CountConserved`), a client's memory to its own stores (`HeapHistory.StoredIsFound`);
and for each it is stated exactly which steps can come next.

Conventions. A kernel panic or failed assertion ends the run: an operation's result is then
`None`, `Disabled` or an error outcome, and so it is for a search that never ends. Memory sizes,
TLB size, swap size and processor counts are symbolic. Machine words are natural numbers with
the wrap-around written out; halves and low bits are written with `/` and `%`, and left shifts
as repeated doubling. What hardware, the file system and, for the heap taken alone, the page
allocator return is a parameter.

Where the code and its comments differ the model follows the code. `cm_free` is inverted in
the coremap (1 means in use), so the model's field is `used`. `coremap_freeppages` leaves the
owner of a freed frame in place, and the model does too.

Some properties one would expect of the code hold only on a condition. Each is stated with
that condition, both ways, and with an input for which it fails:

- A region is well formed if and only if its end does not wrap
  (`AddressSpace.RegionWellFormed`; `WrappingRegionAccepted`).
- Table indices tell pages apart if and only if no page holds bytes of two segments, which
  nothing in the kernel checks (`AddressSpace.IndexSeparatesIff`; `SharedPageAccepted`).
- The pages of a large kernel allocation hold the request if and only if the rounding does not
  wrap (`HeapRuns.PagesHoldRequestIff`). Otherwise the coremap is asked for no pages.
- The frames in use are a tiling, and name the entries in memory, if and only if nobody asked
  for no pages (`VmHistory.TiledIffNoZeroRequest`, `VmTheorems.OwnersExactIff`; a run from
  boot: `HeapOverVm.LargestRequestLosesFrame`). The search for free frames ends if and only if
  it lands on no frame that such a request lost (`Coremap.ScanEndsIff`).
- Between two choices of a victim, a frame that stays eligible is chosen exactly once if and
  only if the hand does not pass that victim meanwhile (`Coremap.ChosenOnceIff`,
  `VmHistory.RoundRobinInRuns`; a run from boot: `VmWitness.ChosenTwiceInRun`).
- The assertion of `freepageref` on roots without a page holds if and only if no such root has
  all its descriptors taken by callers without a page (`HeapWindows.AssertionHoldsIff`;
  `AssertionCanFail`).
- The thread that a context switch comes to has a true interrupt account if and only if the
  thread that left held exactly the spinlocks thread_switch allows for
  (`ContextSwitch.LeaveBalancedIff`, `SwitchInOrderIff`; `YieldHoldingLock`).

`VmTheorems.FaultPanicsIff` says exactly when a page fault panics.

## Model

| member | source | states |
|---|---|---|
| `VmRuns.PagingInvisible` | os161-base-2.0.3/kern/vm/vm.c:142-265 | after any run from boot of faults, loads, stores, evictions, kernel page operations, space creation, switching, exit and destruction, every address of a program header or the stack of every process is in a segment, and its byte is the last value stored, else the byte of the file at the header's offset, else zero |
| `VmRuns.LoadsReadFlatMemory` | os161-base-2.0.3/kern/vm/vm.c:142-265 | every load that hits the TLB returns what the flat private memory of its process holds |
| `VmRuns.StepSound` | os161-base-2.0.3/kern/vm/vm.c:57-265 | every event keeps the invariant, and all but store and create keep every byte of every surviving process |
| `VmRuns.StoreByte` | os161-base-2.0.3/kern/vm/vm.c:259-265 | a store through the TLB changes the byte at its address and no byte of any other address or process |
| `VmRuns.CreatedByte` | os161-base-2.0.3/kern/vm/addrspace.c:142-222 | a new space reads as its program headers say: a header's file bytes are those of the file at its offset, everything else is zero |
| `VmRuns.RunSpaces` | os161-base-2.0.3/kern/vm/addrspace.c:48-101 | after any run from boot the spaces there are those created and not destroyed since, laid out as created |
| `VmRuns.HasIff` | os161-base-2.0.3/kern/vm/addrspace.c:142-222 | an address is in a segment exactly if it is in a program header of the space or in its stack |
| `VmRuns.BootInv` | os161-base-2.0.3/kern/vm/coremap.c:32-97 | the state after bootstrap satisfies the invariant |
| `VmTheorems.FrameNamesEntryIff` | os161-base-2.0.3/kern/vm/coremap.c:226-288 | in every reachable state the head of a run names a page-table entry exactly when that entry is in memory at that frame |
| `VmTheorems.OwnersExactIffTiled` | os161-base-2.0.3/kern/vm/coremap.c:226-288 | every frame in use does so if and only if the frames in use are a tiling |
| `VmTheorems.OwnersExactIff` | os161-base-2.0.3/kern/vm/coremap.c:226-288 | and so, after a run from boot, if and only if nobody asked for no pages in it |
| `VmTheorems.SlotTakenIff` | os161-base-2.0.3/kern/vm/swapfile.c:60-149 | in every reachable state a swap bit is set exactly when some entry is in that slot, and then only one is |
| `VmTheorems.TlbTrue` | os161-base-2.0.3/kern/vm/vm_tlb.c:14-87 | in every reachable state, from the activation of a space until it is destroyed, running or not, each valid TLB slot is a page of it at the frame its table says, writable exactly when it is not text; at any other time no valid slot holds a page of a process |
| `VmTheorems.TlbSlotsApart` | os161-base-2.0.3/kern/vm/vm_tlb.c:14-87 | in that time no two valid slots share a page or a frame |
| `VmTheorems.EvictionClearsTlb` | os161-base-2.0.3/kern/vm/coremap.c:190-214 | in every reachable state, after an eviction no valid TLB slot holds the frame |
| `VmHistory.StepStale` | os161-base-2.0.3/kern/vm/addrspace.c:104-128 | no step gives a page to a process in a frame that a TLB left over from a destroyed space still holds |
| `VmTheorems.DroppingTextLosesNothing` | os161-base-2.0.3/kern/vm/coremap.c:190-196 | text is never in swap, and loading a dropped text page again, whichever of its bytes faults, always succeeds and gives the bytes its frame held |
| `VmTheorems.OnceLoadedNeverShort` | os161-base-2.0.3/kern/vm/vm.c:209-232 | a text page once in memory can be loaded at any later time, with the same bytes, until its space is destroyed: a short file is never why a fault on it fails |
| `VmTheorems.OnePageFailsIff` | os161-base-2.0.3/kern/vm/coremap.c:173-259 | a one-page request fails exactly when no frame is free and the next victim is missing, or is not text while swap is full, or when the search for a free frame never ends; on a tiling it ends |
| `VmTheorems.FaultPanicsIff` | os161-base-2.0.3/kern/vm/vm.c:142-265 | a fault inside a segment panics, or never returns, exactly when its page is absent and no frame can be had, or the file is too short to load it from |
| `VmTheorems.SwapInWorks` | os161-base-2.0.3/kern/vm/swapfile.c:60-94 | the assertion that a swapped page's slot is in use never fails, even after an eviction to make room for it |
| `VmOutcomes.FaultOutcome` | os161-base-2.0.3/kern/vm/vm.c:142-265 | for every fault in every reachable state, exactly when each outcome comes about: handled if and only if a running process accesses its program and the page is in memory, or a frame can be had and the file holds what is to be loaded; killed, EINVAL, EFAULT and panic likewise |
| `VmOutcomes.ReadCompletes` | os161-base-2.0.3/kern/vm/vm.c:142-265 | every read inside the program completes with the byte of flat memory, at once or after one fault, if and only if its page is available |
| `VmOutcomes.WriteCompletes` | os161-base-2.0.3/kern/vm/vm.c:142-265 | every write outside the text completes likewise, and one to the text kills the process |
| `VmOutcomes.ManyPagesServedIff` | os161-base-2.0.3/kern/vm/coremap.c:226-259 | a request for two or more pages is served if and only if so many frames in a row are free (and the search ends); it gets the first such frames, zeroed, and nothing is evicted |
| `VmOutcomes.OnePageFrom` | os161-base-2.0.3/kern/vm/coremap.c:226-259 | one page comes zeroed, from the first free frame, and only if there is none from the next victim |
| `VmOutcomes.NoPagesServedIff` | os161-base-2.0.3/kern/vm/coremap.c:226-259 | a request for no pages is served if and only if the next victim holds a page that is text or for which swap has room |
| `VmOutcomes.EvictedTo` | os161-base-2.0.3/kern/vm/coremap.c:190-214 | an evicted page of text is dropped, and any other goes to the first clear swap slot |
| `VmOutcomes.FreedStillEligible` | os161-base-2.0.3/kern/vm/coremap.c:266-288 | the frames of a destroyed process are free but keep its name, so a search for a victim may stop at them |
| `VmOutcomes.ProcessEventsIff` | os161-base-2.0.3/kern/vm/addrspace.c:82-118 | a process can be activated exactly if it was created and not destroyed since, and destroyed exactly if besides it is not running |
| `VmOutcomes.CreateIff` | os161-base-2.0.3/kern/vm/addrspace.c:142-222 | a program can be created exactly if its number is free and it can be loaded |
| `VmOutcomes.KernelEventsIff` | os161-base-2.0.3/kern/vm/vm.c:91-106 | the kernel can free exactly the runs it heads, and write the frames in use that hold no page of a process |
| `VmOutcomes.WhoRuns` | os161-base-2.0.3/kern/vm/vm.c:142-265 | an activation changes whose memory is seen; an exit, a store to text and an access outside the program end it; nothing else does |
| `VmOutcomes.LatestStay` | os161-base-2.0.3/kern/vm/vm_tlb.c:36-72 | insertions fill the TLB in turn, so that the latest ones, as many as it has slots, are all there |
| `VmSteps.FaultSound` | os161-base-2.0.3/kern/vm/vm.c:142-265 | a handled fault keeps the invariant and all bytes, and leaves the faulting page mapped |
| `VmSteps.GetPagesSound` | os161-base-2.0.3/kern/vm/coremap.c:226-259 | getting any number of pages, none included, with an eviction if needed, changes no byte of any process and returns frames past the boot frames that belong to nobody else |
| `VmSteps.RequestZeroes` | os161-base-2.0.3/kern/vm/coremap.c:249-256 | the frames a request returns read as zeros |
| `VmHistory.TiledIffNoZeroRequest` | os161-base-2.0.3/kern/vm/coremap.c:226-259 | after any run from boot the frames in use are a tiling if and only if nobody asked for no pages |
| `VmHistory.StepLoses` | os161-base-2.0.3/kern/vm/coremap.c:249-256 | only a request for no pages loses a frame, it always loses one, and a lost frame stays lost |
| `VmHistory.HandsAreChoices` | os161-base-2.0.3/kern/vm/coremap.c:145-215 | the victims of any run are a history of choices, each the next eligible frame from the one before in the map of that moment |
| `VmHistory.StepHand` | os161-base-2.0.3/kern/vm/coremap.c:145-259 | the hand moves exactly when an event evicts, to the next victim |
| `VmHistory.RoundRobinInRuns` | os161-base-2.0.3/kern/vm/coremap.c:145-165 | between two successive choices of a frame in a run, a frame that stays eligible is chosen once for every turn of the hand, and exactly once if and only if the hand never passes the first |
| `VmSteps.SwapoutSound` | os161-base-2.0.3/kern/vm/coremap.c:173-215 | swapping out keeps all bytes and leaves a frame that no entry and no TLB slot refers to |
| `VmSteps.VictimIsEvictable` | os161-base-2.0.3/kern/vm/coremap.c:154-162 | when the search for one page finds none free, both assertions on the victim hold |
| `VmSteps.FaultLoadSound` | os161-base-2.0.3/kern/vm/vm.c:206-232 | a fault on a page not loaded makes it resident with its image's bytes and keeps the invariant |
| `VmSteps.FaultSwapInSound` | os161-base-2.0.3/kern/vm/vm.c:239-254 | a fault on a swapped page makes it resident with its own bytes, frees its slot and keeps the invariant |
| `VmSteps.TlbInsertSound` | os161-base-2.0.3/kern/vm/vm_tlb.c:36-72 | inserting the mapping of a resident page that misses keeps the TLB true to the page table |
| `VmInvariant.EvictSound` | os161-base-2.0.3/kern/vm/coremap.c:190-214 | evicting a frame keeps every page's bytes and every part of the invariant |
| `VmInvariant.TlbRemoveClears` | os161-base-2.0.3/kern/vm/vm_tlb.c:75-87 | removing only the first slot that holds a frame leaves no valid slot with it |
| `VmInvariant.TlbFramesDistinct` | os161-base-2.0.3/kern/vm/vm_tlb.c:36-87 | no two valid slots hold the same frame |
| `VmDestroy.DestroyGivesBack` | os161-base-2.0.3/kern/vm/pt.c:141-173 | destroying a space never fails an assertion and releases exactly its frames and its swap slots |
| `VmDestroy.DestroySound` | os161-base-2.0.3/kern/vm/addrspace.c:82-101 | destroying a space that is not running keeps the invariant and every other space's bytes |
| `VmKernel.Kernel.constructor` | os161-base-2.0.3/kern/vm/coremap.c:32-97 | the bootstrap loops leave the boot state |
| `VmKernel.InitMap` | os161-base-2.0.3/kern/vm/coremap.c:79-97 | the two bootstrap loops mark exactly the kernel's frames in use |
| `VmKernel.Kernel.FindFreeFrames` | os161-base-2.0.3/kern/vm/coremap.c:105-137 | the loop returns what the scan comes to, for any map and any number of pages, or never ends exactly when the scan does not |
| `VmKernel.Kernel.GetVictim` | os161-base-2.0.3/kern/vm/coremap.c:145-165 | the loop returns the first eligible frame going round from the last victim, or -1 and the old index after a full turn |
| `VmKernel.Kernel.TlbInvalidateAll` | os161-base-2.0.3/kern/vm/vm_tlb.c:14-34 | every slot becomes invalid and insertion starts again at slot 0 |
| `VmKernel.Kernel.Activate` | os161-base-2.0.3/kern/vm/addrspace.c:103-118 | activation makes the space current and leaves no valid TLB slot, as the event of the runs does |
| `VmKernel.Kernel.TlbInsertEntry` | os161-base-2.0.3/kern/vm/vm_tlb.c:36-72 | the slot whose turn it is takes the mapping |
| `VmKernel.Kernel.TlbRemoveByPaddr` | os161-base-2.0.3/kern/vm/vm_tlb.c:75-87 | the loop clears the first slot with that frame and no other |
| `VmKernel.Kernel.SwapOutFrame` | os161-base-2.0.3/kern/vm/swapfile.c:103-135 | the frame goes to the least clear slot, or the call fails when none is clear |
| `VmKernel.Kernel.SwapInFrame` | os161-base-2.0.3/kern/vm/swapfile.c:60-94 | the slot's bytes come to the frame and its bit is cleared; it fails exactly for a slot not in use |
| `VmKernel.Kernel.PtSetEntry` | os161-base-2.0.3/kern/vm/pt.c:178-190 | one table entry changes |
| `VmKernel.Kernel.EvictFrame` | os161-base-2.0.3/kern/vm/coremap.c:190-214 | text is dropped, other pages go to swap, and the TLB forgets the frame |
| `VmKernel.Kernel.Swapout` | os161-base-2.0.3/kern/vm/coremap.c:173-215 | chooses a victim, checks it and evicts it as the state function says |
| `VmKernel.Kernel.ClaimRun` | os161-base-2.0.3/kern/vm/coremap.c:249-256 | the loops zero the frames and record the run with its size at the head |
| `VmKernel.Kernel.GetPpages` | os161-base-2.0.3/kern/vm/coremap.c:225-259 | frames from the free ones, else from an eviction, else failure, as the state function says, whose outcomes are those of VmOutcomes.ManyPagesServedIff, OnePageFrom and NoPagesServedIff |
| `VmKernel.Kernel.FreePpages` | os161-base-2.0.3/kern/vm/coremap.c:266-288 | the loop frees exactly the frames of the run |
| `VmKernel.Kernel.LoadPage` | os161-base-2.0.3/kern/vm/vm.c:209-232 | the not-loaded case of a fault |
| `VmKernel.Kernel.SwapInPage` | os161-base-2.0.3/kern/vm/vm.c:239-254 | the in-swap case of a fault |
| `VmKernel.Kernel.VmFault` | os161-base-2.0.3/kern/vm/vm.c:142-265 | every outcome of vm_fault and the state it leaves, as the state function says, whose outcomes are those of VmOutcomes.FaultOutcome |
| `VmKernel.Kernel.AsDestroy` | os161-base-2.0.3/kern/vm/pt.c:141-173 | the loop over the table gives back exactly the space's frames and slots |
| `AddressSpace.RegionWellFormed` | os161-base-2.0.3/kern/vm/addrspace.c:142-183 | a defined region starts at the requested address, takes its file bytes from the requested offset, and is well formed (spans the requested bytes, with file bytes clamped to them) if and only if its end does not wrap |
| `AddressSpace.RegionAcceptedIff` | os161-base-2.0.3/kern/vm/addrspace.c:142-183 | a region is accepted if and only if it has a byte, starts in user space, and ends there or past the 32-bit range |
| `AddressSpace.BuiltFromHeaders` | os161-base-2.0.3/kern/vm/addrspace.c:142-222 | the segments of a space built from two headers hold exactly the addresses of the headers and the stack, each with the byte the header and file give it |
| `AddressSpace.BuiltLoadsIff` | os161-base-2.0.3/kern/vm/addrspace.c:317-386 | a page of such a space can be loaded if and only if the file holds the file bytes its header has on that page |
| `AddressSpace.WrappingRegionAccepted` | os161-base-2.0.3/kern/vm/addrspace.c:142-183 | a region of 0xffc00001 bytes at 0x400000 is accepted and ends at 1 |
| `AddressSpace.PageIndexBijection` | os161-base-2.0.3/kern/vm/pt.c:53-76 | for page-disjoint segments the page-table index is a bijection between the segments' pages and the table's entries |
| `AddressSpace.PtIndexIsPageIndex` | os161-base-2.0.3/kern/vm/pt.c:53-76 | pt_get_index of an address is the index of its page, in its own segment's part of the table |
| `AddressSpace.PtIndexOnto` | os161-base-2.0.3/kern/vm/addrspace.c:205-222 | as_define_pt sizes the table exactly: every entry is the index of some address |
| `AddressSpace.IndexSeparatesIff` | os161-base-2.0.3/kern/vm/pt.c:53-76 | the index gives two addresses one entry exactly when they are on one page, for all addresses, if and only if no page holds bytes of two segments |
| `AddressSpace.IndexSeparatesIffDisjoint` | os161-base-2.0.3/kern/vm/pt.c:53-76 | for segments that do not overlap, if and only if no two share a page |
| `AddressSpace.SharedPageAccepted` | os161-base-2.0.3/kern/vm/addrspace.c:142-222 | text at 0x400000 and data at 0x400100 are accepted, and their page has two entries |
| `AddressSpace.PtCreate` | os161-base-2.0.3/kern/vm/pt.c:84-104 | NULL if there is no room, else the loop fills a new table with entries not loaded |
| `AddressSpace.PlanInBounds` | os161-base-2.0.3/kern/vm/addrspace.c:317-386 | loading a page reads only the segment's file bytes and writes only inside the frame |
| `AddressSpace.PlanCoversFileBytes` | os161-base-2.0.3/kern/vm/addrspace.c:317-386 | the bytes copied for a page are exactly its file bytes, each to its own place |
| `AddressSpace.LoadedPageIsImage` | os161-base-2.0.3/kern/syscall/loadelf.c:77-181 | loading page by page into zeroed frames gives what eager loading with zero fill gives, whichever byte faults |
| `AddressSpace.LoadsIffInFile` | os161-base-2.0.3/kern/vm/addrspace.c:317-386 | loading a page succeeds if and only if the file holds all its file bytes, whichever byte faults |
| `Coremap.BootstrapTiled` | os161-base-2.0.3/kern/vm/coremap.c:79-97 | after bootstrap the coremap is a tiling of free frames and runs |
| `Coremap.FirstFree` | os161-base-2.0.3/kern/vm/coremap.c:105-137 | the result is a start of n free frames, n at least one, with none before it, and None means there is none |
| `Coremap.ScanEndsIff` | os161-base-2.0.3/kern/vm/coremap.c:105-137 | the scan ends if and only if it lands on no frame in use with size 0, and then with the result modelled |
| `Coremap.FindFreeIs` | os161-base-2.0.3/kern/vm/coremap.c:105-137 | over runs that do not overlap, a start it returns is the least one of n free frames, and -1 means there is none and no frame is lost; on a tiling it always ends |
| `Coremap.AllocTiled` | os161-base-2.0.3/kern/vm/coremap.c:249-256 | recording a run of free frames keeps the tiling |
| `Coremap.ReuseTiledIff` | os161-base-2.0.3/kern/vm/coremap.c:236-256 | recording a request of at most one page on a victim's frame keeps the tiling if and only if it is for one page |
| `Coremap.ReuseLaid` | os161-base-2.0.3/kern/vm/coremap.c:236-256 | recording a request for no pages there loses that frame and no other; the runs still do not overlap |
| `Coremap.ReleaseTiled` | os161-base-2.0.3/kern/vm/coremap.c:266-288 | freeing a run keeps the tiling |
| `Coremap.NoVictimIffNoneEligible` | os161-base-2.0.3/kern/vm/coremap.c:145-165 | there is no victim exactly when no frame is eligible |
| `Coremap.VictimNotBeyond` | os161-base-2.0.3/kern/vm/coremap.c:145-165 | the victim is the nearest eligible frame going round |
| `Coremap.RoundRobinAtLeastOnce` | os161-base-2.0.3/kern/vm/coremap.c:145-165 | between two choices of a frame, every other frame that stays eligible is chosen |
| `Coremap.RoundRobinCount` | os161-base-2.0.3/kern/vm/coremap.c:145-165 | between two successive choices of a frame, one that stays eligible is chosen once, and once more for every time the hand passes the first |
| `Coremap.ChosenOnceIff` | os161-base-2.0.3/kern/vm/coremap.c:145-165 | so exactly once if and only if the hand never passes it; the hand passes only frames that are not eligible then |
| `Coremap.ChosenTwice` | os161-base-2.0.3/kern/vm/coremap.c:145-165 | maps in which a frame, eligible throughout, is chosen twice between two successive choices of another, which is the kernel's meanwhile |
| `VmWitness.ChosenTwiceInRun` | os161-base-2.0.3/kern/vm/coremap.c:145-215 | on every machine with two frames besides the kernel's, a run from boot whose choices are 1, 2, 2, 1 with frame 2 eligible throughout |
| `Coremap.RoundRobinAtMostOnce` | os161-base-2.0.3/kern/vm/coremap.c:145-165 | while the hand neither chooses nor passes a frame, no frame at all is chosen twice |
| `Bitmap.BitArray.Create` | os161-base-2.0.3/kern/lib/bitmap.c:56-90 | NULL exactly if there is no room, else a map with all bits clear |
| `Bitmap.BitArray.constructor` | os161-base-2.0.3/kern/lib/bitmap.c:72-88 | all bits clear, and the bits past the end of the last word marked |
| `Bitmap.BitArray.Alloc` | os161-base-2.0.3/kern/lib/bitmap.c:98-122 | the least clear bit is taken; none is returned exactly when all are set |
| `Bitmap.ClearOffset` | os161-base-2.0.3/kern/lib/bitmap.c:108-118 | the mask loop finds the lowest clear bit of a word that is not all ones |
| `Bitmap.BitArray.Mark` | os161-base-2.0.3/kern/lib/bitmap.c:134-144 | that bit is set and no other changes |
| `Bitmap.BitArray.Unmark` | os161-base-2.0.3/kern/lib/bitmap.c:147-158 | that bit is cleared and no other changes |
| `Bitmap.BitArray.IsSet` | os161-base-2.0.3/kern/lib/bitmap.c:161-169 | reads the bit |
| `Bitmap.WriteBit` | os161-base-2.0.3/kern/lib/bitmap.c:124-158 | or with a bit's mask, or and with its complement, changes that bit of the array alone |
| `Qdivrem64.QdivremWithRemainder` | os161-base-2.0.3/common/gcc-millicode/qdivrem.c:67-263 | for all u and all v other than zero, u = q v + r with r < v; the trap happens exactly for v = 0 |
| `Qdivrem.DivideDigits` | os161-base-2.0.3/common/gcc-millicode/qdivrem.c:176-240 | steps D2 to D7 on digit arrays of any length leave the quotient's digits in q and the remainder in u |
| `Qdivrem.DivideStep` | os161-base-2.0.3/common/gcc-millicode/qdivrem.c:182-240 | one round replaces the window by its remainder and returns its quotient digit |
| `Qdivrem.TrialDigit` | os161-base-2.0.3/common/gcc-millicode/qdivrem.c:193-210 | the D3 loop yields the quotient of the top three digits by the top two, capped at B - 1 |
| `Qdivrem.TrialDigitNear` | os161-base-2.0.3/common/gcc-millicode/qdivrem.c:185-210 | in any base, that digit is the true quotient digit or one too large |
| `Qdivrem.EstimateDigit` | os161-base-2.0.3/common/gcc-millicode/qdivrem.c:185-210 | on the arrays, the trial digit times the divisor misses the window by less than one divisor either way |
| `Qdivrem.MultiplySubtract` | os161-base-2.0.3/common/gcc-millicode/qdivrem.c:217-230 | D4 subtracts the multiple modulo B to the n + 1, and the D5 test says exactly whether it wrapped |
| `Qdivrem.SubtractDigit` | os161-base-2.0.3/common/gcc-millicode/qdivrem.c:218-220 | the 32-bit digit step computes the exact digit and borrow |
| `Qdivrem.AddBack` | os161-base-2.0.3/common/gcc-millicode/qdivrem.c:231-238 | D6 adds the divisor back, losing only the carry out of the window |
| `Qdivrem.AddBackExact` | os161-base-2.0.3/common/gcc-millicode/qdivrem.c:224-238 | when the subtraction wrapped, one add-back gives the true remainder |
| `Qdivrem.NoAddBack` | os161-base-2.0.3/common/gcc-millicode/qdivrem.c:224-239 | when it did not, the digit was already the true one |
| `Qdivrem64.Shl` | os161-base-2.0.3/common/gcc-millicode/qdivrem.c:270-279 | each digit in place becomes the shifted one with the next digit's high bits |
| `Qdivrem64.ShiftedLeftValue` | os161-base-2.0.3/common/gcc-millicode/qdivrem.c:265-279 | if no bit leaves on the left, such a shift multiplies the number by the power of two |
| `Qdivrem64.NormalizingShift` | os161-base-2.0.3/common/gcc-millicode/qdivrem.c:169-171 | the D1 loop brings the leading divisor digit to at least B / 2, still one digit |
| `Qdivrem64.Prepare` | os161-base-2.0.3/common/gcc-millicode/qdivrem.c:157-175 | skipping leading zeros and normalising scales both numbers by the same power of two and leaves the top window below the divisor |
| `Qdivrem64.SkipDividend` | os161-base-2.0.3/common/gcc-millicode/qdivrem.c:157-158 | the loop stops before the dividend gets shorter than the divisor |
| `Qdivrem64.DivideScaled` | os161-base-2.0.3/common/gcc-millicode/qdivrem.c:176-240 | the loop leaves the quotient, and the remainder scaled, with zeros before it |
| `Qdivrem64.Unshift` | os161-base-2.0.3/common/gcc-millicode/qdivrem.c:248-254 | each remainder digit in place becomes the one shifted right |
| `Qdivrem64.Remainder` | os161-base-2.0.3/common/gcc-millicode/qdivrem.c:247-258 | shifting back gives the unscaled remainder |
| `Qdivrem64.DivideLong` | os161-base-2.0.3/common/gcc-millicode/qdivrem.c:152-263 | Program D with its normalisation divides any dividend by a divisor of two to four digits that is not larger |
| `Qdivrem64.DivideByDigit` | os161-base-2.0.3/common/gcc-millicode/qdivrem.c:136-148 | the unrolled division by one digit is exact |
| `Qdivrem64.ToDigits` | os161-base-2.0.3/common/gcc-millicode/qdivrem.c:112-122 | the digits have the number's value |
| `LongLong.Divdi3` | os161-base-2.0.3/common/gcc-millicode/divdi3.c:44-62 | truncating division modulo 2^64 for all signed arguments; division by zero traps |
| `LongLong.Moddi3` | os161-base-2.0.3/common/gcc-millicode/moddi3.c:45-62 | the remainder of truncating division for all signed arguments |
| `LongLong.TruncLaw` | os161-base-2.0.3/common/gcc-millicode/moddi3.c:45-62 | quotient and remainder satisfy the law of section 6.5.5 of ISO C99, the remainder having the dividend's sign |
| `LongLong.TruncUnique` | os161-base-2.0.3/common/gcc-millicode/divdi3.c:44-62 | no other quotient and remainder satisfy it |
| `LongLong.Muldi3` | os161-base-2.0.3/common/gcc-millicode/muldi3.c:99-164 | the product modulo 2^64 for all signed arguments |
| `LongLong.Lmulq` | os161-base-2.0.3/common/gcc-millicode/muldi3.c:183-241 | the exact double-width product |
| `LongLong.Assemble` | os161-base-2.0.3/common/gcc-millicode/muldi3.c:214-240 | the sums with their carry and borrow tests are right modulo 2^64 |
| `LongLong.ProductHigh` | os161-base-2.0.3/common/gcc-millicode/muldi3.c:140-156 | the high word is the three-product sum modulo 2^32 |
| `LongLong.Differences` | os161-base-2.0.3/common/gcc-millicode/muldi3.c:202-210 | the differences and the sign bit give the signed middle product |
| `HeapRuns.HeapSafety` | os161-base-2.0.3/kern/vm/kmalloc.c:873-1223 | after any run of allocations, frees and client stores, live pointers have the bytes asked for and share none; each page's free list is what its descriptor says; a block is free exactly when it is not live |
| `HeapRuns.RunsKeepInv` | os161-base-2.0.3/kern/vm/kmalloc.c:873-1223 | every state of every run satisfies the heap invariant |
| `HeapRuns.StepKeepsInv` | os161-base-2.0.3/kern/vm/kmalloc.c:873-1223 | every locked section, that of allocpagerefpage being taken as one with its caller's, and every client store keeps the heap invariant |
| `HeapRuns.LiveApart` | os161-base-2.0.3/kern/vm/kmalloc.c:1169-1206 | two live pointers never share a byte of their extents |
| `HeapRuns.LiveXorFree` | os161-base-2.0.3/kern/vm/kmalloc.c:914-953 | a block of a heap page is on its free list exactly when it is not live |
| `HeapRuns.PageKeptIff` | os161-base-2.0.3/kern/vm/kmalloc.c:1137-1151 | freeing a block keeps its page, its place on the lists and its descriptor if and only if another block of the page is live |
| `HeapRuns.StoreKeeps` | os161-base-2.0.3/kern/vm/kmalloc.c:142-144 | a client writing anywhere inside what it was given disturbs no free list |
| `HeapRuns.PagesHoldRequestIff` | os161-base-2.0.3/kern/vm/kmalloc.c:1186-1198 | the pages asked for hold the request if and only if the 32-bit rounding does not wrap; otherwise none are asked for |
| `HeapRuns.BootInv` | os161-base-2.0.3/kern/vm/kmalloc.c:191-213 | the zero-initialised heap satisfies the invariant |
| `HeapState.TakeKeeps` | os161-base-2.0.3/kern/vm/kmalloc.c:922-953 | taking a page's first free block gives a pointer that was not live and keeps the invariant |
| `HeapState.AddPageKeeps` | os161-base-2.0.3/kern/vm/kmalloc.c:989-1014 | threading and linking a fresh page keeps the invariant, that page being all free |
| `HeapState.AddRootKeeps` | os161-base-2.0.3/kern/vm/kmalloc.c:218-251 | giving a root its page of descriptors keeps the invariant |
| `HeapRuns.PushKeeps` | os161-base-2.0.3/kern/vm/kmalloc.c:1105-1138 | putting a freed block on its list keeps the invariant, the page being perhaps all free |
| `HeapRuns.DropKeeps` | os161-base-2.0.3/kern/vm/kmalloc.c:1141-1147 | giving back a page that is all free keeps the invariant and loses no live block |
| `KernelHeap.Kheap.constructor` | os161-base-2.0.3/kern/vm/kmalloc.c:345-346 | the heap starts empty |
| `KernelHeap.Kheap.DoAlloc` | os161-base-2.0.3/kern/vm/kmalloc.c:922-953 | pops the head of the page's free list |
| `KernelHeap.Kheap.SetUpPage` | os161-base-2.0.3/kern/vm/kmalloc.c:980-1014 | takes a descriptor, threads the page and links it; fails, changing nothing, only when all 4096 descriptors are in use |
| `KernelHeap.Kheap.SubpageKmalloc` | os161-base-2.0.3/kern/vm/kmalloc.c:873-1018 | a pointer that was not live, from the first page of the smallest fitting type with a free block, or from a fresh page exactly when no such page has one; the invariant is kept; NULL only when, besides, every descriptor is in use |
| `KernelHeap.Kheap.SubpageKfree` | os161-base-2.0.3/kern/vm/kmalloc.c:1024-1160 | frees a live block, and answers -1, changing nothing, exactly for a pointer to whole pages; its position check never panics on a live pointer |
| `KernelHeap.Kheap.RemoveLists` | os161-base-2.0.3/kern/vm/kmalloc.c:822-845 | the descriptor leaves both its lists and the order of the others stays |
| `KernelHeap.Kheap.ReturnPage` | os161-base-2.0.3/kern/vm/kmalloc.c:1141-1147 | lists, descriptor bit and page are all given back |
| `KernelHeap.Kheap.Kmalloc` | os161-base-2.0.3/kern/vm/kmalloc.c:1169-1206 | a new live pointer of the requested size and nothing else live changes, unless the rounding wraps; NULL only for a small request when no page of the smallest fitting type has a free block and every descriptor is in use |
| `KernelHeap.Kheap.Kfree` | os161-base-2.0.3/kern/vm/kmalloc.c:1211-1223 | NULL does nothing; every live pointer goes back to the allocator it came from and is live no more, all others staying live; the invariant is kept |
| `HeapWindows.StepKeepsInv` | os161-base-2.0.3/kern/vm/kmalloc.c:218-337 | with the lock dropped inside allocpagerefpage: marked descriptors are those waited for, handed out or lost; those handed out have a page; a root is used only when those before it are full, and one without a page stays full |
| `HeapWindows.AssertionHoldsIff` | os161-base-2.0.3/kern/vm/kmalloc.c:304-337 | in every interleaving, freeing a descriptor fails no assertion on a root without a page if and only if no earlier root has all its descriptors taken by callers that wait for its page or got none |
| `HeapWindows.FewWaitersNoFailure` | os161-base-2.0.3/kern/vm/kmalloc.c:304-337 | so none fails while fewer than 256 callers wait or got none |
| `HeapWindows.AssertionCanFail` | os161-base-2.0.3/kern/vm/kmalloc.c:304-337 | a run of 257 callers after which freeing a descriptor fails the assertion |
| `HeapCallers.StepKeepsInv` | os161-base-2.0.3/kern/vm/kmalloc.c:215-337 | with any number of callers, each locked section (those before and after allocpagerefpage drops the lock included), each page call between them and each client store keeps the heap invariant and the account of marked descriptors, and no page is lost between heap and callers |
| `HeapCallers.RunsKeepInv` | os161-base-2.0.3/kern/vm/kmalloc.c:873-1223 | every state of every such interleaving satisfies that |
| `HeapCallers.HeapSafety` | os161-base-2.0.3/kern/vm/kmalloc.c:873-1223 | in every such interleaving live pointers have the bytes asked for and share none, a block is free exactly when it is not live, and no page a caller holds is the heap's |
| `HeapCallers.DropAssertsIff` | os161-base-2.0.3/kern/vm/kmalloc.c:304-337 | there, giving back the page of a descriptor in use fails no assertion of freepageref if and only if no earlier root is taken up by callers without its page |
| `HeapHistory.StoredIsFound` | os161-base-2.0.3/kern/vm/kmalloc.c:873-1223 | in every interleaving what a client stores in memory it was given is there, and the memory its own, until it stores there again or frees it |
| `HeapHistory.StepKeepsData` | os161-base-2.0.3/kern/vm/kmalloc.c:873-1223 | no step of any caller changes a word, or the size, of another's live allocation |
| `HeapHistory.StepLive` | os161-base-2.0.3/kern/vm/kmalloc.c:1169-1223 | an allocation adds one pointer that was not live, for the size asked for; a free takes away the one freed; nothing else changes what is live |
| `HeapHistory.HappensIff` | os161-base-2.0.3/kern/vm/kmalloc.c:215-1223 | each step can take place exactly when a caller could tell: a block if one of the page is not live, a descriptor if it is the lowest unmarked, a free if the pointer is live and its page stays or no earlier root is swamped |
| `HeapHistory.FreedComesBack` | os161-base-2.0.3/kern/vm/kmalloc.c:922-1138 | a block just freed is the next its page gives, and taking it undoes the free but for the block's words |
| `HeapHistory.FreedIsFilled` | os161-base-2.0.3/kern/vm/kmalloc.c:1105-1138 | the first word of a freed block leads to the head of the old list, or nowhere, and the others are 0xdeadbeef |
| `HeapHistory.StepLists` | os161-base-2.0.3/kern/vm/kmalloc.c:822-1014 | a new page heads the list of all pages and that of its size, a page given back leaves both, and the others stay in order |
| `HeapOverVm.JointRunsKeepInv` | os161-base-2.0.3/kern/vm/vm.c:91-106 | over every run of heap sections, page calls, faults, evictions and other page requests, each a step of its own, both invariants hold, every page of the heap and of its callers is a run of the coremap, and the virtual memory system is in a state it reaches by itself |
| `HeapOverVm.HeapStepKeeps` | os161-base-2.0.3/kern/vm/kmalloc.c:873-1223 | what a page call gets from the coremap is what the heap assumes of it, no free fails an assertion of the coremap, and the locked sections leave the coupling as it is |
| `HeapOverVm.HeapStepIff` | os161-base-2.0.3/kern/vm/vm.c:91-106 | a page call returns exactly when the coremap serves it, a caller can always give back a page it holds, and a locked section takes place exactly when HeapHistory says it can |
| `HeapOverVm.FreshPagesAreNew` | os161-base-2.0.3/kern/vm/vm.c:91-98 | the pages alloc_kpages returns lie apart from all that the heap and its callers have |
| `HeapOverVm.VmKeepsRun` | os161-base-2.0.3/kern/vm/coremap.c:226-288 | nothing the virtual memory system does touches a run of the kernel but its own free |
| `HeapOverVm.JointHeapSafety` | os161-base-2.0.3/kern/vm/kmalloc.c:1169-1223 | after such a run live pointers have the bytes asked for and share none |
| `HeapOverVm.HeapApartFromProcesses` | os161-base-2.0.3/kern/vm/vm.c:91-106 | no byte of the heap, or of a page a caller holds, is in a frame that holds a page of a process |
| `HeapOverVm.WrappedRequestLosesFrame` | os161-base-2.0.3/kern/vm/kmalloc.c:1186-1198 | if the request for no pages that the last 4095 sizes lead to is served, the coremap is a tiling no more, and with memory full no later search for frames ends |
| `HeapOverVm.ZeroRequestEvicts` | os161-base-2.0.3/kern/vm/coremap.c:226-259 | where one page would come from an eviction, so is a request for no pages served |
| `HeapOverVm.LargestRequestLosesFrame` | os161-base-2.0.3/kern/vm/kmalloc.c:1186-1198 | on every machine with one frame besides the kernel's, a run from boot that ends with the request for 0xffffffff bytes: the coremap is a tiling no more and no page request after it ends |
| `HeapDescriptors.AllocPageref` | os161-base-2.0.3/kern/vm/kmalloc.c:257-298 | takes the lowest descriptor not in use; NULL exactly when all are in use |
| `HeapDescriptors.FreePageref` | os161-base-2.0.3/kern/vm/kmalloc.c:304-337 | finds the descriptor's root by address and clears its bit alone |
| `HeapDescriptors.FindClear` | os161-base-2.0.3/kern/vm/kmalloc.c:274-293 | the word and bit loops find a root's lowest clear bit |
| `HeapDescriptors.ReserveTakesOne` | os161-base-2.0.3/kern/vm/kmalloc.c:280-290 | taking a descriptor keeps each root's count equal to its set bits and changes one bit |
| `HeapDescriptors.UnreserveGivesOne` | os161-base-2.0.3/kern/vm/kmalloc.c:322-332 | giving one back does too, and its root has a page and a positive count |
| `HeapLists.Blocktype` | os161-base-2.0.3/kern/vm/kmalloc.c:851-867 | the smallest block type that holds the request |
| `HeapLists.Unlink` | os161-base-2.0.3/kern/vm/kmalloc.c:829-844 | the loop takes the descriptor out of the chain, keeps the others in order and changes nothing else |
| `HeapLists.FirstWithFree` | os161-base-2.0.3/kern/vm/kmalloc.c:914-920 | the first page on a size list with a free block |
| `HeapLists.FirstHolding` | os161-base-2.0.3/kern/vm/kmalloc.c:1072-1090 | the heap page that holds a pointer, or none |
| `HeapLists.ThreadPage` | os161-base-2.0.3/kern/vm/kmalloc.c:998-1007 | the loop threads a fresh page, each block to the one below |
| `HeapLists.FreshChain` | os161-base-2.0.3/kern/vm/kmalloc.c:989-1008 | the free list of a fresh page holds all its blocks, the last one first |
| `HeapLists.ChainPop` | os161-base-2.0.3/kern/vm/kmalloc.c:924-943 | removing the head leaves a well-formed list whose offset the head's first word gives |
| `HeapLists.ChainPush` | os161-base-2.0.3/kern/vm/kmalloc.c:1116-1138 | linking a block that is not free in front leaves a well-formed list |
| `HeapLists.FullIffAll` | os161-base-2.0.3/kern/vm/kmalloc.c:1140-1142 | a free list is as long as the page has blocks exactly when every block is on it |
| `ContextSwitch.InterruptAccounting` | os161-base-2.0.3/kern/thread/thread.c:497-769 | in every reachable state: a current thread's count is its processor's spinlocks plus its level; interrupts are on exactly at count zero or in the idle instruction; a thread on no processor has its level high and counts two; no thread is current on two processors |
| `ContextSwitch.RunsKeepInv` | os161-base-2.0.3/kern/thread/thread.c:497-769 | every interleaving of processors keeps the account and has each thread current on at most one processor or on none; where each thread is, by its history, is ContextSwitch.Whereabouts |
| `ContextSwitch.StepKeepsInv` | os161-base-2.0.3/kern/thread/thread.c:452-769 | every step does: spl and spinlock calls, interrupts, switches, idling, fork, wakeup, migration, reaping |
| `ContextSwitch.Whereabouts` | os161-base-2.0.3/kern/thread/thread.c:452-769 | after every schedule each thread is where the log of events says (queued after a yield or a wakeup, asleep after a sleep, a zombie after its exit, current after a switch to it), on the processor the log says, at the level it last set or was left with; each processor is in the phase its own events say, with the spinlocks they took; and all that happened was allowed by the log before it |
| `ContextSwitch.NextSteps` | os161-base-2.0.3/kern/thread/thread.c:452-769 | and a processor can take exactly the steps that the log allows, among them a switch to any thread that the log says is ready there |
| `ContextSwitch.PickStep` | os161-base-2.0.3/kern/thread/thread.c:644-666 | switching to a queued thread hands over the run queue lock with both threads' accounts intact |
| `ContextSwitch.LeaveBalancedIff` | os161-base-2.0.3/kern/thread/thread.c:572-625 | the thread switched to, whose own count is two, has a count that is its processor's spinlocks plus its level, both on arrival and after it has let go of the run queue lock and restored its level, if and only if the thread that left held the spinlocks thread_switch allows for |
| `ContextSwitch.SwitchInOrderIff` | os161-base-2.0.3/kern/thread/thread.c:572-666 | from any state in order, a switch to a queued thread leaves the processor in order if and only if its caller held those spinlocks |
| `ContextSwitch.YieldHoldingLock` | os161-base-2.0.3/kern/thread/thread.c:572-625 | after a yield with one spinlock held the next thread counts two with two spinlocks on its processor, and comes out with interrupts on and a spinlock still counted |
| `ContextSwitch.PrimitivesKeepAccount` | os161-base-2.0.3/kern/thread/spl.c:86-160 | splx and the spinlock calls keep the account, and raising then restoring, or acquiring then releasing, changes nothing |
| `ContextSwitch.ReleasesCommute` | os161-base-2.0.3/kern/thread/spl.c:60-85 | spinlock releases and spl changes may come in either order |
| `ContextSwitch.EmptyYieldIsNothing` | os161-base-2.0.3/kern/thread/thread.c:589-597 | a yield with an empty run queue changes nothing |
| `ContextSwitch.ForkKeeps` | os161-base-2.0.3/kern/thread/thread.c:497-550 | a new thread enters the run queue with exactly the account a switched-away thread has, so switching to it works alike |
| `Migration.Processors.ConsiderMigration` | os161-base-2.0.3/kern/thread/thread.c:853-956 | undisturbed, no thread is lost or doubled, t_cpu names each thread's queue, the own queue keeps its first threads, as many as the ceiling of the average (plus the current thread if it was beyond it); the others, in order, go to the ends of the other queues in the order of the processors, none pushed above that ceiling and none filled before those ahead of it are full |
| `Migration.Processors.SendAway` | os161-base-2.0.3/kern/thread/thread.c:879-955 | the same for the part that moves threads |
| `Migration.Processors.CountQueues` | os161-base-2.0.3/kern/thread/thread.c:862-872 | the loop counts the own and all queues |
| `Migration.Processors.TakeVictims` | os161-base-2.0.3/kern/thread/thread.c:879-886 | the victims are the end of the own queue, in order |
| `Migration.Processors.FillQueue` | os161-base-2.0.3/kern/thread/thread.c:893-938 | a queue is filled from the list's head, in order, until it has its share or the list is looked through; the current thread is passed over and goes to the end of the list |
| `Migration.Processors.Distribute` | os161-base-2.0.3/kern/thread/thread.c:888-939 | all but the current thread are handed out, in order, and only it can be left over |
| `Migration.Processors.PutBack` | os161-base-2.0.3/kern/thread/thread.c:941-952 | leftovers go back to the end of the own queue |
| `Migration.StopsOnce` | os161-base-2.0.3/kern/thread/thread.c:893-938 | where a fill stops is determined by the queue's length, the share and the list |
| `MigrationRuns.RunsKeepInv` | os161-base-2.0.3/kern/thread/thread.c:853-956 | under any interleaving of migrations, wakeups and dispatches no thread is on two queues or lists and each names its queue's processor |
| `MigrationRuns.QuietStart` | os161-base-2.0.3/kern/thread/thread.c:452-484 | with no migration under way it is enough that each thread is queued once, on the processor it names |
| `MigrationRuns.StepKeepsInv` | os161-base-2.0.3/kern/thread/thread.c:853-956 | each locked section of migration keeps that, and keeps every thread on some queue or victim list |
| `MigrationRuns.DecideKeeps` | os161-base-2.0.3/kern/thread/thread.c:874-886 | whatever happened since the count, the own queue still has the threads to take |
| `MigrationRuns.QueueGrowth` | os161-base-2.0.3/kern/thread/thread.c:853-956 | under interference a queue grows only by a fill, never above the filler's share, by a wakeup, by one, or by its own processor putting back its leftovers |
| `MigrationAlone.AloneBalances` | os161-base-2.0.3/kern/thread/thread.c:853-956 | from every state in order a processor's locked sections can run one after the other to the end, and they leave the queues as ConsiderMigration does |
| `MigrationAlone.FillDetermined` | os161-base-2.0.3/kern/thread/thread.c:893-938 | under interference too, what a fill does is determined by the state |
| `MigrationAlone.MigrationsConserve` | os161-base-2.0.3/kern/thread/thread.c:853-956 | any interleaving of migrations keeps exactly the threads there were |
| `MigrationAlone.WakeQueues` | os161-base-2.0.3/kern/thread/thread.c:452-484 | a wakeup puts the thread at the end of the queue of the processor it names, once |
| `MigrationAlone.NextTakesHead` | os161-base-2.0.3/kern/thread/thread.c:644-666 | the next thread to run is the one at the head of the queue, and only it leaves the queues |
| `MigrationAlone.QueueDiscipline` | os161-base-2.0.3/kern/thread/thread.c:853-956 | threads join a queue at its end, and leave it at its head to run or from its end to migrate |
| `MigrationAlone.NamesNewQueue` | os161-base-2.0.3/kern/thread/thread.c:905-930 | t_cpu of a thread changes only as it moves from a victim list to another processor's queue, and then names that |
| `Hangman.Detector.Check` | os161-base-2.0.3/kern/thread/hangman.c:50-105 | on an acyclic graph the walk ends and finds the actor exactly when a path leads to it |
| `Hangman.Detector.Wait` | os161-base-2.0.3/kern/thread/hangman.c:109-129 | deadlock is reported exactly when the new wait would close a cycle; otherwise the actor waits for the lockable and all else is as before; the graph stays acyclic |
| `Hangman.Detector.Acquire` | os161-base-2.0.3/kern/thread/hangman.c:131-157 | exactly when the actor waits for the free lockable it comes to hold it and to wait for nothing, all else as before; the graph stays acyclic |
| `Hangman.Detector.Release` | os161-base-2.0.3/kern/thread/hangman.c:159-182 | exactly when the actor, not waiting, holds the lockable nobody holds it any more, all else as before; the graph stays acyclic |
| `Hangman.WaitClosesCycleIff` | os161-base-2.0.3/kern/thread/hangman.c:50-129 | adding a wait keeps the graph acyclic if and only if no path leads from the lockable back to the actor |
| `Hangman.AcquireKeepsAcyclic` | os161-base-2.0.3/kern/thread/hangman.c:131-157 | turning a wait into a hold closes no cycle |
| `Hangman.RunsStayAcyclic` | os161-base-2.0.3/kern/thread/hangman.c:50-182 | over every run of wait, acquire and release the graph is acyclic |
| `Hangman.RunsAreRecorded` | os161-base-2.0.3/kern/thread/hangman.c:50-182 | over every run from the start the graph holds exactly what has happened: who acquired and has not released, who began to wait and has not acquired; and the next operation returns if and only if that history allows it, a wait exactly if no chain of hold-ups in it leads back to the actor |
| `Semaphore.NeverLosesWakeup` | os161-base-2.0.3/kern/thread/synch.c:88-135 | in every interleaving, while any thread sleeps the count is at most the woken threads yet to recheck, plus one for a V between its increment and its wakeup |
| `Semaphore.InitialInv` | os161-base-2.0.3/kern/thread/synch.c:47-74 | a new semaphore with its threads idle satisfies the invariant |
| `Semaphore.StepKeepsInv` | os161-base-2.0.3/kern/thread/thread.c:1005-1048 | every step keeps that, mutual exclusion by the spinlock, and each sleeper once on the channel |
| `Semaphore.CountConserved` | os161-base-2.0.3/kern/thread/synch.c:88-135 | in every interleaving the initial count plus the calls of V that have returned (plus one if a V has counted but not returned) equals the count plus the calls of P that have returned |
| `Semaphore.WokenInOrder` | os161-base-2.0.3/kern/thread/thread.c:1005-1048 | in every interleaving threads are woken in the order in which they went to sleep, each once |
| `Semaphore.OthersStay` | os161-base-2.0.3/kern/thread/synch.c:88-135 | a step of one thread changes no other, but that a V wakes the longest sleeper |
| `Semaphore.StuckIff` | os161-base-2.0.3/kern/thread/synch.c:88-135 | a thread cannot step exactly when it sleeps, spins on a lock that is held, or its V would wrap the count |
| `Semaphore.SleeperHasRunner` | os161-base-2.0.3/kern/thread/synch.c:88-135 | with the count positive and no V half done, a sleeper implies a woken thread under way |
| `ThreadList.List.constructor` | os161-base-2.0.3/kern/thread/threadlist.c:60-72 | an empty list between two sentinels |
| `ThreadList.List.InsertAfterNode` | os161-base-2.0.3/kern/thread/threadlist.c:105-122 | the node is linked in both directions at that place, all else unchanged |
| `ThreadList.List.InsertBeforeNode` | os161-base-2.0.3/kern/thread/threadlist.c:125-142 | the same before a node |
| `ThreadList.List.RemoveNode` | os161-base-2.0.3/kern/thread/threadlist.c:145-160 | the node is unlinked, its pointers cleared, the rest in order |
| `ThreadList.List.AddHead` | os161-base-2.0.3/kern/thread/threadlist.c:162-169 | the thread becomes the first |
| `ThreadList.List.AddTail` | os161-base-2.0.3/kern/thread/threadlist.c:172-179 | the thread becomes the last |
| `ThreadList.List.RemHead` | os161-base-2.0.3/kern/thread/threadlist.c:182-197 | the first thread leaves the list; null exactly when it is empty |
| `ThreadList.List.RemTail` | os161-base-2.0.3/kern/thread/threadlist.c:200-215 | the last thread leaves the list; null exactly when it is empty |
| `ThreadList.List.IsEmpty` | os161-base-2.0.3/kern/thread/threadlist.c:91-95 | true exactly when no thread is on the list |
| `ThreadList.List.InsertAfter` | os161-base-2.0.3/kern/thread/threadlist.c:218-224 | the thread goes right after the given one |
| `ThreadList.List.InsertBefore` | os161-base-2.0.3/kern/thread/threadlist.c:226-232 | the thread goes right before the given one |
| `ThreadList.List.Remove` | os161-base-2.0.3/kern/thread/threadlist.c:234-240 | that thread leaves the list, the rest in order |
| `ThreadList.InsertRemove` | os161-base-2.0.3/kern/thread/threadlist.c:105-160 | removing what was inserted gives the list back, and so does inserting what was removed |

## Left out

- VmRuns.PagingInvisible: vm_fault, with the swap write inside it, is one atomic step; the window in which coremap_swapout drops its lock while the victim is still mapped is not interleaved. It is for one processor's TLB, programs whose segments share no page and do not wrap (the exact conditions are lemmas of AddressSpace), and kernel frees of runs the kernel owns.
- VmKernel.Kernel.AsDestroy: the loop works on the table as a sequence; pt_destroy and the freeing of the segments are not modelled.
- HeapRuns.StepKeepsInv: the window in which allocpagerefpage drops the heap's lock is part of one step, and a page call is one with the section it belongs to; HeapCallers makes each a step of its own.
- HeapDescriptors.AllocPageref: one call with no interference; the lock it drops while a root's page is got is in HeapWindows and HeapCallers.
- HeapOverVm.JointRunsKeepInv: the words of the heap's pages and the bytes of their frames are two pictures of one memory; that writes to one show in the other is not stated.
- KernelHeap.Kheap.Kmalloc: the invariant is promised only when the page rounding does not wrap, and the page allocator is a parameter that returns pages not in use, which HeapOverVm proves of the coremap; guard bands, labels and consistency checks are off, as in the default build.
- HeapDescriptors.FindClear: a bitmap word is the sequence of its 32 bits, so the mask shifts of the search are steps of an index.
- Migration.Processors.ConsiderMigration: the balance of queue lengths is stated without interference; what survives interference is in MigrationRuns and MigrationAlone.
- HeapHistory.StoredIsFound: memory is one cell for each address stored at; stores that overlap because they are not aligned are not modelled.
- ContextSwitch.StepKeepsInv: an interrupt handler may raise the level, which is high already, but not lower it below that, which the assertions at its return forbid; spinlocks are counted, not identified, so mutual exclusion by a particular spinlock is not stated there; the thread picked is any thread on the queue, and the hardware's switch and idle instructions are atomic steps.
- Qdivrem.DivideDigits: the digit base of the arrays is 2^16 as in the code, with its 32-bit intermediates; the digit counts are arbitrary, and the arithmetic of the digits (TrialDigitNear and the lemmas beside it) is for any base.
- Semaphore.NeverLosesWakeup: a V that would wrap the count ends the run, as its assertion does; fairness of the scheduler is not modelled.
- Sleep locks and condition variables have empty bodies in this kernel.
- Device drivers, the file system layer, the console, the menu and the system calls other than process exit: plumbing around the modelled core.
- String functions, dynamic arrays, time arithmetic, paging statistics and the simple 64-bit helpers (add, subtract, shift, compare): each does one short thing that its body says.
- TLB shootdown, copyin/copyout recovery and panics: a panic is the end of the run.
- Address-space copying (fork), which this kernel refuses.
