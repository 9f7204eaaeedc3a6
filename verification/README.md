# A verified model of the pine kernel's core

This project models the parts of the kernel that carry the most state and arithmetic, and
proves what they promise over all inputs and all runs:

* the page allocator stack: power-of-two arithmetic on 32-bit words, page regions, the
  buddy allocator `PageAllocatorBackend` with one free list per depth, and the memory
  management unit's `PageAllocator`, which takes regions from a physical and a virtual
  backend and writes the two-level translation table;
* the first-fit byte allocator `IntrusiveFreeList`, with headers in front of its blocks,
  over the hand-linked `ManualLinkedList`, and the binder that falls back to another
  allocator;
* `kmalloc` end to end: the byte allocator with the page allocator stack behind it;
* the scheduler, its waitables, the timer and the interrupt-driven serial port, first
  one by one and then together as a step system with interrupts between all steps;
* printing of numbers and formats into bounded buffers.

Code that works in place is a class or a method with loops here, too, and is proved equal
to a function on values; what the kernel promises is then proved about that function, and
about every run of such functions.

| file | models |
|---|---|
| `TwoMath.dfy` | `pine/twomath.hpp`, with `&` and `~` bit by bit |
| `Regions.dfy` | `pine/page.hpp`; coverage of pages by lists of regions |
| `Algorithm.dfy` | `find_if` of `pine/algorithm.hpp`, and an insertion |
| `PageBackend.dfy`, `PageLedger.dfy` | the buddy allocator on values, its calls and its runs |
| `AlignedBlocks.dfy`, `PageLists.dfy` | blocks around regions, and the exact lists after a call |
| `PageAllocatorInPlace.dfy` | the buddy allocator in place |
| `PageTable.dfy` | entries, the two-level table and the recording of regions |
| `Mmu.dfy`, `MmuRuns.dfy` | the MMU's allocator on values and over runs from boot |
| `MmuEndings.dfy`, `MmuInputs.dfy` | how each of its requests ends, exactly, and inputs that go wrong |
| `MmuInit.dfy` | the four requests that `init_page_tables` ends with |
| `MmuInPlace.dfy` | the same in place, with its nested recording loops |
| `LinkedList.dfy` | `ManualLinkedList`, `PtrIter`, and `lower_bound` over them, on the heap |
| `FreeList.dfy`, `FreeListRuns.dfy`, `FreeListInPlace.dfy` | the byte allocator on values, over runs, and in place |
| `Binder.dfy` | size functions and the binder |
| `KernelHeap.dfy` | `kmalloc` and `kfree` over the page allocator stack |
| `Tasks.dfy` | tasks, waitables and `TaskManager` |
| `Uart.dfy` | the serial port's registers and requests |
| `Kernel.dfy` | scheduler, timer and serial port as one step system |
| `Buffers.dfy`, `CString.dfy`, `Print.dfy` | numbers as text, C strings, formatted printing |

What the model takes as given: the 32-bit ARM build (header nodes of 16 bytes, alignment 8,
21 depths, pages of 4 KiB); regions added to the page allocators are naturally aligned
powers of two, as in `init_page_tables`; the node allocators and the pool of second-level
tables are bounded pools that give a slot or fail; what hardware and callers decide (which
characters arrive, how much room the transmit queue has, what the fallback allocator
answers, which system call comes next) is a parameter.

Results that a reader of the code would not expect, each with its exact condition:

* recording an unaligned region that crosses a 1 MiB boundary writes into the wrong
  second-level table (`RecordingCorrectIffInGroups`);
* `init_page_tables` maps the code, the first-level table, the scratch section and the
  devices in place for every size of code that fits, except 63, 127 and 255 sections; then
  the scratch section is mapped onto the devices, and the devices are not mapped
  (`InitMapsTheKernel`);
* a page request that is done backs each page it hands out by a page granted with it
  exactly if halving stops no higher in the virtual allocator than in the physical one,
  which low node pools decide; otherwise two virtual pages can share a physical one
  (`PageRequestBackedExactly`; `SharedPageReached` by two requests for one page each);
* a request panics on a page "already recorded" although nobody holds the page, exactly
  when the block around it clashes: some page handed out lies a multiple of 2^18 pages
  away (`RegionRequestFromArguments`, `ClashesExactly`; reached from boot by the two
  requests of `RecordedPanicReached`);
* a request for no sections maps a whole section for the single page it is granted, and so
  breaks the invariant, while nodes last (`EmptySectionsBreak`); the next request for one of
  the other pages panics (`EmptySectionsPanicReached`);
* a mixed-backing region request panics on unequal lengths exactly when it is granted and
  halving stops at different depths in the two allocators (`RegionRequestEnds`), which,
  while nodes last, means that it does not fit one naturally aligned block of its size class
  (`RegionRequestLengthPanic`, reached in `LengthPanicReached`); a section request then
  returns pages without a translation (`SectionRequestEnds`, `UnrecordedReached`) and leaves
  the virtual allocator out of balance (`UnrecordedUnbalances`, `UnrecordedLosesAPage`);
* a page request for identity backing panics exactly when the physical pages it gets have
  virtual counterparts that are not free (`IdentityPanicExactly`, `IdentityPanicReached`);
* a region whose end reaches 2^32 pages may be granted a block that does not hold it
  (`ReserveExact`, `WrappingIsGranted`);
* a region of exactly 2^20 pages has byte size 0 and reads as a failed allocation
  (`NullExactly`); rounding up wraps for the largest sizes (`AlignUpTwoCeils`,
  `AlignUpToPowerIsLeast`, `PreferredSizeSuffices`);
* a page or region request that is refused loses the pages it had taken exactly if no list
  node is left for them (`RefusedPagesBooks`, `RefusedRegionBooks`);
* `kmalloc` takes a grant that starts at virtual page 0 for a failure, and is granted too
  little for sizes above 0xFFFFEFF0, whose rounding wraps (`KmallocFailsExactly`);
* every merge of free blocks drops the 16 bytes of a header for good (`SafeOverRuns`);
* `distance` counts nothing on list iterators, so it is right exactly for an empty range
  (`Distance`), `lower_bound` over a list stays at its begin (`LowerBound`), and a free
  region is inserted after the first one: a descending list stays so exactly if it is empty
  or the region belongs there (`InsertionKeepsOrderExactly`, lost in `OrderLost`);
* a write to the serial port loses the carriage return of a line feed exactly if the line
  feed takes the last free slot of the transmit queue (`TransmittedExactly`,
  `WriteSendsTheBuffer`; `ReturnLost` by a line of 16 characters, `WriteLosesReturn`);
* when a task exits, the next task in the list is looked at last (`ExitSkipsTheNextTask`);
* a sleep wakes at once when its end time wraps (`SleepLastsUnlessWrapped`);
* the least integer prints as `-0`, taking the negation in `abs` to wrap
  (`RenderedRoundTrip`);
* a format leaves the buffer without a terminator exactly if it is empty or starts with a
  conversion that is not known (`TerminatedExactly`).

## Model

| member | source | states |
|---|---|---|
| `TwoMath.ComputeBitWidth` | pine/twomath.hpp:77-91 | The counting loop computes the bit width that the bounds below describe. |
| `TwoMath.BitWidthBounds` | pine/twomath.hpp:77-91 | The bit width is the exponent of the least power of two above a nonzero value. |
| `TwoMath.AlignDownTwoFloors` | pine/twomath.hpp:8-22 | Masking rounds down to the multiple of the power of two, for every word. |
| `TwoMath.AlignUpTwoCeils` | pine/twomath.hpp:24-40 | Rounding up gives the least multiple not below the value exactly if the sum does not wrap; otherwise it gives 0; zero rounds up to the alignment itself. |
| `TwoMath.AlignDownToPowerIsGreatest` | pine/twomath.hpp:93-101 | No power of two lies between the result and the value. |
| `TwoMath.AlignUpToPowerIsLeast` | pine/twomath.hpp:103-112 | The result is the least power of two not below the value exactly up to 2^31; above it is 0. |
| `Regions.PageRegionRoundTrip` | pine/page.hpp:13-27 | A region survives the trip through byte pointer and byte size exactly if offset and length are below 2^20. |
| `Regions.NullExactly` | pine/page.hpp:24-27 | Among nonempty regions up to 2^20 pages only the one of 2^20 pages reads as a null allocation. |
| `Regions.HalveBlock` | pine/page.hpp:48-56 | The halves of a naturally aligned block are its two buddies, one depth lower. |
| `Regions.HalveCover` | pine/page.hpp:48-56 | The halves of any region, odd lengths included, hold exactly its units. |
| `Algorithm.FindIf` | pine/algorithm.hpp:57-67 | The loop stops at the first match or at the end. |
| `PageBackend.DepthBounds` | pine/malloc.hpp:326-333 | A length lies between the powers of two of its depth and of the next one. |
| `PageBackend.DepthMonotone` | pine/malloc.hpp:326-333 | Longer regions have no smaller depth. |
| `PageBackend.FindNodeFirst` | pine/malloc.cpp:204-239 | The search over all depths returns the first match of the lowest list that has one, and fails only if no list from the start depth on holds a match. |
| `PageBackend.InsertionKeepsOrderExactly` | pine/malloc.cpp:317-323 | A free list in descending order stays in order through an insertion exactly if it is empty or the new region is not above its first and not below its second. |
| `PageLedger.OrderLost` | pine/malloc.cpp:317-323 | An input: adding page 0 and then page 1 leaves a list that is not in order. |
| `PageBackend.TrimAlignedShape` | pine/malloc.cpp:241-257 | Halving from any block stops at a block of the wanted depth, or earlier only with no node left. |
| `PageBackend.TrimAlignedConserves` | pine/malloc.cpp:241-257 | Trimming loses no page and no node, even when it stops early. |
| `PageBackend.TrimAroundConserves` | pine/malloc.cpp:272-299 | The same for trimming around a region. |
| `PageBackend.TrimAroundSmallest` | pine/malloc.cpp:272-299 | Trimming around a region ends in the smallest block that holds it, unless nodes ran out, and always if there are as many nodes as halvings. |
| `AlignedBlocks.SmallestIsBlockAround` | pine/malloc.cpp:272-299 | The smallest naturally aligned block around a nonempty region is unique, and is the one at the least depth that holds it. |
| `AlignedBlocks.TrimAroundStops` | pine/malloc.cpp:272-299 | For any number of nodes, trimming around a region stops at that depth or as many depths below the block as there are nodes, and gives the block there. |
| `PageLists.TrimIsTakenLeft` | pine/malloc.cpp:241-270 | The exact lists after halving: each depth passed has got a right half, the others are as before. |
| `PageLedger.AllocateExact` | pine/malloc.cpp:154-270 | Allocation succeeds exactly when some free region fits and is aligned; it gives a block that does, of exactly the least power of two unless nodes ran out; a failure changes nothing. |
| `PageLedger.AllocateTakesTheFirst` | pine/malloc.cpp:204-257 | The block comes from the front of the first free region that fits and is aligned, in the lowest list that has one. |
| `PageLedger.ReserveExact` | pine/malloc.cpp:170-299 | Reserving any region succeeds exactly when a deep enough block passes the containment test, which wraps at 2^32. For a region that does not reach 2^32 that means exactly that some free region holds it, and gives the smallest block around it unless nodes ran out; for one that does, a block that is given never holds it. |
| `PageLedger.WrappingIsGranted` | pine/page.hpp:32-42 | An input: the page number 2^32 - 1 is granted by any free page and lies in none. |
| `PageLedger.ReserveBlockIsExact` | pine/malloc.cpp:170-299 | Reserving a naturally aligned power of two gives that very region. |
| `PageLedger.AllocateGivesDepth` | pine/malloc.cpp:154-270 | For any number of nodes, the depth of the block that is allocated, from the block the search finds and the nodes left. |
| `PageLedger.ReserveGivesDepth` | pine/malloc.cpp:170-299 | The same for reservations, and which block it is. |
| `PageLedger.AllocateConserves` | pine/malloc.cpp:154-162 | Each page is free or handed out as often after the call as before; the node pool keeps its size. |
| `PageLedger.ReserveConserves` | pine/malloc.cpp:170-178 | The same for reservations. |
| `PageLedger.FreeRegionConserves` | pine/malloc.cpp:185-202 | Freeing lists the pages again, and loses them exactly when no node is left. |
| `PageLedger.ReleaseGivesBack` | pine/malloc.cpp:185-202 | Releasing a region takes that region from those handed out and frees its pages and no others, while a node is left. |
| `PageLedger.OutUntilReleased` | pine/malloc.cpp:154-202 | Over any run a region handed out stays out until that very region is released. |
| `PageLedger.AllowedCallsRun` | pine/malloc.cpp:154-323 | The obligations of the callers, call by call, are all that a run needs. |
| `PageLedger.RunSound` | pine/malloc.cpp:154-323 | Over any interleaving of add, allocate, reserve and free: every listed and handed-out region is a naturally aligned power of two in the list of its depth, and every page is accounted for. |
| `PageLedger.LostOnlyByLeaking` | pine/malloc.cpp:185-196 | A run loses pages exactly if some free finds no node. |
| `PageLedger.NoOverlapOverRuns` | pine/malloc.cpp:154-323 | If the added regions are disjoint, free and outstanding regions stay pairwise disjoint over every run, and without leaks cover exactly the added pages. |
| `PageLedger.SoundIsBounded` | pine/malloc.cpp:180-196 | Free regions lie in the address space after every run, so reservations are exact there. |
| `PageAllocatorInPlace.DepthFromPageLength` | pine/malloc.hpp:326-333 | The source's computation gives the depth, with 0 for no pages. |
| `PageAllocatorInPlace.PageAllocatorBackend.CreateNode` | pine/malloc.cpp:301-309 | A node is taken exactly if the pool has one. |
| `PageAllocatorInPlace.PageAllocatorBackend.RemoveNode` | pine/malloc.cpp:311-315 | The node leaves the list that it is in, and its slot returns to the pool. |
| `PageAllocatorInPlace.PageAllocatorBackend.FindFree` | pine/malloc.cpp:204-239 | The search loop finds what the specified search finds. |
| `PageAllocatorInPlace.PageAllocatorBackend.TrimAlignedRegion` | pine/malloc.cpp:241-257 | The halving loop ends, and takes the lists to the specified state, also when nodes run out. |
| `PageAllocatorInPlace.PageAllocatorBackend.RemoveAndTrimRegion` | pine/malloc.cpp:272-299 | The same for the loop around a region, with its swap of halves. |
| `PageAllocatorInPlace.PageAllocatorBackend.Allocate` | pine/malloc.cpp:154-162 | The method takes the allocator to the state of the specification and returns its region as pointer and size. |
| `PageAllocatorInPlace.PageAllocatorBackend.ReserveRegion` | pine/malloc.cpp:170-178 | The same for reservations of any region. |
| `PageAllocatorInPlace.PageAllocatorBackend.Free` | pine/malloc.cpp:198-202 | Freeing an allocation frees the region that its pointer and size stand for. |
| `PageTable.PageEntryRoundTrip` | kernel/arch/aarch32/mmu.hpp:154-177 | A page entry has access bits 0b11 and its other attribute bits clear, and decodes to the encoded address exactly for 1 KiB aligned addresses below 2^30. |
| `PageTable.SectionEntryRoundTrip` | kernel/arch/aarch32/mmu.hpp:251-286 | A section entry has access bits 0b11 and its other attribute bits clear, and decodes to the encoded address exactly for section-aligned addresses below 2^30. |
| `PageTable.L2PtrEntryRoundTrip` | kernel/arch/aarch32/mmu.hpp:216-238 | A table pointer has its attribute bits clear, and decodes exactly for 1 KiB aligned addresses. |
| `PageTable.RecordOneKeeps` | kernel/arch/aarch32/mmu.cpp:377-420 | One page write adds one translation, reports one that exists, or finds no table; no second-level table is ever shared by two first-level entries. |
| `PageTable.RecordWritesExact` | kernel/arch/aarch32/mmu.cpp:372-423 | Writes to different pages succeed on exactly their map, and only if none was translated. |
| `PageTable.RecordWritesOutcome` | kernel/arch/aarch32/mmu.cpp:372-423 | A run of writes stops where the pool of second-level tables runs out, or else at the first position that is taken. |
| `PageTable.RecordPagesExact` | kernel/arch/aarch32/mmu.cpp:372-423 | Recording a region that stays in its groups, wherever it lies: it runs out of tables, panics if and only if the position of some page, its number modulo 2^18, is translated already or the region is longer than the table, or gives page i of the physical region for page i and changes no other translation. |
| `PageTable.RecordPagesOpen` | kernel/arch/aarch32/mmu.cpp:372-423 | However the recording of pages ends, every entry in use at both levels is open to everyone with no other attribute bit set, if that was so before. |
| `PageTable.RecordingCorrectIffInGroups` | kernel/arch/aarch32/mmu.cpp:377-409 | A recorded region is translated correctly if and only if it is 1 MiB aligned or within one 1 MiB group. |
| `PageTable.BlockStaysInGroups` | kernel/arch/aarch32/mmu.cpp:377-409 | Every naturally aligned power of two does. |
| `PageTable.RecordSectionsExact` | kernel/arch/aarch32/mmu.cpp:347-370 | Section recording refuses unequal lengths, and otherwise panics if and only if the position of some page of the sections is translated already, or maps all of them. |
| `PageTable.RecordSectionsOpen` | kernel/arch/aarch32/mmu.cpp:347-370 | The same for sections. |
| `PageTable.TranslatedIsOpen` | kernel/arch/aarch32/mmu.hpp:154-177 | In such a table the walk finds the access bits for everyone at every translated page, and at no other. |
| `MmuRuns.BootInv` | kernel/arch/aarch32/mmu.cpp:24-49 | The allocators that boot sets up, with its constants, and the cleared table satisfy the invariant. |
| `MmuRuns.StepKeepsInv` | kernel/arch/aarch32/mmu.cpp:241-345 | A request that is done keeps the invariant exactly if it was admissible, wherever its virtual pages lie; an admissible one that finds a page recorded already clashes with a region handed out. |
| `MmuRuns.StepGetPages` | kernel/arch/aarch32/mmu.cpp:276-316 | A page request that is done keeps the invariant exactly if halving stops no higher in the virtual allocator than in the physical one; the regions that it returns are the two that were granted. |
| `MmuRuns.StepGetSections` | kernel/arch/aarch32/mmu.cpp:259-274 | A section request that is done keeps the invariant exactly if it is for some page or is granted whole sections anyway. |
| `MmuRuns.RunKeepsInv` | kernel/arch/aarch32/mmu.cpp:241-345 | The invariant holds after every run of completing requests. |
| `MmuRuns.InvTranslates` | kernel/arch/aarch32/mmu.cpp:241-345 | Every byte of a page handed out translates to the same byte of the page granted with it, everyone may access it, and no position but theirs has a translation. |
| `MmuRuns.InvInjective` | kernel/arch/aarch32/mmu.cpp:241-345 | No two positions of the table share a physical page. |
| `MmuRuns.TablesCorrectOverRuns` | kernel/arch/aarch32/mmu.cpp:24-423 | End to end, from boot over every run: translation is correct, injective and confined to the positions of pages handed out, everyone may access them and no other attribute bit is set, and an "already recorded" panic is reached only by a clash. |
| `MmuRuns.ClashesExactly` | kernel/arch/aarch32/mmu.hpp:48-53 | A region clashes exactly if a page handed out lies a multiple of 2^18 pages from one of its pages, because the first-level index has 10 bits. |
| `MmuRuns.NoClashBelowTheIndex` | kernel/arch/aarch32/mmu.hpp:48-53 | While all virtual pages granted lie in the first GiB, no grant clashes. |
| `MmuInputs.RecordedPanicReached` | kernel/arch/aarch32/mmu.cpp:411-418 | An input: from boot, mixed requests for pages 0 and 2^18 end in "done" and in the "already recorded" panic. |
| `MmuEndings.RegionGrant` | kernel/arch/aarch32/mmu.cpp:318-345 | A region request is granted exactly if a free virtual region holds it, the block where halving around it stops is shorter than 2^20 pages, and physical pages for it are free; it gets that block and the physical region that the other allocator gives for it, of its length exactly if halving stops at one depth. |
| `MmuEndings.RegionRequestLengthPanic` | kernel/arch/aarch32/mmu.cpp:241-249 | While nodes last, a region request panics on unequal lengths exactly if it is granted, with mixed backing, for a region that fits no block of its size class. |
| `MmuEndings.RegionRequestEnds` | kernel/arch/aarch32/mmu.cpp:241-257 | Which of its five endings a region request has, exactly, and which regions it returns, from its arguments and the state before it, for any number of nodes and tables. |
| `MmuEndings.RegionRequestFromArguments` | kernel/arch/aarch32/mmu.cpp:241-257 | While nodes and tables last, the same on the caller's arguments: the block around the region decides. |
| `MmuEndings.SectionRequestEnds` | kernel/arch/aarch32/mmu.cpp:259-274 | The same for a section request for some page, which returns its pages without a translation where a region request panics on unequal lengths. |
| `MmuEndings.EmptySectionsBreak` | kernel/arch/aarch32/mmu.cpp:259-274 | While nodes last, a section request that is done keeps the invariant exactly if it is not empty. |
| `MmuInputs.EmptySectionsPanicReached` | kernel/arch/aarch32/mmu.cpp:259-274 | An input: from boot, a request for no sections is done, and a request for page 5, which nobody holds, then panics. |
| `MmuEndings.PageRequestEnds` | kernel/arch/aarch32/mmu.cpp:276-316 | Which ending a page request has, exactly, for any number of nodes and tables. |
| `MmuEndings.PageRequestBackedExactly` | kernel/arch/aarch32/mmu.cpp:276-291 | A page request that is done backs every page it hands out by a page granted with it exactly if halving stops no higher in the virtual allocator than in the physical one. |
| `MmuEndings.PagesGrantBooks` | kernel/arch/aarch32/mmu.cpp:292-316 | A granted page request takes exactly its two regions from the free pages. |
| `MmuEndings.RefusedPagesBooks` | kernel/arch/aarch32/mmu.cpp:292-316 | A page request that is refused leaves the table and every free page as they were, except physical pages that were taken and for which no node is left. |
| `MmuEndings.RefusedRegionBooks` | kernel/arch/aarch32/mmu.cpp:318-345 | A region or section request that is refused leaves the table and the physical allocator as they were, and every free virtual page, except a region for which no node is left or whose size reads as a failure. |
| `MmuInputs.SharedPageReached` | kernel/arch/aarch32/mmu.cpp:276-291 | An input: with 12 virtual nodes, two mixed requests for one page are done, and virtual pages 1 and 256, one of each, translate to one physical page. |
| `MmuEndings.IdentityPanicExactly` | kernel/arch/aarch32/mmu.cpp:306-310 | A page request panics for its virtual pages exactly with identity backing and granted physical pages whose virtual counterparts are not free. |
| `MmuInputs.LengthPanicReached` | kernel/arch/aarch32/mmu.cpp:249-249 | An input at boot: a mixed request for the pages 0x1001 and 0x1002. |
| `MmuInputs.UnrecordedReached` | kernel/arch/aarch32/mmu.cpp:268-273 | An input at boot: a mixed request for the sections 0x101 and 0x102. |
| `MmuInputs.IdentityPanicReached` | kernel/arch/aarch32/mmu.cpp:306-310 | An input: from boot, page 0 with mixed backing and then 2^17 pages with identity backing. |
| `MmuEndings.UnrecordedBooks` | kernel/arch/aarch32/mmu.cpp:268-271 | After a section request that ends unrecorded the physical allocator is balanced again, if it had a node left; the virtual one has lost the virtual region and, with a node left, has the physical page numbers for its own. |
| `MmuEndings.UnrecordedUnbalances` | kernel/arch/aarch32/mmu.cpp:268-271 | So the virtual allocator is out of balance every time. |
| `MmuEndings.UnrecordedLosesAPage` | kernel/arch/aarch32/mmu.cpp:268-271 | While nodes last, some virtual page is then neither free nor mapped. |
| `MmuInit.InitMapsTheKernel` | kernel/arch/aarch32/mmu.cpp:24-60 | For every size of code that fits: which of the four requests at the end are refused, and that code, first-level table, scratch section and devices translate to themselves, the latter two exactly for code of other than 63, 127 or 255 sections. |
| `Mmu.AllocatePagesReady` | kernel/arch/aarch32/mmu.cpp:276-291 | However a page request ends, both allocators and the table are in order for the next call. |
| `Mmu.ReserveRegionReady` | kernel/arch/aarch32/mmu.cpp:241-257 | The same for region requests. |
| `Mmu.ReserveSectionsReady` | kernel/arch/aarch32/mmu.cpp:259-274 | The same for section requests. |
| `MmuInPlace.PageAllocator.EnterTable` | kernel/arch/aarch32/mmu.cpp:378-405 | Entering a group finds or makes its second-level table in the pool, or stops, as specified. |
| `MmuInPlace.PageAllocator.RecordGroup` | kernel/arch/aarch32/mmu.cpp:407-420 | The inner loop writes the pages of one group and stops at the first that exists. |
| `MmuInPlace.PageAllocator.TryRecordPageInL1` | kernel/arch/aarch32/mmu.cpp:372-423 | The nested loops over both tables give the specified tables and outcome, also when they stop half way. |
| `MmuInPlace.PageAllocator.TryRecordSectionInL1` | kernel/arch/aarch32/mmu.cpp:347-370 | The same for sections. |
| `MmuInPlace.PageAllocator.AllocatePages` | kernel/arch/aarch32/mmu.cpp:276-291 | The whole call takes both allocators and both tables to the specified state and ending, and leaves a valid allocator for the next call, whatever the ending is. |
| `MmuInPlace.PageAllocator.ReserveRegion` | kernel/arch/aarch32/mmu.cpp:241-257 | The same for region requests. |
| `MmuInPlace.PageAllocator.ReserveSectionRegion` | kernel/arch/aarch32/mmu.cpp:259-274 | The same for section requests. |
| `LinkedList.Node.Unlink` | pine/linked_list.hpp:28-39 | The destructor joins the neighbours and changes nothing else. |
| `LinkedList.ManualLinkedList.InsertAfter` | pine/linked_list.hpp:98-119 | Forward links, backward links, head, tail and length describe the old sequence with the node put in at the position. |
| `LinkedList.ManualLinkedList.Append` | pine/linked_list.hpp:120-123 | The same with the node at the end. |
| `LinkedList.ManualLinkedList.Remove` | pine/linked_list.hpp:124-135 | They describe the old sequence without the node, which comes out unlinked. |
| `LinkedList.ManualLinkedList.Find` | pine/algorithm.hpp:57-67 | Iterating with find_if ends at the first node that satisfies the predicate, or at the end. |
| `LinkedList.PtrIter.Increment` | pine/iter.hpp:242-251 | Moves from a position to the next, and from the last to the end. |
| `LinkedList.PtrIter.Decrement` | pine/iter.hpp:252-260 | Moves back by one, so it undoes an increment. |
| `LinkedList.Forward` | pine/iter.hpp:236-285 | Walking from begin to end visits exactly the list's nodes in order. |
| `LinkedList.Backward` | pine/iter.hpp:236-285 | Walking from end to begin visits them in reverse. |
| `LinkedList.Distance` | pine/iter.hpp:116-123 | The loop walks to the end and answers 0, which is the distance exactly if there is none. |
| `LinkedList.SearchRange` | pine/algorithm.hpp:30-48 | The halving loop of lower_bound, over any length it is given, stops after a node that compares and before one that does not. |
| `LinkedList.LowerBound` | pine/algorithm.hpp:26-48 | Over a whole list, with the length that distance reports, it stays at the first node. |
| `LinkedList.InsertNode` | pine/malloc.cpp:317-323 | So insert_node of the page allocator puts its node after the first one, whatever the order. |
| `FreeList.AllocateFirstFit` | pine/malloc.cpp:27-51 | Allocation fails exactly if no free block is large enough; otherwise it hands out the front of the first that is, at least the request and fewer than 32 bytes more. |
| `FreeList.AllocateCutsExactly` | pine/malloc.cpp:27-51 | A block is cut exactly if the rest, rounded down to 8 bytes, exceeds 24; the size returned and the whole free list, in order, either way. |
| `FreeList.RemainingByMask` | pine/malloc.cpp:36-36 | The masking in the source rounds the rest down to the alignment. |
| `FreeList.AllocateConserves` | pine/malloc.cpp:27-51 | Splitting moves bytes from free to live and loses none. |
| `FreeList.FreeConserves` | pine/malloc.cpp:64-117 | Coalescing on either or both sides keeps every byte but those of the dropped headers. |
| `FreeList.FreeMergesExactly` | pine/malloc.cpp:85-117 | The whole free list, in order, after a block comes back: it grows its left neighbour or joins the end, and takes over its right neighbour. |
| `FreeList.FreeAccounts` | pine/malloc.cpp:85-117 | Free payload grows by exactly the size reported, and each merge costs one header. |
| `FreeList.AllocateAccounts` | pine/malloc.cpp:27-51 | Allocation keeps the total of headers and payloads. |
| `FreeListRuns.ApplyInv` | pine/malloc.cpp:27-117 | Every operation keeps the books balanced byte by byte. |
| `FreeListRuns.AllowedCallsRun` | pine/malloc.cpp:16-117 | The obligations of the callers, call by call, are all that a run needs. |
| `FreeListRuns.SafeOverRuns` | pine/malloc.cpp:16-117 | Over every run, blocks with their headers are aligned, pairwise disjoint and inside added memory, and added bytes are block bytes plus 16 for each merge. |
| `FreeListRuns.GiveFreesTheBlock` | pine/malloc.cpp:85-117 | Giving a block back leaves exactly the others live and frees its bytes. |
| `FreeListRuns.LiveUntilGiven` | pine/malloc.cpp:27-117 | Over any run a block keeps its place and size until that very block is given back. |
| `FreeListRuns.CoalescingIsMaximal` | pine/malloc.cpp:64-117 | If no two added regions touch, no free block ever ends where another starts. |
| `FreeListRuns.AddingNeverMerges` | pine/malloc.cpp:53-57 | After adding alone, free blocks touch exactly if added regions do, so that condition is needed. |
| `FreeListInPlace.IntrusiveFreeList.Add` | pine/malloc.cpp:53-57 | Puts one block with a header at the end of the list. |
| `FreeListInPlace.IntrusiveFreeList.FindFirstFit` | pine/malloc.cpp:29-33 | Finds the node of the first block that is large enough, or null. |
| `FreeListInPlace.IntrusiveFreeList.SplitBlock` | pine/malloc.cpp:35-46 | Rewrites the size in place and links the split-off rest in. |
| `FreeListInPlace.IntrusiveFreeList.Allocate` | pine/malloc.cpp:27-51 | The linked nodes hold the heap that the specification gives, and the answer is its answer. |
| `FreeListInPlace.IntrusiveFreeList.TryFindNeighboringMemoryNodes` | pine/malloc.cpp:64-83 | One walk finds the first left and the first right neighbour, although it may stop early. |
| `FreeListInPlace.IntrusiveFreeList.Coalesce` | pine/malloc.cpp:91-114 | All four neighbour cases give the specified list. |
| `FreeListInPlace.IntrusiveFreeList.Free` | pine/malloc.cpp:85-117 | Freeing a live pointer gives the specified heap and reports the block's size. |
| `Binder.PreferredSizeSuffices` | pine/malloc.hpp:36-55 | The size asked of the fallback has room for request and header exactly for requests up to 0xFFFFEFF0, and then is the pages it needs and no more. |
| `Binder.BinderFailsExactly` | pine/malloc.hpp:77-93 | The binder fails exactly if no free block is large enough and the fallback gives none that is. |
| `Binder.PreferredSizeServes` | pine/malloc.hpp:77-93 | Once the fallback supplies the preferred size, the request is served. |
| `Binder.FallbackAllocatorBinder.Allocate` | pine/malloc.hpp:77-93 | The method on the linked allocator gives the specified heap and answer. |
| `KernelHeap.KmallocIsTheBinder` | kernel/kmalloc.cpp:7-23 | kmalloc takes the free list where the binder does, with the page allocator as its fallback, which is asked exactly if no free block is large enough. |
| `KernelHeap.KmallocFailsExactly` | kernel/kmalloc.cpp:20-23 | For every size, kmalloc answers with a large enough block that it adds to the live ones, and fails exactly if no free block is large enough and the page allocator refuses, grants page 0, or grants too little; the last only for sizes above 0xFFFFEFF0. |
| `KernelHeap.KfreeFreesTheBlock` | kernel/kmalloc.cpp:25-28 | kfree of a block leaves exactly the other blocks live, frees as many bytes as it had, and does not touch the page allocator. |
| `KernelHeap.LiveUntilFreed` | kernel/kmalloc.cpp:20-28 | Over any run of kmalloc, kfree and page requests, a block that kmalloc handed out stays live, at its address and size, until that very block is freed. |
| `KernelHeap.StepKeepsInv` | kernel/kmalloc.hpp:22-26 | Every kmalloc, kfree and other page request keeps the free list's memory among the virtual pages handed out, and both invariants. |
| `KernelHeap.KernelHeapIsSafe` | kernel/kmalloc.hpp:22-26 | Over every run from boot, blocks are aligned and disjoint, every byte of a live one is translated and accessible, and no two bytes share physical memory. |
| `Tasks.PickIsFirst` | kernel/tasks.cpp:205-217 | The choice is the first task, cyclically after the running one, that does not wait or whose wait is over. |
| `Tasks.UpdateStateWakes` | kernel/tasks.cpp:176-181 | A waiting task is woken exactly if its sleep has ended or its request of the port is finished. |
| `Tasks.ScheduleSwitches` | kernel/tasks.cpp:89-101 | Field by field: the task chosen runs from now on, the one that stops is charged since it was scheduled, and no other task changes. |
| `Tasks.ExitSwitches` | kernel/tasks.cpp:270-275 | Field by field: the running task leaves the list, the next choice is started, and no other task changes. |
| `Tasks.ScheduleApproaches` | kernel/tasks.cpp:205-228 | A ready task runs next or its cyclic distance shrinks. |
| `Tasks.ScheduleKeepsTime` | kernel/tasks.cpp:89-101 | Switching tasks keeps the sum of all CPU times modulo 2^32. |
| `Tasks.ScheduleKeepsEachTime` | kernel/tasks.cpp:89-101 | Switching tasks leaves the CPU time of every single task as it is. |
| `Tasks.BlockKeepsEachTime` | kernel/tasks.cpp:198-203 | So does waiting. |
| `Tasks.ExitKeepsEachTime` | kernel/tasks.cpp:270-275 | An exit leaves every other task its CPU time. |
| `Tasks.TickAddsToTheRunningTask` | kernel/tasks.cpp:183-190 | A tick adds its jiffies to the running task and to no other. |
| `Tasks.BlockKeepsTime` | kernel/tasks.cpp:198-203 | So does waiting. |
| `Tasks.ExitTakesOwnTime` | kernel/tasks.cpp:270-275 | An exiting task takes its own CPU time with it and nothing else. |
| `Tasks.TickAddsTime` | kernel/tasks.cpp:183-190 | A tick adds its jiffies to the running task's time, across the wrap of the clock. |
| `Tasks.ExitSkipsTheNextTask` | kernel/tasks.cpp:270-275 | After an exit the task that moved into the slot runs next exactly if no other is ready. |
| `Tasks.SleepLastsUnlessWrapped` | kernel/tasks.cpp:103-111 | A sleeper is ready exactly after its seconds if the end time fits in a word, and at once exactly if the wrapped duration is 0 or the sum wraps. |
| `Tasks.TaskManager.PickNextTask` | kernel/tasks.cpp:205-217 | The search loop ends if some task is ready, and changes only the state of the task it picks. |
| `Tasks.TaskManager.Schedule` | kernel/tasks.cpp:219-228 | The method gives the specified scheduler state, including no switch to itself. |
| `Tasks.TaskManager.RescheduleWhileWaitingFor` | kernel/tasks.cpp:198-203 | The same for waiting. |
| `Tasks.TaskManager.ExitRunningTask` | kernel/tasks.cpp:270-275 | The same for exits. |
| `Uart.UARTRegisters.TryRead` | kernel/device/pl011/uart.cpp:174-195 | Stores and echoes the characters before the first break or up to the limit, takes the break, and leaves the rest. |
| `Uart.UARTRegisters.TryWrite` | kernel/device/pl011/uart.cpp:197-210 | Sends characters while the queue has a free slot, a line feed with a carriage return if it leaves one. |
| `Uart.TransmittedExactly` | kernel/device/pl011/uart.cpp:197-210 | A text goes out with all its carriage returns exactly if no line feed takes the last free slot. |
| `Uart.ExpandAddsReturns` | kernel/device/pl011/uart.cpp:203-208 | What a text means to send is its lines, each line feed followed by a carriage return. |
| `Uart.TransmittedNext` | kernel/device/pl011/uart.cpp:203-208 | Each character goes out after those before it, a line feed with its return exactly if it finds two free slots. |
| `Uart.ReturnLost` | kernel/device/pl011/uart.cpp:203-208 | An input: 15 characters and a line feed into the empty queue of 16. |
| `Uart.UARTRequest.FillFromUart` | kernel/device/pl011/uart.cpp:294-307 | Advances size, capacity and buffer as specified. |
| `Uart.UARTRequest.HandleIrq` | kernel/device/pl011/uart.cpp:309-338 | The same, and turns the interrupt off once finished. |
| `Uart.IrqOnWhileUnfinished` | kernel/device/pl011/uart.cpp:322-337 | An interrupt turns off the request's own mask bit exactly once it is finished, and leaves the other one. |
| `Uart.FillWriteProgress` | kernel/device/pl011/uart.cpp:294-307 | Writing in pieces sends what the free slots found by all of them let through. |
| `Uart.WriteFinishes` | kernel/device/pl011/uart.cpp:294-307 | A series of interrupts finishes a write exactly if the free slots that they find add up to the characters left. |
| `Uart.FillReadProgress` | kernel/device/pl011/uart.cpp:294-307 | Reading in pieces stores, echoes and takes what reading at once does. |
| `Kernel.StepKeepsInv` | kernel/device/pl011/uart.cpp:232-268 | No step reaches a panic of a read or write, and every step keeps the invariant. |
| `Kernel.NeverPanics` | kernel/device/pl011/uart.cpp:232-268 | With one client, no run from the start of the scheduler reaches those panics. |
| `Kernel.ReadyExactlyWhenFinished` | kernel/tasks.cpp:176-203 | A client that waits is ready exactly when its request is finished, and until then the interrupt that finishes it is on: no wakeup is lost or early. |
| `Kernel.WriteSendsTheBuffer` | kernel/device/pl011/uart.cpp:251-268 | Whatever interrupts and tasks do in between, a write that returns has sent its buffer, with all carriage returns exactly if no line feed took the last free slot. |
| `Kernel.WriteLosesReturn` | kernel/device/pl011/uart.cpp:251-268 | A run in which the carriage return is lost. |
| `Kernel.ReadStoresTheLine` | kernel/device/pl011/uart.cpp:232-249 | A read that returns has stored exactly the characters up to the first line feed, carriage return or its capacity, has echoed them and a break as a line feed, and has left all else that arrived. |
| `Kernel.WriteFinishesExactly` | kernel/device/pl011/uart.cpp:294-338 | Over any run, a write is finished exactly when the interrupts have found a free slot for each of its characters. |
| `Kernel.ReadFinishesExactly` | kernel/device/pl011/uart.cpp:294-338 | Once an interrupt has looked at the device, a read is finished exactly when what came in fills its buffer or holds a break. |
| `Kernel.CpuTimeIsConserved` | kernel/tasks.cpp:183-190 | Over any run, the CPU times of all tasks, with what exited tasks had, add up to the jiffies since the scheduler started, modulo 2^32. |
| `Kernel.OwnTimeOverRun` | kernel/tasks.cpp:183-190 | Over any run, the CPU time of each task that has not exited grows by the jiffies of the ticks that found it running, modulo 2^32, wherever exits move it. |
| `Kernel.CpuTimeIsTimeRun` | kernel/tasks.cpp:183-190 | From the start of the scheduler, it is the jiffies of those ticks. |
| `Kernel.ClockOverRun` | kernel/device/bcm2835/timer.cpp:33-40 | The clock counts the jiffies modulo 2^32. |
| `Kernel.SleepLasts` | kernel/tasks.cpp:103-117 | Over every run after sleep(secs), the sleeper waits and does not run while fewer than secs times 8 jiffies have passed, if its end time fits in a word. |
| `Kernel.StepSchedules` | kernel/device/bcm2835/interrupts.cpp:53-70 | A call of schedule sees every task as it stands after the tick and the port: one whose wait they end runs at once or comes nearer. |
| `Kernel.SleeperRunsInItsTurn` | kernel/tasks.cpp:103-117 | A sleeper whose time comes runs within as many calls of schedule as its cyclic distance, the tick that ends the sleep included. |
| `Kernel.RunsInItsTurn` | kernel/tasks.cpp:205-228 | While no task exits, a task that wants to run does so within as many schedule calls as its cyclic distance, whatever happens in between. |
| `Kernel.RunsWithinOneRound` | kernel/tasks.cpp:205-228 | With n tasks, n schedule calls are always enough: for a task that can run, a client whose request is finished, and a sleeper whose time has come while the clock does not wrap. |
| `CString.ComputeLog10` | pine/math.hpp:32-42 | The dividing loop computes the logarithm. |
| `CString.ComputePow` | pine/math.hpp:18-30 | The multiplying loop computes the power, and in a type that holds it no product on the way overflows. |
| `CString.DigitLoopFits` | pine/c_string.hpp:44-51 | In every round of the digit loop the divisor, the digit, their product and what is left fit the type of the number printed. |
| `CString.Log10Bounds` | pine/math.hpp:32-42 | The logarithm counts the digits of a number. |
| `CString.RenderedFits` | pine/c_string.hpp:28-54 | No printed number is longer than its type's limit, so the buffer is not overrun. |
| `CString.RenderedRoundTrip` | pine/c_string.hpp:28-54 | Reading a printed number gives it back exactly for every number but the least. |
| `CString.NoLeadingZero` | pine/c_string.hpp:28-54 | A nonzero number is printed without leading zeros. |
| `CString.ToStrBuf` | pine/c_string.hpp:28-54 | The sign and the digit loop write exactly that text and a terminator, or nothing into a buffer that is too small, without overflow in the type of the number. |
| `CString.ToStrBufHex` | pine/c_string.hpp:56-79 | The two loops write eight hexadecimal digits and a terminator. |
| `CString.HexRoundTrip` | pine/c_string.hpp:56-79 | Those digits read back as the word. |
| `CString.DigitsAt` | pine/c_string.hpp:44-79 | Each character of a number, decimal or hexadecimal, is its digit of that weight, in the case asked for. |
| `CString.RenderedExactly` | pine/c_string.hpp:28-54 | A number is printed as its sign and its decimal digits, without a zero in front; the least integer as -0. |
| `CString.HexadecimalExactly` | pine/c_string.hpp:56-79 | A word is printed as its eight hexadecimal digits, those above 9 in lower case. |
| `CString.StrLen` | pine/c_string.cpp:37-44 | Finds the first terminator. |
| `CString.StrBufCopy` | pine/c_string.cpp:21-35 | Copies as much as fits beside a terminator, and nothing into no room. |
| `Print.VFnPrintf` | pine/print.hpp:120-284 | The format loop leaves in its buffer what the parsed format prescribes, and returns true exactly if the format was read to its end and every value fit. |
| `Print.ValuesFitExactly` | pine/print.hpp:120-284 | All values fit exactly if each one that is not empty ends within the limit of the unbounded rendering. |
| `Print.Sink.TryAdd` | pine/print.cpp:11-16 | Adding a piece extends the prefix that the buffer holds, and reports whether it fit. |
| `Print.FullStaysFull` | pine/print.cpp:5-20 | Pieces after the first that did not fit change nothing, so stopping and going on agree. |
| `Print.VSBufPrintf` | pine/print.cpp:5-20 | The buffer holds exactly as much of the unbounded rendering up to a bail-out as leaves room for a terminator, the terminator, and what it held after that; the result is the number of characters. |
| `Print.LiteralsAreCopied` | pine/print.hpp:129-138 | Any format without percent signs in front is copied. |
| `Print.SpecifierIsReplaced` | pine/print.hpp:142-284 | In any format, a specifier with one of the letters s, %, c, u, d, x, p and any of its modifiers is replaced by what its slot converts to, and what follows is printed on the next slot, or on the same one after %%. |
| `Print.ConvertedExactly` | pine/print.hpp:163-276 | What each letter converts a slot to: the string itself, a percent sign, the character, the decimal digits, or eight lower-case hexadecimal digits with or without 0x. |
| `Print.UnknownGivesUp` | pine/print.hpp:278-281 | Any other specifier ends the printing with what came before it. |
| `Print.TerminatedExactly` | pine/print.cpp:5-20 | The buffer gets a terminator exactly if the format is not empty and does not start with a conversion that is not known. |
| `Print.ConversionsReadBack` | pine/print.hpp:184-276 | Unsigned, signed and hexadecimal conversions read back as the word given, the least integer excepted. |
| `Print.DecimalFormatRoundTrip` | pine/print.hpp:204-228 | A number printed with %d into at least 12 characters reads back unless it is the least. |

## Left out

- MmuRuns.TablesCorrectOverRuns: covers runs of requests that are admissible and complete. A page or section request that is done but not admissible breaks the invariant (`MmuRuns.StepKeepsInv`), so the runs end there.
- Mmu.Conclude: a failed recording gives the physical allocation back to both allocators, as the code does. Such calls end the runs above, because the virtual allocator is out of balance after them; `MmuEndings.dfy` states what they leave.
- MmuEndings.RegionRequestEnds: for nonempty regions that end inside the page numbering, as is `SectionRequestEnds`; which block an empty region is given is not stated, only that it breaks the invariant as sections.
- MmuEndings.RegionRequestLengthPanic: states the case in which nodes last; `RegionRequestEnds` states the other.
- MmuEndings.UnrecordedLosesAPage: states the case in which nodes last; `UnrecordedUnbalances` states less for the other.
- MmuInit.InitMapsTheKernel: assumes more than 105 list nodes for each allocator, far below what its scratch pages hold.
- KernelHeap.KernelHeapIsSafe: covers runs whose page requests are admissible and complete; the clearing of fresh pages is not modelled.
- MmuInPlace.PageAllocator.EnterTable: takes second-level tables from a fixed pool. Refilling the pool from a spare page (kernel/arch/aarch32/mmu.cpp:431-446) is not modelled.
- PageLedger.NoOverlapOverRuns: assumes that added regions are naturally aligned powers of two, as every region in `init_page_tables` is.
- PageAllocatorInPlace.PageAllocatorBackend.InsertNode: each depth list is a sequence, with insertion after the first node; sharing of the nodes' memory is not modelled there, it is in `LinkedList.dfy`.
- FreeListInPlace.IntrusiveFreeList.ToNodePtr: finds a header by its address among the live ones, where the code subtracts the header size from the pointer.
- Kernel.Step: one client of the serial port, which does not exit; no task starts, and nothing else writes to the port.
- Uart.UARTRequest.HandleIrq: the FIFO trigger levels that it sets at its end are not modelled.
- Uart.UARTRegisters.TryWrite: how fast the transmit queue drains is up to the hardware; the numbers of free slots found are a parameter.
- Binder.FallbackAllocatorBinder.Allocate: the fallback's answer is a parameter, with at least the size of a header. `KernelHeap.dfy` puts the page allocator in its place, on values.
- Print.Parse: variadic slots hold words and the strings they point to; reading a slot as the wrong type is not modelled.
- The page broker's runway arithmetic, which mixes bytes and pages: the extra allocations it makes are requests of the runs in `MmuRuns.dfy`.
- `SlabAllocator` bitmaps, `Vector` capacity, file descriptors and task creation: bounded pools and plain sequences stand for them.
- Section-aligned page requests inside unaligned regions, and 64-bit builds.
- Assembly, register switching, barriers, exception vectors, mailbox, display and shell: hardware and user interface.
- The walk of the table by the hardware: entries are decoded with the accessors of the code.
