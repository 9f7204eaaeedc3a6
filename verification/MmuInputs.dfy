/**
 Real inputs: short runs of requests from boot that stop the kernel or break what a caller
 relies on.
 */
module MmuInputs {
  import opened Algorithm
  import opened TwoMath
  import opened Regions
  import opened PageBackend
  import opened AlignedBlocks
  import opened PageLists
  import opened PageLedger
  import opened PageTable
  import opened Mmu
  import opened MmuRuns
  import opened MmuEndings

  // ------------------------------------------------------------------ boot

  /** The free lists that init_page_tables sets up. */
  lemma BootLists(physNodes: nat, virtNodes: nat, base: nat, slots: nat)
    requires physNodes >= 2 && virtNodes >= 1
    ensures var s := Boot(physNodes, virtNodes, base, slots).state;
            && |s.phys.lists| == MAX_DEPTH && |s.virt.lists| == MAX_DEPTH
            && s.virt.lists[20] == [Region(0, 0x10_0000)] && (forall d | 0 <= d < 20 :: s.virt.lists[d] == [])
            && s.phys.lists[14] == [Region(0x3_C000, 0x4000)] && s.phys.lists[17] == [Region(0, 0x2_0000)]
            && (forall d | 0 <= d < MAX_DEPTH && d != 14 && d != 17 :: s.phys.lists[d] == [])
            && s.phys.nodes == physNodes - 2 && s.virt.nodes == virtNodes - 1
  {
    hide Depth;
    BootDepths();
  }

  /** A region inside the virtual address space can be granted at boot, with mixed backing. */
  lemma BootGrants(s: System, physNodes: nat, virtNodes: nat, base: nat, slots: nat, region: Region, d: nat)
    requires s == Boot(physNodes, virtNodes, base, slots) && physNodes >= 2 && virtNodes > ENOUGH_NODES
    requires 0 < region.length <= 0x4000 && region.offset + region.length <= ADDRESS_PAGES
    requires FitsAt(region, d) && d < 20
    requires base % L2_TABLE_BYTES == 0 && base + slots * L2_TABLE_BYTES <= WORD
    ensures BothHealthy(s) && Grants(s.state, region, Mixed) && BlockAround(region).length <= Pow2(d)
  {
    hide BlockAt, Boot, HolderDepth, ReservedDepth, Healthy, Depth, Pow2;
    BootLists(physNodes, virtNodes, base, slots);
    BootInv(physNodes, virtNodes, base, slots);
    BootIsBounded(s);
    assert Inside(region, s.state.virt.lists[20][0]);
    assert s.state.phys.lists[14][0].Fits(region.length) && s.state.phys.lists[14][0].AlignedTo(1);
    ReserveGivesDepth(s.state.virt, region);
    BlockAroundLength(region, d);
    Pow2Strict(d, 20);
    assert Pow2(20) == ADDRESS_PAGES by { Pow2Values(); }
  }

  lemma BootIsBounded(s: System)
    requires BothHealthy(s)
    ensures WellFormed(s.state.virt) && Bounded(s.state.virt)
  {
    HealthyIsBounded(s.state.virt, Virts(s.maps), s.virtAdded, ADDRESS_PAGES);
  }

  // ------------------------------------------------------- unequal lengths

  /** At boot, a mixed request for two pages on both sides of an even page number stops on unequal lengths. */
  lemma LengthPanicReached(physNodes: nat, virtNodes: nat, base: nat, slots: nat)
    requires base % L2_TABLE_BYTES == 0 && base + slots * L2_TABLE_BYTES <= WORD
    requires physNodes >= ENOUGH_NODES + 2 && virtNodes >= ENOUGH_NODES + 1
    ensures Inv(Boot(physNodes, virtNodes, base, slots))
    ensures ReserveRegion(Boot(physNodes, virtNodes, base, slots).state, Region(0x1001, 2), Mixed).ending == LengthPanic
  {
    hide Boot, Grants, Pow2;
    var s, region := Boot(physNodes, virtNodes, base, slots), Region(0x1001, 2);
    BootInv(physNodes, virtNodes, base, slots);
    BootLists(physNodes, virtNodes, base, slots);
    SmallPowers();
    BootGrants(s, physNodes, virtNodes, base, slots, region, 2);
    CeilLogOf(2, 1);
    RegionRequestLengthPanic(s, region, Mixed);
  }

  lemma SmallPowers()
    ensures Pow2(0) == 1 && Pow2(1) == 2 && Pow2(2) == 4 && Pow2(9) == 512 && Pow2(10) == 1024
  {
    Pow2Values();
  }

  lemma CeilLogOf(n: nat, k: nat)
    requires n == Pow2(k)
    ensures CeilLog(n) == k
  {
    CeilLogIsLeast(n, k);
    if CeilLog(n) < k {
      Pow2Strict(CeilLog(n), k);
    }
  }

  /** At boot, a mixed request for two sections on both sides of an even section number stays unrecorded. */
  lemma UnrecordedReached(physNodes: nat, virtNodes: nat, base: nat, slots: nat)
    requires base % L2_TABLE_BYTES == 0 && base + slots * L2_TABLE_BYTES <= WORD
    requires physNodes >= ENOUGH_NODES + 2 && virtNodes >= ENOUGH_NODES + 1
    ensures Inv(Boot(physNodes, virtNodes, base, slots))
    ensures ReserveSections(Boot(physNodes, virtNodes, base, slots).state, Region(0x101, 2), Mixed).ending.Unrecorded?
  {
    hide Boot, Grants, Pow2;
    var s, region := Boot(physNodes, virtNodes, base, slots), Region(0x1_0100, 0x200);
    assert AsPageRegion(Region(0x101, 2)) == region;
    BootInv(physNodes, virtNodes, base, slots);
    BootLists(physNodes, virtNodes, base, slots);
    SmallPowers();
    BootGrants(s, physNodes, virtNodes, base, slots, region, 10);
    CeilLogOf(512, 9);
    SectionRequestFromArguments(s, Region(0x101, 2), Mixed);
  }

  // ------------------------------------------- pages beyond the 10-bit index

  /** A page that is free somewhere can be reserved, and one page can be allocated. */
  lemma {:induction false} FreeCoverWitness(lists: seq<seq<Region>>, p: int) returns (d: nat, i: nat)
    requires FreeCover(lists, p) > 0
    ensures d < |lists| && i < |lists[d]| && lists[d][i].Has(p)
  {
    if Cover(lists[0], p) > 0 {
      d := 0;
      i := CoverWitness(lists[0], p);
    } else {
      d, i := FreeCoverWitness(lists[1..], p);
      d := d + 1;
    }
  }

  lemma FreePageCanBeTaken(b: Backend, page: nat)
    requires WellFormed(b) && FreeCover(b.lists, page) > 0
    ensures CanReserve(b, Region(page, 1)) && CanAllocate(b, 1, 1)
  {
    var d, i := FreeCoverWitness(b.lists, page);
    assert Inside(Region(page, 1), b.lists[d][i]);
    assert b.lists[d][i].Fits(1) && b.lists[d][i].AlignedTo(1);
  }

  /** Reserving one page leaves the others. */
  lemma OthersCanBeReserved(b: Backend, page: nat, other: nat)
    requires WellFormed(b) && Bounded(b) && b.nodes >= ENOUGH_NODES && page + 1 < WORD && page != other
    requires CanReserve(b, Region(page, 1)) && FreeCover(b.lists, other) > 0
    ensures var r := Reserve(b, Region(page, 1));
            r.region == Some(Region(page, 1)) && WellFormed(r.backend) && CanReserve(r.backend, Region(other, 1))
  {
    hide Reserve, CanReserve;
    assert Block(Region(page, 1), 0);
    ReserveBlockIsExact(b, Region(page, 1), 0);
    ReserveShape(b, Region(page, 1));
    ReserveConserves(b, Region(page, 1), other);
    FreePageCanBeTaken(Reserve(b, Region(page, 1)).backend, other);
  }

  /** Allocating one of two free pages leaves another. */
  lemma AnotherCanBeAllocated(b: Backend)
    requires WellFormed(b) && b.nodes >= ENOUGH_NODES && FreeCover(b.lists, 0) > 0 && FreeCover(b.lists, 1) > 0
    ensures var a := Allocate(b, 1, 1).backend;
            WellFormed(a) && CanAllocate(a, 1, 1)
  {
    hide Allocate, CanAllocate;
    AllocateExact(b, 1, 1);
    assert CeilLog(1) == 0 && Pow2(0) == 1;
    AllocateConserves(b, 1, 1, 0);
    AllocateConserves(b, 1, 1, 1);
    var a := Allocate(b, 1, 1).backend;
    if FreeCover(a.lists, 0) > 0 {
      FreePageCanBeTaken(a, 0);
    } else {
      FreePageCanBeTaken(a, 1);
    }
  }

  /** What a mixed region request that is done leaves behind. */
  lemma DoneLeaves(s: System, region: Region)
    requires Inv(s) && region.length < 0x40_0000
    requires ReserveRegion(s.state, region, Mixed).ending.Done?
    ensures var t := ReserveRegion(s.state, region, Mixed).state;
            var v := RegionOf(TryReserveRegion(s.state, region, Mixed).virt);
            && t.virt == Reserve(s.state.virt, region).backend
            && t.phys == Allocate(s.state.phys, region.length, 1).backend
            && t.tables.used <= s.state.tables.used + Groups(v.length) && |t.tables.l2| == |s.state.tables.l2|
  {
    hide Reserve, Allocate, RecordPages;
    var a := TryReserveRegion(s.state, region, Mixed);
    RecordPagesKeeps(s.state.tables, RegionOf(a.virt), RegionOf(a.phys));
  }

  lemma OnePage(page: nat)
    ensures FitsAt(Region(page, 1), 0) && FitsOneBlock(Region(page, 1))
    ensures BlockAround(Region(page, 1)) == Region(page, 1)
    ensures Groups(1) == 1
  {
    assert CeilLog(1) == 0 && Pow2(0) == 1;
  }

  /** What holds after the first of two one-page requests from boot. */
  lemma FirstPage(s: System, physNodes: nat, virtNodes: nat, base: nat, slots: nat)
    requires base % L2_TABLE_BYTES == 0 && base + slots * L2_TABLE_BYTES <= WORD
    requires physNodes >= 2 * MAX_DEPTH && virtNodes >= 2 * MAX_DEPTH && slots >= 2
    requires s == Boot(physNodes, virtNodes, base, slots)
    ensures Inv(s) && Execute(s.state, GetRegion(Region(0, 1), Mixed)).ending.Done?
    ensures var t := Step(s, GetRegion(Region(0, 1), Mixed));
            && Inv(t) && t.state.phys.nodes >= ENOUGH_NODES && t.state.virt.nodes >= ENOUGH_NODES
            && |t.maps| == 1 && t.maps[0].v == Region(0, 1)
            && TablesLeftFor(t.state.tables, 1)
            && CanReserve(t.state.virt, Region(SLOTS, 1)) && CanAllocate(t.state.phys, 1, 1)
            && t.state.phys == Allocate(s.state.phys, 1, 1).backend
  {
    hide Reserve, Allocate, CanReserve, CanAllocate, BlockAround, FitsOneBlock, Grants, Boot, TryReserveRegion;
    BootInv(physNodes, virtNodes, base, slots);
    BootLists(physNodes, virtNodes, base, slots);
    BootIsEmpty(physNodes, virtNodes, base, slots);
    BootGrants(s, physNodes, virtNodes, base, slots, Region(0, 1), 0);
    OnePage(0);
    FirstPageGrant(s);
    RegionRequestFromArguments(s, Region(0, 1), Mixed);
    StepKeepsInv(s, GetRegion(Region(0, 1), Mixed));
    DoneLeaves(s, Region(0, 1));
    AllocateNodes(s.state.phys, 1, 1);
    ReserveNodes(s.state.virt, Region(0, 1));
    FirstPageLeaves(s);
  }

  lemma FirstPageGrant(s: System)
    requires BothHealthy(s) && s.state.phys.nodes >= ENOUGH_NODES && s.state.virt.nodes >= ENOUGH_NODES
    requires Grants(s.state, Region(0, 1), Mixed)
    ensures RegionOf(TryReserveRegion(s.state, Region(0, 1), Mixed).virt) == Region(0, 1)
  {
    hide TryReserveRegion, Grants, SameDepth, GrantedBlock, BlockAround, FitsOneBlock;
    OnePage(0);
    RegionGrant(s, Region(0, 1), Mixed);
    EnoughNodes(s, Region(0, 1), Mixed);
  }

  lemma BootIsEmpty(physNodes: nat, virtNodes: nat, base: nat, slots: nat)
    requires base % L2_TABLE_BYTES == 0 && base + slots * L2_TABLE_BYTES <= WORD
    ensures var s := Boot(physNodes, virtNodes, base, slots);
            && s.maps == [] && s.state.tables.used == 0 && |s.state.tables.l2| == slots * L2_ENTRIES
            && Consistent(s.state.tables) && forall v :: !Clashes(s, v)
  {
    BootTables(Boot(physNodes, virtNodes, base, slots).state.tables);
  }

  lemma FirstPageLeaves(s: System)
    requires BothHealthy(s) && s.state.phys.nodes >= ENOUGH_NODES && s.state.virt.nodes >= ENOUGH_NODES
    requires s.state.virt.lists[20] == [Region(0, 0x10_0000)] && s.state.phys.lists[17] == [Region(0, 0x2_0000)]
    ensures var virt, phys := Reserve(s.state.virt, Region(0, 1)).backend, Allocate(s.state.phys, 1, 1).backend;
            && WellFormed(virt) && CanReserve(virt, Region(SLOTS, 1))
            && WellFormed(phys) && CanAllocate(phys, 1, 1)
  {
    hide Reserve, Allocate, CanReserve, CanAllocate;
    HealthyIsBounded(s.state.virt, Virts(s.maps), s.virtAdded, ADDRESS_PAGES);
    FreeCoverAtLeast(s.state.virt.lists, 20, 0, 0);
    FreeCoverAtLeast(s.state.virt.lists, 20, 0, SLOTS);
    FreeCoverAtLeast(s.state.phys.lists, 17, 0, 0);
    FreeCoverAtLeast(s.state.phys.lists, 17, 0, 1);
    FreePageCanBeTaken(s.state.virt, 0);
    OthersCanBeReserved(s.state.virt, 0, SLOTS);
    AnotherCanBeAllocated(s.state.phys);
  }

  /**
   Two mixed one-page requests from boot, for virtual pages 0 and 2^18: the first is done,
   and the second, for a page that nobody holds, stops the kernel as already recorded.
   */
  lemma RecordedPanicReached(physNodes: nat, virtNodes: nat, base: nat, slots: nat)
    requires base % L2_TABLE_BYTES == 0 && base + slots * L2_TABLE_BYTES <= WORD
    requires physNodes >= 2 * MAX_DEPTH && virtNodes >= 2 * MAX_DEPTH && slots >= 2
    ensures var s := Boot(physNodes, virtNodes, base, slots);
            && Inv(s) && Execute(s.state, GetRegion(Region(0, 1), Mixed)).ending.Done?
            && var t := Step(s, GetRegion(Region(0, 1), Mixed));
               Mmu.Ready(t.state) && Execute(t.state, GetRegion(Region(SLOTS, 1), Mixed)).ending == RecordedPanic
  {
    hide Boot, BlockAround, FitsOneBlock, CanReserve, CanAllocate, Reserve, Allocate, TryReserveRegion;
    var s := Boot(physNodes, virtNodes, base, slots);
    FirstPage(s, physNodes, virtNodes, base, slots);
    var t := Step(s, GetRegion(Region(0, 1), Mixed));
    OnePage(SLOTS);
    InvMaps(t, 0, 0);
    assert Clashes(t, Region(SLOTS, 1)) by {
      assert Region(SLOTS, 1).Has(SLOTS) && SlotOf(SLOTS) == SlotOf(0);
    }
    BootIsBounded(t);
    PageGrants(t.state, SLOTS);
    RegionRequestFromArguments(t, Region(SLOTS, 1), Mixed);
  }

  /** A free page is granted with mixed backing while nodes last. */
  lemma PageGrants(s: State, page: nat)
    requires WellFormed(s.phys) && WellFormed(s.virt) && Bounded(s.virt) && s.virt.nodes >= ENOUGH_NODES
    requires page + 1 < WORD && CanReserve(s.virt, Region(page, 1)) && CanAllocate(s.phys, 1, 1)
    ensures Grants(s, Region(page, 1), Mixed) && GrantedBlock(s.virt, Region(page, 1)) == Region(page, 1)
  {
    hide CanReserve, CanAllocate, ReservedDepth, BlockAt;
    OnePage(page);
    ReserveGivesDepth(s.virt, Region(page, 1));
  }

  // ------------------------------------------------------ identity backing

  lemma TakenCannotBeReserved(b: Backend, region: Region, page: nat)
    requires |b.lists| == MAX_DEPTH && FreeCover(b.lists, page) == 0 && region.Has(page)
    ensures !CanReserve(b, region)
  {
    forall d, i | 0 <= d < MAX_DEPTH && 0 <= i < |b.lists[d]| ensures !Inside(region, b.lists[d][i]) {
      FreeCoverAtLeast(b.lists, d, i, page);
    }
  }

  /** A page handed out is not free. */
  lemma HeldIsNotFree(s: System, i: nat, page: nat)
    requires BothHealthy(s) && i < |s.maps| && s.maps[i].v.Has(page)
    ensures FreeCover(s.state.virt.lists, page) == 0
  {
    CoverSplitAt(Virts(s.maps), i, page);
    assert FreeCover(s.state.virt.lists, page) + Cover(Virts(s.maps), page) <= Cover(s.virtAdded, page) <= 1;
  }

  lemma SmallDepths()
    ensures Depth(1) == 0 && CeilLog(1) == 0 && CeilLog(0) == 0 && Depth(0) == 0
    ensures Depth(0x2_0000) == 17 && CeilLog(0x2_0000) == 17 && Pow2(17) == 0x2_0000 && Pow2(0) == 1
  {
    Pow2Values();
    DepthOfPow2(0);
    DepthOfPow2(17);
    CeilLogOf(0x2_0000, 17);
    CeilLogOf(1, 0);
  }

  /**
   From boot, after page 0 was requested with mixed backing: a request for 2^17 pages with
   identity backing stops the kernel, because it is granted physical pages from 0 on, and
   virtual page 0 is taken.
   */
  lemma IdentityPanicReached(physNodes: nat, virtNodes: nat, base: nat, slots: nat)
    requires base % L2_TABLE_BYTES == 0 && base + slots * L2_TABLE_BYTES <= WORD
    requires physNodes >= 2 * MAX_DEPTH && virtNodes >= 2 * MAX_DEPTH && slots >= 2
    ensures var s := Boot(physNodes, virtNodes, base, slots);
            && Inv(s) && Execute(s.state, GetRegion(Region(0, 1), Mixed)).ending.Done?
            && var t := Step(s, GetRegion(Region(0, 1), Mixed));
               Mmu.Ready(t.state) && Execute(t.state, GetPages(0x2_0000, 1, Identity)).ending == IdentityPanic
  {
    hide Boot, Allocate, Reserve, CanReserve, CanAllocate, Depth, Pow2, Step, CeilLog, InsertedAfterFirst;
    var s := Boot(physNodes, virtNodes, base, slots);
    BootLists(physNodes, virtNodes, base, slots);
    FirstPage(s, physNodes, virtNodes, base, slots);
    var t := Step(s, GetRegion(Region(0, 1), Mixed));
    SmallDepths();
    AllocateTakesLeft(s.state.phys, 1, 14);
    HeldIsNotFree(t, 0, 0);
    IdentityPanics(t);
  }

  lemma IdentityPanics(t: System)
    requires Inv(t) && FreeCover(t.state.virt.lists, 0) == 0
    requires t.state.phys.lists[17] == [Region(0, 0x2_0000)]
    ensures AllocatePages(t.state, 0x2_0000, 1, Identity).ending == IdentityPanic
  {
    hide Allocate, Reserve, CanReserve, CanAllocate, Depth, Pow2, AllocatePages, CeilLog, ListsWithout;
    SmallDepths();
    AllocateTakesLeft(t.state.phys, 0x2_0000, 17);
    TakenCannotBeReserved(t.state.virt, Allocate(t.state.phys, 0x2_0000, 1).region.value, 0);
    IdentityPanicExactly(t, 0x2_0000, 1, Identity);
  }

  // ------------------------------------------------- two owners of one page

  /** The state of the page allocators after a mixed request for one page, and the pages it gets. */
  lemma OnePageAttempt(s: State, d: nat, e: nat)
    requires WellFormed(s.phys) && WellFormed(s.virt) && d < MAX_DEPTH && e < MAX_DEPTH
    requires s.phys.lists[d] != [] && forall x | 0 <= x < d :: s.phys.lists[x] == []
    requires s.virt.lists[e] != [] && forall x | 0 <= x < e :: s.virt.lists[x] == []
    requires var p := TakenLeft(s.phys, Handle(d, 0), 0).region.value;
             var v := TakenLeft(s.virt, Handle(e, 0), 0).region.value;
             && p.offset < ADDRESS_PAGES && 0 < p.length < ADDRESS_PAGES
             && v.offset < ADDRESS_PAGES && 0 < v.length < ADDRESS_PAGES
    ensures var p, v := TakenLeft(s.phys, Handle(d, 0), 0), TakenLeft(s.virt, Handle(e, 0), 0);
            && TryReservePages(s, 1, 1, Mixed)
               == Attempt(s.(phys := p.backend, virt := v.backend),
                          ToAllocation(p.region), ToAllocation(v.region), false)
            && !ToAllocation(p.region).IsNull() && !ToAllocation(v.region).IsNull()
            && RegionOf(ToAllocation(p.region)) == p.region.value && RegionOf(ToAllocation(v.region)) == v.region.value
  {
    hide Allocate, Depth, Pow2, CeilLog, TakenLeft;
    SmallDepths();
    AllocateTakesLeft(s.phys, 1, d);
    AllocateTakesLeft(s.virt, 1, e);
    var p, v := TakenLeft(s.phys, Handle(d, 0), 0).region.value, TakenLeft(s.virt, Handle(e, 0), 0).region.value;
    NullExactly(p);
    NullExactly(v);
    PageRegionRoundTrip(p);
    PageRegionRoundTrip(v);
  }

  /** Such a request, when the pages it gets are free in the table too. */
  lemma OnePageDone(s: State, d: nat, e: nat)
    requires Mmu.Ready(s) && d < MAX_DEPTH && e < MAX_DEPTH
    requires s.phys.lists[d] != [] && forall x | 0 <= x < d :: s.phys.lists[x] == []
    requires s.virt.lists[e] != [] && forall x | 0 <= x < e :: s.virt.lists[x] == []
    requires var p := TakenLeft(s.phys, Handle(d, 0), 0).region.value;
             var v := TakenLeft(s.virt, Handle(e, 0), 0).region.value;
             && 0 < p.length < ADDRESS_PAGES && 0 < v.length <= SLOTS && v.offset < ADDRESS_PAGES
             && p.offset + v.length <= SLOTS && StaysInGroups(v)
             && Untranslated(MapOf(s.tables), v) && TablesLeftFor(s.tables, v.length)
    ensures var p, v := TakenLeft(s.phys, Handle(d, 0), 0), TakenLeft(s.virt, Handle(e, 0), 0);
            var c := AllocatePages(s, 1, 1, Mixed);
            && c.ending == Done(p.region.value, v.region.value) && Mmu.Ready(c.state)
            && c.state.phys == p.backend && c.state.virt == v.backend
            && MapOf(c.state.tables) == Mapped(MapOf(s.tables), v.region.value, p.region.value)
            && c.state.tables.used <= s.tables.used + Groups(v.region.value.length)
            && |c.state.tables.l2| == |s.tables.l2|
  {
    hide TakenLeft, TryReservePages, RecordPages, MapOf, Mapped, TablesRunOut, ToAllocation, RegionOf;
    OnePageAttempt(s, d, e);
    AllocatePagesReady(s, 1, 1, Mixed);
    var p, v := TakenLeft(s.phys, Handle(d, 0), 0).region.value, TakenLeft(s.virt, Handle(e, 0), 0).region.value;
    TablesLeftLast(s.tables, v);
    RecordPagesExact(s.tables, v, p);
    RecordPagesKeeps(s.tables, v, p);
  }

  /** The lists at boot after a request for one page, with 12 nodes for the virtual allocator. */
  lemma FewNodesFirst(s: State)
    requires WellFormed(s.phys) && WellFormed(s.virt) && s.phys.nodes >= 14 && s.virt.nodes == 11
    requires s.virt.lists[20] == [Region(0, 0x10_0000)] && forall d | 0 <= d < 20 :: s.virt.lists[d] == []
    requires s.phys.lists[14] == [Region(0x3_C000, 0x4000)] && forall d | 0 <= d < 14 :: s.phys.lists[d] == []
    ensures var p, v := TakenLeft(s.phys, Handle(14, 0), 0), TakenLeft(s.virt, Handle(20, 0), 0);
            && p.region == Some(Region(0x3_C000, 1)) && v.region == Some(Region(0, 256))
            && p.backend.lists[0] == [Region(0x3_C001, 1)]
            && v.backend.lists[8] == [Region(256, 256)] && v.backend.nodes == 0
            && forall d | 0 <= d < 8 :: v.backend.lists[d] == []
  {
    Pow2Values();
    assert Pow2(0) == 1;
  }

  lemma FewNodesSecond(phys: Backend, virt: Backend)
    requires |phys.lists| == MAX_DEPTH && |virt.lists| == MAX_DEPTH
    requires phys.lists[0] == [Region(0x3_C001, 1)] && virt.lists[8] == [Region(256, 256)] && virt.nodes == 0
    ensures TakenLeft(phys, Handle(0, 0), 0).region == Some(Region(0x3_C001, 1))
    ensures TakenLeft(virt, Handle(8, 0), 0).region == Some(Region(256, 128))
  {
    assert Pow2(0) == 1 && Pow2(7) == 128;
  }

  /**
   Two mixed requests for one page each, with 12 nodes for the virtual allocator: both are
   done, and then two virtual pages, one of each request, share a physical page.
   */
  lemma SharedPageReached(physNodes: nat, base: nat, slots: nat)
    requires base % L2_TABLE_BYTES == 0 && base + slots * L2_TABLE_BYTES <= WORD
    requires physNodes >= 16 && slots >= 2
    ensures var s, q := Boot(physNodes, 12, base, slots), GetPages(1, 1, Mixed);
            && Inv(s) && Execute(s.state, q).ending == Done(Region(0x3_C000, 1), Region(0, 256))
            && var t := Step(s, q);
               && Mmu.Ready(t.state) && Execute(t.state, q).ending == Done(Region(0x3_C001, 1), Region(256, 128))
               && var u := Step(t, q).state.tables;
                  && Consistent(u)
                  && Translate(u, 1 * PAGE_SIZE) == Translate(u, 256 * PAGE_SIZE) == Some(0x3_C001 * PAGE_SIZE)
  {
    hide Boot, TakenLeft, AllocatePages, MapOf, Mapped;
    var s := Boot(physNodes, 12, base, slots);
    BootInv(physNodes, 12, base, slots);
    BootLists(physNodes, 12, base, slots);
    BootIsEmpty(physNodes, 12, base, slots);
    NothingTranslated(s, Region(0, 256));
    FewNodesFirst(s.state);
    OnePageDone(s.state, 14, 20);
    SharedSecond(Step(s, GetPages(1, 1, Mixed)).state);
  }

  lemma NothingTranslated(s: System, v: Region)
    requires Consistent(s.state.tables) && !Clashes(s, v)
    ensures Untranslated(MapOf(s.state.tables), v)
  {
  }

  /** The translations after the first and after the second request. */
  function FirstMap(): map<nat, nat> {
    Mapped(map[], Region(0, 256), Region(0x3_C000, 1))
  }

  function SecondMap(): map<nat, nat> {
    Mapped(FirstMap(), Region(256, 128), Region(0x3_C001, 1))
  }

  lemma SharedInMaps()
    ensures Untranslated(FirstMap(), Region(256, 128))
    ensures 1 in SecondMap() && SecondMap()[1] == 0x3_C001 * PAGE_SIZE
    ensures 256 in SecondMap() && SecondMap()[256] == 0x3_C001 * PAGE_SIZE
  {
    hide Mapped;
    MappedBelow(map[], Region(0, 256), Region(0x3_C000, 1), 1);
    MappedBelow(FirstMap(), Region(256, 128), Region(0x3_C001, 1), 1);
    MappedBelow(FirstMap(), Region(256, 128), Region(0x3_C001, 1), 256);
    forall page: nat | Region(256, 128).Has(page) ensures SlotOf(page) !in FirstMap() {
      MappedBelow(map[], Region(0, 256), Region(0x3_C000, 1), page);
      assert SlotOf(page) == page;
    }
  }

  lemma MappedBelow(m: map<nat, nat>, v: Region, p: Region, page: nat)
    requires v.offset + v.length <= SLOTS && page < SLOTS
    ensures page in Mapped(m, v, p) <==> v.Has(page) || page in m
    ensures v.Has(page) ==> Mapped(m, v, p)[page] == BackingAddress(v, p, page)
    ensures !v.Has(page) && page in m ==> Mapped(m, v, p)[page] == m[page]
  {
    hide Takes, PageAt;
    TakesBelow(v, page);
  }

  /** Below the index, positions are pages. */
  lemma TakesBelow(v: Region, page: nat)
    requires v.offset + v.length <= SLOTS && page < SLOTS
    ensures SlotOf(page) == page
    ensures Takes(v, page) <==> v.Has(page)
    ensures v.Has(page) ==> PageAt(v, page) == page
  {
    if page < v.offset {
      DivModUnique(page - v.offset, SLOTS, -1, page - v.offset + SLOTS);
    }
  }

  lemma SharedSecond(t: State)
    requires Mmu.Ready(t) && t.virt.nodes == 0
    requires t.phys.lists[0] == [Region(0x3_C001, 1)] && t.virt.lists[8] == [Region(256, 256)]
    requires forall d | 0 <= d < 8 :: t.virt.lists[d] == []
    requires MapOf(t.tables) == FirstMap() && TablesLeftFor(t.tables, 128)
    ensures var c := AllocatePages(t, 1, 1, Mixed);
            && c.ending == Done(Region(0x3_C001, 1), Region(256, 128)) && Consistent(c.state.tables)
            && Translate(c.state.tables, 1 * PAGE_SIZE) == Some(0x3_C001 * PAGE_SIZE)
            && Translate(c.state.tables, 256 * PAGE_SIZE) == Some(0x3_C001 * PAGE_SIZE)
  {
    hide TakenLeft, AllocatePages, MapOf, Mapped, FirstMap, Untranslated, Translate;
    FewNodesSecond(t.phys, t.virt);
    SharedInMaps();
    OnePageDone(t, 0, 8);
    var c := AllocatePages(t, 1, 1, Mixed);
    assert MapOf(c.state.tables) == SecondMap();
    TranslateIsLookup(c.state.tables, 1, 0);
    TranslateIsLookup(c.state.tables, 256, 0);
  }

  // ------------------------------------------------- an empty section request

  /** What an empty section request does to the lists that boot sets up. */
  lemma EmptyTakesOnePage(s: State)
    requires WellFormed(s.phys) && WellFormed(s.virt) && s.phys.nodes >= MAX_DEPTH && s.virt.nodes >= MAX_DEPTH
    requires s.virt.lists[20] == [Region(0, 0x10_0000)] && forall d | 0 <= d < 20 :: s.virt.lists[d] == []
    requires s.phys.lists[14] == [Region(0x3_C000, 0x4000)] && forall d | 0 <= d < 14 :: s.phys.lists[d] == []
    ensures var v, p := Reserve(s.virt, Region(0, 0)), Allocate(s.phys, 0, 1);
            && v.region == Some(Region(0, 1)) && p.region == Some(Region(0x3_C000, 1))
            && WellFormed(v.backend) && v.backend.lists[2] == [Region(4, 4)]
            && WellFormed(p.backend) && p.backend.lists[0] == [Region(0x3_C001, 1)]
            && v.backend.nodes == s.virt.nodes - 19 && p.backend.nodes == s.phys.nodes - 13
  {
    hide Reserve, Allocate, Depth, CeilLog, TakenLeft, Pow2;
    SmallDepths();
    ReserveTakesLeft(s.virt, Region(0, 0), Handle(20, 0));
    AllocateTakesLeft(s.phys, 0, 14);
    ReserveShape(s.virt, Region(0, 0));
    AllocateExact(s.phys, 0, 1);
    OnePageTaken(s);
  }

  lemma OnePageTaken(s: State)
    requires |s.phys.lists| == MAX_DEPTH && |s.virt.lists| == MAX_DEPTH
    requires s.phys.nodes >= MAX_DEPTH && s.virt.nodes >= MAX_DEPTH
    requires s.virt.lists[20] == [Region(0, 0x10_0000)] && s.virt.lists[2] == []
    requires s.phys.lists[14] == [Region(0x3_C000, 0x4000)] && s.phys.lists[0] == []
    ensures var v, p := TakenLeft(s.virt, Handle(20, 0), 0), TakenLeft(s.phys, Handle(14, 0), 0);
            && v.region == Some(Region(0, 1)) && p.region == Some(Region(0x3_C000, 1))
            && v.backend.lists[2] == [Region(4, 4)] && p.backend.lists[0] == [Region(0x3_C001, 1)]
            && v.backend.nodes == s.virt.nodes - 19 && p.backend.nodes == s.phys.nodes - 13
  {
    assert Pow2(0) == 1 && Pow2(2) == 4;
  }

  lemma EmptyAttempt(s: State)
    requires WellFormed(s.phys) && WellFormed(s.virt)
    requires Reserve(s.virt, Region(0, 0)).region == Some(Region(0, 1))
    requires Allocate(s.phys, 0, 1).region == Some(Region(0x3_C000, 1))
    ensures TryReserveRegion(s, Region(0, 0), Mixed)
         == Attempt(s.(virt := Reserve(s.virt, Region(0, 0)).backend, phys := Allocate(s.phys, 0, 1).backend),
                    Allocation(0x3C00_0000, PAGE_SIZE), Allocation(0, PAGE_SIZE), false)
    ensures RegionOf(Allocation(0, PAGE_SIZE)) == Region(0, 1)
    ensures RegionOf(Allocation(0x3C00_0000, PAGE_SIZE)) == Region(0x3_C000, 1)
    ensures SectionRegionFromPtr(0, PAGE_SIZE) == Region(0, 1)
    ensures SectionRegionFromPtr(0x3C00_0000, PAGE_SIZE) == Region(0x3C0, 1)
  {
    hide Reserve, Allocate;
  }

  /** The table after that request. */
  lemma EmptyRecorded(t: Tables)
    requires Consistent(t) && NoEmptyTable(t) && MapOf(t) == map[]
    ensures var r := RecordSections(t, Region(0, 1), Region(0x3C0, 1));
            r.outcome == Recorded && Consistent(r.tables) && 5 in MapOf(r.tables)
  {
    hide RecordSections, NoEmptyTable, Mapped, MapOf;
    RecordSectionsExact(t, Region(0, 1), Region(0x3C0, 1));
    MappedBelow(map[], Region(0, 256), Region(0x3_C000, 256), 5);
  }

  /** The attempt and the recording of that request. */
  lemma EmptyRequestDone(s: System)
    requires Inv(s) && s.maps == [] && MapOf(s.state.tables) == map[]
    requires s.state.phys.nodes >= MAX_DEPTH && s.state.virt.nodes >= MAX_DEPTH
    requires s.state.virt.lists[20] == [Region(0, 0x10_0000)] && forall d | 0 <= d < 20 :: s.state.virt.lists[d] == []
    requires s.state.phys.lists[14] == [Region(0x3_C000, 0x4000)]
    requires forall d | 0 <= d < 14 :: s.state.phys.lists[d] == []
    ensures var q := GetSections(Region(0, 0), Mixed);
            && Execute(s.state, q).ending.Done?
            && var t := Step(s, q);
               && t.maps == [Mapping(Region(0, 1), Region(0x3_C000, 1))]
               && t.state.virt == Reserve(s.state.virt, Region(0, 0)).backend
               && t.state.phys == Allocate(s.state.phys, 0, 1).backend
               && BothHealthy(t) && Consistent(t.state.tables) && 5 in MapOf(t.state.tables)
  {
    hide Reserve, Allocate, RecordSections, TryReserveRegion, MapOf, Accounted, Supply, NoEmptyTable, RegionOf;
    hide SectionRegionFromPtr;
    EmptyTakesOnePage(s.state);
    EmptyAttempt(s.state);
    EmptyRecorded(s.state.tables);
    GetRegionAttempt(s, Region(0, 0), Mixed);
    var v, p := Region(0, 1), Region(0x3_C000, 1);
    assert Virts([] + [Mapping(v, p)]) == Virts([]) + [v] && Physs([] + [Mapping(v, p)]) == Physs([]) + [p];
    assert [] + [Mapping(v, p)] == [Mapping(v, p)];
  }

  /** A region request that is granted the page it asks for, where the table has a translation already. */
  lemma PageTakenInTable(t: System, page: nat)
    requires BothHealthy(t) && Consistent(t.state.tables) && SlotOf(page) in MapOf(t.state.tables)
    requires t.state.phys.nodes >= ENOUGH_NODES && t.state.virt.nodes >= ENOUGH_NODES && page + 1 < WORD
    requires CanReserve(t.state.virt, Region(page, 1)) && CanAllocate(t.state.phys, 1, 1)
    ensures ReserveRegion(t.state, Region(page, 1), Mixed).ending == RecordedPanic
  {
    hide TryReserveRegion, CanReserve, CanAllocate, Grants, SameDepth, RecordPages, MapOf, GrantedBlock;
    BootIsBounded(t);
    PageGrants(t.state, page);
    OnePage(page);
    RegionGrant(t, Region(page, 1), Mixed);
    EnoughNodes(t, Region(page, 1), Mixed);
    TakenFirst(t.state.tables, Region(page, 1));
    RecordPagesExact(t.state.tables, Region(page, 1), RegionOf(TryReserveRegion(t.state, Region(page, 1), Mixed).phys));
  }

  lemma TakenFirst(t: Tables, v: Region)
    requires Consistent(t) && v.length > 0 && SlotOf(v.offset) in MapOf(t)
    ensures !TablesRunOut(t, v) && !Untranslated(MapOf(t), v)
    ensures v.length == 1 ==> StaysInGroups(v)
  {
    assert v.Has(v.offset);
    assert FreePages(MapOf(t), v, 0) == 0 by {
      assert SlotAt(v, 0) in MapOf(t);
    }
    WritesForValid(v, v);
  }

  /**
   A request for no sections is done at boot and maps a whole section, while it is granted
   one page; the next request for one of the other pages, which nobody holds and no page a
   multiple of 2^18 away either, stops the kernel.
   */
  lemma EmptySectionsPanicReached(physNodes: nat, virtNodes: nat, base: nat, slots: nat)
    requires base % L2_TABLE_BYTES == 0 && base + slots * L2_TABLE_BYTES <= WORD
    requires physNodes >= 2 * MAX_DEPTH && virtNodes >= 2 * MAX_DEPTH
    ensures var s, q := Boot(physNodes, virtNodes, base, slots), GetSections(Region(0, 0), Mixed);
            && Inv(s) && Execute(s.state, q).ending.Done?
            && var t := Step(s, q);
               && (forall i, page: nat | 0 <= i < |t.maps| && t.maps[i].v.Has(page) :: SlotOf(page) != 5)
               && Mmu.Ready(t.state) && Execute(t.state, GetRegion(Region(5, 1), Mixed)).ending == RecordedPanic
  {
    hide Boot, Reserve, Allocate, ReserveRegion, MapOf, Step, Execute;
    var s := Boot(physNodes, virtNodes, base, slots);
    BootInv(physNodes, virtNodes, base, slots);
    BootLists(physNodes, virtNodes, base, slots);
    BootMapsNothing(physNodes, virtNodes, base, slots);
    EmptyTakesOnePage(s.state);
    EmptyRequestDone(s);
    var t := Step(s, GetSections(Region(0, 0), Mixed));
    assert Inside(Region(5, 1), t.state.virt.lists[2][0]);
    assert t.state.phys.lists[0][0].Fits(1) && t.state.phys.lists[0][0].AlignedTo(1);
    PageTakenInTable(t, 5);
    RegionIsExecuted(t, Region(5, 1));
  }

  lemma RegionIsExecuted(t: System, region: Region)
    requires Mmu.Ready(t.state) && region.length < 0x40_0000
    ensures Execute(t.state, GetRegion(region, Mixed)) == ReserveRegion(t.state, region, Mixed)
  {
  }

  lemma BootMapsNothing(physNodes: nat, virtNodes: nat, base: nat, slots: nat)
    requires base % L2_TABLE_BYTES == 0 && base + slots * L2_TABLE_BYTES <= WORD
    ensures var s := Boot(physNodes, virtNodes, base, slots);
            s.maps == [] && Consistent(s.state.tables) && MapOf(s.state.tables) == map[]
  {
    BootTables(Boot(physNodes, virtNodes, base, slots).state.tables);
  }
}
