/**
 init_page_tables to its end (kernel/arch/aarch32/mmu.cpp): after the allocators are set up,
 four section requests map the code, the first-level table, the scratch memory and the
 devices, each of which the kernel goes on using at its physical address.
 */
module MmuInit {
  import opened Algorithm
  import opened TwoMath
  import opened Regions
  import opened PageBackend
  import opened AlignedBlocks
  import opened PageLists
  import opened PageLedger
  import opened PageTable
  import opened Mmu
  import opened MmuRuns
  import opened MmuEndings
  import opened MmuInputs

  const SECTION_PAGES: nat := 256

  /** The pages of section n. */
  function OneSection(n: nat): Region {
    Region(n * SECTION_PAGES, SECTION_PAGES)
  }

  /** Code, first-level table and scratch memory fit the 512 sections of physical memory. */
  predicate CodeFits(code: nat) {
    0 < code && code + 2 <= 512
  }

  function CodeRegion(code: nat): Region { Region(0, code) }

  function L1Region(code: nat): Region { Region(code, 1) }

  function ScratchRegion(code: nat): Region { Region(code + 1, 1) }

  const DEVICES: Region := Region(0x3C0, 0x40)

  /** The pages of the devices. */
  const DEVICE_PAGES: Region := Region(0x3_C000, 0x4000)

  /** One of the four requests; it leaves a state that the next one can be made in. */
  function Requested(s: System, sections: Region, backing: Backing): (t: System)
    requires Mmu.Ready(s.state) && AsPageRegion(sections).length < 0x40_0000
    ensures Mmu.Ready(t.state)
  {
    ReserveSectionsReady(s.state, sections, backing);
    Step(s, GetSections(sections, backing))
  }

  function EndingOf(s: System, sections: Region, backing: Backing): Ending
    requires Mmu.Ready(s.state) && AsPageRegion(sections).length < 0x40_0000
  {
    ReserveSections(s.state, sections, backing).ending
  }

  // ---------------------------------------------------------- one request

  lemma NodesLast(s: System, region: Region, r: Region)
    requires BothHealthy(s) && region.length < 0x40_0000 && r.length < 0x40_0000
    ensures Reserve(s.state.virt, region).backend.nodes + MAX_DEPTH >= s.state.virt.nodes
    ensures Reserve(s.state.phys, r).backend.nodes + MAX_DEPTH >= s.state.phys.nodes
  {
    ReserveNodes(s.state.virt, region);
    ReserveNodes(s.state.phys, r);
  }

  /** What two reservations give when both allocators hold the block around a region. */
  lemma IdentityAttempt(s: System, region: Region)
    requires BothHealthy(s) && s.state.phys.nodes >= ENOUGH_NODES && s.state.virt.nodes >= ENOUGH_NODES
    requires 0 < region.length < 0x40_0000 && EndsInside(region)
    requires var r := BlockAround(region);
             CanReserve(s.state.virt, region) && r.length < ADDRESS_PAGES && CanReserve(s.state.phys, r)
    ensures var r := BlockAround(region);
            && Reserve(s.state.virt, region).region == Some(r) && Reserve(s.state.phys, r).region == Some(r)
            && r.offset < ADDRESS_PAGES && RegionOf(ToAllocation(Some(r))) == r && !ToAllocation(Some(r)).IsNull()
  {
    hide Reserve, CanReserve, PassesTheTest, ReservedDepth, HolderDepth, BlockAt, Depth, Accounted, Supply;
    var r := BlockAround(region);
    HealthyIsBounded(s.state.virt, Virts(s.maps), s.virtAdded, ADDRESS_PAGES);
    HealthyIsBounded(s.state.phys, Physs(s.maps), s.physAdded, SLOTS);
    ReserveHealthy(s.state.virt, Virts(s.maps), s.virtAdded, ADDRESS_PAGES, region);
    ReserveExact(s.state.virt, region);
    ReserveGivesDepth(s.state.virt, region);
    ReserveBlockIsExact(s.state.phys, r, Depth(r.length));
    NullExactly(r);
    PageRegionRoundTrip(r);
  }

  /** A request with identity backing for which both allocators hold the block around it. */
  lemma IdentityRequest(s: System, sections: Region)
    requires Inv(s) && s.state.phys.nodes >= ENOUGH_NODES && s.state.virt.nodes >= ENOUGH_NODES
    requires 0 < AsPageRegion(sections).length < 0x40_0000 && EndsInside(AsPageRegion(sections))
    requires var r := BlockAround(AsPageRegion(sections));
             && CanReserve(s.state.virt, AsPageRegion(sections)) && CanReserve(s.state.phys, r)
             && BelowTheIndex(s) && r.offset + r.length <= SLOTS
    ensures var region, r := AsPageRegion(sections), BlockAround(AsPageRegion(sections));
            && EndingOf(s, sections, Identity).Done?
            && var t := Requested(s, sections, Identity);
               && Inv(t) && BelowTheIndex(t) && t.maps == s.maps + [Mapping(r, r)]
               && t.state.virt == Reserve(s.state.virt, region).backend
               && t.state.phys == Reserve(s.state.phys, r).backend
  {
    hide Reserve, CanReserve, RecordSections, BlockAround, Clashes, Accounted, Supply, RegionOf, ToAllocation;
    hide MapOf, NoEmptyTable;
    var region, r := AsPageRegion(sections), BlockAround(AsPageRegion(sections));
    IdentityAttempt(s, region);
    GetRegionAttempt(s, region, Identity);
    NoClashBelowTheIndex(s, TryReserveRegion(s.state, region, Identity));
    StepGetSections(s, sections, Identity);
  }

  lemma SectionIsBlock(n: nat)
    requires n < 0x1000
    ensures AsPageRegion(Region(n, 1)) == OneSection(n)
    ensures Block(OneSection(n), SECTION_DEPTH)
    ensures BlockAround(OneSection(n)) == OneSection(n)
    ensures CeilLog(SECTION_PAGES) == SECTION_DEPTH == Depth(SECTION_PAGES)
  {
    hide Pow2, BlockAround, CeilLog, Depth, AsPageRegion;
    Pow2Values();
    SectionsAsPages(Region(n, 1));
    MultipleHasNoRemainder(n, SECTION_PAGES);
    BlockHoldsItself(OneSection(n), SECTION_DEPTH);
    CeilLogOf(SECTION_PAGES, SECTION_DEPTH);
    DepthOfPow2(SECTION_DEPTH);
  }

  lemma SectionsAsPages(sections: Region)
    requires sections.offset <= 0x1000 && sections.length <= 0x1000
    ensures AsPageRegion(sections) == Region(sections.offset * SECTION_PAGES, sections.length * SECTION_PAGES)
  {
    DivModUnique(sections.offset * SECTION_PAGES, WORD, 0, sections.offset * SECTION_PAGES);
    DivModUnique(sections.length * SECTION_PAGES, WORD, 0, sections.length * SECTION_PAGES);
  }

  /** A request for one section with mixed backing, when the virtual section is free and p is what the search gives. */
  lemma MixedRequest(s: System, n: nat, p: Region)
    requires Inv(s) && s.state.phys.nodes >= ENOUGH_NODES && s.state.virt.nodes >= ENOUGH_NODES
    requires n < L1_ENTRIES && BelowTheIndex(s)
    requires CanReserve(s.state.virt, OneSection(n))
    requires Allocate(s.state.phys, SECTION_PAGES, 1).region == Some(p)
    ensures var v := OneSection(n);
            && AsPageRegion(Region(n, 1)) == v
            && EndingOf(s, Region(n, 1), Mixed).Done?
            && var t := Requested(s, Region(n, 1), Mixed);
               && Inv(t) && BelowTheIndex(t) && t.maps == s.maps + [Mapping(v, p)]
               && t.state.virt == Reserve(s.state.virt, v).backend
               && t.state.phys == Allocate(s.state.phys, SECTION_PAGES, 1).backend
  {
    hide Reserve, Allocate, CanReserve, RecordSections, Clashes, Accounted, Supply, RegionOf, ToAllocation;
    hide MapOf, NoEmptyTable, BlockAround;
    var v := OneSection(n);
    SectionIsBlock(n);
    MixedAttempt(s, n, p);
    GetRegionAttempt(s, v, Mixed);
    NoClashBelowTheIndex(s, TryReserveRegion(s.state, v, Mixed));
    StepGetSections(s, Region(n, 1), Mixed);
  }

  lemma MixedAttempt(s: System, n: nat, p: Region)
    requires BothHealthy(s) && s.state.phys.nodes >= ENOUGH_NODES && s.state.virt.nodes >= ENOUGH_NODES
    requires n < L1_ENTRIES && CanReserve(s.state.virt, OneSection(n))
    requires Allocate(s.state.phys, SECTION_PAGES, 1).region == Some(p)
    ensures var v := OneSection(n);
            && Reserve(s.state.virt, v).region == Some(v) && p.length == SECTION_PAGES
            && RegionOf(ToAllocation(Some(v))) == v && !ToAllocation(Some(v)).IsNull()
            && RegionOf(ToAllocation(Some(p))) == p && !ToAllocation(Some(p)).IsNull()
  {
    hide Reserve, Allocate, CanReserve, PassesTheTest, Accounted, Supply, BlockAround, Depth;
    var v := OneSection(n);
    SectionIsBlock(n);
    Pow2Values();
    HealthyIsBounded(s.state.virt, Virts(s.maps), s.virtAdded, ADDRESS_PAGES);
    ReserveBlockIsExact(s.state.virt, v, SECTION_DEPTH);
    AllocateExact(s.state.phys, SECTION_PAGES, 1);
    AllocateHealthy(s.state.phys, Physs(s.maps), s.physAdded, SLOTS, SECTION_PAGES, 1);
    NullExactly(v);
    NullExactly(p);
    PageRegionRoundTrip(v);
    PageRegionRoundTrip(p);
  }

  /** A request for pages of which one is handed out is refused and changes nothing. */
  lemma RefusedRequest(s: System, sections: Region, backing: Backing, i: nat, page: nat)
    requires Inv(s) && AsPageRegion(sections).length < 0x40_0000 && EndsInside(AsPageRegion(sections))
    requires i < |s.maps| && s.maps[i].v.Has(page) && AsPageRegion(sections).Has(page)
    ensures EndingOf(s, sections, backing) == Refused && Requested(s, sections, backing) == s
  {
    hide Reserve, CanReserve, PassesTheTest, Accounted, Supply;
    HeldIsNotFree(s, i, page);
    TakenCannotBeReserved(s.state.virt, AsPageRegion(sections), page);
    HealthyIsBounded(s.state.virt, Virts(s.maps), s.virtAdded, ADDRESS_PAGES);
    ReserveExact(s.state.virt, AsPageRegion(sections));
  }

  /** A request with identity backing is refused if the physical allocator does not hold the block. */
  lemma RefusedForPhysical(s: System, sections: Region)
    requires Inv(s) && s.state.phys.nodes >= ENOUGH_NODES && s.state.virt.nodes >= ENOUGH_NODES
    requires 0 < AsPageRegion(sections).length < 0x40_0000 && EndsInside(AsPageRegion(sections))
    requires !CanReserve(s.state.phys, BlockAround(AsPageRegion(sections)))
    ensures EndingOf(s, sections, Identity) == Refused
    ensures var t := Requested(s, sections, Identity); Inv(t) && t.maps == s.maps
  {
    hide Grants, BlockAround, CanReserve, Clashes;
    SectionRequestFromArguments(s, sections, Identity);
    StepGetSections(s, sections, Identity);
    NotGranted(s, AsPageRegion(sections));
  }

  lemma NotGranted(s: System, region: Region)
    requires BothHealthy(s) && s.state.virt.nodes >= ENOUGH_NODES && 0 < region.length < 0x40_0000 && EndsInside(region)
    requires !CanReserve(s.state.phys, BlockAround(region))
    ensures !Grants(s.state, region, Identity)
  {
    hide CanReserve, ReservedDepth, HolderDepth, Accounted, Supply;
    HealthyIsBounded(s.state.virt, Virts(s.maps), s.virtAdded, ADDRESS_PAGES);
    if CanReserve(s.state.virt, region) {
      ReserveGivesDepth(s.state.virt, region);
    }
  }

  // ------------------------------------------------------- the lists on the way

  /** The virtual lists when the pages up to 2^n are taken. */
  predicate VirtFrom(b: Backend, n: nat) {
    && |b.lists| == MAX_DEPTH
    && forall d | 0 <= d < MAX_DEPTH :: b.lists[d] == if n <= d < 20 then [Region(Pow2(d), Pow2(d))] else []
  }

  /** The physical lists when the pages up to 2^n are taken: the devices come before their list's other block. */
  predicate PhysFrom(b: Backend, n: nat) {
    && |b.lists| == MAX_DEPTH
    && forall d | 0 <= d < MAX_DEPTH ::
         b.lists[d] == (if d == 14 then [DEVICE_PAGES] else []) + if n <= d < 17 then [Region(Pow2(d), Pow2(d))] else []
  }

  lemma CodeTakesVirtual(b: Backend, n: nat)
    requires |b.lists| == MAX_DEPTH && b.lists[20] == [Region(0, 0x10_0000)] && b.nodes >= 20 && n <= 17
    requires forall d | 0 <= d < 20 :: b.lists[d] == []
    ensures VirtFrom(TakenLeft(b, Handle(20, 0), n).backend, n)
  {
    hide Pow2;
  }

  lemma CodeTakesPhysical(b: Backend, n: nat)
    requires |b.lists| == MAX_DEPTH && b.lists[17] == [Region(0, 0x2_0000)] && b.nodes >= 20 && n <= 17
    requires b.lists[14] == [DEVICE_PAGES] && forall d | 0 <= d < MAX_DEPTH && d != 14 && d != 17 :: b.lists[d] == []
    ensures PhysFrom(TakenLeft(b, Handle(17, 0), n).backend, n)
  {
    hide Pow2;
  }

  /** The depth of the block that the code is given. */
  function CodeDepth(code: nat): nat {
    SECTION_DEPTH + CeilLog(code)
  }

  function CodeBlock(code: nat): Region {
    Region(0, Pow2(CodeDepth(code)))
  }

  lemma {:induction false} Pow2Shift(n: nat)
    ensures Pow2(SECTION_DEPTH + n) == SECTION_PAGES * Pow2(n)
  {
    if n == 0 {
      Pow2Values();
      assert Pow2(0) == 1;
    } else {
      Pow2Shift(n - 1);
    }
  }

  lemma CodeBlockIs(code: nat)
    requires CodeFits(code)
    ensures AsPageRegion(CodeRegion(code)) == Region(0, code * SECTION_PAGES)
    ensures BlockAround(Region(0, code * SECTION_PAGES)) == CodeBlock(code)
    ensures CeilLog(code * SECTION_PAGES) == CodeDepth(code) <= 17
    ensures code * SECTION_PAGES <= CodeBlock(code).length <= 0x2_0000
  {
    hide HolderDepth, BlockAt, CeilLog, Pow2, AsPageRegion;
    var n, region := CodeDepth(code), Region(0, code * SECTION_PAGES);
    SectionsAsPages(CodeRegion(code));
    Pow2Values();
    assert Pow2(9) == 512 by { SmallPowers(); }
    CeilLogIsLeast(code, 9);
    Pow2Monotone(n, 17);
    Pow2Shift(CeilLog(code));
    CeilLogIsLeast(code * SECTION_PAGES, n);
    if CeilLog(code * SECTION_PAGES) < n {
      SmallerDepth(code, CeilLog(code * SECTION_PAGES));
    }
    HolderAtZero(region);
    BlockAtZero(region, n);
  }

  lemma SmallerDepth(code: nat, d: nat)
    requires code > 0 && code * SECTION_PAGES <= Pow2(d)
    ensures CodeDepth(code) <= d
  {
    Pow2Values();
    if d < SECTION_DEPTH {
      Pow2Strict(d, SECTION_DEPTH);
    } else {
      Pow2Shift(d - SECTION_DEPTH);
      CeilLogIsLeast(code, d - SECTION_DEPTH);
    }
  }

  lemma BlockAtZero(region: Region, d: nat)
    requires region.offset == 0
    ensures BlockAt(region, d) == Region(0, Pow2(d))
  {
    MultipleHasNoRemainder(0, Pow2(d));
  }

  lemma HolderAtZero(region: Region)
    requires region.offset == 0
    ensures HolderDepth(region, 0) == CeilLog(region.length)
  {
    hide Pow2, CeilLog, HolderDepth;
    var c, e := CeilLog(region.length), HolderDepth(region, 0);
    HolderDepthIsLeast(region, 0, c);
    CeilLogIsLeast(region.length, c);
    CeilLogIsLeast(region.length, e);
    MultipleHasNoRemainder(0, Pow2(c));
    MultipleHasNoRemainder(0, Pow2(e));
  }

  /** Pages of a healthy allocator are free at most once. */
  lemma FreeOnce(b: Backend, held: seq<Region>, added: seq<Region>, limit: nat, page: int)
    requires Healthy(b, held, added, limit)
    ensures FreeCover(b.lists, page) <= 1
  {
    assert FreeCover(b.lists, page) + Cover(held, page) <= Cover(added, page) <= 1;
  }

  /** A reservation at the left end of a free block, in a healthy allocator. */
  lemma HealthyTakesLeft(b: Backend, held: seq<Region>, added: seq<Region>, limit: nat, region: Region, h: Handle)
    requires Healthy(b, held, added, limit) && limit < WORD && ValidHandle(b, h)
    requires 0 < region.length < 0x40_0000 && EndsInside(region)
    requires At(b, h).offset == region.offset && CeilLog(region.length) <= h.depth
    ensures Reserve(b, region) == TakenLeft(b, h, CeilLog(region.length))
    ensures CanReserve(b, region)
  {
    hide Reserve, TakenLeft, Accounted, Supply, CeilLog;
    FreeOnce(b, held, added, limit, region.offset);
    HealthyIsBounded(b, held, added, limit);
    ReserveTakesLeftOnce(b, region, h);
    RemoveNodeWellFormed(b, h);
    CeilLogIsLeast(region.length, h.depth);
    assert Inside(region, b.lists[h.depth][h.index]);
  }

  // -------------------------------------------------------------- the code

  const MANY_NODES: nat := 5 * MAX_DEPTH

  lemma AfterCode(s: System, code: nat, physNodes: nat, virtNodes: nat, base: nat, slots: nat)
    requires CodeFits(code) && physNodes > MANY_NODES && virtNodes > MANY_NODES
    requires base % L2_TABLE_BYTES == 0 && base + slots * L2_TABLE_BYTES <= WORD
    requires s == Boot(physNodes, virtNodes, base, slots)
    ensures Mmu.Ready(s.state) && AsPageRegion(CodeRegion(code)).length < 0x40_0000
    ensures EndingOf(s, CodeRegion(code), Identity).Done?
    ensures var t, n := Requested(s, CodeRegion(code), Identity), CodeDepth(code);
            && Inv(t) && BelowTheIndex(t) && t.maps == [Mapping(CodeBlock(code), CodeBlock(code))]
            && VirtFrom(t.state.virt, n) && PhysFrom(t.state.phys, n)
            && t.state.phys.nodes >= 4 * MAX_DEPTH - 2 && t.state.virt.nodes >= 4 * MAX_DEPTH - 2
  {
    hide Boot, Reserve, TakenLeft, Requested, EndingOf, BlockAround, CanReserve, Pow2, CeilLog, Accounted, Supply;
    BootInv(physNodes, virtNodes, base, slots);
    BootLists(physNodes, virtNodes, base, slots);
    BootMapsNothing(physNodes, virtNodes, base, slots);
    CodeBlockIs(code);
    var n, region, r := CodeDepth(code), Region(0, code * SECTION_PAGES), CodeBlock(code);
    HealthyTakesLeft(s.state.virt, Virts(s.maps), s.virtAdded, ADDRESS_PAGES, region, Handle(20, 0));
    CeilLogOf(Pow2(n), n);
    HealthyTakesLeft(s.state.phys, Physs(s.maps), s.physAdded, SLOTS, r, Handle(17, 0));
    IdentityRequest(s, CodeRegion(code));
    NodesLast(s, region, r);
    CodeTakesVirtual(s.state.virt, n);
    CodeTakesPhysical(s.state.phys, n);
    assert s.maps + [Mapping(r, r)] == [Mapping(r, r)];
  }

  // ----------------------------------------------------------- the devices

  /** Both allocators hold the pages of the devices; the physical one has them first in their list. */
  predicate DevicesFree(s: State) {
    && |s.phys.lists| == MAX_DEPTH && |s.virt.lists| == MAX_DEPTH
    && s.virt.lists[17] == [Region(0x2_0000, 0x2_0000)]
    && s.phys.lists[14] != [] && s.phys.lists[14][0] == DEVICE_PAGES
  }

  lemma DevicesAreFree(s: State, n: nat)
    requires VirtFrom(s.virt, n) && PhysFrom(s.phys, n) && n <= 17
    ensures DevicesFree(s)
  {
    Pow2Values();
  }

  lemma DevicesAreBlock()
    ensures AsPageRegion(DEVICES) == DEVICE_PAGES && BlockAround(DEVICE_PAGES) == DEVICE_PAGES
  {
    hide BlockAround, Pow2;
    Pow2Values();
    BlockHoldsItself(DEVICE_PAGES, 14);
  }

  lemma DevicesRequest(s: System)
    requires Inv(s) && BelowTheIndex(s) && DevicesFree(s.state)
    requires s.state.phys.nodes >= ENOUGH_NODES && s.state.virt.nodes >= ENOUGH_NODES
    ensures AsPageRegion(DEVICES).length < 0x40_0000 && EndingOf(s, DEVICES, Identity).Done?
    ensures var t := Requested(s, DEVICES, Identity);
            Inv(t) && t.maps == s.maps + [Mapping(DEVICE_PAGES, DEVICE_PAGES)]
  {
    hide Requested, EndingOf, BlockAround, Accounted, Supply, AsPageRegion;
    DevicesAreBlock();
    assert Inside(DEVICE_PAGES, s.state.virt.lists[17][0]) && Inside(DEVICE_PAGES, s.state.phys.lists[14][0]);
    IdentityRequest(s, DEVICES);
  }

  // ------------------------------------------------------------ the scratch

  /** The first free block from a section's depth on is the head of list d, and starts at a page. */
  predicate FirstFree(b: Backend, d: nat, page: nat) {
    && |b.lists| == MAX_DEPTH && SECTION_DEPTH <= d < MAX_DEPTH
    && b.lists[d] != [] && b.lists[d][0].offset == page
    && forall e | SECTION_DEPTH <= e < d :: b.lists[e] == []
  }

  lemma ScratchRequest(s: System, n: nat, dv: nat, dp: nat, page: nat)
    requires Inv(s) && BelowTheIndex(s) && n < L1_ENTRIES
    requires s.state.phys.nodes >= MAX_DEPTH && s.state.virt.nodes >= MAX_DEPTH
    requires SECTION_DEPTH <= dv < 17 && s.state.virt.lists[dv] != []
    requires s.state.virt.lists[dv][0].offset == n * SECTION_PAGES
    requires FirstFree(s.state.phys, dp, page)
    ensures AsPageRegion(Region(n, 1)).length < 0x40_0000 && EndingOf(s, Region(n, 1), Mixed).Done?
    ensures var t := Requested(s, Region(n, 1), Mixed);
            var v, p := OneSection(n), Region(page, SECTION_PAGES);
            && Inv(t) && BelowTheIndex(t) && t.maps == s.maps + [Mapping(v, p)]
            && (DevicesFree(s.state) && dp < 14 ==> DevicesFree(t.state))
            && t.state.phys.nodes + MAX_DEPTH >= s.state.phys.nodes
            && t.state.virt.nodes + MAX_DEPTH >= s.state.virt.nodes
  {
    hide Requested, EndingOf, BlockAround, Accounted, Supply, AsPageRegion, Reserve, Allocate, CeilLog, Depth;
    hide Pow2, TakenLeft;
    var v := OneSection(n);
    SectionIsBlock(n);
    HealthyTakesLeft(s.state.virt, Virts(s.maps), s.virtAdded, ADDRESS_PAGES, v, Handle(dv, 0));
    AllocateTakesLeft(s.state.phys, SECTION_PAGES, dp);
    TakenSection(s.state.phys, Handle(dp, 0));
    TakenSection(s.state.virt, Handle(dv, 0));
    MixedRequest(s, n, Region(page, SECTION_PAGES));
  }

  /** Taking a section from the left end of a block. */
  lemma TakenSection(b: Backend, h: Handle)
    requires ValidHandle(b, h) && SECTION_DEPTH <= h.depth && b.nodes >= MAX_DEPTH
    ensures var t := TakenLeft(b, h, SECTION_DEPTH);
            && t.region == Some(Region(At(b, h).offset, SECTION_PAGES))
            && |t.backend.lists| == MAX_DEPTH && t.backend.nodes + MAX_DEPTH >= b.nodes
            && (forall d | h.depth < d < MAX_DEPTH :: t.backend.lists[d] == b.lists[d])
            && (forall d | 0 <= d < SECTION_DEPTH :: t.backend.lists[d] == b.lists[d])
  {
    Pow2Values();
  }

  // ------------------------------------------------- the first-level table

  /** The table's section starts the second half of what the code left of a block of twice its size. */
  lemma L1AfterPower(s: System, k: nat)
    requires Inv(s) && BelowTheIndex(s) && k <= 8
    requires VirtFrom(s.state.virt, SECTION_DEPTH + k) && PhysFrom(s.state.phys, SECTION_DEPTH + k)
    requires s.state.phys.nodes >= 2 * MAX_DEPTH && s.state.virt.nodes >= 2 * MAX_DEPTH
    ensures var n := Pow2(k);
            && n < L1_ENTRIES && AsPageRegion(Region(n, 1)).length < 0x40_0000
            && EndingOf(s, Region(n, 1), Identity).Done?
            && var t := Requested(s, Region(n, 1), Identity);
               var r := OneSection(n);
               && Inv(t) && BelowTheIndex(t) && t.maps == s.maps + [Mapping(r, r)] && DevicesFree(t.state)
               && (var d := if k == 0 then 9 else 8;
                   && FirstFree(t.state.phys, d, (n + 1) * SECTION_PAGES)
                   && FirstFree(t.state.virt, d, (n + 1) * SECTION_PAGES))
               && t.state.phys.nodes + MAX_DEPTH >= s.state.phys.nodes
               && t.state.virt.nodes + MAX_DEPTH >= s.state.virt.nodes
  {
    hide Requested, EndingOf, BlockAround, Accounted, Supply, AsPageRegion, Reserve, CeilLog, Depth, TakenLeft;
    hide Pow2, CanReserve, VirtFrom, PhysFrom, FirstFree, Inv;
    var n, e := Pow2(k), SECTION_DEPTH + k;
    Pow2Values();
    Pow2Monotone(k, 8);
    SectionIsBlock(n);
    DevicesAreFree(s.state, e);
    var r := OneSection(n);
    var hv, hp := Handle(e, 0), Handle(e, if k == 6 then 1 else 0);
    L1Handles(s.state, k);
    InvIsHealthy(s);
    HealthyTakesLeft(s.state.virt, Virts(s.maps), s.virtAdded, ADDRESS_PAGES, r, hv);
    HealthyTakesLeft(s.state.phys, Physs(s.maps), s.physAdded, SLOTS, r, hp);
    IdentityRequest(s, Region(n, 1));
    TakenSection(s.state.virt, hv);
    TakenSection(s.state.phys, hp);
    VirtAfterL1(s.state.virt, k);
    PhysAfterL1(s.state.phys, k);
  }

  lemma InvIsHealthy(s: System)
    requires Inv(s)
    ensures BothHealthy(s)
  {
  }

  /** Where the blocks are that the table's section starts. */
  lemma L1Handles(s: State, k: nat)
    requires VirtFrom(s.virt, SECTION_DEPTH + k) && PhysFrom(s.phys, SECTION_DEPTH + k) && k <= 8
    ensures var e, offset := SECTION_DEPTH + k, Pow2(k) * SECTION_PAGES;
            var hv, hp := Handle(e, 0), Handle(e, if k == 6 then 1 else 0);
            && ValidHandle(s.virt, hv) && At(s.virt, hv).offset == offset
            && ValidHandle(s.phys, hp) && At(s.phys, hp).offset == offset
  {
    hide Pow2;
    Pow2Shift(k);
  }

  lemma VirtAfterL1(b: Backend, k: nat)
    requires VirtFrom(b, SECTION_DEPTH + k) && k <= 8 && b.nodes >= MAX_DEPTH
    ensures var t := TakenLeft(b, Handle(SECTION_DEPTH + k, 0), SECTION_DEPTH).backend;
            FirstFree(t, if k == 0 then 9 else 8, (Pow2(k) + 1) * SECTION_PAGES)
  {
    hide Pow2;
    Pow2Shift(k);
    Pow2Shift(1);
    Pow2Shift(0);
    assert Pow2(0) == 1 && Pow2(1) == 2 by { SmallPowers(); }
  }

  lemma PhysAfterL1(b: Backend, k: nat)
    requires PhysFrom(b, SECTION_DEPTH + k) && k <= 8 && b.nodes >= MAX_DEPTH
    ensures var t := TakenLeft(b, Handle(SECTION_DEPTH + k, if k == 6 then 1 else 0), SECTION_DEPTH).backend;
            && FirstFree(t, if k == 0 then 9 else 8, (Pow2(k) + 1) * SECTION_PAGES)
            && t.lists[14] != [] && t.lists[14][0] == DEVICE_PAGES
  {
    hide Pow2, FirstFree;
    PhysFirstAfterL1(b, k);
  }

  lemma PhysFirstAfterL1(b: Backend, k: nat)
    requires PhysFrom(b, SECTION_DEPTH + k) && k <= 8 && b.nodes >= MAX_DEPTH
    ensures var t := TakenLeft(b, Handle(SECTION_DEPTH + k, if k == 6 then 1 else 0), SECTION_DEPTH).backend;
            FirstFree(t, if k == 0 then 9 else 8, (Pow2(k) + 1) * SECTION_PAGES)
  {
    hide Pow2;
    Pow2Shift(k);
    Pow2Shift(1);
    Pow2Shift(0);
    assert Pow2(0) == 1 && Pow2(1) == 2 by { SmallPowers(); }
  }

  // ------------------------------------------------------ all four requests

  /** The states before, between and after the four requests. */
  datatype Trace = Trace(start: System, code: System, table: System, scratch: System, end: System)

  /** The second-level tables lie in the second half of the scratch section. */
  function TableBase(code: nat): nat {
    ((code + 1) * SECTION_PAGES + 128) * PAGE_SIZE
  }

  const TABLE_SLOTS: nat := 512

  lemma TableBaseFits(code: nat)
    requires CodeFits(code)
    ensures TableBase(code) % L2_TABLE_BYTES == 0 && TableBase(code) + TABLE_SLOTS * L2_TABLE_BYTES <= WORD
  {
    MultipleHasNoRemainder(((code + 1) * SECTION_PAGES + 128) * 4, L2_TABLE_BYTES);
  }

  lemma RequestsAreShort(code: nat)
    requires CodeFits(code)
    ensures AsPageRegion(CodeRegion(code)) == Region(0, code * SECTION_PAGES)
    ensures AsPageRegion(L1Region(code)) == OneSection(code)
    ensures AsPageRegion(ScratchRegion(code)) == OneSection(code + 1)
    ensures AsPageRegion(DEVICES) == DEVICE_PAGES
  {
    hide AsPageRegion;
    SectionsAsPages(CodeRegion(code));
    SectionsAsPages(L1Region(code));
    SectionsAsPages(ScratchRegion(code));
    SectionsAsPages(DEVICES);
  }

  /** init_page_tables for code of so many sections. */
  function InitRun(code: nat, physNodes: nat, virtNodes: nat): (t: Trace)
    requires CodeFits(code)
    ensures Mmu.Ready(t.start.state) && Mmu.Ready(t.code.state) && Mmu.Ready(t.table.state)
    ensures Mmu.Ready(t.scratch.state) && Mmu.Ready(t.end.state)
  {
    TableBaseFits(code);
    BootInv(physNodes, virtNodes, TableBase(code), TABLE_SLOTS);
    RequestsAreShort(code);
    var s := Boot(physNodes, virtNodes, TableBase(code), TABLE_SLOTS);
    var s1 := Requested(s, CodeRegion(code), Identity);
    var s2 := Requested(s1, L1Region(code), Identity);
    var s3 := Requested(s2, ScratchRegion(code), Mixed);
    Trace(s, s1, s2, s3, Requested(s3, DEVICES, Identity))
  }

  /** Every byte of the region's pages translates to itself. */
  ghost predicate KeepsItsPlace(t: Tables, r: Region)
    requires Consistent(t)
  {
    forall address: nat | r.Has(address / PAGE_SIZE) :: Translate(t, address) == Some(address)
  }

  lemma MappedInPlace(s: System, i: nat, r: Region)
    requires Inv(s) && i < |s.maps| && s.maps[i].v == s.maps[i].p && Inside(r, s.maps[i].v)
    ensures KeepsItsPlace(s.state.tables, r)
  {
    hide Translate, MapOf;
    forall address: nat | r.Has(address / PAGE_SIZE) ensures Translate(s.state.tables, address) == Some(address) {
      InvMaps(s, i, address / PAGE_SIZE);
      TranslateIsLookup(s.state.tables, address / PAGE_SIZE, address % PAGE_SIZE);
    }
  }

  predicate PowerOfTwo(n: nat) {
    n == Pow2(CeilLog(n))
  }

  /** The sizes of code for which the scratch section is the first of a block at or above the devices' size. */
  predicate Unlucky(code: nat) {
    code == 63 || code == 127 || code == 255
  }

  /** What is known after the request for the code. */
  ghost predicate CodeDone(s: System, code: nat)
    requires CodeFits(code)
  {
    && Inv(s) && BelowTheIndex(s) && s.maps == [Mapping(CodeBlock(code), CodeBlock(code))]
    && VirtFrom(s.state.virt, CodeDepth(code)) && PhysFrom(s.state.phys, CodeDepth(code))
    && s.state.phys.nodes >= 4 * MAX_DEPTH - 2 && s.state.virt.nodes >= 4 * MAX_DEPTH - 2
  }

  lemma InvIsReady(s: System)
    requires Inv(s)
    ensures Mmu.Ready(s.state)
  {
  }

  /** Code of a power of two sections: all requests are granted. */
  lemma PowerCase(s: System, code: nat)
    requires CodeFits(code) && CodeDone(s, code) && PowerOfTwo(code)
    ensures AsPageRegion(L1Region(code)).length < 0x40_0000 && AsPageRegion(ScratchRegion(code)).length < 0x40_0000
    ensures AsPageRegion(DEVICES).length < 0x40_0000
    ensures var s2 := Requested(s, L1Region(code), Identity);
            var s3 := Requested(s2, ScratchRegion(code), Mixed);
            var s4 := Requested(s3, DEVICES, Identity);
            && EndingOf(s, L1Region(code), Identity).Done? && EndingOf(s2, ScratchRegion(code), Mixed).Done?
            && EndingOf(s3, DEVICES, Identity).Done? && Inv(s4)
            && var l, r := OneSection(code), OneSection(code + 1);
               s4.maps == s.maps + [Mapping(l, l), Mapping(r, r), Mapping(DEVICE_PAGES, DEVICE_PAGES)]
  {
    hide Requested, EndingOf, Inv, BelowTheIndex, VirtFrom, PhysFrom, Pow2, CeilLog, AsPageRegion, FirstFree;
    hide DevicesFree;
    RequestsAreShort(code);
    InvIsReady(s);
    var k := CeilLog(code);
    PowerDepth(code);
    L1AfterPower(s, k);
    var s2 := Requested(s, L1Region(code), Identity);
    var d := if k == 0 then 9 else 8;
    FirstOf(s2.state.virt, d, (code + 1) * SECTION_PAGES);
    ScratchRequest(s2, code + 1, d, d, (code + 1) * SECTION_PAGES);
    var s3 := Requested(s2, ScratchRegion(code), Mixed);
    DevicesRequest(s3);
    var l, r := OneSection(code), OneSection(code + 1);
    var m, n, o := Mapping(l, l), Mapping(r, r), Mapping(DEVICE_PAGES, DEVICE_PAGES);
    assert s.maps + [m] + [n] + [o] == s.maps + [m, n, o];
  }

  lemma FirstOf(b: Backend, d: nat, page: nat)
    requires FirstFree(b, d, page)
    ensures |b.lists| == MAX_DEPTH && SECTION_DEPTH <= d < MAX_DEPTH
    ensures b.lists[d] != [] && b.lists[d][0].offset == page
  {
  }

  lemma PowerDepth(code: nat)
    requires CodeFits(code) && PowerOfTwo(code)
    ensures CeilLog(code) <= 8
  {
    SmallPowers();
    if CeilLog(code) > 8 {
      Pow2Monotone(9, CeilLog(code));
    }
  }

  lemma BetweenPowers(code: nat)
    requires CodeFits(code) && !PowerOfTwo(code)
    ensures var k := CeilLog(code);
            && code < Pow2(k) && 1 < k <= 9
            && (code + 1 == Pow2(k) ==> k <= 8) && (PowerOfTwo(code + 1) <==> code + 1 == Pow2(k))
            && CodeBlock(code).length == Pow2(k) * SECTION_PAGES && CodeDepth(code) == SECTION_DEPTH + k
            && (code + 1 == Pow2(k) ==> (Unlucky(code) <==> k >= 6))
            && (Unlucky(code) ==> code + 1 == Pow2(k))
  {
    hide Pow2, CeilLog;
    var k := CeilLog(code);
    Powers();
    CeilLogIsLeast(code, k);
    CeilLogIsLeast(code, 9);
    CeilLogIsLeast(code, 1);
    CeilLogIsLeast(code, 0);
    CeilLogIsLeast(code + 1, k);
    CeilLogIsLeast(code, CeilLog(code + 1));
    Pow2Shift(k);
    UnluckyDepth(code, k);
  }

  lemma Powers()
    ensures Pow2(0) == 1 && Pow2(1) == 2 && Pow2(2) == 4 && Pow2(3) == 8 && Pow2(4) == 16 && Pow2(5) == 32
    ensures Pow2(6) == 64 && Pow2(7) == 128 && Pow2(8) == 256 && Pow2(9) == 512
  {
    Pow2Values();
  }

  lemma UnluckyDepth(code: nat, k: nat)
    requires k == CeilLog(code) <= 9 && code > 2 && code + 2 <= 512
    ensures code + 1 == Pow2(k) ==> k <= 8 && (Unlucky(code) <==> k >= 6)
    ensures Unlucky(code) ==> code + 1 == Pow2(k)
  {
    hide Pow2, CeilLog;
    Powers();
    CeilLogIsLeast(code, 5);
    CeilLogIsLeast(code, 6);
    CeilLogIsLeast(code, 7);
    CeilLogIsLeast(code, 8);
    if code + 1 == Pow2(k) && k < 6 {
      Pow2Monotone(k, 5);
    }
  }

  /** Code of another size, with a section to spare in its block: table and scratch lie in the block. */
  lemma RoomyCase(s: System, code: nat)
    requires CodeFits(code) && CodeDone(s, code) && !PowerOfTwo(code) && !PowerOfTwo(code + 1)
    ensures AsPageRegion(L1Region(code)).length < 0x40_0000 && AsPageRegion(ScratchRegion(code)).length < 0x40_0000
    ensures AsPageRegion(DEVICES).length < 0x40_0000 && Mmu.Ready(s.state)
    ensures var s4 := Requested(s, DEVICES, Identity);
            && EndingOf(s, L1Region(code), Identity) == Refused && Requested(s, L1Region(code), Identity) == s
            && EndingOf(s, ScratchRegion(code), Mixed) == Refused && Requested(s, ScratchRegion(code), Mixed) == s
            && EndingOf(s, DEVICES, Identity).Done? && Inv(s4)
            && s4.maps == s.maps + [Mapping(DEVICE_PAGES, DEVICE_PAGES)]
    ensures (code + 2) * SECTION_PAGES <= CodeBlock(code).length
  {
    hide Requested, EndingOf, Inv, BelowTheIndex, VirtFrom, PhysFrom, Pow2, CeilLog, AsPageRegion, DevicesFree;
    hide PowerOfTwo;
    RequestsAreShort(code);
    InvIsReady(s);
    BetweenPowers(code);
    RefusedRequest(s, L1Region(code), Identity, 0, code * SECTION_PAGES);
    RefusedRequest(s, ScratchRegion(code), Mixed, 0, (code + 1) * SECTION_PAGES);
    DevicesAreFree(s.state, CodeDepth(code));
    DevicesRequest(s);
  }

  /** Code of one section less than a power of two: the scratch section is mapped after the code's block. */
  lemma TightCase(s: System, code: nat)
    requires CodeFits(code) && CodeDone(s, code) && !PowerOfTwo(code) && PowerOfTwo(code + 1)
    ensures AsPageRegion(L1Region(code)).length < 0x40_0000 && AsPageRegion(ScratchRegion(code)).length < 0x40_0000
    ensures AsPageRegion(DEVICES).length < 0x40_0000 && Mmu.Ready(s.state)
    ensures (code + 1) * SECTION_PAGES == CodeBlock(code).length
    ensures EndingOf(s, L1Region(code), Identity) == Refused && Requested(s, L1Region(code), Identity) == s
    ensures var s3 := Requested(s, ScratchRegion(code), Mixed);
            var s4 := Requested(s3, DEVICES, Identity);
            var v := OneSection(code + 1);
            && EndingOf(s, ScratchRegion(code), Mixed).Done? && Inv(s4)
            && (!Unlucky(code) ==>
                  && EndingOf(s3, DEVICES, Identity).Done?
                  && s4.maps == s.maps + [Mapping(v, v), Mapping(DEVICE_PAGES, DEVICE_PAGES)])
            && (Unlucky(code) ==>
                  && EndingOf(s3, DEVICES, Identity) == Refused
                  && s4.maps == s.maps + [Mapping(v, Region(DEVICE_PAGES.offset, SECTION_PAGES))])
  {
    hide Requested, EndingOf, Inv, BelowTheIndex, VirtFrom, PhysFrom, Pow2, CeilLog, AsPageRegion, DevicesFree;
    hide PowerOfTwo, Unlucky;
    RequestsAreShort(code);
    InvIsReady(s);
    BetweenPowers(code);
    RefusedRequest(s, L1Region(code), Identity, 0, code * SECTION_PAGES);
    var n := CodeDepth(code);
    var v := OneSection(code + 1);
    var page := if Unlucky(code) then DEVICE_PAGES.offset else v.offset;
    AfterTheBlock(s.state, code);
    ScratchRequest(s, code + 1, n, if Unlucky(code) then 14 else n, page);
    var s3 := Requested(s, ScratchRegion(code), Mixed);
    var m := Mapping(v, Region(page, SECTION_PAGES));
    if Unlucky(code) {
      DevicesTaken(s3, |s.maps|);
    } else {
      DevicesAreFree(s.state, n);
      DevicesRequest(s3);
      assert s.maps + [m] + [Mapping(DEVICE_PAGES, DEVICE_PAGES)] == s.maps + [m, Mapping(DEVICE_PAGES, DEVICE_PAGES)];
    }
  }

  /** The first blocks from a section's size on, when the code's block ends where the scratch section starts. */
  lemma AfterTheBlock(s: State, code: nat)
    requires CodeFits(code) && !PowerOfTwo(code) && PowerOfTwo(code + 1)
    requires VirtFrom(s.virt, CodeDepth(code)) && PhysFrom(s.phys, CodeDepth(code))
    ensures var n, page := CodeDepth(code), (code + 1) * SECTION_PAGES;
            && SECTION_DEPTH <= n < 17 && s.virt.lists[n] != [] && s.virt.lists[n][0].offset == page
            && (Unlucky(code) ==> FirstFree(s.phys, 14, DEVICE_PAGES.offset))
            && (!Unlucky(code) ==> n < 14 && FirstFree(s.phys, n, page))
  {
    hide PowerOfTwo, Unlucky, Pow2, CeilLog;
    BetweenPowers(code);
  }

  /** Once some page of the devices is handed out, the request for them is refused. */
  lemma DevicesTaken(s: System, i: nat)
    requires Inv(s) && s.state.phys.nodes >= ENOUGH_NODES && s.state.virt.nodes >= ENOUGH_NODES
    requires i < |s.maps| && s.maps[i].p == Region(DEVICE_PAGES.offset, SECTION_PAGES)
    ensures AsPageRegion(DEVICES).length < 0x40_0000 && EndingOf(s, DEVICES, Identity) == Refused
    ensures var t := Requested(s, DEVICES, Identity); Inv(t) && t.maps == s.maps
  {
    hide Requested, EndingOf, BlockAround, Accounted, Supply, AsPageRegion, CanReserve;
    DevicesAreBlock();
    PhysicalNotFree(s, i, DEVICE_PAGES.offset);
    TakenCannotBeReserved(s.state.phys, DEVICE_PAGES, DEVICE_PAGES.offset);
    RefusedForPhysical(s, DEVICES);
  }

  lemma PhysicalNotFree(s: System, i: nat, page: nat)
    requires BothHealthy(s) && i < |s.maps| && s.maps[i].p.Has(page)
    ensures FreeCover(s.state.phys.lists, page) == 0
  {
    CoverSplitAt(Physs(s.maps), i, page);
    assert FreeCover(s.state.phys.lists, page) + Cover(Physs(s.maps), page) <= Cover(s.physAdded, page) <= 1;
  }

  /** In the unlucky cases the scratch section is mapped onto the devices, which are not mapped themselves. */
  lemma UnluckyMaps(s: System, code: nat)
    requires CodeFits(code) && Unlucky(code) && Inv(s)
    requires CodeBlock(code).length == (code + 1) * SECTION_PAGES
    requires s.maps == [Mapping(CodeBlock(code), CodeBlock(code)),
                        Mapping(OneSection(code + 1),
                                Region(DEVICE_PAGES.offset, SECTION_PAGES))]
    ensures !KeepsItsPlace(s.state.tables, OneSection(code + 1))
    ensures !KeepsItsPlace(s.state.tables, DEVICE_PAGES)
  {
    hide Translate, MapOf, Inv;
    InvIsReady(s);
    var t, page, device := s.state.tables, (code + 1) * SECTION_PAGES, DEVICE_PAGES.offset;
    InvMaps(s, 1, page);
    TranslateIsLookup(t, page, 0);
    assert Translate(t, page * PAGE_SIZE) != Some(page * PAGE_SIZE);
    Unmapped(s, device);
    assert Translate(t, device * PAGE_SIZE) == None && DEVICE_PAGES.Has(device * PAGE_SIZE / PAGE_SIZE);
  }

  /** A page below the index that nobody holds has no translation. */
  lemma Unmapped(s: System, page: nat)
    requires Inv(s) && BelowTheIndex(s) && page < SLOTS
    requires forall i | 0 <= i < |s.maps| :: !s.maps[i].v.Has(page)
    ensures Mmu.Ready(s.state) && Translate(s.state.tables, page * PAGE_SIZE) == None
  {
    hide Translate;
    MapsOfTaken(s.maps, page);
    forall i | 0 <= i < |s.maps| ensures !Takes(s.maps[i].v, page) {
      TakesBelow(s.maps[i].v, page);
    }
    assert SlotOf(page) == page;
    TranslateIsLookup(s.state.tables, page, 0);
  }

  /** The three regions that a lucky run maps in place, given the mappings after the code's. */
  lemma LuckyMaps(s: System, code: nat, m: seq<Mapping>)
    requires CodeFits(code) && Inv(s) && s.maps == [Mapping(CodeBlock(code), CodeBlock(code))] + m && m != []
    requires m[|m| - 1] == Mapping(DEVICE_PAGES, DEVICE_PAGES)
    requires var l, r := OneSection(code), OneSection(code + 1);
             && (Inside(l, CodeBlock(code)) || m[0] == Mapping(l, l))
             && (Inside(r, CodeBlock(code)) || m[0] == Mapping(r, r) || (|m| > 1 && m[1] == Mapping(r, r)))
    ensures KeepsItsPlace(s.state.tables, OneSection(code))
    ensures KeepsItsPlace(s.state.tables, OneSection(code + 1))
    ensures KeepsItsPlace(s.state.tables, DEVICE_PAGES)
  {
    hide KeepsItsPlace, CodeBlock, Inv;
    InvIsReady(s);
    var l, r := OneSection(code), OneSection(code + 1);
    var c := CodeBlock(code);
    MappedInPlace(s, if Inside(l, c) then 0 else 1, l);
    MappedInPlace(s, if Inside(r, c) then 0 else if m[0] == Mapping(r, r) then 1 else 2, r);
    MappedInPlace(s, |m|, DEVICE_PAGES);
  }

  /**
   What init_page_tables has done, for every size of code that fits: which of its four
   requests are refused, and that every byte of the code, the first-level table, the scratch
   section and the devices translates to itself, except for code of 63, 127 or 255 sections.
   Then the scratch section is mapped onto the devices, and the devices are not mapped.
   */
  lemma InitMapsTheKernel(code: nat, physNodes: nat, virtNodes: nat)
    requires CodeFits(code) && physNodes > MANY_NODES && virtNodes > MANY_NODES
    ensures AsPageRegion(CodeRegion(code)).length < 0x40_0000 && AsPageRegion(L1Region(code)).length < 0x40_0000
    ensures AsPageRegion(ScratchRegion(code)).length < 0x40_0000 && AsPageRegion(DEVICES).length < 0x40_0000
    ensures var t := InitRun(code, physNodes, virtNodes);
            var tables := t.end.state.tables;
            && EndingOf(t.start, CodeRegion(code), Identity).Done?
            && (var e := EndingOf(t.code, L1Region(code), Identity);
                if PowerOfTwo(code) then e.Done? else e == Refused)
            && (var e := EndingOf(t.table, ScratchRegion(code), Mixed);
                if PowerOfTwo(code) || PowerOfTwo(code + 1) then e.Done? else e == Refused)
            && (var e := EndingOf(t.scratch, DEVICES, Identity);
                if Unlucky(code) then e == Refused else e.Done?)
            && Inv(t.end)
            && KeepsItsPlace(tables, Region(0, code * SECTION_PAGES))
            && KeepsItsPlace(tables, OneSection(code))
            && (KeepsItsPlace(tables, OneSection(code + 1)) <==> !Unlucky(code))
            && (KeepsItsPlace(tables, DEVICE_PAGES) <==> !Unlucky(code))
  {
    hide Requested, EndingOf, Inv, Boot, KeepsItsPlace, Unlucky, PowerOfTwo, CodeDone, AsPageRegion;
    TableBaseFits(code);
    RequestsAreShort(code);
    var t := InitRun(code, physNodes, virtNodes);
    FirstIsDone(t.start, code, physNodes, virtNodes);
    InitCases(t.code, code);
  }

  lemma FirstIsDone(s: System, code: nat, physNodes: nat, virtNodes: nat)
    requires CodeFits(code) && physNodes > MANY_NODES && virtNodes > MANY_NODES
    requires s == Boot(physNodes, virtNodes, TableBase(code), TABLE_SLOTS)
    ensures Mmu.Ready(s.state) && AsPageRegion(CodeRegion(code)).length < 0x40_0000
    ensures EndingOf(s, CodeRegion(code), Identity).Done? && CodeDone(Requested(s, CodeRegion(code), Identity), code)
  {
    hide Requested, EndingOf, Inv, Boot, AsPageRegion;
    TableBaseFits(code);
    AfterCode(s, code, physNodes, virtNodes, TableBase(code), TABLE_SLOTS);
  }

  /** The other three requests, and what they leave. */
  lemma InitCases(s: System, code: nat)
    requires CodeFits(code) && CodeDone(s, code)
    ensures Mmu.Ready(s.state) && AsPageRegion(L1Region(code)).length < 0x40_0000
    ensures AsPageRegion(ScratchRegion(code)).length < 0x40_0000 && AsPageRegion(DEVICES).length < 0x40_0000
    ensures var s2 := Requested(s, L1Region(code), Identity);
            var s3 := Requested(s2, ScratchRegion(code), Mixed);
            var s4 := Requested(s3, DEVICES, Identity);
            && (var e := EndingOf(s, L1Region(code), Identity);
                if PowerOfTwo(code) then e.Done? else e == Refused)
            && (var e := EndingOf(s2, ScratchRegion(code), Mixed);
                if PowerOfTwo(code) || PowerOfTwo(code + 1) then e.Done? else e == Refused)
            && (var e := EndingOf(s3, DEVICES, Identity);
                if Unlucky(code) then e == Refused else e.Done?)
            && Inv(s4)
            && KeepsItsPlace(s4.state.tables, Region(0, code * SECTION_PAGES))
            && KeepsItsPlace(s4.state.tables, OneSection(code))
            && (KeepsItsPlace(s4.state.tables, OneSection(code + 1)) <==> !Unlucky(code))
            && (KeepsItsPlace(s4.state.tables, DEVICE_PAGES) <==> !Unlucky(code))
  {
    hide Requested, EndingOf, Inv, KeepsItsPlace, Unlucky, PowerOfTwo, VirtFrom, PhysFrom, AsPageRegion, CodeBlock;
    CodeBlockIs(code);
    RequestsAreShort(code);
    InvIsReady(s);
    LuckyUnlessTight(code);
    var l, r := OneSection(code), OneSection(code + 1);
    var m := Mapping(DEVICE_PAGES, DEVICE_PAGES);
    var s3 := Requested(Requested(s, L1Region(code), Identity), ScratchRegion(code), Mixed);
    var s4 := Requested(s3, DEVICES, Identity);
    if PowerOfTwo(code) {
      PowerCase(s, code);
      LuckyMaps(s4, code, [Mapping(l, l), Mapping(r, r), m]);
    } else if PowerOfTwo(code + 1) {
      TightCase(s, code);
      if Unlucky(code) {
        UnluckyMaps(s4, code);
        TableInBlock(s4, code);
      } else {
        LuckyMaps(s4, code, [Mapping(r, r), m]);
      }
    } else {
      RoomyCase(s, code);
      LuckyMaps(s4, code, [m]);
    }
    MappedInPlace(s4, 0, Region(0, code * SECTION_PAGES));
  }

  lemma TableInBlock(s: System, code: nat)
    requires Inv(s) && s.maps != [] && s.maps[0] == Mapping(CodeBlock(code), CodeBlock(code))
    requires CodeBlock(code).length == (code + 1) * SECTION_PAGES
    ensures KeepsItsPlace(s.state.tables, OneSection(code))
  {
    hide KeepsItsPlace, Inv;
    InvIsReady(s);
    MappedInPlace(s, 0, OneSection(code));
  }

  lemma LuckyUnlessTight(code: nat)
    requires CodeFits(code)
    ensures Unlucky(code) ==> !PowerOfTwo(code) && PowerOfTwo(code + 1)
  {
    if Unlucky(code) {
      Powers();
      CeilLogOf(code + 1, if code == 63 then 6 else if code == 127 then 7 else 8);
      OddIsNoPower(code);
    }
  }

  lemma OddIsNoPower(n: nat)
    requires n % 2 == 1 && n > 1
    ensures !PowerOfTwo(n)
  {
    CeilLogIsLeast(n, 0);
  }
}
