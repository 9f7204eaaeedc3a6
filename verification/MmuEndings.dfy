/**
 How a request to the memory-management unit's page allocator ends, exactly, in terms of
 its arguments and the state it is made in, for any number of nodes and tables left.
 */
module MmuEndings {
  import opened TwoMath
  import opened Regions
  import opened PageBackend
  import opened AlignedBlocks
  import opened PageLedger
  import opened PageTable
  import opened Mmu
  import opened MmuRuns

  // ------------------------------------------- when a region request is granted

  /** The block that a granted reservation gives: around the region, at the depth where trimming stops. */
  function GrantedBlock(b: Backend, region: Region): Region
    requires |b.lists| == MAX_DEPTH && region.length < 0x40_0000
  {
    BlockAt(region, ReservedDepth(b, region))
  }

  /** The physical region that a granted region request gives for the virtual region v. */
  function PhysicalGrant(s: State, region: Region, v: Region, backing: Backing): Option<Region>
    requires WellFormed(s.phys) && region.length < 0x40_0000 && v.length < 0x40_0000
  {
    match backing
    case Mixed => Allocate(s.phys, region.length, 1).region
    case Identity => Some(GrantedBlock(s.phys, v))
  }

  /** The state can grant a region request: what each of the two allocators must hold. */
  ghost predicate Grants(s: State, region: Region, backing: Backing)
    requires |s.phys.lists| == MAX_DEPTH && |s.virt.lists| == MAX_DEPTH && region.length < 0x40_0000
  {
    var v := GrantedBlock(s.virt, region);
    && CanReserve(s.virt, region) && v.length < ADDRESS_PAGES
    && if backing == Mixed then CanAllocate(s.phys, region.length, 1) else CanReserve(s.phys, v)
  }

  /** Trimming stops at one depth in both allocators. */
  predicate SameDepth(s: State, region: Region, backing: Backing)
    requires |s.phys.lists| == MAX_DEPTH && |s.virt.lists| == MAX_DEPTH && region.length < 0x40_0000
  {
    var v := GrantedBlock(s.virt, region);
    && v.length < ADDRESS_PAGES
    && ReservedDepth(s.virt, region)
       == match backing
          case Mixed => AllocatedDepth(s.phys, region.length, 1)
          case Identity => ReservedDepth(s.phys, v)
  }

  lemma VirtGrant(s: System, region: Region)
    requires BothHealthy(s) && 0 < region.length < 0x40_0000 && EndsInside(region)
    ensures var virt := ToAllocation(Reserve(s.state.virt, region).region);
            var v := GrantedBlock(s.state.virt, region);
            && (!virt.IsNull() <==> CanReserve(s.state.virt, region) && v.length < ADDRESS_PAGES)
            && (!virt.IsNull() ==>
                  RegionOf(virt) == v && BlockBelow(v, ADDRESS_PAGES) && Block(v, ReservedDepth(s.state.virt, region)))
  {
    hide Reserve, CanReserve, Accounted, Supply, BlockAt, PassesTheTest, ReservedDepth;
    var v := Reserve(s.state.virt, region);
    HealthyIsBounded(s.state.virt, Virts(s.maps), s.virtAdded, ADDRESS_PAGES);
    ReserveExact(s.state.virt, region);
    ReserveHealthy(s.state.virt, Virts(s.maps), s.virtAdded, ADDRESS_PAGES, region);
    if v.region.Some? {
      ReserveGivesDepth(s.state.virt, region);
      NullExactly(v.region.value);
      if !ToAllocation(v.region).IsNull() {
        ReportedWhole(v.region);
      }
    }
  }

  lemma PhysGrant(s: System, region: Region, v: Region, backing: Backing)
    requires BothHealthy(s)
    requires region.length < 0x40_0000 && BlockBelow(v, ADDRESS_PAGES) && v.length < ADDRESS_PAGES
    ensures var p := if backing == Mixed then Allocate(s.state.phys, region.length, 1) else Reserve(s.state.phys, v);
            var phys := ToAllocation(p.region);
            && (!phys.IsNull() <==> if backing == Mixed then CanAllocate(s.state.phys, region.length, 1)
                                    else CanReserve(s.state.phys, v))
            && (!phys.IsNull() ==> PhysicalGrant(s.state, region, v, backing) == Some(RegionOf(phys)))
            && (!phys.IsNull() ==>
                  Block(RegionOf(phys), if backing == Mixed then AllocatedDepth(s.state.phys, region.length, 1)
                                        else ReservedDepth(s.state.phys, v)))
  {
    hide Reserve, Allocate, CanReserve, CanAllocate, Accounted, Supply, PassesTheTest, AllocatedDepth, ReservedDepth;
    if backing == Mixed {
      AllocateExact(s.state.phys, region.length, 1);
      AllocateHealthy(s.state.phys, Physs(s.maps), s.physAdded, SLOTS, region.length, 1);
      var p := Allocate(s.state.phys, region.length, 1).region;
      if p.Some? {
        AllocateGivesDepth(s.state.phys, region.length, 1);
        NullExactly(p.value);
        ReportedWhole(p);
      }
    } else {
      HealthyIsBounded(s.state.phys, Physs(s.maps), s.physAdded, SLOTS);
      ReserveExact(s.state.phys, v);
      ReserveHealthy(s.state.phys, Physs(s.maps), s.physAdded, SLOTS, v);
      var p := Reserve(s.state.phys, v).region;
      if p.Some? {
        ReserveGivesDepth(s.state.phys, v);
        NullExactly(p.value);
        ReportedWhole(p);
      }
    }
  }

  /**
   A region request is granted exactly when the two allocators hold what it needs; its
   virtual region is then the block around the region where trimming stops, and its two
   regions are of one length exactly if trimming stops at one depth.
   */
  lemma RegionGrant(s: System, region: Region, backing: Backing)
    requires BothHealthy(s) && 0 < region.length < 0x40_0000 && EndsInside(region)
    ensures var a := TryReserveRegion(s.state, region, backing);
            && (!a.phys.IsNull() <==> Grants(s.state, region, backing))
            && (!a.phys.IsNull() ==>
                  && RegionOf(a.virt) == GrantedBlock(s.state.virt, region)
                  && PhysicalGrant(s.state, region, RegionOf(a.virt), backing) == Some(RegionOf(a.phys))
                  && (RegionOf(a.virt).length == RegionOf(a.phys).length <==> SameDepth(s.state, region, backing)))
  {
    hide Reserve, Allocate, CanReserve, CanAllocate, Accounted, Supply, BlockBelow, GrantedBlock;
    hide AllocatedDepth, ReservedDepth;
    VirtGrant(s, region);
    var virt := ToAllocation(Reserve(s.state.virt, region).region);
    if !virt.IsNull() {
      RegionOfIsShort(virt);
      var v := RegionOf(virt);
      PhysGrant(s, region, v, backing);
      var p := if backing == Mixed then Allocate(s.state.phys, region.length, 1) else Reserve(s.state.phys, v);
      if !ToAllocation(p.region).IsNull() {
        DepthOrder(v, ReservedDepth(s.state.virt, region), RegionOf(ToAllocation(p.region)),
                   if backing == Mixed then AllocatedDepth(s.state.phys, region.length, 1)
                   else ReservedDepth(s.state.phys, v));
      }
    }
  }

  /** With enough nodes, the block granted and the equality of depths follow from the arguments. */
  lemma EnoughNodes(s: System, region: Region, backing: Backing)
    requires BothHealthy(s) && s.state.phys.nodes >= ENOUGH_NODES && s.state.virt.nodes >= ENOUGH_NODES
    requires 0 < region.length < 0x40_0000 && EndsInside(region) && Grants(s.state, region, backing)
    ensures GrantedBlock(s.state.virt, region) == BlockAround(region)
    ensures SameDepth(s.state, region, backing) <==> backing == Identity || FitsOneBlock(region)
  {
    hide CanReserve, CanAllocate, AllocatedDepth, ReservedDepth, Accounted, Supply, HolderDepth, FitsOneBlock, BlockAt;
    HealthyIsBounded(s.state.virt, Virts(s.maps), s.virtAdded, ADDRESS_PAGES);
    HealthyIsBounded(s.state.phys, Physs(s.maps), s.physAdded, SLOTS);
    ReserveGivesDepth(s.state.virt, region);
    match backing
    case Mixed =>
      AllocateGivesDepth(s.state.phys, region.length, 1);
      HolderOfLength(region);
    case Identity =>
      HeldBlock(region);
      ReservableEndsInside(s.state.phys, BlockAround(region));
      ReserveGivesDepth(s.state.phys, BlockAround(region));
  }

  lemma ReservableEndsInside(b: Backend, region: Region)
    requires |b.lists| == MAX_DEPTH && Bounded(b) && CanReserve(b, region)
    ensures EndsInside(region)
  {
  }

  lemma HolderOfLength(region: Region)
    ensures HolderDepth(region, 0) == CeilLog(region.length) <==> FitsOneBlock(region)
  {
    var c := CeilLog(region.length);
    HolderDepthIsLeast(region, 0, c);
    CeilLogIsLeast(region.length, HolderDepth(region, 0));
  }

  lemma HeldBlock(region: Region)
    ensures HolderDepth(BlockAround(region), 0) == HolderDepth(region, 0)
    ensures BlockAround(region).length < ADDRESS_PAGES ==> BlockAround(region).length < 0x40_0000
  {
    BlockAtIsBlock(region, HolderDepth(region, 0));
    BlockHoldsItself(BlockAround(region), HolderDepth(region, 0));
  }

  // ------------------------------------------------------- how requests end

  /**
   How every region request ends: it is refused, stops on unequal lengths, or ends as its
   recording does, which runs out of tables, meets a page already recorded, or is done.
   */
  lemma RegionRequestEnds(s: System, region: Region, backing: Backing)
    requires Inv(s) && 0 < region.length < 0x40_0000 && EndsInside(region)
    ensures var ending := ReserveRegion(s.state, region, backing).ending;
            if !Grants(s.state, region, backing) then ending == Refused
            else if !SameDepth(s.state, region, backing) then ending == LengthPanic
            else
              var v := GrantedBlock(s.state.virt, region);
              var p := PhysicalGrant(s.state, region, v, backing);
              p.Some? && EndsAs(ending, PagesOutcome(s, v), p.value, v)
  {
    hide Grants, SameDepth, GrantedBlock, PagesOutcome;
    RegionGrant(s, region, backing);
    StepGetRegion(s, region, backing);
  }

  /**
   While nodes and second-level tables last, the ending follows from the arguments: the
   lengths are unequal exactly for mixed backing of a region that fits no naturally aligned
   block of the least power of two that holds its length, and a page is already recorded
   exactly if the block around the region clashes with a page handed out.
   */
  lemma RegionRequestFromArguments(s: System, region: Region, backing: Backing)
    requires Inv(s) && s.state.phys.nodes >= ENOUGH_NODES && s.state.virt.nodes >= ENOUGH_NODES
    requires 0 < region.length < 0x40_0000 && EndsInside(region)
    requires TablesLeftFor(s.state.tables, BlockAround(region).length)
    ensures var ending := ReserveRegion(s.state, region, backing).ending;
            if !Grants(s.state, region, backing) then ending == Refused
            else if backing == Mixed && !FitsOneBlock(region) then ending == LengthPanic
            else if Clashes(s, BlockAround(region)) then ending == RecordedPanic
            else ending.Done?
  {
    hide Grants, FitsOneBlock, BlockAround, TablesLeftFor, Clashes, TablesRunOut;
    RegionRequestEnds(s, region, backing);
    if Grants(s.state, region, backing) {
      EnoughNodes(s, region, backing);
      TablesLeftLast(s.state.tables, BlockAround(region));
      NotLongerThanTheTable(s, region, backing);
    }
  }

  /** Regions of equal length are not longer than the physical memory. */
  lemma NotLongerThanTheTable(s: System, region: Region, backing: Backing)
    requires Inv(s) && 0 < region.length < 0x40_0000 && EndsInside(region) && Grants(s.state, region, backing)
    ensures SameDepth(s.state, region, backing) ==> GrantedBlock(s.state.virt, region).length <= SLOTS
  {
    hide Grants, SameDepth, GrantedBlock;
    RegionGrant(s, region, backing);
    GetRegionAttempt(s, region, backing);
  }

  /** The length panic by itself needs no tables. */
  lemma RegionRequestLengthPanic(s: System, region: Region, backing: Backing)
    requires Inv(s) && s.state.phys.nodes >= ENOUGH_NODES && s.state.virt.nodes >= ENOUGH_NODES
    requires 0 < region.length < 0x40_0000 && EndsInside(region)
    ensures ReserveRegion(s.state, region, backing).ending == LengthPanic
       <==> Grants(s.state, region, backing) && backing == Mixed && !FitsOneBlock(region)
  {
    hide Grants, FitsOneBlock, PagesOutcome, SameDepth;
    RegionRequestEnds(s, region, backing);
    if Grants(s.state, region, backing) {
      EnoughNodes(s, region, backing);
    }
  }

  /**
   How every section request for some page ends.  On unequal lengths its pages come back to
   the caller without a translation, while the allocators count them as free again.
   */
  lemma SectionRequestEnds(s: System, sections: Region, backing: Backing)
    requires Inv(s) && 0 < AsPageRegion(sections).length < 0x40_0000 && EndsInside(AsPageRegion(sections))
    ensures var ending := ReserveSections(s.state, sections, backing).ending;
            var region := AsPageRegion(sections);
            if !Grants(s.state, region, backing) then ending == Refused
            else
              var v := GrantedBlock(s.state.virt, region);
              var p := PhysicalGrant(s.state, region, v, backing);
              p.Some? && if !SameDepth(s.state, region, backing) then
                           ending == Unrecorded(SectionsOf(p.value), SectionsOf(v))
                         else if Clashes(s, v) then ending == RecordedPanic
                         else ending == Done(SectionsOf(p.value), SectionsOf(v))
  {
    hide Grants, SameDepth, GrantedBlock, Clashes, TryReserveRegion;
    var region := AsPageRegion(sections);
    RegionGrant(s, region, backing);
    StepGetSections(s, sections, backing);
    var a := TryReserveRegion(s.state, region, backing);
    if !a.phys.IsNull() {
      SameSections(RegionOf(a.virt), RegionOf(a.phys));
    }
  }

  lemma SameSections(v: Region, p: Region)
    requires SectionReach(v) == v && SectionReach(p) == p
    ensures SectionsOf(v).length == SectionsOf(p).length <==> v.length == p.length
  {
  }

  /** While nodes last, the ending follows from the arguments. */
  lemma SectionRequestFromArguments(s: System, sections: Region, backing: Backing)
    requires Inv(s) && s.state.phys.nodes >= ENOUGH_NODES && s.state.virt.nodes >= ENOUGH_NODES
    requires 0 < AsPageRegion(sections).length < 0x40_0000 && EndsInside(AsPageRegion(sections))
    ensures var ending := ReserveSections(s.state, sections, backing).ending;
            var region := AsPageRegion(sections);
            if !Grants(s.state, region, backing) then ending == Refused
            else if backing == Mixed && !FitsOneBlock(region) then ending.Unrecorded?
            else if Clashes(s, BlockAround(region)) then ending == RecordedPanic
            else ending.Done?
  {
    hide Grants, FitsOneBlock, BlockAround, Clashes;
    SectionRequestEnds(s, sections, backing);
    if Grants(s.state, AsPageRegion(sections), backing) {
      EnoughNodes(s, AsPageRegion(sections), backing);
    }
  }

  /**
   While nodes last, a section request that is done keeps the invariant exactly if it is for
   some page: an empty one is granted single pages and maps a whole section.
   */
  lemma EmptySectionsBreak(s: System, sections: Region, backing: Backing)
    requires Inv(s) && s.state.phys.nodes >= ENOUGH_NODES && s.state.virt.nodes >= ENOUGH_NODES
    requires AsPageRegion(sections).length < 0x40_0000
    requires ReserveSections(s.state, sections, backing).ending.Done?
    ensures Inv(Step(s, GetSections(sections, backing))) <==> AsPageRegion(sections).length > 0
  {
    hide Reserve, ReservedDepth, AllocatedDepth, CanReserve, PassesTheTest, Accounted, Supply, TryReserveRegion;
    var region := AsPageRegion(sections);
    StepGetSections(s, sections, backing);
    if region.length == 0 {
      VirtIsGranted(s, region, backing);
      HealthyIsBounded(s.state.virt, Virts(s.maps), s.virtAdded, ADDRESS_PAGES);
      ReserveExact(s.state.virt, region);
      ReserveGivesDepth(s.state.virt, region);
      assert region.offset % Pow2(0) == 0;
      HolderDepthIsLeast(region, 0, 0);
    }
  }

  lemma VirtIsGranted(s: System, region: Region, backing: Backing)
    requires BothHealthy(s) && region.length < 0x40_0000
    requires !TryReserveRegion(s.state, region, backing).phys.IsNull()
    ensures !ToAllocation(Reserve(s.state.virt, region).region).IsNull()
    ensures Reserve(s.state.virt, region).region.Some?
  {
  }

  // ---------------------------------------------------------- page requests

  lemma PagesGrant(s: System, pages: nat, alignment: nat)
    requires BothHealthy(s) && pages < 0x40_0000 && alignment > 0
    ensures var p := Allocate(s.state.phys, pages, alignment).region;
            && (p.Some? <==> CanAllocate(s.state.phys, pages, alignment))
            && (p.Some? <==> !ToAllocation(p).IsNull())
            && (p.Some? ==> BlockBelow(p.value, SLOTS) && RegionOf(ToAllocation(p)) == p.value)
  {
    hide Allocate, CanAllocate, Accounted, Supply;
    AllocateExact(s.state.phys, pages, alignment);
    AllocateHealthy(s.state.phys, Physs(s.maps), s.physAdded, SLOTS, pages, alignment);
    var p := Allocate(s.state.phys, pages, alignment).region;
    if p.Some? {
      NullExactly(p.value);
      ReportedWhole(p);
    }
  }

  /** The virtual region that backs granted physical pages one to one is refused only if it is not free. */
  lemma IdentityGrant(s: System, r: Region)
    requires BothHealthy(s) && BlockBelow(r, SLOTS)
    ensures r.length < 0x40_0000
    ensures var virt := ToAllocation(Reserve(s.state.virt, r).region);
            && (!virt.IsNull() <==> CanReserve(s.state.virt, r))
            && (!virt.IsNull() ==> RegionOf(virt) == GrantedBlock(s.state.virt, r))
  {
    hide Reserve, CanReserve, Accounted, Supply, PassesTheTest, ReservedDepth, BlockAt;
    HealthyIsBounded(s.state.virt, Virts(s.maps), s.virtAdded, ADDRESS_PAGES);
    ReserveHealthy(s.state.virt, Virts(s.maps), s.virtAdded, ADDRESS_PAGES, r);
    ReserveExact(s.state.virt, r);
    if CanReserve(s.state.virt, r) {
      ReserveGivesDepth(s.state.virt, r);
      ShortDepth(r, Depth(r.length));
      BlockHoldsItself(r, Depth(r.length));
      NotNullBelow(Reserve(s.state.virt, r).region.value, ReservedDepth(s.state.virt, r));
      ReportedWhole(Reserve(s.state.virt, r).region);
    }
  }

  /** A block below the greatest depth is not reported as null. */
  lemma NotNullBelow(r: Region, d: nat)
    requires Block(r, d) && d < MAX_DEPTH - 1
    ensures !ToAllocation(Some(r)).IsNull()
  {
    Pow2Values();
    Pow2Strict(d, 20);
    NullExactly(r);
  }

  lemma ShortDepth(r: Region, d: nat)
    requires Block(r, d) && r.length <= SLOTS
    ensures d < MAX_DEPTH - 1
  {
    Pow2Values();
    if d >= 20 {
      Pow2Monotone(20, d);
    }
  }

  /**
   A page request for identity backing stops the kernel exactly when physical pages are
   granted whose virtual counterparts are not free.
   */
  lemma IdentityPanicExactly(s: System, pages: nat, alignment: nat, backing: Backing)
    requires Inv(s) && pages < 0x40_0000 && alignment > 0
    ensures AllocatePages(s.state, pages, alignment, backing).ending == IdentityPanic
       <==> var p := Allocate(s.state.phys, pages, alignment).region;
            backing == Identity && p.Some? && !CanReserve(s.state.virt, p.value)
  {
    hide Allocate, CanReserve, CanAllocate, Reserve, RecordPages, ReservedDepth;
    PagesGrant(s, pages, alignment);
    var p := Allocate(s.state.phys, pages, alignment).region;
    if p.Some? {
      IdentityGrant(s, p.value);
    }
  }

  lemma MixedPagesGrant(s: System, pages: nat, alignment: nat)
    requires BothHealthy(s) && pages < 0x40_0000 && alignment > 0
    requires CanAllocate(s.state.phys, pages, alignment)
    ensures var v := Allocate(s.state.virt, pages, 1).region;
            && (v.Some? <==> CanAllocate(s.state.virt, pages, 1))
            && (v.Some? <==> !ToAllocation(v).IsNull())
            && (v.Some? ==> RegionOf(ToAllocation(v)) == v.value)
  {
    hide Allocate, CanAllocate, Accounted, Supply, AllocatedDepth;
    PagesGrant(s, pages, alignment);
    AllocateExact(s.state.phys, pages, alignment);
    AllocateGivesDepth(s.state.phys, pages, alignment);
    AllocateExact(s.state.virt, pages, 1);
    AllocateHealthy(s.state.virt, Virts(s.maps), s.virtAdded, ADDRESS_PAGES, pages, 1);
    var p, v := Allocate(s.state.phys, pages, alignment).region, Allocate(s.state.virt, pages, 1).region;
    ShortDepth(p.value, AllocatedDepth(s.state.phys, pages, alignment));
    if v.Some? {
      AllocateGivesDepth(s.state.virt, pages, 1);
      NotNullBelow(v.value, AllocatedDepth(s.state.virt, pages, 1));
      ReportedWhole(v);
    }
  }

  /** The virtual region that a page request is about to be granted. */
  function GrantedPages(s: State, pages: nat, alignment: nat, backing: Backing): Option<Region>
    requires WellFormed(s.phys) && WellFormed(s.virt) && pages < 0x40_0000 && alignment > 0
  {
    match backing
    case Mixed => Allocate(s.virt, pages, 1).region
    case Identity =>
      var phys := ToAllocation(Allocate(s.phys, pages, alignment).region);
      RegionOfIsShort(phys);
      Some(GrantedBlock(s.virt, RegionOf(phys)))
  }

  lemma GrantedPagesExactly(s: System, pages: nat, alignment: nat, backing: Backing)
    requires Inv(s) && pages < 0x40_0000 && alignment > 0
    ensures var a := TryReservePages(s.state, pages, alignment, backing);
            var p := Allocate(s.state.phys, pages, alignment).region;
            && (p.Some? <==> CanAllocate(s.state.phys, pages, alignment))
            && (a.panicked <==> backing == Identity && p.Some? && !CanReserve(s.state.virt, p.value))
            && (!a.panicked ==>
                  (!a.phys.IsNull() <==> p.Some? && (backing == Mixed ==> CanAllocate(s.state.virt, pages, 1))))
            && (!a.panicked && !a.phys.IsNull() ==>
                  p == Some(RegionOf(a.phys))
                  && GrantedPages(s.state, pages, alignment, backing) == Some(RegionOf(a.virt)))
  {
    hide Allocate, CanReserve, CanAllocate, Reserve, GrantedBlock, ReservedDepth;
    PagesGrant(s, pages, alignment);
    var p := Allocate(s.state.phys, pages, alignment).region;
    if p.Some? {
      IdentityGrant(s, p.value);
      MixedPagesGrant(s, pages, alignment);
    }
  }

  /**
   How every page request ends: it is refused, stops because the virtual counterparts of its
   physical pages are taken, or ends as the recording of its virtual region does.
   */
  lemma PageRequestEnds(s: System, pages: nat, alignment: nat, backing: Backing)
    requires Inv(s) && pages < 0x40_0000 && alignment > 0
    ensures var ending := AllocatePages(s.state, pages, alignment, backing).ending;
            var p := Allocate(s.state.phys, pages, alignment).region;
            var v := GrantedPages(s.state, pages, alignment, backing);
            if !CanAllocate(s.state.phys, pages, alignment) then ending == Refused
            else if backing == Identity && p.Some? && !CanReserve(s.state.virt, p.value) then ending == IdentityPanic
            else if backing == Mixed && !CanAllocate(s.state.virt, pages, 1) then ending == Refused
            else p.Some? && v.Some? && EndsAs(ending, PagesOutcome(s, v.value), p.value, v.value)
  {
    hide CanReserve, CanAllocate, TryReservePages, PagesOutcome, GrantedPages;
    GrantedPagesExactly(s, pages, alignment, backing);
    StepGetPages(s, pages, alignment, backing);
  }

  /** Every page of v is translated to a page of p. */
  ghost predicate BackedByOwn(m: map<nat, nat>, v: Region, p: Region) {
    forall page: nat | v.Has(page) :: SlotOf(page) in m && p.Has(m[SlotOf(page)] / PAGE_SIZE)
  }

  /**
   A page request that is done backs every page it hands out by a page granted with it
   exactly if trimming stopped no higher in the virtual allocator than in the physical one;
   otherwise some page handed out is backed by memory that somebody else may hold.
   */
  lemma PageRequestBackedExactly(s: System, pages: nat, alignment: nat, backing: Backing)
    requires Inv(s) && pages < 0x40_0000 && alignment > 0
    requires AllocatePages(s.state, pages, alignment, backing).ending.Done?
    ensures var c := AllocatePages(s.state, pages, alignment, backing);
            && Consistent(c.state.tables)
            && (BackedByOwn(MapOf(c.state.tables), c.ending.virt, c.ending.phys)
                <==> Matched(s.state, pages, alignment, backing))
  {
    hide TryReservePages, RecordPages, Clashes, TablesRunOut, Matched, Placed, BackedByOwn, MapOf;
    var a := TryReservePages(s.state, pages, alignment, backing);
    GetPagesAttempt(s, pages, alignment, backing);
    GetPagesGranted(s, pages, alignment, backing);
    GetPagesLengths(s, pages, alignment, backing);
    RecordGrantedPages(s, a);
    var p, v := RegionOf(a.phys), RegionOf(a.virt);
    PlacedInOwn(MapOf(RecordPages(s.state.tables, v, p).tables), v, p);
  }

  lemma PlacedInOwn(m: map<nat, nat>, v: Region, p: Region)
    requires Placed(m, v, p) && v.length <= SLOTS && 0 < p.length && p.offset + p.length <= SLOTS
    ensures BackedByOwn(m, v, p) <==> v.length <= p.length
  {
    forall page: nat | v.Has(page)
      ensures SlotOf(page) in m && m[SlotOf(page)] / PAGE_SIZE == SlotAt(p, page - v.offset)
    {
    }
    if v.length <= p.length {
      forall page: nat | v.Has(page) ensures p.Has(SlotAt(p, page - v.offset)) {
      }
    } else {
      var page := v.offset + p.length;
      assert v.Has(page);
      OneAfter(p);
    }
  }

  /** The page after a region that is not the whole table is not in it, round the table. */
  lemma OneAfter(p: Region)
    requires 0 < p.length < SLOTS && p.offset + p.length <= SLOTS
    ensures !p.Has(SlotAt(p, p.length))
  {
  }

  // ---------------------------------- what requests take from the free pages

  /** A granted page request takes its two regions from the free ones, page by page. */
  lemma PagesGrantBooks(s: System, pages: nat, alignment: nat, backing: Backing, page: int)
    requires Inv(s) && pages < 0x40_0000 && alignment > 0
    requires var a := TryReservePages(s.state, pages, alignment, backing); !a.panicked && !a.phys.IsNull()
    ensures var a := TryReservePages(s.state, pages, alignment, backing);
            && FreeCover(a.state.phys.lists, page) + Hit(RegionOf(a.phys), page) == FreeCover(s.state.phys.lists, page)
            && FreeCover(a.state.virt.lists, page) + Hit(RegionOf(a.virt), page) == FreeCover(s.state.virt.lists, page)
  {
    hide Allocate, Reserve, CanAllocate, CanReserve, Accounted, Supply, GrantedBlock, ReservedDepth, BlockBelow;
    var p := Allocate(s.state.phys, pages, alignment).region;
    PagesGrant(s, pages, alignment);
    AllocateConserves(s.state.phys, pages, alignment, page);
    match backing
    case Mixed =>
      MixedPagesGrant(s, pages, alignment);
      AllocateConserves(s.state.virt, pages, 1, page);
    case Identity =>
      IdentityReserved(s, p.value, page);
  }

  lemma IdentityReserved(s: System, r: Region, page: int)
    requires BothHealthy(s) && BlockBelow(r, SLOTS)
    ensures r.length < 0x40_0000
    ensures var v := Reserve(s.state.virt, r);
            !ToAllocation(v.region).IsNull() ==>
              FreeCover(v.backend.lists, page) + Hit(RegionOf(ToAllocation(v.region)), page)
              == FreeCover(s.state.virt.lists, page)
  {
    hide Reserve, Accounted, Supply;
    ReserveHealthy(s.state.virt, Virts(s.maps), s.virtAdded, ADDRESS_PAGES, r);
    ReserveConserves(s.state.virt, r, page);
    if !ToAllocation(Reserve(s.state.virt, r).region).IsNull() {
      ReportedWhole(Reserve(s.state.virt, r).region);
    }
  }

  /**
   A page request that is refused leaves every page as free as it was, unless it took physical
   pages for which there are no virtual ones and no node is left to list them again.
   */
  lemma RefusedPagesBooks(s: System, pages: nat, alignment: nat, backing: Backing, page: int)
    requires Inv(s) && pages < 0x40_0000 && alignment > 0
    requires AllocatePages(s.state, pages, alignment, backing).ending == Refused
    ensures var t := AllocatePages(s.state, pages, alignment, backing).state;
            var p := Allocate(s.state.phys, pages, alignment);
            && t.tables == s.state.tables
            && FreeCover(t.virt.lists, page) == FreeCover(s.state.virt.lists, page)
            && FreeCover(t.phys.lists, page) + (if p.backend.nodes == 0 then HitOption(p.region, page) else 0)
               == FreeCover(s.state.phys.lists, page)
  {
    hide Allocate, Reserve, CanAllocate, CanReserve, Accounted, Supply, RecordPages, FreeRegion;
    var p := Allocate(s.state.phys, pages, alignment);
    PagesGrant(s, pages, alignment);
    AllocateConserves(s.state.phys, pages, alignment, page);
    AllocateExact(s.state.phys, pages, alignment);
    AllocateExact(s.state.virt, pages, 1);
    if p.region.Some? {
      IdentityGrant(s, p.region.value);
      MixedPagesGrant(s, pages, alignment);
      FreeRegionConserves(p.backend, p.region.value, page);
    }
  }

  /**
   A region or section request that is refused leaves the physical allocator as it was, and
   every virtual page as free as it was, unless it took a virtual region for which there are no
   physical pages and no node is left to list it again, or the whole address space, whose size
   reads as a failure.
   */
  lemma RefusedRegionBooks(s: System, region: Region, backing: Backing, page: int)
    requires Inv(s) && region.length < 0x40_0000 && TryReserveRegion(s.state, region, backing).phys.IsNull()
    ensures var t, v := TryReserveRegion(s.state, region, backing).state, Reserve(s.state.virt, region);
            && t.tables == s.state.tables && t.phys == s.state.phys
            && FreeCover(t.virt.lists, page)
               + (if v.backend.nodes == 0 || ToAllocation(v.region).IsNull() then HitOption(v.region, page) else 0)
               == FreeCover(s.state.virt.lists, page)
  {
    hide Allocate, Reserve, CanAllocate, CanReserve, Accounted, Supply, FreeRegion, PassesTheTest;
    var v := Reserve(s.state.virt, region);
    ReserveHealthy(s.state.virt, Virts(s.maps), s.virtAdded, ADDRESS_PAGES, region);
    ReserveConserves(s.state.virt, region, page);
    if !ToAllocation(v.region).IsNull() {
      ReportedWhole(v.region);
      FreeRegionConserves(v.backend, v.region.value, page);
      RefusedPhysical(s, region, v.region.value, backing);
    }
  }

  lemma RefusedPhysical(s: System, region: Region, v: Region, backing: Backing)
    requires BothHealthy(s) && region.length < 0x40_0000 && v.length < ADDRESS_PAGES
    ensures var p := if backing == Mixed then Allocate(s.state.phys, region.length, 1) else Reserve(s.state.phys, v);
            ToAllocation(p.region).IsNull() ==> p.backend == s.state.phys
  {
    hide Allocate, Reserve, CanAllocate, CanReserve, Accounted, Supply, PassesTheTest;
    HealthyIsBounded(s.state.phys, Physs(s.maps), s.physAdded, SLOTS);
    if backing == Mixed {
      AllocateExact(s.state.phys, region.length, 1);
      AllocateHealthy(s.state.phys, Physs(s.maps), s.physAdded, SLOTS, region.length, 1);
      var p := Allocate(s.state.phys, region.length, 1).region;
      if p.Some? {
        NullExactly(p.value);
      }
    } else {
      ReserveExact(s.state.phys, v);
      ReserveHealthy(s.state.phys, Physs(s.maps), s.physAdded, SLOTS, v);
      var p := Reserve(s.state.phys, v).region;
      if p.Some? {
        NullExactly(p.value);
      }
    }
  }

  // ------------------------------------------ what an unrecorded ending leaves

  /** A granted region request takes its two regions from the free ones, page by page. */
  lemma GrantBooks(s: System, region: Region, backing: Backing, page: int)
    requires BothHealthy(s) && region.length < 0x40_0000
    requires !TryReserveRegion(s.state, region, backing).phys.IsNull()
    ensures var a := TryReserveRegion(s.state, region, backing);
            && FreeCover(a.state.phys.lists, page) + Hit(RegionOf(a.phys), page) == FreeCover(s.state.phys.lists, page)
            && FreeCover(a.state.virt.lists, page) + Hit(RegionOf(a.virt), page) == FreeCover(s.state.virt.lists, page)
  {
    hide Reserve, Allocate, Accounted, Supply;
    var v := Reserve(s.state.virt, region);
    ReserveHealthy(s.state.virt, Virts(s.maps), s.virtAdded, ADDRESS_PAGES, region);
    ReserveConserves(s.state.virt, region, page);
    ReportedWhole(v.region);
    RegionOfIsShort(ToAllocation(v.region));
    match backing
    case Mixed =>
      AllocateHealthy(s.state.phys, Physs(s.maps), s.physAdded, SLOTS, region.length, 1);
      AllocateConserves(s.state.phys, region.length, 1, page);
      ReportedWhole(Allocate(s.state.phys, region.length, 1).region);
    case Identity =>
      ReserveHealthy(s.state.phys, Physs(s.maps), s.physAdded, SLOTS, v.region.value);
      ReserveConserves(s.state.phys, v.region.value, page);
      ReportedWhole(Reserve(s.state.phys, v.region.value).region);
  }

  /**
   A section request that ends unrecorded gives its physical region back to both
   allocators, as far as they have a node for it.  So the physical one is balanced while a
   node is left; in the virtual one the virtual region stays taken, and the page numbers of
   the physical region are freed.
   */
  lemma UnrecordedBooks(s: System, sections: Region, backing: Backing, page: int)
    requires Inv(s) && AsPageRegion(sections).length < 0x40_0000
    requires ReserveSections(s.state, sections, backing).ending.Unrecorded?
    ensures var t := ReserveSections(s.state, sections, backing).state;
            var a := TryReserveRegion(s.state, AsPageRegion(sections), backing);
            var back := Hit(RegionOf(a.phys), page);
            && FreeCover(t.phys.lists, page) + back
               == FreeCover(s.state.phys.lists, page) + (if a.state.phys.nodes > 0 then back else 0)
            && FreeCover(t.virt.lists, page) + Hit(RegionOf(a.virt), page)
               == FreeCover(s.state.virt.lists, page) + (if a.state.virt.nodes > 0 then back else 0)
  {
    hide TryReserveRegion, RecordSections, FreeRegion;
    var region := AsPageRegion(sections);
    var a := TryReserveRegion(s.state, region, backing);
    GetRegionAttempt(s, region, backing);
    GrantBooks(s, region, backing, page);
    FreeRegionConserves(a.state.phys, RegionOf(a.phys), page);
    FreeRegionConserves(a.state.virt, RegionOf(a.phys), page);
  }

  /** So the virtual allocator is out of balance, whatever the request was. */
  lemma UnrecordedUnbalances(s: System, sections: Region, backing: Backing) returns (page: nat)
    requires Inv(s) && 0 < AsPageRegion(sections).length < 0x40_0000 && EndsInside(AsPageRegion(sections))
    requires ReserveSections(s.state, sections, backing).ending.Unrecorded?
    ensures FreeCover(ReserveSections(s.state, sections, backing).state.virt.lists, page)
         != FreeCover(s.state.virt.lists, page)
  {
    hide TryReserveRegion, Grants, SameDepth;
    var region := AsPageRegion(sections);
    var a := TryReserveRegion(s.state, region, backing);
    SectionRequestEnds(s, sections, backing);
    RegionGrant(s, region, backing);
    GetRegionAttempt(s, region, backing);
    page := OneOnly(RegionOf(a.virt), RegionOf(a.phys));
    UnrecordedBooks(s, sections, backing, page);
    UnrecordedBooks(s, sections, backing, RegionOf(a.virt).offset);
    if a.state.virt.nodes == 0 {
      page := RegionOf(a.virt).offset;
    }
  }

  /** A page of one of two regions of different lengths that is not in the other. */
  lemma OneOnly(v: Region, p: Region) returns (page: nat)
    requires v.length != p.length && v.length > 0 && p.length > 0
    ensures Hit(v, page) != Hit(p, page)
  {
    var (long, short) := if v.length > p.length then (v, p) else (p, v);
    page := if short.offset <= long.offset then long.offset + long.length - 1 else long.offset;
  }

  /** While nodes last, some virtual page is neither free nor mapped afterwards. */
  lemma UnrecordedLosesAPage(s: System, sections: Region, backing: Backing) returns (page: nat)
    requires Inv(s) && s.state.phys.nodes >= ENOUGH_NODES && s.state.virt.nodes >= ENOUGH_NODES
    requires 0 < AsPageRegion(sections).length < 0x40_0000 && EndsInside(AsPageRegion(sections))
    requires ReserveSections(s.state, sections, backing).ending.Unrecorded?
    ensures FreeCover(ReserveSections(s.state, sections, backing).state.virt.lists, page)
          < FreeCover(s.state.virt.lists, page)
  {
    hide TryReserveRegion;
    var a := TryReserveRegion(s.state, AsPageRegion(sections), backing);
    LongerVirtual(s, sections, backing);
    var v, p := RegionOf(a.virt), RegionOf(a.phys);
    page := if p.offset <= v.offset then v.offset + v.length - 1 else v.offset;
    UnrecordedBooks(s, sections, backing, page);
  }

  /** With enough nodes the virtual region of an unrecorded section request is the longer one. */
  lemma LongerVirtual(s: System, sections: Region, backing: Backing)
    requires Inv(s) && s.state.phys.nodes >= ENOUGH_NODES && s.state.virt.nodes >= ENOUGH_NODES
    requires 0 < AsPageRegion(sections).length < 0x40_0000 && EndsInside(AsPageRegion(sections))
    requires ReserveSections(s.state, sections, backing).ending.Unrecorded?
    ensures var a := TryReserveRegion(s.state, AsPageRegion(sections), backing);
            0 < RegionOf(a.phys).length < RegionOf(a.virt).length
  {
    hide Grants, Reserve, Allocate, GrantedBlock, AllocatedDepth, ReservedDepth, CanAllocate, CanReserve, FitsOneBlock;
    hide Accounted, Supply, Clashes, BlockAround;
    var region := AsPageRegion(sections);
    SectionRequestFromArguments(s, sections, backing);
    RegionGrant(s, region, backing);
    EnoughNodes(s, region, backing);
    VirtGrant(s, region);
    PhysGrant(s, region, BlockAround(region), backing);
    AllocateExact(s.state.phys, region.length, 1);
    AllocateGivesDepth(s.state.phys, region.length, 1);
    BlockAroundAtLeast(region);
    BlockAroundLength(region, 0);
  }
}
