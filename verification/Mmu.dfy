/**
 The memory-management unit's page allocator (PageAllocator in
 kernel/arch/aarch32/mmu.cpp) as functions of its state: a physical and a virtual page
 allocator and the translation table that ties their regions together.
 */
module Mmu {
  import opened TwoMath
  import opened Regions
  import opened PageBackend
  import opened PageLedger
  import opened PageTable

  datatype Backing = Mixed | Identity

  datatype State = State(phys: Backend, virt: Backend, tables: Tables)

  /**
   How a call ends.  `Done` and `Unrecorded` both return the two regions to the caller;
   `Refused` returns nothing; the others stop the kernel.
   */
  datatype Ending =
    | Refused
    | Done(phys: Region, virt: Region)
    | Unrecorded(phys: Region, virt: Region)
    | RecordedPanic
    | LengthPanic
    | IdentityPanic

  /** Both allocations of a call, null when there are none. */
  datatype Attempt = Attempt(state: State, phys: Allocation, virt: Allocation, panicked: bool)

  datatype Call = Call(state: State, ending: Ending)

  const NOTHING: Allocation := Allocation(0, 0)

  ghost predicate Ready(s: State) {
    WellFormed(s.phys) && WellFormed(s.virt) && Consistent(s.tables)
  }

  function RegionOf(a: Allocation): Region {
    PageRegionFromPtr(a.ptr, a.size)
  }

  lemma RegionOfIsShort(a: Allocation)
    ensures RegionOf(a).length < 0x10_0000 && Depth(RegionOf(a).length) < MAX_DEPTH
  {
    DepthMonotone(RegionOf(a).length, 0xF_FFFF);
    assert Pow2(19) <= 0xF_FFFF < Pow2(20) by { Pow2Values(); }
    BitWidthUnique(0xF_FFFF, 19);
  }

  /** try_reserve_page_unrecorded: physical pages first, then virtual ones for them. */
  function TryReservePages(s: State, pages: nat, alignment: nat, backing: Backing): Attempt
    requires WellFormed(s.phys) && WellFormed(s.virt) && pages < 0x40_0000 && alignment > 0
  {
    var p := Allocate(s.phys, pages, alignment);
    var phys := ToAllocation(p.region);
    if phys.IsNull() then Attempt(s.(phys := p.backend), NOTHING, NOTHING, false)
    else
      RegionOfIsShort(phys);
      var v := match backing
               case Mixed => Allocate(s.virt, pages, 1)
               case Identity => Reserve(s.virt, RegionOf(phys));
      var virt := ToAllocation(v.region);
      if !virt.IsNull() then Attempt(s.(phys := p.backend, virt := v.backend), phys, virt, false)
      else if backing == Identity then Attempt(s.(phys := p.backend, virt := v.backend), phys, NOTHING, true)
      else
        AllocateLists(s.phys, pages, alignment);
        Attempt(s.(phys := FreeRegion(p.backend, RegionOf(phys)), virt := v.backend), NOTHING, NOTHING, false)
  }

  /** try_reserve_region_unrecorded: the virtual region first, then physical pages for it. */
  function TryReserveRegion(s: State, region: Region, backing: Backing): Attempt
    requires WellFormed(s.phys) && WellFormed(s.virt) && region.length < 0x40_0000
  {
    var v := Reserve(s.virt, region);
    var virt := ToAllocation(v.region);
    if virt.IsNull() then Attempt(s.(virt := v.backend), NOTHING, NOTHING, false)
    else
      RegionOfIsShort(virt);
      var p := match backing
               case Mixed => Allocate(s.phys, region.length, 1)
               case Identity => Reserve(s.phys, RegionOf(virt));
      var phys := ToAllocation(p.region);
      if !phys.IsNull() then Attempt(s.(phys := p.backend, virt := v.backend), phys, virt, false)
      else
        ReserveLists(s.virt, region);
        Attempt(s.(phys := p.backend, virt := FreeRegion(v.backend, RegionOf(virt))), NOTHING, NOTHING, false)
  }

  /**
   What follows a recording.  When it fails, the physical allocation is given back to
   both allocators.
   */
  function Conclude(s: State, r: Result, phys: Allocation, p: Region, v: Region): Call
    requires |s.phys.lists| == MAX_DEPTH && |s.virt.lists| == MAX_DEPTH
  {
    RegionOfIsShort(phys);
    match r.outcome
    case Recorded => Call(s.(tables := r.tables), Done(p, v))
    case AlreadyRecorded => Call(s.(tables := r.tables), RecordedPanic)
    case _ =>
      var back := RegionOf(phys);
      Call(State(FreeRegion(s.phys, back), FreeRegion(s.virt, back), r.tables), Unrecorded(p, v))
  }

  function AllocatePages(s: State, pages: nat, alignment: nat, backing: Backing): Call
    requires Ready(s) && pages < 0x40_0000 && alignment > 0
  {
    var a := TryReservePages(s, pages, alignment, backing);
    if a.panicked then Call(a.state, IdentityPanic)
    else if a.phys.IsNull() then Call(a.state, Refused)
    else
      TryReservePagesSound(s, pages, alignment, backing);
      var p, v := RegionOf(a.phys), RegionOf(a.virt);
      Conclude(a.state, RecordPages(s.tables, v, p), a.phys, p, v)
  }

  function ReserveRegion(s: State, region: Region, backing: Backing): Call
    requires Ready(s) && region.length < 0x40_0000
  {
    var a := TryReserveRegion(s, region, backing);
    if a.phys.IsNull() then Call(a.state, Refused)
    else
      TryReserveRegionSound(s, region, backing);
      var p, v := RegionOf(a.phys), RegionOf(a.virt);
      if v.length != p.length then Call(a.state, LengthPanic)
      else Conclude(a.state, RecordPages(s.tables, v, p), a.phys, p, v)
  }

  /** Section regions are reserved as pages and recorded as sections. */
  function ReserveSections(s: State, sections: Region, backing: Backing): Call
    requires Ready(s) && AsPageRegion(sections).length < 0x40_0000
  {
    var a := TryReserveRegion(s, AsPageRegion(sections), backing);
    if a.phys.IsNull() then Call(a.state, Refused)
    else
      TryReserveRegionSound(s, AsPageRegion(sections), backing);
      var p := SectionRegionFromPtr(a.phys.ptr, a.phys.size);
      var v := SectionRegionFromPtr(a.virt.ptr, a.virt.size);
      Conclude(a.state, RecordSections(s.tables, v, p), a.phys, p, v)
  }

  // ------------------------------------------------- the lists stay complete

  lemma AllocateLists(b: Backend, pages: nat, alignment: nat)
    requires WellFormed(b) && pages < 0x40_0000 && alignment > 0
    ensures |Allocate(b, pages, alignment).backend.lists| == MAX_DEPTH
  {
    AllocateExact(b, pages, alignment);
  }

  lemma ReserveLists(b: Backend, region: Region)
    requires WellFormed(b) && region.length < 0x40_0000
    ensures |Reserve(b, region).backend.lists| == MAX_DEPTH
  {
    ReserveShape(b, region);
  }

  /** The region that is given back for an allocation is a block again. */
  predicate ComesBackWhole(a: Allocation) {
    Block(RegionOf(a), Depth(RegionOf(a).length))
  }

  /** The offset of a region is handed out, and comes back, modulo the address space. */
  lemma RegionComesBack(o: nat, length: nat)
    requires length < 0x10_0000
    ensures RegionOf(ToAllocation(Some(Region(o, length)))) == Region(o % 0x10_0000, length)
  {
    LowPages(o);
    LowPages(o % 0x10_0000);
    PageRegionRoundTrip(Region(o % 0x10_0000, length));
  }

  lemma HandedOutComesBack(r: Option<Region>)
    requires r.Some? ==> Depth(r.value.length) < MAX_DEPTH && Block(r.value, Depth(r.value.length))
    requires !ToAllocation(r).IsNull()
    ensures ComesBackWhole(ToAllocation(r))
  {
    hide Pow2, Depth;
    var o, d := r.value.offset, Depth(r.value.length);
    assert Pow2(20) == 0x10_0000 by { Pow2Values(); }
    Pow2Monotone(d, 20);
    NullExactly(r.value);
    RegionComesBack(o, r.value.length);
    MultipleHasNoRemainder(1, 0x10_0000);
    Pow2Divides(0x10_0000, d, 20);
    RemainderKeepsMultiple(o, 0x10_0000, Pow2(d));
  }

  /** An attempt leaves both allocators well formed, and what it returns can be given back. */
  ghost predicate SoundAttempt(s: State, a: Attempt) {
    && WellFormed(a.state.phys) && WellFormed(a.state.virt) && a.state.tables == s.tables
    && (!a.phys.IsNull() ==> ComesBackWhole(a.phys))
  }

  lemma GivenBack(b: Backend, a: Allocation)
    requires WellFormed(b) && ComesBackWhole(a)
    ensures Depth(RegionOf(a).length) < MAX_DEPTH && WellFormed(FreeRegion(b, RegionOf(a)))
  {
    RegionOfIsShort(a);
    FreeRegionConserves(b, RegionOf(a), 0);
  }

  lemma TryReservePagesSound(s: State, pages: nat, alignment: nat, backing: Backing)
    requires WellFormed(s.phys) && WellFormed(s.virt) && pages < 0x40_0000 && alignment > 0
    ensures SoundAttempt(s, TryReservePages(s, pages, alignment, backing))
  {
    hide Allocate, Reserve, WellFormed, FreeRegion, RegionOf, ToAllocation, ComesBackWhole;
    var p := Allocate(s.phys, pages, alignment);
    var phys := ToAllocation(p.region);
    AllocateExact(s.phys, pages, alignment);
    AllocateExact(s.virt, pages, 1);
    RegionOfIsShort(phys);
    ReserveShape(s.virt, RegionOf(phys));
    if !phys.IsNull() {
      HandedOutComesBack(p.region);
      GivenBack(p.backend, phys);
    }
  }

  lemma TryReserveRegionSound(s: State, region: Region, backing: Backing)
    requires WellFormed(s.phys) && WellFormed(s.virt) && region.length < 0x40_0000
    ensures SoundAttempt(s, TryReserveRegion(s, region, backing))
  {
    hide Allocate, Reserve, WellFormed, FreeRegion, RegionOf, ToAllocation, ComesBackWhole;
    var v := Reserve(s.virt, region);
    var virt := ToAllocation(v.region);
    ReserveShape(s.virt, region);
    AllocateExact(s.phys, region.length, 1);
    RegionOfIsShort(virt);
    ReserveShape(s.phys, RegionOf(virt));
    if !virt.IsNull() {
      HandedOutComesBack(v.region);
      GivenBack(v.backend, virt);
    }
    var p := if backing == Mixed then Allocate(s.phys, region.length, 1) else Reserve(s.phys, RegionOf(virt));
    if !ToAllocation(p.region).IsNull() {
      HandedOutComesBack(p.region);
    }
  }

  // ------------------------------------------------- every call can be followed

  lemma ConcludeReady(s: State, r: Result, phys: Allocation, p: Region, v: Region)
    requires WellFormed(s.phys) && WellFormed(s.virt) && Consistent(r.tables) && ComesBackWhole(phys)
    ensures Ready(Conclude(s, r, phys, p, v).state)
  {
    GivenBack(s.phys, phys);
    GivenBack(s.virt, phys);
  }

  /** However a page request ends, both allocators and the table are in order for the next one. */
  lemma AllocatePagesReady(s: State, pages: nat, alignment: nat, backing: Backing)
    requires Ready(s) && pages < 0x40_0000 && alignment > 0
    ensures Ready(AllocatePages(s, pages, alignment, backing).state)
  {
    hide TryReservePages, RecordPages, Conclude, WellFormed, Consistent;
    var a := TryReservePages(s, pages, alignment, backing);
    TryReservePagesSound(s, pages, alignment, backing);
    if !a.panicked && !a.phys.IsNull() {
      var p, v := RegionOf(a.phys), RegionOf(a.virt);
      RecordPagesKeeps(s.tables, v, p);
      ConcludeReady(a.state, RecordPages(s.tables, v, p), a.phys, p, v);
    }
  }

  lemma ReserveRegionReady(s: State, region: Region, backing: Backing)
    requires Ready(s) && region.length < 0x40_0000
    ensures Ready(ReserveRegion(s, region, backing).state)
  {
    hide TryReserveRegion, RecordPages, Conclude, WellFormed, Consistent;
    var a := TryReserveRegion(s, region, backing);
    TryReserveRegionSound(s, region, backing);
    if !a.phys.IsNull() {
      var p, v := RegionOf(a.phys), RegionOf(a.virt);
      RecordPagesKeeps(s.tables, v, p);
      ConcludeReady(a.state, RecordPages(s.tables, v, p), a.phys, p, v);
    }
  }

  lemma ReserveSectionsReady(s: State, sections: Region, backing: Backing)
    requires Ready(s) && AsPageRegion(sections).length < 0x40_0000
    ensures Ready(ReserveSections(s, sections, backing).state)
  {
    hide TryReserveRegion, RecordSections, Conclude, WellFormed;
    var a := TryReserveRegion(s, AsPageRegion(sections), backing);
    TryReserveRegionSound(s, AsPageRegion(sections), backing);
    if !a.phys.IsNull() {
      var p := SectionRegionFromPtr(a.phys.ptr, a.phys.size);
      var v := SectionRegionFromPtr(a.virt.ptr, a.virt.size);
      RecordSectionsKeeps(s.tables, v, p);
      ConcludeReady(a.state, RecordSections(s.tables, v, p), a.phys, p, v);
    }
  }
}
