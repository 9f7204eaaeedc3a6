/**
 The end-to-end theorem of the page allocator stack: over every run of requests that
 complete, the translation table maps exactly the virtual pages handed out, one to one,
 and a request finds a page already recorded only if pages 2^18 apart are handed out.
 */
module MmuRuns {
  import opened TwoMath
  import opened Regions
  import opened PageBackend
  import opened AlignedBlocks
  import opened PageLedger
  import opened PageTable
  import opened Mmu

  /** A virtual region handed out and the physical region that backs it. */
  datatype Mapping = Mapping(v: Region, p: Region)

  /**
   The allocator's state, the mappings it has handed out so far, and the regions that
   its physical and virtual page allocators were given at the start.
   */
  datatype System = System(state: State, maps: seq<Mapping>, physAdded: seq<Region>, virtAdded: seq<Region>)

  /**
   The requests of the kernel, and the extra allocations that the brokers in front of
   the two page allocators make for their own list nodes.
   */
  datatype Request =
    | GetPages(pages: nat, alignment: nat, backing: Backing)
    | GetRegion(region: Region, backing: Backing)
    | GetSections(sections: Region, backing: Backing)
    | PhysRunway
    | VirtRunway

  /** Pages of one extra allocation of a broker. */
  const RUNWAY_PAGES: nat := 4096

  /** What the entry points of the source need of their arguments. */
  predicate WellPosed(q: Request) {
    match q
    case GetPages(pages, alignment, _) => pages < 0x40_0000 && alignment > 0
    case GetRegion(region, _) => region.length < 0x40_0000
    case GetSections(sections, _) => AsPageRegion(sections).length < 0x40_0000
    case _ => true
  }

  function AttemptOf(s: State, q: Request): Attempt
    requires WellFormed(s.phys) && WellFormed(s.virt) && WellPosed(q)
  {
    match q
    case GetPages(pages, alignment, backing) => TryReservePages(s, pages, alignment, backing)
    case GetRegion(region, backing) => TryReserveRegion(s, region, backing)
    case GetSections(sections, backing) => TryReserveRegion(s, AsPageRegion(sections), backing)
    case PhysRunway => Attempt(s.(phys := Allocate(s.phys, RUNWAY_PAGES, 1).backend), NOTHING, NOTHING, false)
    case VirtRunway => Attempt(s.(virt := Allocate(s.virt, RUNWAY_PAGES, 1).backend), NOTHING, NOTHING, false)
  }

  function Execute(s: State, q: Request): Call
    requires Mmu.Ready(s) && WellPosed(q)
  {
    match q
    case GetPages(pages, alignment, backing) => AllocatePages(s, pages, alignment, backing)
    case GetRegion(region, backing) => ReserveRegion(s, region, backing)
    case GetSections(sections, backing) => ReserveSections(s, sections, backing)
    case _ => Call(AttemptOf(s, q).state, Refused)
  }

  function NewMapping(s: State, q: Request): Mapping
    requires WellFormed(s.phys) && WellFormed(s.virt) && WellPosed(q)
  {
    var a := AttemptOf(s, q);
    Mapping(RegionOf(a.virt), RegionOf(a.phys))
  }

  function Step(s: System, q: Request): System
    requires Mmu.Ready(s.state) && WellPosed(q)
  {
    var c := Execute(s.state, q);
    s.(state := c.state, maps := if c.ending.Done? then s.maps + [NewMapping(s.state, q)] else s.maps)
  }

  // ------------------------------------------------------ held regions

  function Virts(maps: seq<Mapping>): seq<Region> {
    seq(|maps|, i requires 0 <= i < |maps| => maps[i].v)
  }

  function Physs(maps: seq<Mapping>): seq<Region> {
    seq(|maps|, i requires 0 <= i < |maps| => maps[i].p)
  }

  /** No page is free or held more often than it was added. */
  ghost predicate Accounted(b: Backend, held: seq<Region>, added: seq<Region>) {
    forall p: int :: FreeCover(b.lists, p) + Cover(held, p) <= Cover(added, p)
  }

  /** The regions added lie below a page number and do not overlap. */
  ghost predicate Supply(added: seq<Region>, limit: nat) {
    CoversAtMostOnce(added) && forall i | 0 <= i < |added| :: added[i].offset + added[i].length <= limit
  }

  /** A page allocator with the regions it has handed out and the regions it was given. */
  ghost predicate Healthy(b: Backend, held: seq<Region>, added: seq<Region>, limit: nat) {
    WellFormed(b) && Accounted(b, held, added) && Supply(added, limit)
  }

  /** A block of some depth below the maximum, not reaching past a page number. */
  ghost predicate BlockBelow(r: Region, limit: nat) {
    Depth(r.length) < MAX_DEPTH && Block(r, Depth(r.length)) && r.offset + r.length <= limit
  }

  lemma HeldBelow(b: Backend, held: seq<Region>, added: seq<Region>, limit: nat, r: Region)
    requires Accounted(b, held + [r], added) && Supply(added, limit) && r.length > 0
    ensures r.offset + r.length <= limit
  {
    var last := r.offset + r.length - 1;
    CoverAppend(held, r, last);
    assert FreeCover(b.lists, last) + Cover(held + [r], last) <= Cover(added, last);
    var k := CoverWitness(added, last);
  }

  lemma HealthyIsBounded(b: Backend, held: seq<Region>, added: seq<Region>, limit: nat)
    requires Healthy(b, held, added, limit) && limit < WORD
    ensures Bounded(b)
  {
    forall d, i | 0 <= d < MAX_DEPTH && 0 <= i < |b.lists[d]|
      ensures b.lists[d][i].offset + b.lists[d][i].length < WORD
    {
      var r := b.lists[d][i];
      var last := r.offset + r.length - 1;
      FreeCoverAtLeast(b.lists, d, i, last);
      assert FreeCover(b.lists, last) + Cover(held, last) <= Cover(added, last);
      var k := CoverWitness(added, last);
    }
  }

  /** Taking a region from the free lists moves its pages to the held ones. */
  lemma TakenHealthy(b: Backend, held: seq<Region>, added: seq<Region>, limit: nat, b': Backend, r: Option<Region>)
    requires Healthy(b, held, added, limit) && WellFormed(b')
    requires forall p: int :: FreeCover(b'.lists, p) + HitOption(r, p) == FreeCover(b.lists, p)
    requires r.Some? ==> Depth(r.value.length) < MAX_DEPTH && Block(r.value, Depth(r.value.length))
    ensures Healthy(b', held, added, limit)
    ensures r.Some? ==> Healthy(b', held + [r.value], added, limit) && BlockBelow(r.value, limit)
  {
    forall p: int ensures FreeCover(b'.lists, p) + Cover(held, p) <= Cover(added, p) {
      assert FreeCover(b.lists, p) + Cover(held, p) <= Cover(added, p);
    }
    if r.Some? {
      forall p: int ensures FreeCover(b'.lists, p) + Cover(held + [r.value], p) <= Cover(added, p) {
        assert FreeCover(b.lists, p) + Cover(held, p) <= Cover(added, p);
        CoverAppend(held, r.value, p);
      }
      HeldBelow(b', held, added, limit, r.value);
    }
  }

  lemma AllocateHealthy(b: Backend, held: seq<Region>, added: seq<Region>, limit: nat, pages: nat, alignment: nat)
    requires Healthy(b, held, added, limit) && pages < 0x40_0000 && alignment > 0
    ensures var a := Allocate(b, pages, alignment);
            && Healthy(a.backend, held, added, limit)
            && (a.region.Some? ==> Healthy(a.backend, held + [a.region.value], added, limit))
            && (a.region.Some? ==> BlockBelow(a.region.value, limit))
  {
    var a := Allocate(b, pages, alignment);
    AllocateExact(b, pages, alignment);
    forall p: int ensures FreeCover(a.backend.lists, p) + HitOption(a.region, p) == FreeCover(b.lists, p) {
      AllocateConserves(b, pages, alignment, p);
    }
    TakenHealthy(b, held, added, limit, a.backend, a.region);
  }

  lemma ReserveHealthy(b: Backend, held: seq<Region>, added: seq<Region>, limit: nat, region: Region)
    requires Healthy(b, held, added, limit) && region.length < 0x40_0000
    ensures var a := Reserve(b, region);
            && Healthy(a.backend, held, added, limit)
            && (a.region.Some? ==> Healthy(a.backend, held + [a.region.value], added, limit))
            && (a.region.Some? ==> BlockBelow(a.region.value, limit))
  {
    var a := Reserve(b, region);
    ReserveShape(b, region);
    forall p: int ensures FreeCover(a.backend.lists, p) + HitOption(a.region, p) == FreeCover(b.lists, p) {
      ReserveConserves(b, region, p);
    }
    TakenHealthy(b, held, added, limit, a.backend, a.region);
  }

  /** Giving back the region handed out last undoes the handing out. */
  lemma FreeHealthy(b: Backend, held: seq<Region>, added: seq<Region>, limit: nat, r: Region)
    requires Healthy(b, held + [r], added, limit) && BlockBelow(r, limit)
    ensures Healthy(FreeRegion(b, r), held, added, limit)
  {
    FreeRegionConserves(b, r, 0);
    forall p: int ensures FreeCover(FreeRegion(b, r).lists, p) + Cover(held, p) <= Cover(added, p) {
      assert FreeCover(b.lists, p) + Cover(held + [r], p) <= Cover(added, p);
      CoverAppend(held, r, p);
      FreeRegionConserves(b, r, p);
    }
  }

  /** A region that is not reported as null comes back whole. */
  lemma ReportedWhole(r: Option<Region>)
    requires r.Some? ==> BlockBelow(r.value, ADDRESS_PAGES)
    requires !ToAllocation(r).IsNull()
    ensures r.Some? && RegionOf(ToAllocation(r)) == r.value && r.value.length < ADDRESS_PAGES
  {
    NullExactly(r.value);
    PageRegionRoundTrip(r.value);
  }

  // -------------------------------------------------------- one attempt

  /** What an attempt that returns two regions has done. */
  ghost predicate GoodGrant(s: System, a: Attempt) {
    var p, v := RegionOf(a.phys), RegionOf(a.virt);
    && BlockBelow(p, SLOTS) && BlockBelow(v, ADDRESS_PAGES)
    && Healthy(a.state.phys, Physs(s.maps) + [p], s.physAdded, SLOTS)
    && Healthy(a.state.virt, Virts(s.maps) + [v], s.virtAdded, ADDRESS_PAGES)
    && a.state.tables == s.state.tables
  }

  /** What an attempt that returns nothing has done. */
  ghost predicate GoodRefusal(s: System, a: Attempt) {
    && Healthy(a.state.phys, Physs(s.maps), s.physAdded, SLOTS)
    && Healthy(a.state.virt, Virts(s.maps), s.virtAdded, ADDRESS_PAGES)
    && a.state.tables == s.state.tables
  }

  ghost predicate BothHealthy(s: System) {
    && Healthy(s.state.phys, Physs(s.maps), s.physAdded, SLOTS)
    && Healthy(s.state.virt, Virts(s.maps), s.virtAdded, ADDRESS_PAGES)
  }

  lemma GetPagesAttempt(s: System, pages: nat, alignment: nat, backing: Backing)
    requires BothHealthy(s) && pages < 0x40_0000 && alignment > 0
    ensures var a := TryReservePages(s.state, pages, alignment, backing);
            a.panicked || if a.phys.IsNull() then GoodRefusal(s, a) else GoodGrant(s, a)
  {
    var p := Allocate(s.state.phys, pages, alignment);
    AllocateHealthy(s.state.phys, Physs(s.maps), s.physAdded, SLOTS, pages, alignment);
    if !ToAllocation(p.region).IsNull() {
      ReportedWhole(p.region);
      RegionOfIsShort(ToAllocation(p.region));
      match backing
      case Mixed => GetPagesMixed(s, pages, alignment, p.region.value);
      case Identity => GetPagesIdentity(s, pages, alignment, p.region.value);
    }
  }

  lemma GetPagesMixed(s: System, pages: nat, alignment: nat, r: Region)
    requires BothHealthy(s) && pages < 0x40_0000 && alignment > 0
    requires var p := Allocate(s.state.phys, pages, alignment);
             && p.region == Some(r) && BlockBelow(r, SLOTS) && r.length < ADDRESS_PAGES
             && RegionOf(ToAllocation(p.region)) == r && !ToAllocation(p.region).IsNull()
             && Healthy(p.backend, Physs(s.maps) + [r], s.physAdded, SLOTS)
    ensures var a := TryReservePages(s.state, pages, alignment, Mixed);
            && (!a.phys.IsNull() ==> GoodGrant(s, a))
            && (a.phys.IsNull() ==> GoodRefusal(s, a))
  {
    var v := Allocate(s.state.virt, pages, 1);
    AllocateHealthy(s.state.virt, Virts(s.maps), s.virtAdded, ADDRESS_PAGES, pages, 1);
    if !ToAllocation(v.region).IsNull() {
      ReportedWhole(v.region);
    } else {
      FreeHealthy(Allocate(s.state.phys, pages, alignment).backend, Physs(s.maps), s.physAdded, SLOTS, r);
    }
  }

  lemma GetPagesIdentity(s: System, pages: nat, alignment: nat, r: Region)
    requires BothHealthy(s) && pages < 0x40_0000 && alignment > 0
    requires var p := Allocate(s.state.phys, pages, alignment);
             && p.region == Some(r) && BlockBelow(r, SLOTS) && r.length < ADDRESS_PAGES
             && RegionOf(ToAllocation(p.region)) == r && !ToAllocation(p.region).IsNull()
             && Healthy(p.backend, Physs(s.maps) + [r], s.physAdded, SLOTS)
    ensures var a := TryReservePages(s.state, pages, alignment, Identity);
            !a.panicked ==> GoodGrant(s, a)
  {
    var v := Reserve(s.state.virt, r);
    ReserveHealthy(s.state.virt, Virts(s.maps), s.virtAdded, ADDRESS_PAGES, r);
    if !ToAllocation(v.region).IsNull() {
      ReportedWhole(v.region);
    }
  }

  lemma GetRegionAttempt(s: System, region: Region, backing: Backing)
    requires BothHealthy(s) && region.length < 0x40_0000
    ensures var a := TryReserveRegion(s.state, region, backing);
            && (!a.phys.IsNull() ==> GoodGrant(s, a))
            && (a.phys.IsNull() ==> GoodRefusal(s, a))
  {
    var v := Reserve(s.state.virt, region);
    ReserveHealthy(s.state.virt, Virts(s.maps), s.virtAdded, ADDRESS_PAGES, region);
    var virt := ToAllocation(v.region);
    if !virt.IsNull() {
      ReportedWhole(v.region);
      RegionOfIsShort(virt);
      AllocateHealthy(s.state.phys, Physs(s.maps), s.physAdded, SLOTS, region.length, 1);
      ReserveHealthy(s.state.phys, Physs(s.maps), s.physAdded, SLOTS, RegionOf(virt));
      var p := if backing == Mixed then Allocate(s.state.phys, region.length, 1)
               else Reserve(s.state.phys, RegionOf(virt));
      if !ToAllocation(p.region).IsNull() {
        ReportedWhole(p.region);
      } else {
        FreeHealthy(v.backend, Virts(s.maps), s.virtAdded, ADDRESS_PAGES, RegionOf(virt));
      }
    }
  }

  // -------------------------------------------------------- the invariant

  /** The translations that a list of mappings stands for. */
  function MapsOf(maps: seq<Mapping>): map<nat, nat> {
    if maps == [] then map[]
    else Mapped(MapsOf(maps[..|maps| - 1]), maps[|maps| - 1].v, maps[|maps| - 1].p)
  }

  /** A mapping that the table can represent, with a physical page for each virtual one. */
  predicate Representable(m: Mapping) {
    m.v.length <= m.p.length && m.p.offset + m.p.length <= SLOTS && m.v.offset + m.v.length <= ADDRESS_PAGES
  }

  /** No position of the table is taken by two mappings. */
  ghost predicate SlotsApart(maps: seq<Mapping>) {
    forall i, j, s: nat | 0 <= i < j < |maps| && Takes(maps[i].v, s) :: !Takes(maps[j].v, s)
  }

  ghost predicate Inv(s: System) {
    && BothHealthy(s)
    && Consistent(s.state.tables) && NoEmptyTable(s.state.tables)
    && MapOf(s.state.tables) == MapsOf(s.maps)
    && OpenToEveryone(s.state.tables)
    && SlotsApart(s.maps)
    && forall i | 0 <= i < |s.maps| :: Representable(s.maps[i])
  }

  /** A position is translated exactly when some mapping takes it. */
  lemma {:induction false} MapsOfTaken(maps: seq<Mapping>, s: nat)
    ensures s in MapsOf(maps) <==> exists i | 0 <= i < |maps| :: Takes(maps[i].v, s)
  {
    if maps != [] {
      var rest, last := maps[..|maps| - 1], maps[|maps| - 1];
      MapsOfTaken(rest, s);
      if s in MapsOf(rest) {
        var i :| 0 <= i < |rest| && Takes(rest[i].v, s);
        assert Takes(maps[i].v, s);
      }
    }
  }

  /** Each mapping determines the translations of its pages. */
  lemma {:induction false} MapsOfAt(maps: seq<Mapping>, i: nat, s: nat)
    requires SlotsApart(maps) && i < |maps| && Takes(maps[i].v, s)
    ensures s in MapsOf(maps)
    ensures MapsOf(maps)[s] == BackingAddress(maps[i].v, maps[i].p, PageAt(maps[i].v, s))
  {
    if i < |maps| - 1 {
      var rest := maps[..|maps| - 1];
      assert forall j | 0 <= j < |rest| :: rest[j] == maps[j];
      MapsOfAt(rest, i, s);
    }
  }

  /** Held regions of a healthy allocator do not overlap. */
  lemma HeldOnce(b: Backend, held: seq<Region>, added: seq<Region>, limit: nat)
    requires Healthy(b, held, added, limit)
    ensures CoversAtMostOnce(held)
  {
    forall p: int ensures Cover(held, p) <= 1 {
      assert FreeCover(b.lists, p) + Cover(held, p) <= Cover(added, p);
      assert Cover(added, p) <= 1;
    }
  }

  // ---------------------------------------------------- admissible requests

  /**
   A granted page request gets a physical page for each virtual one: trimming stops no
   higher in the virtual allocator than in the physical one.  Both depths follow from the
   block that each search finds and the nodes left; the code does not compare the lengths.
   */
  predicate Matched(s: State, pages: nat, alignment: nat, backing: Backing)
    requires WellFormed(s.phys) && WellFormed(s.virt) && pages < 0x40_0000 && alignment > 0
  {
    var phys := ToAllocation(Allocate(s.phys, pages, alignment).region);
    RegionOfIsShort(phys);
    var virtualDepth := match backing
                        case Mixed => AllocatedDepth(s.virt, pages, 1)
                        case Identity => ReservedDepth(s.virt, RegionOf(phys));
    phys.IsNull() || virtualDepth <= AllocatedDepth(s.phys, pages, alignment)
  }

  /** The depth of a section's pages. */
  const SECTION_DEPTH: nat := 8

  /**
   A section request is for some page, or trimming stops early enough in both allocators
   that whole sections are granted.
   */
  predicate Whole(s: State, sections: Region, backing: Backing)
    requires WellFormed(s.phys) && WellFormed(s.virt) && AsPageRegion(sections).length < 0x40_0000
  {
    var region := AsPageRegion(sections);
    var virt := ToAllocation(Reserve(s.virt, region).region);
    RegionOfIsShort(virt);
    var physicalDepth := match backing
                         case Mixed => AllocatedDepth(s.phys, region.length, 1)
                         case Identity => ReservedDepth(s.phys, RegionOf(virt));
    || region.length > 0
    || virt.IsNull()
    || (ReservedDepth(s.virt, region) >= SECTION_DEPTH && physicalDepth >= SECTION_DEPTH)
  }

  /** The conditions of the theorem, all on what is there before the call. */
  predicate Admissible(s: State, q: Request)
    requires WellFormed(s.phys) && WellFormed(s.virt)
  {
    && WellPosed(q)
    && (q.GetPages? ==> Matched(s, q.pages, q.alignment, q.backing))
    && (q.GetSections? ==> Whole(s, q.sections, q.backing))
  }

  /** The call returns and records what it returns. */
  predicate Completes(e: Ending) {
    e.Refused? || e.Done?
  }

  lemma DepthOrder(r: Region, d: nat, x: Region, e: nat)
    requires Block(r, d) && Block(x, e)
    ensures r.length <= x.length <==> d <= e
    ensures r.length == x.length <==> d == e
  {
    if d <= e {
      Pow2Monotone(d, e);
    } else {
      Pow2Strict(e, d);
    }
    if d < e {
      Pow2Strict(d, e);
    }
  }

  /** What a granted page request gets, for any number of nodes. */
  lemma GetPagesLengths(s: System, pages: nat, alignment: nat, backing: Backing)
    requires BothHealthy(s) && pages < 0x40_0000 && alignment > 0
    requires !TryReservePages(s.state, pages, alignment, backing).virt.IsNull()
    ensures var a := TryReservePages(s.state, pages, alignment, backing);
            && (RegionOf(a.virt).length <= RegionOf(a.phys).length <==> Matched(s.state, pages, alignment, backing))
            && (backing == Mixed ==> pages <= RegionOf(a.virt).length)
  {
    hide Allocate, Reserve, AllocatedDepth, ReservedDepth, Accounted, Supply, CanAllocate, CanReserve, PassesTheTest;
    var p := Allocate(s.state.phys, pages, alignment).region;
    AllocateHealthy(s.state.phys, Physs(s.maps), s.physAdded, SLOTS, pages, alignment);
    AllocateExact(s.state.phys, pages, alignment);
    AllocateGivesDepth(s.state.phys, pages, alignment);
    ReportedWhole(p);
    var pd := AllocatedDepth(s.state.phys, pages, alignment);
    match backing
    case Mixed =>
      var v := Allocate(s.state.virt, pages, 1).region;
      AllocateHealthy(s.state.virt, Virts(s.maps), s.virtAdded, ADDRESS_PAGES, pages, 1);
      AllocateExact(s.state.virt, pages, 1);
      AllocateGivesDepth(s.state.virt, pages, 1);
      ReportedWhole(v);
      DepthOrder(v.value, AllocatedDepth(s.state.virt, pages, 1), p.value, pd);
    case Identity =>
      var v := Reserve(s.state.virt, p.value).region;
      HealthyIsBounded(s.state.virt, Virts(s.maps), s.virtAdded, ADDRESS_PAGES);
      ReserveHealthy(s.state.virt, Virts(s.maps), s.virtAdded, ADDRESS_PAGES, p.value);
      ReserveExact(s.state.virt, p.value);
      ReserveGivesDepth(s.state.virt, p.value);
      ReportedWhole(v);
      DepthOrder(v.value, ReservedDepth(s.state.virt, p.value), p.value, pd);
  }

  /** The sections that the byte address and size of a page region stand for. */
  function SectionsOf(r: Region): Region {
    Region(r.offset / L2_ENTRIES, (r.length + (L2_ENTRIES - 1)) / L2_ENTRIES)
  }

  lemma SectionsOfBytes(r: Region)
    requires BlockBelow(r, ADDRESS_PAGES) && r.length < ADDRESS_PAGES
    ensures SectionRegionFromPtr(r.PagePtr(0), r.PageBytes()) == SectionsOf(r)
  {
    hide DivideUp, SectionRegionFromPtr, Region.PagePtr, Region.PageBytes;
    ShortBlock(r);
    PlainBytes(r);
    SectionRegionOfPages(r.offset, r.length);
  }

  lemma PlainBytes(r: Region)
    requires r.offset < ADDRESS_PAGES && r.length < ADDRESS_PAGES
    ensures r.PagePtr(0) == r.offset * PAGE_SIZE && r.PageBytes() == r.length * PAGE_SIZE
  {
    DivModUnique(r.offset * PAGE_SIZE, WORD, 0, r.offset * PAGE_SIZE);
    DivModUnique(r.length * PAGE_SIZE, WORD, 0, r.length * PAGE_SIZE);
  }

  lemma SectionRegionOfPages(offset: nat, length: nat)
    requires length <= 0x8_0000
    ensures SectionRegionFromPtr(offset * PAGE_SIZE, length * PAGE_SIZE) == SectionsOf(Region(offset, length))
  {
    hide DivideUp;
    DivModUnique(offset * PAGE_SIZE, SECTION_SIZE, offset / L2_ENTRIES, offset % L2_ENTRIES * PAGE_SIZE);
    SectionsOfLength(length);
  }

  lemma ShortBlock(r: Region)
    requires BlockBelow(r, ADDRESS_PAGES) && r.length < ADDRESS_PAGES
    ensures r.offset < ADDRESS_PAGES && r.length <= 0x8_0000
  {
    Pow2Values();
    if Depth(r.length) < 20 {
      Pow2Strict(Depth(r.length), 20);
    }
  }

  lemma SectionsOfLength(length: nat)
    requires length <= 0x8_0000
    ensures DivideUp(length * PAGE_SIZE, SECTION_SIZE) == (length + (L2_ENTRIES - 1)) / L2_ENTRIES
  {
    var n := length + (L2_ENTRIES - 1);
    var up := length * PAGE_SIZE + (SECTION_SIZE - 1);
    assert up == n * PAGE_SIZE + (PAGE_SIZE - 1);
    DivModUnique(up, WORD, 0, up);
    DivModUnique(up, SECTION_SIZE, n / L2_ENTRIES, n % L2_ENTRIES * PAGE_SIZE + (PAGE_SIZE - 1));
  }

  /** A block of at least a section's pages is a region of whole sections. */
  lemma BlockOfSections(r: Region)
    requires Block(r, Depth(r.length)) && Depth(r.length) >= SECTION_DEPTH
    ensures SectionPages(SectionsOf(r)) == r
  {
    hide Depth, SectionPages, SectionsOf;
    assert Pow2(8) == L2_ENTRIES by { Pow2Values(); }
    Pow2Divides(r.offset, 8, Depth(r.length));
    MultipleHasNoRemainder(1, r.length);
    Pow2Divides(r.length, 8, Depth(r.length));
    WholeSectionPages(r);
  }

  lemma WholeSectionPages(r: Region)
    requires r.offset % L2_ENTRIES == 0 && r.length % L2_ENTRIES == 0
    ensures SectionPages(SectionsOf(r)) == r
  {
    DivModUnique(r.length + (L2_ENTRIES - 1), L2_ENTRIES, r.length / L2_ENTRIES, L2_ENTRIES - 1);
  }

  /** A smaller block lies in one section and does not fill it. */
  lemma BlockInSection(r: Region)
    requires Block(r, Depth(r.length)) && Depth(r.length) < SECTION_DEPTH
    ensures SectionsOf(r).length == 1 && 0 < r.length < L2_ENTRIES
    ensures Inside(r, SectionPages(SectionsOf(r)))
  {
    assert Pow2(8) == L2_ENTRIES by { Pow2Values(); }
    Pow2Strict(Depth(r.length), 8);
    SmallBlockInGroup(r.offset, Depth(r.length), 8);
  }

  /** The sections granted to a section request are whole sections. */
  lemma GetSectionsDepth(s: System, sections: Region, backing: Backing)
    requires BothHealthy(s) && 0 < AsPageRegion(sections).length < 0x40_0000
    requires !TryReserveRegion(s.state, AsPageRegion(sections), backing).phys.IsNull()
    ensures var a := TryReserveRegion(s.state, AsPageRegion(sections), backing);
            Depth(RegionOf(a.virt).length) >= 8 && Depth(RegionOf(a.phys).length) >= 8
  {
    var region := AsPageRegion(sections);
    SectionPagesDepth(sections);
    RegionAttemptDepth(s, region, backing);
  }

  lemma SectionPagesDepth(sections: Region)
    requires AsPageRegion(sections).length > 0
    ensures Depth(AsPageRegion(sections).length) >= 8
  {
    assert AsPageRegion(sections).length >= L2_ENTRIES;
    DepthMonotone(L2_ENTRIES, AsPageRegion(sections).length);
    assert Depth(L2_ENTRIES) == 8 by {
      Pow2Values();
      DepthOfPow2(8);
    }
  }

  /** The regions granted to a region request are at least as deep as the request. */
  lemma RegionAttemptDepth(s: System, region: Region, backing: Backing)
    requires BothHealthy(s) && region.length < 0x40_0000
    requires !TryReserveRegion(s.state, region, backing).phys.IsNull()
    ensures var a := TryReserveRegion(s.state, region, backing);
            && Depth(RegionOf(a.virt).length) >= Depth(region.length)
            && Depth(RegionOf(a.phys).length) >= Depth(region.length)
  {
    var v := Reserve(s.state.virt, region);
    ReserveShape(s.state.virt, region);
    ReserveHealthy(s.state.virt, Virts(s.maps), s.virtAdded, ADDRESS_PAGES, region);
    ReportedWhole(v.region);
    PhysDepth(s, region, v.region.value, backing);
  }

  lemma PhysDepth(s: System, region: Region, v: Region, backing: Backing)
    requires BothHealthy(s) && region.length < 0x40_0000
    requires v.length < ADDRESS_PAGES && Depth(v.length) >= Depth(region.length)
    requires var p := if backing == Mixed then Allocate(s.state.phys, region.length, 1) else Reserve(s.state.phys, v);
             !ToAllocation(p.region).IsNull()
    ensures var p := if backing == Mixed then Allocate(s.state.phys, region.length, 1) else Reserve(s.state.phys, v);
            Depth(RegionOf(ToAllocation(p.region)).length) >= Depth(region.length)
  {
    if backing == Mixed {
      AllocateExact(s.state.phys, region.length, 1);
      AllocateHealthy(s.state.phys, Physs(s.maps), s.physAdded, SLOTS, region.length, 1);
      ReportedWhole(Allocate(s.state.phys, region.length, 1).region);
      DepthMonotone(region.length, Allocate(s.state.phys, region.length, 1).region.value.length);
    } else {
      ReserveShape(s.state.phys, v);
      ReserveHealthy(s.state.phys, Physs(s.maps), s.physAdded, SLOTS, v);
      ReportedWhole(Reserve(s.state.phys, v).region);
    }
  }

  // ------------------------------------------------------------ one step

  /** Some page of the region is walked to a position that is translated already. */
  ghost predicate Clashes(s: System, v: Region)
    requires Consistent(s.state.tables)
  {
    !Untranslated(MapOf(s.state.tables), v)
  }

  /** The state after a grant whose recording succeeded. */
  lemma ExtendedInv(s: System, a: Attempt, tables: Tables)
    requires Inv(s) && GoodGrant(s, a) && RegionOf(a.virt).length <= RegionOf(a.phys).length
    requires !Clashes(s, RegionOf(a.virt))
    requires Consistent(tables) && NoEmptyTable(tables) && OpenToEveryone(tables)
    requires MapOf(tables) == Mapped(MapOf(s.state.tables), RegionOf(a.virt), RegionOf(a.phys))
    ensures var m := Mapping(RegionOf(a.virt), RegionOf(a.phys));
            Inv(s.(state := a.state.(tables := tables), maps := s.maps + [m]))
  {
    hide Mapped, Healthy, NoEmptyTable, OpenToEveryone, Takes;
    var m := Mapping(RegionOf(a.virt), RegionOf(a.phys));
    var maps := s.maps + [m];
    assert Virts(maps) == Virts(s.maps) + [m.v] && Physs(maps) == Physs(s.maps) + [m.p];
    assert maps[..|maps| - 1] == s.maps;
    forall i, s': nat | 0 <= i < |s.maps| && Takes(s.maps[i].v, s') ensures !Takes(m.v, s') {
      if Takes(m.v, s') {
        SharedSlotClashes(s, i, m.v, s');
      }
    }
  }

  /** A region that takes a position of a mapping clashes with it. */
  lemma SharedSlotClashes(s: System, i: nat, v: Region, slot: nat)
    requires Inv(s) && i < |s.maps| && Takes(s.maps[i].v, slot) && Takes(v, slot)
    ensures Clashes(s, v)
  {
    MapsOfTaken(s.maps, slot);
    SlotOfIndex(v, slot);
    assert v.Has(PageAt(v, slot));
  }

  /** How the recording of granted page regions ends. */
  ghost function PagesOutcome(s: System, v: Region): Outcome
    requires Consistent(s.state.tables)
  {
    if TablesRunOut(s.state.tables, v) then NoTable
    else if Clashes(s, v) || v.length > SLOTS then AlreadyRecorded
    else Recorded
  }

  /** Once recorded, the regions keep the invariant exactly if each virtual page got a physical one. */
  lemma RecordGrantedPages(s: System, a: Attempt)
    requires Inv(s) && GoodGrant(s, a)
    ensures var p, v := RegionOf(a.phys), RegionOf(a.virt);
            var r := RecordPages(s.state.tables, v, p);
            && r.outcome == PagesOutcome(s, v)
            && Consistent(r.tables)
            && (r.outcome == Recorded ==> Placed(MapOf(r.tables), v, p))
            && (r.outcome == Recorded ==>
                  (Inv(s.(state := a.state.(tables := r.tables), maps := s.maps + [Mapping(v, p)]))
                   <==> v.length <= p.length))
  {
    hide RecordPages, TablesRunOut, Placed, MapOf, NoEmptyTable, OpenToEveryone, Accounted, Supply;
    var p, v := RegionOf(a.phys), RegionOf(a.virt);
    BlockStaysInGroups(v, Depth(v.length));
    RecordPagesExact(s.state.tables, v, p);
    RecordPagesOpen(s.state.tables, v, p);
    var r := RecordPages(s.state.tables, v, p);
    if r.outcome == Recorded {
      var maps := s.maps + [Mapping(v, p)];
      if v.length <= p.length {
        ExtendedInv(s, a, r.tables);
      } else {
        assert !Representable(maps[|s.maps|]);
      }
    }
  }

  /** What section entries translate for granted regions. */
  function SectionReach(v: Region): Region {
    SectionPages(SectionsOf(v))
  }

  /** How the recording of granted regions as sections ends. */
  ghost function SectionsOutcome(s: System, v: Region, p: Region): Outcome
    requires Consistent(s.state.tables)
  {
    if SectionsOf(v).length != SectionsOf(p).length then LengthMismatch
    else if Clashes(s, SectionReach(v)) then AlreadyRecorded
    else Recorded
  }

  /** Once recorded, the regions keep the invariant exactly if both are whole sections. */
  lemma RecordGrantedSections(s: System, a: Attempt)
    requires Inv(s) && GoodGrant(s, a)
    requires RegionOf(a.virt).length < ADDRESS_PAGES && RegionOf(a.phys).length < ADDRESS_PAGES
    requires a.virt == ToAllocation(Some(RegionOf(a.virt))) && a.phys == ToAllocation(Some(RegionOf(a.phys)))
    ensures var p, v := RegionOf(a.phys), RegionOf(a.virt);
            var r := RecordSections(s.state.tables,
                                    SectionRegionFromPtr(a.virt.ptr, a.virt.size),
                                    SectionRegionFromPtr(a.phys.ptr, a.phys.size));
            && r.outcome == SectionsOutcome(s, v, p)
            && SectionRegionFromPtr(a.virt.ptr, a.virt.size) == SectionsOf(v)
            && SectionRegionFromPtr(a.phys.ptr, a.phys.size) == SectionsOf(p)
            && Consistent(r.tables)
            && (r.outcome == Recorded ==>
                  (Inv(s.(state := a.state.(tables := r.tables), maps := s.maps + [Mapping(v, p)]))
                   <==> Depth(v.length) >= SECTION_DEPTH && Depth(p.length) >= SECTION_DEPTH))
  {
    hide RecordSections, NoEmptyTable, OpenToEveryone, Accounted, Supply, Mapped, MapOf, Depth;
    var p, v := RegionOf(a.phys), RegionOf(a.virt);
    SectionsOfBytes(v);
    SectionsOfBytes(p);
    SectionsBelow(p);
    RecordSectionsExact(s.state.tables, SectionsOf(v), SectionsOf(p));
    RecordSectionsOpen(s.state.tables, SectionsOf(v), SectionsOf(p));
    var r := RecordSections(s.state.tables, SectionsOf(v), SectionsOf(p));
    if r.outcome == Recorded {
      if Depth(v.length) >= SECTION_DEPTH && Depth(p.length) >= SECTION_DEPTH {
        BlockOfSections(v);
        BlockOfSections(p);
        ExtendedInv(s, a, r.tables);
      } else {
        ShallowBreaks(s, a, r.tables);
      }
    }
  }

  lemma SectionsBelow(p: Region)
    requires BlockBelow(p, SLOTS)
    ensures SectionsOf(p).offset + SectionsOf(p).length <= L1_ENTRIES
  {
    if Depth(p.length) >= SECTION_DEPTH {
      BlockOfSections(p);
    } else {
      BlockInSection(p);
    }
  }

  /** A section entry for less than a section translates a page that nobody was handed. */
  lemma ShallowBreaks(s: System, a: Attempt, tables: Tables)
    requires Inv(s) && GoodGrant(s, a) && Consistent(tables)
    requires var v, p := RegionOf(a.virt), RegionOf(a.phys);
             && SectionsOf(v).length == SectionsOf(p).length && !Clashes(s, SectionReach(v))
             && MapOf(tables) == Mapped(MapOf(s.state.tables), SectionReach(v), SectionReach(p))
             && (Depth(v.length) < SECTION_DEPTH || Depth(p.length) < SECTION_DEPTH)
    ensures var m := Mapping(RegionOf(a.virt), RegionOf(a.phys));
            !Inv(s.(state := a.state.(tables := tables), maps := s.maps + [m]))
  {
    hide Mapped, Takes, Accounted, Supply, NoEmptyTable, Depth;
    var v, p := RegionOf(a.virt), RegionOf(a.phys);
    var maps := s.maps + [Mapping(v, p)];
    if Depth(v.length) >= SECTION_DEPTH {
      BlockOfSections(v);
      BlockInSection(p);
      assert !Representable(maps[|s.maps|]);
    } else {
      BlockInSection(v);
      var slot := NewlyReached(s, v, p);
      MapsOfTaken(maps, slot);
      forall i: nat | i < |maps| ensures !Takes(maps[i].v, slot) {
      }
    }
  }

  /** A position that a section entry for a smaller block translates, and that no region takes. */
  lemma NewlyReached(s: System, v: Region, p: Region) returns (slot: nat)
    requires Inv(s) && !Clashes(s, SectionReach(v)) && Inside(v, SectionReach(v)) && v.length < L2_ENTRIES
    requires SectionsOf(v).length == SectionsOf(p).length == 1
    ensures slot in Mapped(MapOf(s.state.tables), SectionReach(v), SectionReach(p)) && !Takes(v, slot)
    ensures forall i: nat | i < |s.maps| :: !Takes(s.maps[i].v, slot)
  {
    var reach := SectionReach(v);
    var page := if reach.offset == v.offset then v.offset + v.length else reach.offset;
    slot := SlotOf(page);
    TakesIsSlot(reach, page);
    OneSectionApart(v, reach, page);
    forall i: nat | i < |s.maps| ensures !Takes(s.maps[i].v, slot) {
      NotTaken(s, i, reach, slot);
    }
  }

  lemma NotTaken(s: System, i: nat, reach: Region, slot: nat)
    requires Inv(s) && !Clashes(s, reach) && i < |s.maps| && Takes(reach, slot)
    ensures !Takes(s.maps[i].v, slot)
  {
    if Takes(s.maps[i].v, slot) {
      SharedSlotClashes(s, i, reach, slot);
    }
  }

  lemma OneSectionApart(v: Region, reach: Region, page: nat)
    requires Inside(v, reach) && reach.length == L2_ENTRIES && reach.Has(page) && !v.Has(page)
    ensures !Takes(v, SlotOf(page))
  {
  }

  lemma RefusedInv(s: System, a: Attempt)
    requires Inv(s) && GoodRefusal(s, a)
    ensures Inv(s.(state := a.state))
  {
  }

  /** The allocations of an attempt are those of the regions they stand for. */
  lemma AttemptWhole(s: System, region: Region, backing: Backing)
    requires BothHealthy(s) && region.length < 0x40_0000
    requires !TryReserveRegion(s.state, region, backing).phys.IsNull()
    ensures var a := TryReserveRegion(s.state, region, backing);
            && a.virt == ToAllocation(Some(RegionOf(a.virt))) && a.phys == ToAllocation(Some(RegionOf(a.phys)))
            && RegionOf(a.virt).length < ADDRESS_PAGES && RegionOf(a.phys).length < ADDRESS_PAGES
  {
    var v := Reserve(s.state.virt, region);
    ReserveHealthy(s.state.virt, Virts(s.maps), s.virtAdded, ADDRESS_PAGES, region);
    ReportedWhole(v.region);
    RegionOfIsShort(ToAllocation(v.region));
    match backing
    case Mixed =>
      AllocateHealthy(s.state.phys, Physs(s.maps), s.physAdded, SLOTS, region.length, 1);
      ReportedWhole(Allocate(s.state.phys, region.length, 1).region);
    case Identity =>
      ReserveHealthy(s.state.phys, Physs(s.maps), s.physAdded, SLOTS, RegionOf(ToAllocation(v.region)));
      ReportedWhole(Reserve(s.state.phys, RegionOf(ToAllocation(v.region))).region);
  }

  /**
   One request.  If it completes, the invariant holds afterwards exactly if the request
   was admissible; and if an admissible one stops on a page already recorded, the virtual
   region it was granted clashes with one handed out.
   */
  lemma StepKeepsInv(s: System, q: Request)
    requires Inv(s) && WellPosed(q)
    ensures Admissible(s.state, q) && Completes(Execute(s.state, q).ending) ==> Inv(Step(s, q))
    ensures Execute(s.state, q).ending.Done? && Inv(Step(s, q)) ==> Admissible(s.state, q)
    ensures Admissible(s.state, q) && Execute(s.state, q).ending == RecordedPanic ==>
              Clashes(s, RegionOf(AttemptOf(s.state, q).virt))
  {
    hide Matched, Whole, PagesOutcome, SectionsOutcome, Clashes;
    match q
    case GetPages(pages, alignment, backing) => StepGetPages(s, pages, alignment, backing);
    case GetRegion(region, backing) => StepGetRegion(s, region, backing);
    case GetSections(sections, backing) => StepGetSections(s, sections, backing);
    case PhysRunway =>
      AllocateHealthy(s.state.phys, Physs(s.maps), s.physAdded, SLOTS, RUNWAY_PAGES, 1);
    case VirtRunway =>
      AllocateHealthy(s.state.virt, Virts(s.maps), s.virtAdded, ADDRESS_PAGES, RUNWAY_PAGES, 1);
  }

  /** A page request: how it ends, and when it keeps the invariant. */
  lemma StepGetPages(s: System, pages: nat, alignment: nat, backing: Backing)
    requires Inv(s) && pages < 0x40_0000 && alignment > 0
    ensures var q := GetPages(pages, alignment, backing);
            var a := AttemptOf(s.state, q);
            var ending := Execute(s.state, q).ending;
            && (ending == IdentityPanic <==> a.panicked)
            && (ending == Refused <==> !a.panicked && a.phys.IsNull())
            && (!a.panicked && !a.phys.IsNull() ==>
                  EndsAs(ending, PagesOutcome(s, RegionOf(a.virt)), RegionOf(a.phys), RegionOf(a.virt)))
            && (ending == Refused ==> Inv(Step(s, q)))
            && (ending.Done? ==> (Inv(Step(s, q)) <==> Matched(s.state, pages, alignment, backing)))
            && (ending == RecordedPanic && Matched(s.state, pages, alignment, backing) ==>
                  Clashes(s, RegionOf(a.virt)))
  {
    hide TryReservePages, RecordPages, Clashes, TablesRunOut, Matched;
    var a := TryReservePages(s.state, pages, alignment, backing);
    GetPagesAttempt(s, pages, alignment, backing);
    if !a.panicked {
      if a.phys.IsNull() {
        RefusedInv(s, a);
      } else {
        GetPagesGranted(s, pages, alignment, backing);
        GetPagesLengths(s, pages, alignment, backing);
        RecordGrantedPages(s, a);
      }
    }
  }

  /** The ending of a call whose recording has the given outcome: the regions it returns, if it returns. */
  predicate EndsAs(ending: Ending, outcome: Outcome, p: Region, v: Region) {
    match outcome
    case Recorded => ending == Done(p, v)
    case AlreadyRecorded => ending == RecordedPanic
    case _ => ending == Unrecorded(p, v)
  }

  lemma GetPagesGranted(s: System, pages: nat, alignment: nat, backing: Backing)
    requires WellFormed(s.state.phys) && WellFormed(s.state.virt) && pages < 0x40_0000 && alignment > 0
    ensures var a := TryReservePages(s.state, pages, alignment, backing);
            !a.panicked && !a.phys.IsNull() ==> !a.virt.IsNull()
  {
  }

  /** A region request, which first compares the lengths of its two regions. */
  lemma StepGetRegion(s: System, region: Region, backing: Backing)
    requires Inv(s) && region.length < 0x40_0000
    ensures var q := GetRegion(region, backing);
            var a := AttemptOf(s.state, q);
            var ending := Execute(s.state, q).ending;
            && (ending == Refused <==> a.phys.IsNull())
            && (ending == LengthPanic <==> !a.phys.IsNull() && RegionOf(a.virt).length != RegionOf(a.phys).length)
            && (!a.phys.IsNull() && RegionOf(a.virt).length == RegionOf(a.phys).length ==>
                  EndsAs(ending, PagesOutcome(s, RegionOf(a.virt)), RegionOf(a.phys), RegionOf(a.virt)))
            && (Completes(ending) ==> Inv(Step(s, q)))
            && (ending == RecordedPanic ==> Clashes(s, RegionOf(a.virt)))
  {
    hide TryReserveRegion, RecordPages, Clashes, TablesRunOut;
    var a := TryReserveRegion(s.state, region, backing);
    GetRegionAttempt(s, region, backing);
    if a.phys.IsNull() {
      RefusedInv(s, a);
    } else if RegionOf(a.virt).length == RegionOf(a.phys).length {
      RecordGrantedPages(s, a);
    }
  }

  /** A section request: how it ends, and when it keeps the invariant. */
  lemma StepGetSections(s: System, sections: Region, backing: Backing)
    requires Inv(s) && AsPageRegion(sections).length < 0x40_0000
    ensures var q := GetSections(sections, backing);
            var a := AttemptOf(s.state, q);
            var ending := Execute(s.state, q).ending;
            && (ending == Refused <==> a.phys.IsNull())
            && (!a.phys.IsNull() ==>
                  EndsAs(ending, SectionsOutcome(s, RegionOf(a.virt), RegionOf(a.phys)),
                         SectionsOf(RegionOf(a.phys)), SectionsOf(RegionOf(a.virt))))
            && (ending == Refused ==> Inv(Step(s, q)))
            && (ending.Done? ==> (Inv(Step(s, q)) <==> Whole(s.state, sections, backing)))
            && (!a.phys.IsNull() && Whole(s.state, sections, backing) ==> WholeRegions(a))
            && (ending == RecordedPanic && Whole(s.state, sections, backing) ==> Clashes(s, RegionOf(a.virt)))
  {
    hide TryReserveRegion, RecordSections, Clashes, Whole, Depth;
    var region := AsPageRegion(sections);
    var a := TryReserveRegion(s.state, region, backing);
    GetRegionAttempt(s, region, backing);
    if a.phys.IsNull() {
      RefusedInv(s, a);
    } else {
      AttemptWhole(s, region, backing);
      GrantedWhole(s, sections, backing);
      RecordGrantedSections(s, a);
      if Whole(s.state, sections, backing) {
        BlockOfSections(RegionOf(a.virt));
        BlockOfSections(RegionOf(a.phys));
      }
    }
  }

  /** Both regions are the pages of whole sections. */
  predicate WholeRegions(a: Attempt) {
    SectionReach(RegionOf(a.virt)) == RegionOf(a.virt) && SectionReach(RegionOf(a.phys)) == RegionOf(a.phys)
  }

  /** Both regions granted to a section request are whole sections exactly if the state says so. */
  lemma GrantedWhole(s: System, sections: Region, backing: Backing)
    requires BothHealthy(s) && AsPageRegion(sections).length < 0x40_0000
    requires !TryReserveRegion(s.state, AsPageRegion(sections), backing).phys.IsNull()
    ensures var a := TryReserveRegion(s.state, AsPageRegion(sections), backing);
            Depth(RegionOf(a.virt).length) >= SECTION_DEPTH && Depth(RegionOf(a.phys).length) >= SECTION_DEPTH
            <==> Whole(s.state, sections, backing)
  {
    hide Allocate, Reserve, AllocatedDepth, ReservedDepth, Accounted, Supply, CanAllocate, CanReserve, PassesTheTest;
    hide Depth;
    var region := AsPageRegion(sections);
    if region.length > 0 {
      GetSectionsDepth(s, sections, backing);
    } else {
      var v := Reserve(s.state.virt, region).region;
      ReserveHealthy(s.state.virt, Virts(s.maps), s.virtAdded, ADDRESS_PAGES, region);
      HealthyIsBounded(s.state.virt, Virts(s.maps), s.virtAdded, ADDRESS_PAGES);
      ReserveExact(s.state.virt, region);
      ReserveGivesDepth(s.state.virt, region);
      ReportedWhole(v);
      PhysIsWhole(s, region, v.value, backing);
    }
  }

  lemma PhysIsWhole(s: System, region: Region, v: Region, backing: Backing)
    requires BothHealthy(s) && region.length < 0x40_0000 && BlockBelow(v, ADDRESS_PAGES) && v.length < ADDRESS_PAGES
    requires var p := if backing == Mixed then Allocate(s.state.phys, region.length, 1) else Reserve(s.state.phys, v);
             !ToAllocation(p.region).IsNull()
    ensures var p := if backing == Mixed then Allocate(s.state.phys, region.length, 1) else Reserve(s.state.phys, v);
            Depth(RegionOf(ToAllocation(p.region)).length)
            == if backing == Mixed then AllocatedDepth(s.state.phys, region.length, 1)
               else ReservedDepth(s.state.phys, v)
  {
    hide Allocate, Reserve, AllocatedDepth, ReservedDepth, Accounted, Supply, CanAllocate, CanReserve, PassesTheTest;
    hide Depth;
    if backing == Mixed {
      AllocateExact(s.state.phys, region.length, 1);
      AllocateGivesDepth(s.state.phys, region.length, 1);
      AllocateHealthy(s.state.phys, Physs(s.maps), s.physAdded, SLOTS, region.length, 1);
      ReportedWhole(Allocate(s.state.phys, region.length, 1).region);
    } else {
      HealthyIsBounded(s.state.phys, Physs(s.maps), s.physAdded, SLOTS);
      ReserveExact(s.state.phys, v);
      ReserveGivesDepth(s.state.phys, v);
      ReserveHealthy(s.state.phys, Physs(s.maps), s.physAdded, SLOTS, v);
      ReportedWhole(Reserve(s.state.phys, v).region);
    }
  }

  // ------------------------------------------------------------ whole runs

  /** `t` is reached from `s` by requests that are admissible where they are made and complete. */
  ghost predicate Reaches(s: System, qs: seq<Request>, t: System)
    decreases |qs|
  {
    if qs == [] then t == s
    else
      && Mmu.Ready(s.state) && Admissible(s.state, qs[0])
      && Completes(Execute(s.state, qs[0]).ending)
      && Reaches(Step(s, qs[0]), qs[1..], t)
  }

  lemma {:induction false} RunKeepsInv(s: System, qs: seq<Request>, t: System)
    requires Inv(s) && Reaches(s, qs, t)
    ensures Inv(t)
    decreases |qs|
  {
    if qs != [] {
      StepKeepsInv(s, qs[0]);
      RunKeepsInv(Step(s, qs[0]), qs[1..], t);
    }
  }

  /** No two virtual pages have the same physical page. */
  ghost predicate Injective(m: map<nat, nat>) {
    forall a, b | a in m && b in m && m[a] == m[b] :: a == b
  }

  /** The walk of the table takes a byte of a mapped page to the same byte of its backing page. */
  predicate ByteTranslates(t: Tables, m: Mapping, page: nat, byte: nat)
    requires Consistent(t) && m.v.Has(page)
  {
    Translate(t, page * PAGE_SIZE + byte) == Some(BackingAddress(m.v, m.p, page) + byte)
  }

  /** Every mapping handed out translates byte by byte to the region beside it. */
  ghost predicate AllTranslate(s: System)
    requires Consistent(s.state.tables)
  {
    forall i, page: nat, byte: nat
      | 0 <= i < |s.maps| && s.maps[i].v.Has(page) && byte < PAGE_SIZE ::
      ByteTranslates(s.state.tables, s.maps[i], page, byte)
  }

  /** The walk to every translated position finds the access bits for everyone. */
  ghost predicate AllOpen(s: System)
    requires Consistent(s.state.tables)
  {
    forall slot | slot in MapOf(s.state.tables) :: AccessAt(s.state.tables, slot) == Some(EVERYONE)
  }

  /** Only the positions of pages handed out have a translation. */
  ghost predicate OnlyHandedOut(s: System)
    requires Consistent(s.state.tables)
  {
    forall slot | slot in MapOf(s.state.tables) :: exists i | 0 <= i < |s.maps| :: Takes(s.maps[i].v, slot)
  }

  lemma TranslateIsLookup(t: Tables, page: nat, byte: nat)
    requires Consistent(t) && byte < PAGE_SIZE
    ensures Translate(t, page * PAGE_SIZE + byte)
         == if SlotOf(page) in MapOf(t) then Some(MapOf(t)[SlotOf(page)] + byte) else None
  {
    var address := page * PAGE_SIZE + byte;
    assert address / PAGE_SIZE == page && address % PAGE_SIZE == byte;
    assert address / SECTION_SIZE == page / L2_ENTRIES;
    SlotSplit(page / L2_ENTRIES, page % L2_ENTRIES);
    assert L1Index(address) * L2_ENTRIES + L2Index(address) == SlotOf(page);
  }

  lemma InvMaps(s: System, i: nat, page: nat)
    requires Inv(s) && i < |s.maps| && s.maps[i].v.Has(page)
    ensures SlotOf(page) in MapOf(s.state.tables)
    ensures MapOf(s.state.tables)[SlotOf(page)] == BackingAddress(s.maps[i].v, s.maps[i].p, page)
  {
    assert Representable(s.maps[i]);
    TakesIsSlot(s.maps[i].v, page);
    MapsOfAt(s.maps, i, SlotOf(page));
  }

  lemma InvTranslates(s: System)
    requires Inv(s)
    ensures AllTranslate(s) && OnlyHandedOut(s) && AllOpen(s)
  {
    forall i, page: nat, byte: nat | 0 <= i < |s.maps| && s.maps[i].v.Has(page) && byte < PAGE_SIZE
      ensures ByteTranslates(s.state.tables, s.maps[i], page, byte)
    {
      InvMaps(s, i, page);
      TranslateIsLookup(s.state.tables, page, byte);
    }
    forall slot | slot in MapOf(s.state.tables) ensures exists i | 0 <= i < |s.maps| :: Takes(s.maps[i].v, slot) {
      MapsOfTaken(s.maps, slot);
    }
    forall slot | slot in MapOf(s.state.tables) ensures AccessAt(s.state.tables, slot) == Some(EVERYONE) {
      TranslatedIsOpen(s.state.tables, slot);
    }
  }

  lemma MappingOf(s: System, slot: nat) returns (i: nat)
    requires Inv(s) && slot in MapOf(s.state.tables)
    ensures i < |s.maps| && Takes(s.maps[i].v, slot)
    ensures MapOf(s.state.tables)[slot] == BackingAddress(s.maps[i].v, s.maps[i].p, PageAt(s.maps[i].v, slot))
  {
    MapsOfTaken(s.maps, slot);
    i :| 0 <= i < |s.maps| && Takes(s.maps[i].v, slot);
    MapsOfAt(s.maps, i, slot);
  }

  /** The physical page that backs page `page` of a mapping lies in the mapping's physical region. */
  lemma BackingInRegion(m: Mapping, page: nat)
    requires Representable(m) && m.v.Has(page)
    ensures m.p.Has(BackingAddress(m.v, m.p, page) / PAGE_SIZE)
    ensures BackingAddress(m.v, m.p, page) / PAGE_SIZE - m.p.offset == page - m.v.offset
  {
  }

  /** No physical page backs two mappings. */
  lemma OneMappingBacked(s: System, i: nat, j: nat, page: int)
    requires BothHealthy(s) && i < |s.maps| && j < |s.maps| && s.maps[i].p.Has(page) && s.maps[j].p.Has(page)
    ensures i == j
  {
    hide Accounted;
    HeldOnce(s.state.phys, Physs(s.maps), s.physAdded, SLOTS);
    assert Cover(Physs(s.maps), page) <= 1;
    if i < j {
      CoverTwo(Physs(s.maps), i, j, page);
    } else if j < i {
      CoverTwo(Physs(s.maps), j, i, page);
    }
  }

  lemma SamePhysicalPage(s: System, a: nat, b: nat)
    requires Inv(s) && a in MapOf(s.state.tables) && b in MapOf(s.state.tables)
    requires MapOf(s.state.tables)[a] == MapOf(s.state.tables)[b]
    ensures a == b
  {
    hide MapOf, NoEmptyTable, SlotOf, MapsOf, Healthy, BackingAddress;
    var i := MappingOf(s, a);
    var j := MappingOf(s, b);
    var m, n := s.maps[i], s.maps[j];
    var page := MapOf(s.state.tables)[a] / PAGE_SIZE;
    assert Representable(m) && Representable(n);
    BackingInRegion(m, PageAt(m.v, a));
    BackingInRegion(n, PageAt(n.v, b));
    OneMappingBacked(s, i, j, page);
    SlotOfIndex(m.v, a);
    SlotOfIndex(n.v, b);
  }

  lemma InvInjective(s: System)
    requires Inv(s)
    ensures Injective(MapOf(s.state.tables))
  {
    var m := MapOf(s.state.tables);
    forall a, b | a in m && b in m && m[a] == m[b] ensures a == b {
      SamePhysicalPage(s, a, b);
    }
  }

  /** The state after init_page_tables has set up both page allocators and cleared the table. */
  function Boot(physNodes: nat, virtNodes: nat, base: nat, slots: nat): System {
    var memory, devices := Region(0, 0x2_0000), Region(0x3_C000, 0x4000);
    var space := Region(0, 0x10_0000);
    BootDepths();
    var phys := FreeRegion(FreeRegion(Empty(physNodes).backend, memory), devices);
    var virt := FreeRegion(Empty(virtNodes).backend, space);
    System(State(phys, virt, Tables(Zeros(L1_ENTRIES), Zeros(slots * L2_ENTRIES), base, 0)),
           [], [memory, devices], [space])
  }

  lemma BootDepths()
    ensures Depth(0x2_0000) == 17 && Depth(0x4000) == 14 && Depth(0x10_0000) == 20
    ensures Block(Region(0, 0x2_0000), 17) && Block(Region(0x3_C000, 0x4000), 14)
    ensures Block(Region(0, 0x10_0000), 20)
  {
    Pow2Values();
    DepthOfPow2(17);
    DepthOfPow2(14);
    DepthOfPow2(20);
  }

  /** Freeing a block into an allocator adds at most its pages to the free ones. */
  lemma FreeAccounted(b: Backend, r: Region, added: seq<Region>)
    requires WellFormed(b) && Accounted(b, [], added)
    requires Depth(r.length) < MAX_DEPTH && Block(r, Depth(r.length))
    ensures WellFormed(FreeRegion(b, r)) && Accounted(FreeRegion(b, r), [], added + [r])
  {
    FreeRegionConserves(b, r, 0);
    forall p: int ensures FreeCover(FreeRegion(b, r).lists, p) + Cover([], p) <= Cover(added + [r], p) {
      assert FreeCover(b.lists, p) + Cover([], p) <= Cover(added, p);
      FreeRegionConserves(b, r, p);
      CoverAppend(added, r, p);
    }
  }

  lemma EmptyAccounted(nodes: nat)
    ensures WellFormed(Empty(nodes).backend) && Accounted(Empty(nodes).backend, [], [])
  {
    EmptyIsSound(nodes);
    forall p: int ensures FreeCover(Empty(nodes).backend.lists, p) + Cover([], p) <= Cover([], p) {
      assert Balanced(Empty(nodes), p);
    }
  }

  lemma BootPhysHealthy(nodes: nat)
    requires Depth(0x2_0000) < MAX_DEPTH && Depth(0x4000) < MAX_DEPTH
    ensures var memory, devices := Region(0, 0x2_0000), Region(0x3_C000, 0x4000);
            Healthy(FreeRegion(FreeRegion(Empty(nodes).backend, memory), devices), [], [memory, devices], SLOTS)
  {
    var memory, devices := Region(0, 0x2_0000), Region(0x3_C000, 0x4000);
    BootDepths();
    EmptyAccounted(nodes);
    FreeAccounted(Empty(nodes).backend, memory, []);
    FreeAccounted(FreeRegion(Empty(nodes).backend, memory), devices, [] + [memory]);
    assert [] + [memory] + [devices] == [memory, devices];
    CoverAtMostOnce([memory, devices]);
  }

  lemma BootVirtHealthy(nodes: nat)
    requires Depth(0x10_0000) < MAX_DEPTH
    ensures var space := Region(0, 0x10_0000);
            Healthy(FreeRegion(Empty(nodes).backend, space), [], [space], ADDRESS_PAGES)
  {
    var space := Region(0, 0x10_0000);
    BootDepths();
    EmptyAccounted(nodes);
    FreeAccounted(Empty(nodes).backend, space, []);
    assert [] + [space] == [space];
    CoverAtMostOnce([space]);
  }

  lemma BootTables(t: Tables)
    requires t.l1 == Zeros(L1_ENTRIES) && t.used == 0
    requires t.base % L2_TABLE_BYTES == 0 && t.base + 4 * |t.l2| <= WORD
    ensures Consistent(t) && NoEmptyTable(t) && MapOf(t) == map[] && OpenToEveryone(t)
  {
  }

  lemma BootInv(physNodes: nat, virtNodes: nat, base: nat, slots: nat)
    requires base % L2_TABLE_BYTES == 0 && base + slots * L2_TABLE_BYTES <= WORD
    ensures Inv(Boot(physNodes, virtNodes, base, slots))
  {
    BootDepths();
    BootPhysHealthy(physNodes);
    BootVirtHealthy(virtNodes);
    var s := Boot(physNodes, virtNodes, base, slots);
    assert Virts(s.maps) == [] && Physs(s.maps) == [];
    BootTables(s.state.tables);
  }

  /**
   A region clashes exactly when a page handed out lies a multiple of 2^18 pages from one
   of its pages, because the first-level index has 10 bits for 12 bits of address.
   */
  lemma ClashesExactly(s: System, v: Region)
    requires Inv(s)
    ensures Clashes(s, v)
       <==> exists page: nat, i, other: nat | v.Has(page) && 0 <= i < |s.maps| && s.maps[i].v.Has(other) ::
              SlotOf(page) == SlotOf(other)
  {
    if Clashes(s, v) {
      var page: nat :| v.Has(page) && SlotOf(page) in MapOf(s.state.tables);
      var i := MappingOf(s, SlotOf(page));
      SlotOfIndex(s.maps[i].v, SlotOf(page));
      assert s.maps[i].v.Has(PageAt(s.maps[i].v, SlotOf(page)));
    }
    if page: nat, i: nat, other: nat
      :| v.Has(page) && i < |s.maps| && s.maps[i].v.Has(other) && SlotOf(page) == SlotOf(other)
    {
      InvMaps(s, i, other);
    }
  }

  /** A region granted next has no page in common with those handed out. */
  lemma GrantIsNew(s: System, a: Attempt, i: nat, page: int)
    requires Inv(s) && GoodGrant(s, a) && i < |s.maps|
    ensures !(s.maps[i].v.Has(page) && RegionOf(a.virt).Has(page))
  {
    HeldOnce(a.state.virt, Virts(s.maps) + [RegionOf(a.virt)], s.virtAdded, ADDRESS_PAGES);
    var held := Virts(s.maps) + [RegionOf(a.virt)];
    assert Cover(held, page) <= 1;
    CoverTwo(held, i, |held| - 1, page);
  }

  /** Every virtual page handed out is one that the 10-bit index can tell from the others. */
  ghost predicate BelowTheIndex(s: System) {
    forall i | 0 <= i < |s.maps| :: s.maps[i].v.offset + s.maps[i].v.length <= SLOTS
  }

  lemma InvIsConsistent(s: System)
    requires Inv(s)
    ensures Consistent(s.state.tables)
  {
  }

  /** While all virtual pages lie in the first GiB, no grant clashes. */
  lemma NoClashBelowTheIndex(s: System, a: Attempt)
    requires Inv(s) && GoodGrant(s, a) && BelowTheIndex(s)
    requires RegionOf(a.virt).offset + RegionOf(a.virt).length <= SLOTS
    ensures !Clashes(s, RegionOf(a.virt))
  {
    hide Inv, GoodGrant, RegionOf, Clashes;
    InvIsConsistent(s);
    ClashesExactly(s, RegionOf(a.virt));
    forall page: nat, i, other: nat | RegionOf(a.virt).Has(page) && 0 <= i < |s.maps| && s.maps[i].v.Has(other)
      ensures SlotOf(page) != SlotOf(other)
    {
      GrantIsNew(s, a, i, page);
    }
  }

  /**
   The end-to-end theorem.  In every state reached from boot by admissible requests that
   complete: each byte of a page handed out translates to the same byte of the physical
   page granted with it, everyone may access it, and no other attribute bit of an entry in
   use is set; only pages handed out have translations, no two of them share a physical
   page; and an admissible request runs into the "already recorded" panic only
   if its virtual region clashes with one handed out.
   */
  lemma TablesCorrectOverRuns(
      physNodes: nat, virtNodes: nat, base: nat, slots: nat, qs: seq<Request>, t: System, next: Request)
    requires base % L2_TABLE_BYTES == 0 && base + slots * L2_TABLE_BYTES <= WORD
    requires Reaches(Boot(physNodes, virtNodes, base, slots), qs, t)
    ensures Inv(t)
    ensures AllTranslate(t) && OnlyHandedOut(t) && Injective(MapOf(t.state.tables))
    ensures AllOpen(t) && OpenToEveryone(t.state.tables)
    ensures Admissible(t.state, next) && Execute(t.state, next).ending == RecordedPanic ==>
              Clashes(t, RegionOf(AttemptOf(t.state, next).virt))
  {
    BootInv(physNodes, virtNodes, base, slots);
    RunKeepsInv(Boot(physNodes, virtNodes, base, slots), qs, t);
    InvTranslates(t);
    InvInjective(t);
    if Admissible(t.state, next) {
      StepKeepsInv(t, next);
    }
  }
}
