/**
 What the page allocator promises its callers, for one call and over whole runs.
 */
module PageLedger {
  import opened TwoMath
  import opened Regions
  import opened PageBackend
  import opened AlignedBlocks

  /** With this many nodes in the pool no trimming can run out. */
  const ENOUGH_NODES: nat := MAX_DEPTH - 2

  /** Some region on a free list can serve the request. */
  ghost predicate CanAllocate(b: Backend, pages: nat, alignment: nat)
    requires |b.lists| == MAX_DEPTH && alignment > 0
  {
    exists d, i | 0 <= d < MAX_DEPTH && 0 <= i < |b.lists[d]| ::
      b.lists[d][i].length >= pages && b.lists[d][i].offset % alignment == 0
  }

  /** Some region on a free list holds all of `region`. */
  ghost predicate CanReserve(b: Backend, region: Region)
    requires |b.lists| == MAX_DEPTH
  {
    exists d, i | 0 <= d < MAX_DEPTH && 0 <= i < |b.lists[d]| :: Inside(region, b.lists[d][i])
  }

  /** Some region on a list that is deep enough passes the 32-bit containment test. */
  ghost predicate PassesTheTest(b: Backend, region: Region)
    requires |b.lists| == MAX_DEPTH
  {
    exists d, i | Depth(region.length) <= d < MAX_DEPTH && 0 <= i < |b.lists[d]| :: b.lists[d][i].Contains(region)
  }

  /** The region ends inside the 32-bit page numbering. */
  predicate EndsInside(region: Region) {
    region.offset + region.length < WORD
  }

  /**
   allocate is sound and complete: it fails exactly when no free region both fits and
   is aligned, and then changes nothing; otherwise it returns an aligned block of at
   least the requested pages, of exactly the least power of two unless nodes ran out.
   */
  lemma AllocateExact(b: Backend, pages: nat, alignment: nat)
    requires WellFormed(b) && pages < 0x40_0000 && alignment > 0
    ensures var a := Allocate(b, pages, alignment);
            && WellFormed(a.backend)
            && (a.region.Some? <==> CanAllocate(b, pages, alignment))
            && (a.region == None ==> a.backend == b)
            && (a.region.Some? ==>
                 var r := a.region.value;
                 && Block(r, Depth(r.length)) && Depth(r.length) < MAX_DEPTH
                 && r.length >= pages && r.offset % alignment == 0
                 && (r.length == Pow2(CeilLog(pages)) || a.backend.nodes == 0)
                 && (b.nodes >= ENOUGH_NODES ==> r.length == Pow2(CeilLog(pages))))
  {
    DepthInRange(pages);
    var pred := FitsAligned(pages, alignment);
    FindNodeFirst(b, Depth(pages), pred);
    match FindNode(b, Depth(pages), pred)
    case None =>
      forall d, i | 0 <= d < MAX_DEPTH && 0 <= i < |b.lists[d]|
        ensures !(b.lists[d][i].length >= pages && b.lists[d][i].offset % alignment == 0)
      {
        if d < Depth(pages) {
          ShallowDoesNotFit(b.lists[d][i], d, pages);
        } else {
          assert !pred(b.lists[d][i]);
        }
      }
    case Some(h) =>
      FoundFits(b, pages, alignment);
      RemoveNodeWellFormed(b, h);
      TrimAlignedShape(RemoveNode(b, h), At(b, h), h.depth, WantedDepth(pages));
      var e := StopDepth(h.depth, WantedDepth(pages), b.nodes + 1);
      WantedDepthIsCeilLog(pages);
      CeilLogIsLeast(pages, e);
      DepthOfPow2(e);
      assert pred(At(b, h));
  }

  /**
   The block comes from the front of the first region that fits and is aligned, in the lowest
   list that has one; lists too low for a fit are not looked at.
   */
  lemma AllocateTakesTheFirst(b: Backend, pages: nat, alignment: nat, d: nat, i: nat)
    requires WellFormed(b) && pages < 0x40_0000 && alignment > 0
    requires d < MAX_DEPTH && i < |b.lists[d]|
    requires b.lists[d][i].length >= pages && b.lists[d][i].offset % alignment == 0
    requires forall e, j | 0 <= e < MAX_DEPTH && 0 <= j < |b.lists[e]| && (e < d || (e == d && j < i)) ::
               !(b.lists[e][j].length >= pages && b.lists[e][j].offset % alignment == 0)
    ensures Allocate(b, pages, alignment).region.Some?
    ensures Allocate(b, pages, alignment).region.value.offset == b.lists[d][i].offset
  {
    hide Depth, CeilLog, WantedDepth, TrimAligned;
    DepthInRange(pages);
    var pred := FitsAligned(pages, alignment);
    FoundFits(b, pages, alignment);
    FindNodeFirst(b, Depth(pages), pred);
    assert pred(b.lists[d][i]);
    if d < Depth(pages) {
      ShallowDoesNotFit(b.lists[d][i], d, pages);
    }
    var h := FindNode(b, Depth(pages), pred).value;
    assert pred(At(b, h));
    assert h == Handle(d, i);
    TrimKeepsTheFront(RemoveNode(b, h), At(b, h), h.depth, WantedDepth(pages));
  }

  lemma {:induction false} TrimKeepsTheFront(b: Backend, r: Region, depth: nat, endDepth: nat)
    requires |b.lists| == MAX_DEPTH && endDepth <= depth < MAX_DEPTH
    ensures TrimAligned(b, r, depth, endDepth).region.offset == r.offset
    decreases depth
  {
    if depth != endDepth && b.nodes > 0 {
      TrimKeepsTheFront(InsertNode(b, depth - 1, r.Halve().1), r.Halve().0, depth - 1, endDepth);
    }
  }

  lemma ShallowDoesNotFit(r: Region, d: nat, pages: nat)
    requires Block(r, d) && d < Depth(pages)
    ensures !r.Fits(pages)
  {
    DepthBounds(pages);
    Pow2Strict(d, Depth(pages));
  }

  /** The depth of the block that a granted allocation gives: halving stops there, or nodes run out. */
  function AllocatedDepth(b: Backend, pages: nat, alignment: nat): nat
    requires |b.lists| == MAX_DEPTH && pages < 0x40_0000 && alignment > 0
  {
    DepthInRange(pages);
    match FindNode(b, Depth(pages), FitsAligned(pages, alignment))
    case None => 0
    case Some(h) => StopDepth(h.depth, WantedDepth(pages), b.nodes + 1)
  }

  lemma AllocateGivesDepth(b: Backend, pages: nat, alignment: nat)
    requires WellFormed(b) && pages < 0x40_0000 && alignment > 0
    requires CanAllocate(b, pages, alignment)
    ensures var a, e := Allocate(b, pages, alignment), AllocatedDepth(b, pages, alignment);
            && a.region.Some? && Block(a.region.value, e) && e == Depth(a.region.value.length) < MAX_DEPTH
            && CeilLog(pages) <= e && (e == CeilLog(pages) || e < MAX_DEPTH - 1)
            && (b.nodes >= ENOUGH_NODES ==> e == CeilLog(pages))
  {
    hide Pow2, Depth, CeilLog, CanAllocate, TrimAligned, WantedDepth;
    DepthInRange(pages);
    AllocateExact(b, pages, alignment);
    FoundFits(b, pages, alignment);
    FindNodeFirst(b, Depth(pages), FitsAligned(pages, alignment));
    var h := FindNode(b, Depth(pages), FitsAligned(pages, alignment)).value;
    RemoveNodeWellFormed(b, h);
    TrimAlignedShape(RemoveNode(b, h), At(b, h), h.depth, WantedDepth(pages));
    WantedDepthIsCeilLog(pages);
    DepthOfPow2(AllocatedDepth(b, pages, alignment));
  }

  /** Every free block ends inside the 32-bit page numbering. */
  ghost predicate Bounded(b: Backend)
    requires |b.lists| == MAX_DEPTH
  {
    forall d, i | 0 <= d < MAX_DEPTH && 0 <= i < |b.lists[d]| ::
      b.lists[d][i].offset + b.lists[d][i].length < WORD
  }

  /**
   reserve_region of any region succeeds exactly when a deep enough free block passes the
   containment test.  For a region that does not wrap this means that a free region holds
   it, and the answer is the smallest naturally aligned block around it unless nodes ran
   out.  A region that wraps may be granted too, but never a block that holds it.
   */
  lemma ReserveExact(b: Backend, region: Region)
    requires WellFormed(b) && Bounded(b) && region.length < 0x40_0000
    ensures var a := Reserve(b, region);
            && WellFormed(a.backend)
            && (a.region.Some? <==> PassesTheTest(b, region))
            && (EndsInside(region) ==> (a.region.Some? <==> CanReserve(b, region)))
            && (a.region == None ==> a.backend == b)
            && (a.region.Some? ==>
                 var r := a.region.value;
                 && Block(r, Depth(r.length)) && Depth(r.length) < MAX_DEPTH
                 && (Inside(region, r) <==> EndsInside(region))
                 && (EndsInside(region) ==> SmallestAround(r, region) || a.backend.nodes == 0)
                 && (EndsInside(region) && b.nodes >= ENOUGH_NODES ==> SmallestAround(r, region)))
  {
    hide Pow2, Depth, SmallestAround;
    DepthInRange(region.length);
    var from := Depth(region.length);
    var pred := Containing(region);
    FindNodeFirst(b, from, pred);
    if EndsInside(region) {
      TestIsContainment(b, region);
    }
    match FindNode(b, from, pred)
    case None =>
      forall d, i | from <= d < MAX_DEPTH && 0 <= i < |b.lists[d]|
        ensures !b.lists[d][i].Contains(region)
      {
        assert !pred(b.lists[d][i]);
      }
    case Some(h) =>
      RemoveNodeWellFormed(b, h);
      assert pred(At(b, h));
      if EndsInside(region) {
        ContainsIsInside(region, At(b, h));
        TrimAroundSmallest(RemoveNode(b, h), At(b, h), h.depth, region);
      }
      var e := TrimAroundShape(RemoveNode(b, h), At(b, h), h.depth, from, region);
      DepthOfPow2(e);
  }

  /** For a region that does not wrap, the test finds every free region that holds it. */
  lemma TestIsContainment(b: Backend, region: Region)
    requires WellFormed(b) && Bounded(b) && EndsInside(region)
    ensures PassesTheTest(b, region) <==> CanReserve(b, region)
  {
    forall d, i | 0 <= d < MAX_DEPTH && 0 <= i < |b.lists[d]| && Inside(region, b.lists[d][i])
      ensures d >= Depth(region.length) && b.lists[d][i].Contains(region)
    {
      ContainsIsInside(region, b.lists[d][i]);
      if d < Depth(region.length) {
        ShallowDoesNotFit(b.lists[d][i], d, region.length);
      }
    }
    if PassesTheTest(b, region) {
      var d, i :| Depth(region.length) <= d < MAX_DEPTH && 0 <= i < |b.lists[d]| && b.lists[d][i].Contains(region);
      ContainsIsInside(region, b.lists[d][i]);
    }
  }

  /** The depth of the block that a granted reservation gives. */
  function ReservedDepth(b: Backend, region: Region): nat
    requires |b.lists| == MAX_DEPTH && region.length < 0x40_0000
  {
    DepthInRange(region.length);
    match FindNode(b, Depth(region.length), Containing(region))
    case None => 0
    case Some(h) => StopDepth(h.depth, HolderDepth(region, 0), b.nodes + 1)
  }

  /** A granted reservation gives the block of that depth that the region lies in, for any number of nodes. */
  lemma ReserveGivesDepth(b: Backend, region: Region)
    requires WellFormed(b) && Bounded(b) && region.length < 0x40_0000 && EndsInside(region)
    requires CanReserve(b, region)
    ensures var a, e := Reserve(b, region), ReservedDepth(b, region);
            && a.region.Some? && Block(a.region.value, e) && e == Depth(a.region.value.length) < MAX_DEPTH
            && Inside(region, a.region.value)
            && (region.length > 0 ==> a.region.value == BlockAt(region, e))
            && Depth(region.length) <= HolderDepth(region, 0) <= e
            && (e == HolderDepth(region, 0) || e < MAX_DEPTH - 1)
            && (b.nodes >= ENOUGH_NODES ==> e == HolderDepth(region, 0))
  {
    hide Pow2, Depth, HolderDepth, BlockAt, CanReserve, PassesTheTest, TrimAround;
    ReserveExact(b, region);
    DepthInRange(region.length);
    FindNodeFirst(b, Depth(region.length), Containing(region));
    var h := FindNode(b, Depth(region.length), Containing(region)).value;
    RemoveNodeWellFormed(b, h);
    assert Containing(region)(At(b, h));
    ContainsIsInside(region, At(b, h));
    TrimAroundStops(RemoveNode(b, h), At(b, h), h.depth, region);
    DepthOfPow2(ReservedDepth(b, region));
  }

  /** Asking for the last page number of all is granted by any free page, which cannot hold it. */
  lemma WrappingIsGranted(b: Backend, d: nat, i: nat)
    requires WellFormed(b) && Bounded(b) && d < MAX_DEPTH && i < |b.lists[d]|
    ensures var region := Region(WORD - 1, 1);
            var a := Reserve(b, region);
            a.region.Some? && !Inside(region, a.region.value) && !CanReserve(b, region)
  {
    hide Reserve;
    var region := Region(WORD - 1, 1);
    ReserveExact(b, region);
    assert Depth(1) == 0 by { DepthOfPow2(0); }
    assert b.lists[d][i].Contains(region);
  }

  /** Any reservation, of whatever region, hands out a block and keeps the lists well formed. */
  lemma ReserveShape(b: Backend, region: Region)
    requires WellFormed(b) && region.length < 0x40_0000
    ensures var a := Reserve(b, region);
            && WellFormed(a.backend)
            && (a.region == None ==> a.backend == b)
            && (a.region.Some? ==>
                 var r := a.region.value;
                 Block(r, Depth(r.length)) && Depth(region.length) <= Depth(r.length) < MAX_DEPTH)
  {
    DepthInRange(region.length);
    FindNodeFirst(b, Depth(region.length), Containing(region));
    match FindNode(b, Depth(region.length), Containing(region))
    case None =>
    case Some(h) =>
      RemoveNodeWellFormed(b, h);
      var e := TrimAroundShape(RemoveNode(b, h), At(b, h), h.depth, Depth(region.length), region);
      DepthOfPow2(e);
  }

  /** Reserving a naturally aligned power of two returns that very region. */
  lemma ReserveBlockIsExact(b: Backend, region: Region, d: nat)
    requires WellFormed(b) && Bounded(b) && b.nodes >= ENOUGH_NODES
    requires Block(region, d) && region.length < 0x40_0000 && EndsInside(region)
    requires CanReserve(b, region)
    ensures Reserve(b, region).region == Some(region)
  {
    hide Reserve, Bounded, CanReserve, PassesTheTest;
    ReserveExact(b, region);
    var r := Reserve(b, region).region.value;
    assert r.length <= region.length;
  }

  /** No call takes more nodes from the pool than there are depths. */
  lemma AllocateNodes(b: Backend, pages: nat, alignment: nat)
    requires WellFormed(b) && pages < 0x40_0000 && alignment > 0
    ensures Allocate(b, pages, alignment).backend.nodes + MAX_DEPTH >= b.nodes
  {
    DepthInRange(pages);
    FoundFits(b, pages, alignment);
    match FindNode(b, Depth(pages), FitsAligned(pages, alignment))
    case None =>
    case Some(h) => TrimAlignedNodes(RemoveNode(b, h), At(b, h), h.depth, WantedDepth(pages));
  }

  lemma ReserveNodes(b: Backend, region: Region)
    requires WellFormed(b) && region.length < 0x40_0000
    ensures Reserve(b, region).backend.nodes + MAX_DEPTH >= b.nodes
  {
    DepthInRange(region.length);
    FindNodeFirst(b, Depth(region.length), Containing(region));
    match FindNode(b, Depth(region.length), Containing(region))
    case None =>
    case Some(h) => TrimAroundNodes(RemoveNode(b, h), At(b, h), h.depth, Depth(region.length), region);
  }

  // ------------------------------------------------------------ one step

  /** The pages of an optional region, counted. */
  function HitOption(r: Option<Region>, p: int): nat {
    if r == None then 0 else Hit(r.value, p)
  }

  lemma AllocateConserves(b: Backend, pages: nat, alignment: nat, p: int)
    requires WellFormed(b) && pages < 0x40_0000 && alignment > 0
    ensures var a := Allocate(b, pages, alignment);
            && FreeCover(a.backend.lists, p) + HitOption(a.region, p) == FreeCover(b.lists, p)
            && PoolSize(a.backend) == PoolSize(b)
  {
    DepthInRange(pages);
    FoundFits(b, pages, alignment);
    match FindNode(b, Depth(pages), FitsAligned(pages, alignment))
    case None =>
    case Some(h) =>
      RemoveNodeCounts(b, h, p);
      TrimAlignedConserves(RemoveNode(b, h), At(b, h), h.depth, WantedDepth(pages), p);
  }

  lemma ReserveConserves(b: Backend, region: Region, p: int)
    requires WellFormed(b) && region.length < 0x40_0000
    ensures var a := Reserve(b, region);
            && FreeCover(a.backend.lists, p) + HitOption(a.region, p) == FreeCover(b.lists, p)
            && PoolSize(a.backend) == PoolSize(b)
  {
    DepthInRange(region.length);
    FindNodeFirst(b, Depth(region.length), Containing(region));
    match FindNode(b, Depth(region.length), Containing(region))
    case None =>
    case Some(h) =>
      RemoveNodeCounts(b, h, p);
      TrimAroundConserves(RemoveNode(b, h), At(b, h), h.depth, Depth(region.length), region, p);
  }

  /** Freeing a block loses its pages exactly when the node pool is empty. */
  lemma FreeRegionConserves(b: Backend, r: Region, p: int)
    requires WellFormed(b) && Block(r, Depth(r.length)) && Depth(r.length) < MAX_DEPTH
    ensures WellFormed(FreeRegion(b, r)) && PoolSize(FreeRegion(b, r)) == PoolSize(b)
    ensures FreeCover(FreeRegion(b, r).lists, p)
         == FreeCover(b.lists, p) + if b.nodes > 0 then Hit(r, p) else 0
  {
    if b.nodes > 0 {
      InsertNodeCounts(b, Depth(r.length), r, p);
      InsertNodeWellFormed(b, Depth(r.length), r);
    }
  }

  /** Freeing no pages changes nothing: no node is spent on an empty region. */
  lemma NothingIsFreed(b: Backend, offset: nat)
    requires |b.lists| == MAX_DEPTH
    ensures Depth(0) < MAX_DEPTH && FreeRegion(b, Region(offset, 0)) == b
  {
  }

  // ------------------------------------------------------------ whole runs

  /**
   The allocator together with everything that ever went through it: the regions
   handed out and not yet freed, those dropped because no node was left to list them,
   and those added.
   */
  datatype Ledger = Ledger(backend: Backend, out: seq<Region>, lost: seq<Region>, added: seq<Region>)

  datatype Op =
    | Add(region: Region)
    | Take(pages: nat, alignment: nat)
    | Claim(region: Region)
    | Release(index: nat)

  /** The page numbers of a 32-bit address space. */
  const ADDRESS_PAGES: nat := 0x10_0000

  /**
   What a caller may do: add naturally aligned blocks of the address space, ask for
   any number of pages the depth table covers, and give back what it was handed.
   */
  predicate Allowed(s: Ledger, op: Op) {
    match op
    case Add(r) => Depth(r.length) < MAX_DEPTH && Block(r, Depth(r.length)) && r.offset + r.length <= ADDRESS_PAGES
    case Take(pages, alignment) => pages < 0x40_0000 && alignment > 0
    case Claim(r) => r.length < 0x40_0000
    case Release(i) => i < |s.out| && s.out[i].length < ADDRESS_PAGES
  }

  function Appended(s: seq<Region>, r: Option<Region>): seq<Region> {
    if r == None then s else s + [r.value]
  }

  /** One call.  A released region comes back as the byte address and size it was handed out as. */
  function Apply(s: Ledger, op: Op): Ledger
    requires Sound(s) && Allowed(s, op)
  {
    match op
    case Add(r) =>
      s.(backend := FreeRegion(s.backend, r), added := s.added + [r],
         lost := if s.backend.nodes == 0 then s.lost + [r] else s.lost)
    case Take(pages, alignment) =>
      var a := Allocate(s.backend, pages, alignment);
      s.(backend := a.backend, out := Appended(s.out, a.region))
    case Claim(region) =>
      var a := Reserve(s.backend, region);
      s.(backend := a.backend, out := Appended(s.out, a.region))
    case Release(i) =>
      var alloc := ToAllocation(Some(s.out[i]));
      var r := PageRegionFromPtr(alloc.ptr, alloc.size);
      PageRegionRoundTrip(s.out[i]);
      s.(backend := FreeRegion(s.backend, r), out := RemoveAt(s.out, i),
         lost := if s.backend.nodes == 0 then s.lost + [r] else s.lost)
  }

  ghost predicate AllBlocks(rs: seq<Region>) {
    forall i | 0 <= i < |rs| ::
      && Depth(rs[i].length) < MAX_DEPTH && Block(rs[i], Depth(rs[i].length))
      && rs[i].offset + rs[i].length <= ADDRESS_PAGES
  }

  /** Page p is free, handed out or lost exactly as often as it was added. */
  ghost predicate Balanced(s: Ledger, p: int) {
    FreeCover(s.backend.lists, p) + Cover(s.out, p) + Cover(s.lost, p) == Cover(s.added, p)
  }

  ghost predicate Sound(s: Ledger) {
    && WellFormed(s.backend)
    && AllBlocks(s.out) && AllBlocks(s.added)
    && (forall p: int :: Balanced(s, p))
  }

  /** Every free block lies inside the address space, because its pages were added there. */
  lemma FreeBlocksBounded(s: Ledger, d: nat, i: nat)
    requires WellFormed(s.backend) && AllBlocks(s.added) && forall p: int :: Balanced(s, p)
    requires d < MAX_DEPTH && i < |s.backend.lists[d]|
    ensures s.backend.lists[d][i].offset + s.backend.lists[d][i].length <= ADDRESS_PAGES
  {
    var r := s.backend.lists[d][i];
    var last := r.offset + r.length - 1;
    FreeCoverAtLeast(s.backend.lists, d, i, last);
    assert Balanced(s, last);
    var k := CoverWitness(s.added, last);
  }

  /** So the exactness of reservations holds after every run. */
  lemma SoundIsBounded(s: Ledger)
    requires Sound(s)
    ensures Bounded(s.backend)
  {
    forall d, i | 0 <= d < MAX_DEPTH && 0 <= i < |s.backend.lists[d]|
      ensures s.backend.lists[d][i].offset + s.backend.lists[d][i].length < WORD
    {
      FreeBlocksBounded(s, d, i);
    }
  }

  lemma HandedOutBounded(s: Ledger, r: Region)
    requires AllBlocks(s.added) && r.length > 0
    requires Cover(s.added, r.offset + r.length - 1) > 0
    ensures r.offset + r.length <= ADDRESS_PAGES
  {
    var k := CoverWitness(s.added, r.offset + r.length - 1);
  }

  /** A call conserves every page, and keeps every list and every handed-out region a block. */
  lemma ApplySound(s: Ledger, op: Op)
    requires Sound(s) && Allowed(s, op)
    ensures Sound(Apply(s, op))
    ensures PoolSize(Apply(s, op).backend) == PoolSize(s.backend)
  {
    var t := Apply(s, op);
    forall p: int ensures Balanced(t, p) {
      ApplyBalanced(s, op, p);
    }
    ApplyBalanced(s, op, 0);
    match op {
      case Add(r) =>
      case Take(pages, alignment) =>
        AllocateExact(s.backend, pages, alignment);
        GrantBounded(s, t, Allocate(s.backend, pages, alignment).region);
      case Claim(region) =>
        ReserveShape(s.backend, region);
        GrantBounded(s, t, Reserve(s.backend, region).region);
      case Release(i) =>
    }
  }

  /** A newly handed-out region lies in the address space, because its pages were added there. */
  lemma GrantBounded(s: Ledger, t: Ledger, r: Option<Region>)
    requires AllBlocks(s.out) && AllBlocks(t.added) && t.out == Appended(s.out, r)
    requires r.Some? ==> Depth(r.value.length) < MAX_DEPTH && Block(r.value, Depth(r.value.length))
    requires forall p: int :: Balanced(t, p)
    ensures AllBlocks(t.out)
  {
    if r.Some? {
      var last := r.value.offset + r.value.length - 1;
      CoverAppend(s.out, r.value, last);
      assert Balanced(t, last);
      HandedOutBounded(t, r.value);
    }
  }

  lemma ApplyBalanced(s: Ledger, op: Op, p: int)
    requires Sound(s) && Allowed(s, op)
    ensures var t := Apply(s, op);
            Balanced(t, p) && WellFormed(t.backend) && PoolSize(t.backend) == PoolSize(s.backend)
  {
    assert Balanced(s, p);
    match op {
      case Add(r) =>
        FreeRegionConserves(s.backend, r, p);
        CoverAppend(s.added, r, p);
        CoverAppend(s.lost, r, p);
      case Take(pages, alignment) =>
        AllocateConserves(s.backend, pages, alignment, p);
        AllocateExact(s.backend, pages, alignment);
        AppendedCover(s.out, Allocate(s.backend, pages, alignment).region, p);
      case Claim(region) =>
        ReserveConserves(s.backend, region, p);
        ReserveShape(s.backend, region);
        AppendedCover(s.out, Reserve(s.backend, region).region, p);
      case Release(i) =>
        PageRegionRoundTrip(s.out[i]);
        FreeRegionConserves(s.backend, s.out[i], p);
        CoverRemove(s.out, i, p);
        CoverAppend(s.lost, s.out[i], p);
    }
  }

  lemma AppendedCover(s: seq<Region>, r: Option<Region>, p: int)
    ensures Cover(Appended(s, r), p) == Cover(s, p) + HitOption(r, p)
  {
    if r.Some? {
      CoverAppend(s, r.value, p);
    }
  }

  function Empty(nodes: nat): Ledger {
    Ledger(Backend(seq(MAX_DEPTH, _ => []), nodes), [], [], [])
  }

  lemma EmptyIsSound(nodes: nat)
    ensures Sound(Empty(nodes)) && PoolSize(Empty(nodes).backend) == nodes
  {
    assert NodeCount(seq(MAX_DEPTH, _ => [])) == 0 by { NothingFree(MAX_DEPTH, 0); }
    forall p: int ensures Balanced(Empty(nodes), p) {
      NothingFree(MAX_DEPTH, p);
    }
  }

  lemma {:induction false} NothingFree(n: nat, p: int)
    ensures FreeCover(seq(n, _ => []), p) == 0 && NodeCount(seq(n, _ => [])) == 0
  {
    if n > 0 {
      var lists: seq<seq<Region>> := seq(n, _ => []);
      assert lists[1..] == seq(n - 1, _ => []);
      NothingFree(n - 1, p);
    }
  }

  /** A run that starts in `s`: every call allowed where it is made. */
  ghost predicate Runnable(s: Ledger, ops: seq<Op>)
    decreases |ops|
  {
    ops == [] || (Sound(s) && Allowed(s, ops[0]) && Runnable(Apply(s, ops[0]), ops[1..]))
  }

  ghost function Run(s: Ledger, ops: seq<Op>): Ledger
    requires Runnable(s, ops)
    decreases |ops|
  {
    if ops == [] then s else Run(Apply(s, ops[0]), ops[1..])
  }

  /** Every call is allowed where it is made; nothing is asked of the states in between. */
  ghost predicate CallsAllowed(s: Ledger, ops: seq<Op>)
    decreases |ops|
  {
    ops == [] || (Allowed(s, ops[0]) && (Sound(s) ==> CallsAllowed(Apply(s, ops[0]), ops[1..])))
  }

  /** From a sound state the callers' obligations alone make a run. */
  lemma {:induction false} AllowedCallsRun(s: Ledger, ops: seq<Op>)
    requires Sound(s)
    ensures Runnable(s, ops) <==> CallsAllowed(s, ops)
    decreases |ops|
  {
    if ops != [] && Allowed(s, ops[0]) {
      ApplySound(s, ops[0]);
      AllowedCallsRun(Apply(s, ops[0]), ops[1..]);
    }
  }

  /** Soundness and the size of the node pool hold over every run. */
  lemma {:induction false} RunSound(s: Ledger, ops: seq<Op>)
    requires Sound(s) && Runnable(s, ops)
    ensures Sound(Run(s, ops))
    ensures PoolSize(Run(s, ops).backend) == PoolSize(s.backend)
    decreases |ops|
  {
    if ops != [] {
      ApplySound(s, ops[0]);
      RunSound(Apply(s, ops[0]), ops[1..]);
    }
  }

  /** Freeing page 0 and then page 1 leaves a free list that is not in order. */
  lemma OrderLost(nodes: nat)
    requires nodes >= 2
    ensures var ops := [Add(Region(0, 1)), Add(Region(1, 1))];
            && Runnable(Empty(nodes), ops)
            && var l := Run(Empty(nodes), ops).backend.lists[0];
               l == [Region(0, 1), Region(1, 1)] && !Descending(l)
  {
    var s := Empty(nodes);
    EmptyIsSound(nodes);
    assert Depth(1) == 0 by { DepthOfPow2(0); }
    ApplySound(s, Add(Region(0, 1)));
    var t := Apply(s, Add(Region(0, 1)));
    assert t.backend.lists[0] == [Region(0, 1)];
    ApplySound(t, Add(Region(1, 1)));
    var ops := [Add(Region(0, 1)), Add(Region(1, 1))];
    assert ops[1..] == [Add(Region(1, 1))] && ops[1..][1..] == [];
    assert Runnable(t, ops[1..]);
    var l := [Region(0, 1), Region(1, 1)];
    assert Above(l[1], l[0]);
  }

  /** Releasing a region lists the pages of that region again, while a node is left, and no others. */
  lemma ReleaseGivesBack(s: Ledger, i: nat, page: int)
    requires Sound(s) && Allowed(s, Release(i))
    ensures var t := Apply(s, Release(i));
            && t.out == s.out[..i] + s.out[i + 1..]
            && FreeCover(t.backend.lists, page)
               == FreeCover(s.backend.lists, page) + if s.backend.nodes > 0 && s.out[i].Has(page) then 1 else 0
  {
    PageRegionRoundTrip(s.out[i]);
    FreeRegionConserves(s.backend, s.out[i], page);
  }

  /** No call but its release takes a region from those handed out. */
  lemma ApplyKeepsOut(s: Ledger, op: Op, r: Region)
    requires Sound(s) && Allowed(s, op) && r in s.out
    requires op.Release? ==> s.out[op.index] != r
    ensures r in Apply(s, op).out
  {
    hide Sound, Allocate, Reserve;
    if op.Release? {
      ReleaseGivesBack(s, op.index, 0);
      var i :| 0 <= i < |s.out| && s.out[i] == r;
      assert Apply(s, op).out[if i < op.index then i else i - 1] == r;
    }
  }

  /** None of the calls releases region r. */
  ghost predicate NeverReleases(s: Ledger, ops: seq<Op>, r: Region)
    requires Runnable(s, ops)
    decreases |ops|
  {
    ops == [] || (!(ops[0].Release? && s.out[ops[0].index] == r) && NeverReleases(Apply(s, ops[0]), ops[1..], r))
  }

  /** Over any run a region handed out stays out until that very region is released. */
  lemma {:induction false} OutUntilReleased(s: Ledger, ops: seq<Op>, r: Region)
    requires Sound(s) && Runnable(s, ops) && r in s.out && NeverReleases(s, ops, r)
    ensures r in Run(s, ops).out
    decreases |ops|
  {
    hide Sound, Allowed, Apply;
    if ops != [] {
      ApplySound(s, ops[0]);
      ApplyKeepsOut(s, ops[0], r);
      OutUntilReleased(Apply(s, ops[0]), ops[1..], r);
    }
  }

  /** Adding or releasing with an empty node pool is the one way to lose pages. */
  predicate Leaks(s: Ledger, op: Op) {
    (op.Add? || op.Release?) && s.backend.nodes == 0
  }

  ghost predicate NeverLeaks(s: Ledger, ops: seq<Op>)
    requires Runnable(s, ops)
    decreases |ops|
  {
    ops == [] || (!Leaks(s, ops[0]) && NeverLeaks(Apply(s, ops[0]), ops[1..]))
  }

  lemma {:induction false} LostOnlyByLeaking(s: Ledger, ops: seq<Op>)
    requires Sound(s) && Runnable(s, ops)
    ensures |Run(s, ops).lost| >= |s.lost|
    ensures NeverLeaks(s, ops) <==> Run(s, ops).lost == s.lost
    decreases |ops|
  {
    if ops != [] {
      ApplySound(s, ops[0]);
      LostOnlyByLeaking(Apply(s, ops[0]), ops[1..]);
    }
  }

  ghost predicate AllDisjoint(s: Ledger)
    requires |s.backend.lists| == MAX_DEPTH
  {
    && PairwiseDisjoint(s.out)
    && (forall d, i, k | 0 <= d < MAX_DEPTH && 0 <= i < |s.backend.lists[d]| && 0 <= k < |s.out| ::
          Disjoint(s.backend.lists[d][i], s.out[k]))
    && (forall d, i, j | 0 <= d < MAX_DEPTH && 0 <= i < j < |s.backend.lists[d]| ::
          Disjoint(s.backend.lists[d][i], s.backend.lists[d][j]))
    && (forall d, i, e, j | 0 <= d < e < MAX_DEPTH && 0 <= i < |s.backend.lists[d]| && 0 <= j < |s.backend.lists[e]| ::
          Disjoint(s.backend.lists[d][i], s.backend.lists[e][j]))
  }

  /**
   The safety theorem: over every run from an empty allocator, if no page was added
   twice, no two regions that are free or handed out overlap; and a page is free or
   handed out exactly when it was added, unless a leaking call dropped it.
   */
  lemma NoOverlapOverRuns(nodes: nat, ops: seq<Op>)
    requires Runnable(Empty(nodes), ops)
    requires PairwiseDisjoint(Run(Empty(nodes), ops).added)
    ensures var t := Run(Empty(nodes), ops);
            && |t.backend.lists| == MAX_DEPTH && AllDisjoint(t)
            && (NeverLeaks(Empty(nodes), ops) ==>
                  forall p: int :: Cover(t.added, p) == FreeCover(t.backend.lists, p) + Cover(t.out, p))
  {
    EmptyIsSound(nodes);
    RunSound(Empty(nodes), ops);
    LostOnlyByLeaking(Empty(nodes), ops);
    var t := Run(Empty(nodes), ops);
    CoverAtMostOnce(t.added);
    SoundIsDisjoint(t);
    if NeverLeaks(Empty(nodes), ops) {
      forall p: int ensures Cover(t.added, p) == FreeCover(t.backend.lists, p) + Cover(t.out, p) {
        assert Balanced(t, p);
      }
    }
  }

  lemma SoundIsDisjoint(t: Ledger)
    requires Sound(t) && CoversAtMostOnce(t.added)
    ensures AllDisjoint(t)
  {
    forall p: int
      ensures FreeCover(t.backend.lists, p) + Cover(t.out, p) <= 1
    {
      assert Balanced(t, p);
      assert Cover(t.added, p) <= 1;
    }
    forall p: int ensures Cover(t.out, p) <= 1 {
      assert FreeCover(t.backend.lists, p) + Cover(t.out, p) <= 1;
    }
    CoverAtMostOnce(t.out);
    forall d, i, k, p: int | 0 <= d < MAX_DEPTH && 0 <= i < |t.backend.lists[d]| && 0 <= k < |t.out|
      ensures !(t.backend.lists[d][i].Has(p) && t.out[k].Has(p))
    {
      FreeCoverAtLeast(t.backend.lists, d, i, p);
      CoverSplitAt(t.out, k, p);
    }
    forall d, i, j, p: int | 0 <= d < MAX_DEPTH && 0 <= i < j < |t.backend.lists[d]|
      ensures !(t.backend.lists[d][i].Has(p) && t.backend.lists[d][j].Has(p))
    {
      FreeCoverList(t.backend.lists, d, p);
      CoverTwo(t.backend.lists[d], i, j, p);
    }
    forall d, i, e, j, p: int
      | 0 <= d < e < MAX_DEPTH && 0 <= i < |t.backend.lists[d]| && 0 <= j < |t.backend.lists[e]|
      ensures !(t.backend.lists[d][i].Has(p) && t.backend.lists[e][j].Has(p))
    {
      FreeCoverTwoLists(t.backend.lists, d, e, p);
      CoverSplitAt(t.backend.lists[d], i, p);
      CoverSplitAt(t.backend.lists[e], j, p);
    }
  }
}
