/**
 The kernel's allocator end to end (kernel/kmalloc.hpp, kernel/kmalloc.cpp): a free list
 that asks the memory-management unit's page allocator for more memory.  Over every run
 the blocks it hands out are disjoint, and each of their bytes is translated to a physical
 byte of its own.
 */
module KernelHeap {
  import opened TwoMath
  import opened Regions
  import opened FreeList
  import opened PageTable
  import opened Mmu
  import opened Binder
  import PageLedger
  import M = MmuRuns
  import F = FreeListRuns

  /**
   The page allocator's system, the free list with its books, and the virtual regions
   that the free list was given.
   */
  datatype System = System(pages: M.System, books: F.Books, grants: seq<Region>)

  /** Calls of kmalloc and kfree, and page requests of other parts of the kernel. */
  datatype Event =
    | Malloc(requested: nat)
    | Kfree(index: nat)
    | Other(request: M.Request)

  /** PageAllocator::allocate asks for whole pages. */
  function PagesFor(requested: nat): nat
    requires requested < WORD
  {
    PageRounding(MinAllocationSize(requested));
    AlignUpTwo(PreferredSize(requested), PAGE_SIZE) / PAGE_SIZE
  }

  /** The request that the fallback makes. */
  function FallbackRequest(requested: nat): M.Request
    requires requested < WORD
  {
    M.GetPages(PagesFor(requested), 1, Mixed)
  }

  lemma PagesForBounds(requested: nat)
    requires requested < WORD
    ensures PreferredSize(requested) < WORD && PreferredSize(requested) % PAGE_SIZE == 0
    ensures PagesFor(requested) * PAGE_SIZE
         == if PreferredSize(requested) == 0 then PAGE_SIZE else PreferredSize(requested)
    ensures M.WellPosed(FallbackRequest(requested))
  {
    hide AlignUpTwo, And, PreferredSize;
    PageRounding(MinAllocationSize(requested));
    PreferredIsRounded(requested);
    PageRounding(PreferredSize(requested));
  }

  lemma PreferredIsRounded(requested: nat)
    requires requested < WORD
    ensures PreferredSize(requested) == AlignUpTwo(MinAllocationSize(requested), PAGE_SIZE)
  {
  }

  /** Rounding up to pages, in 32 bits. */
  lemma PageRounding(size: nat)
    requires size < WORD
    ensures AlignUpTwo(size, PAGE_SIZE) < WORD && AlignUpTwo(size, PAGE_SIZE) % PAGE_SIZE == 0
    ensures size % PAGE_SIZE == 0 ==> AlignUpTwo(size, PAGE_SIZE) == if size == 0 then PAGE_SIZE else size
  {
    hide AlignUpTwo;
    Pow2Values();
    AlignUpTwoCeils(size, 12);
  }

  /** What the fallback answers: the virtual region of a request that is done. */
  function Provided(ending: Ending): Allocation {
    if ending.Done? then Allocation(ending.virt.PagePtr(0), ending.virt.PageBytes()) else Allocation(0, 0)
  }

  ghost predicate Inv(s: System) {
    && M.Inv(s.pages) && F.Inv(s.books)
    && s.books.added == Bytes(s.grants)
    && forall page: int :: Cover(s.grants, page) <= Cover(M.Virts(s.pages.maps), page)
  }

  /** The memory given to the free list: the same regions in bytes. */
  function Bytes(grants: seq<Region>): seq<Region> {
    seq(|grants|, i requires 0 <= i < |grants| => ByteRegion(grants[i]))
  }

  function ByteRegion(r: Region): Region {
    Region(r.offset * PAGE_SIZE, r.length * PAGE_SIZE)
  }

  /**
   What is needed of an event: sizes of the machine, an index of a live block, and that a
   request to the page allocator, where one is made, is admissible and completes.
   */
  ghost predicate Allowed(s: System, e: Event)
    requires Inv(s)
  {
    match e
    case Malloc(requested) =>
      && requested < WORD
      && (Allocate(s.books.heap, requested).allocation.ptr == 0 ==> RequestAllowed(s, FallbackRequest(requested)))
    case Kfree(index) => index < |s.books.heap.live|
    case Other(request) => RequestAllowed(s, request)
  }

  ghost predicate RequestAllowed(s: System, q: M.Request)
    requires Inv(s)
  {
    M.Admissible(s.pages.state, q) && M.Completes(M.Execute(s.pages.state, q).ending)
  }

  /** kmalloc when no free block is large enough. */
  ghost function Refill(s: System, requested: nat): System
    requires Inv(s) && requested < WORD && RequestAllowed(s, FallbackRequest(requested))
  {
    var q := FallbackRequest(requested);
    var ending := M.Execute(s.pages.state, q).ending;
    var pages := M.Step(s.pages, q);
    if Provided(ending).ptr == 0 then s.(pages := pages)
    else
      var add := F.AddMemory(Provided(ending).ptr, Provided(ending).size);
      GrantFits(s, q, ending.virt);
      F.ApplyInv(s.books, add);
      System(pages, F.Apply(F.Apply(s.books, add), F.Take(requested)), s.grants + [ending.virt])
  }

  ghost function Step(s: System, e: Event): System
    requires Inv(s) && Allowed(s, e)
  {
    match e
    case Malloc(requested) =>
      if Allocate(s.books.heap, requested).allocation.ptr == 0 then Refill(s, requested)
      else s.(books := F.Apply(s.books, F.Take(requested)))
    case Kfree(index) => s.(books := F.Apply(s.books, F.Give(index)))
    case Other(request) => s.(pages := M.Step(s.pages, request))
  }

  // --------------------------------------------------------- one refill

  lemma {:induction false} BytesCover(grants: seq<Region>, byte: int)
    ensures Cover(Bytes(grants), byte) == Cover(grants, byte / PAGE_SIZE)
  {
    if grants != [] {
      assert Bytes(grants)[1..] == Bytes(grants[1..]);
      BytesCover(grants[1..], byte);
      assert ByteRegion(grants[0]).Has(byte) <==> grants[0].Has(byte / PAGE_SIZE);
    }
  }

  /** A page request that is done returns the regions of its new mapping, and they are free ones. */
  lemma DoneGrant(s: System, q: M.Request)
    requires Inv(s) && q.GetPages? && RequestAllowed(s, q) && M.Execute(s.pages.state, q).ending.Done?
    ensures var v := M.Execute(s.pages.state, q).ending.virt;
            && M.Step(s.pages, q).maps == s.pages.maps + [M.NewMapping(s.pages.state, q)]
            && M.NewMapping(s.pages.state, q).v == v
            && M.BlockBelow(v, PageLedger.ADDRESS_PAGES) && 0 < v.length < PageLedger.ADDRESS_PAGES
            && (q.backing == Mixed ==> q.pages <= v.length)
            && CoversAtMostOnce(M.Virts(s.pages.maps) + [v])
  {
    hide TryReservePages, RecordPages;
    M.GetPagesAttempt(s.pages, q.pages, q.alignment, q.backing);
    M.GetPagesGranted(s.pages, q.pages, q.alignment, q.backing);
    M.GetPagesLengths(s.pages, q.pages, q.alignment, q.backing);
    var a := TryReservePages(s.pages.state, q.pages, q.alignment, q.backing);
    RegionOfIsShort(a.virt);
    M.HeldOnce(a.state.virt, M.Virts(s.pages.maps) + [RegionOf(a.virt)], s.pages.virtAdded, PageLedger.ADDRESS_PAGES);
    CeilLogIsLeast(q.pages, CeilLog(q.pages));
  }

  /** The regions of the heap with a new one are still among those handed out. */
  lemma GrantsWithin(s: System, v: Region)
    requires Inv(s) && CoversAtMostOnce(M.Virts(s.pages.maps) + [v])
    ensures CoversAtMostOnce(s.books.added + [ByteRegion(v)])
    ensures forall page: int :: Cover(s.grants + [v], page) <= Cover(M.Virts(s.pages.maps) + [v], page)
  {
    var virts, grants := M.Virts(s.pages.maps) + [v], s.grants + [v];
    assert Bytes(grants) == s.books.added + [ByteRegion(v)];
    forall page: int ensures Cover(grants, page) <= Cover(virts, page) {
      CoverAppend(s.grants, v, page);
      CoverAppend(M.Virts(s.pages.maps), v, page);
    }
    forall byte: int ensures Cover(Bytes(grants), byte) <= 1 {
      BytesCover(grants, byte);
      assert Cover(virts, byte / PAGE_SIZE) <= 1;
    }
  }

  /** What the page allocator grants is memory that the free list may be given. */
  lemma GrantFits(s: System, q: M.Request, v: Region)
    requires Inv(s) && q.GetPages? && RequestAllowed(s, q) && M.Execute(s.pages.state, q).ending.Done?
    requires v == M.Execute(s.pages.state, q).ending.virt && v.PagePtr(0) != 0
    ensures F.Allowed(s.books, F.AddMemory(v.PagePtr(0), v.PageBytes()))
    ensures Region(v.PagePtr(0), v.PageBytes()) == ByteRegion(v)
  {
    hide M.Execute, M.Step, M.NewMapping, Inv, RequestAllowed;
    DoneGrant(s, q);
    GrantsWithin(s, v);
    InByteNumbers(v);
  }

  lemma InByteNumbers(v: Region)
    requires 0 < v.length < PageLedger.ADDRESS_PAGES && v.offset + v.length <= PageLedger.ADDRESS_PAGES
    ensures Region(v.PagePtr(0), v.PageBytes()) == ByteRegion(v)
    ensures v.PageBytes() >= PAGE_SIZE && v.PagePtr(0) + v.PageBytes() <= WORD
    ensures v.PagePtr(0) % ALIGNMENT == 0 && v.PageBytes() % ALIGNMENT == 0
  {
    WordMultiple(v.offset);
    WordMultiple(v.length);
  }

  lemma WordMultiple(n: nat)
    requires n < PageLedger.ADDRESS_PAGES
    ensures n * PAGE_SIZE % WORD == n * PAGE_SIZE && n * PAGE_SIZE % ALIGNMENT == 0
  {
    assert n * PAGE_SIZE < WORD;
    assert n * PAGE_SIZE == ALIGNMENT * (512 * n);
  }

  // ------------------------------------------------------------ one event

  lemma RefillKeepsInv(s: System, requested: nat)
    requires Inv(s) && requested < WORD && RequestAllowed(s, FallbackRequest(requested))
    ensures Inv(Refill(s, requested))
  {
    hide M.Execute, M.Step, M.NewMapping, F.Inv, F.Apply, PagesFor, M.Accounted, M.Supply;
    var q := FallbackRequest(requested);
    var ending := M.Execute(s.pages.state, q).ending;
    M.StepKeepsInv(s.pages, q);
    if Provided(ending).ptr == 0 {
      OtherKeepsInv(s, q);
    } else {
      var v := ending.virt;
      var add, take := F.AddMemory(v.PagePtr(0), v.PageBytes()), F.Take(requested);
      DoneGrant(s, q);
      GrantsWithin(s, v);
      GrantFits(s, q, v);
      F.ApplyInv(s.books, add);
      F.ApplyInv(F.Apply(s.books, add), take);
      AddedIs(s.books, add, take);
      VirtsAppend(s.pages.maps, M.NewMapping(s.pages.state, q));
      assert Bytes(s.grants + [v]) == s.books.added + [ByteRegion(v)];
    }
  }

  lemma VirtsAppend(maps: seq<M.Mapping>, m: M.Mapping)
    ensures M.Virts(maps + [m]) == M.Virts(maps) + [m.v]
  {
  }

  lemma AddedIs(b: F.Books, add: F.Op, take: F.Op)
    requires F.Inv(b) && F.Allowed(b, add) && F.Inv(F.Apply(b, add))
    requires add.AddMemory? && take.Take? && take.requested < WORD
    ensures F.Apply(F.Apply(b, add), take).added == b.added + [Region(add.addr, add.size)]
  {
  }

  /** Requests of others only add to what is handed out. */
  lemma OtherKeepsInv(s: System, q: M.Request)
    requires Inv(s) && RequestAllowed(s, q)
    ensures Inv(s.(pages := M.Step(s.pages, q)))
  {
    hide M.Execute, M.NewMapping, F.Inv, M.Accounted, M.Supply;
    M.StepKeepsInv(s.pages, q);
    var m := M.NewMapping(s.pages.state, q);
    VirtsAppend(s.pages.maps, m);
    forall page: int ensures Cover(s.grants, page) <= Cover(M.Virts(M.Step(s.pages, q).maps), page) {
      assert Cover(s.grants, page) <= Cover(M.Virts(s.pages.maps), page);
      CoverAppend(M.Virts(s.pages.maps), m.v, page);
    }
  }

  lemma StepKeepsInv(s: System, e: Event)
    requires Inv(s) && Allowed(s, e)
    ensures Inv(Step(s, e))
  {
    hide M.Execute, M.Step, M.Inv, F.Inv, Refill, PagesFor;
    match e
    case Malloc(requested) =>
      if Allocate(s.books.heap, requested).allocation.ptr == 0 {
        RefillKeepsInv(s, requested);
      } else {
        F.ApplyInv(s.books, F.Take(requested));
      }
    case Kfree(index) => F.ApplyInv(s.books, F.Give(index));
    case Other(request) => OtherKeepsInv(s, request);
  }

  // ------------------------------------------------------- what kmalloc answers

  /** What the page allocator would grant for a request that no free block can hold. */
  ghost function Granted(s: System, requested: nat): Allocation
    requires Inv(s) && requested < WORD && RequestAllowed(s, FallbackRequest(requested))
  {
    Provided(M.Execute(s.pages.state, FallbackRequest(requested)).ending)
  }

  lemma GrantedFits(s: System, requested: nat)
    requires Inv(s) && requested < WORD && RequestAllowed(s, FallbackRequest(requested))
    requires Granted(s, requested).ptr != 0
    ensures Granted(s, requested).size >= PreferredSize(requested)
    ensures F.Allowed(s.books, F.AddMemory(Granted(s, requested).ptr, Granted(s, requested).size))
  {
    hide M.Execute, M.Step, M.NewMapping, F.Inv, PagesFor, PreferredSize, M.Accounted, M.Supply;
    var q := FallbackRequest(requested);
    DoneGrant(s, q);
    GrantFits(s, q, M.Execute(s.pages.state, q).ending.virt);
    PagesForBounds(requested);
  }

  /** kmalloc is the binder of the free list with the page allocator as its fallback. */
  lemma KmallocIsTheBinder(s: System, requested: nat)
    requires Inv(s) && Allowed(s, Malloc(requested))
    ensures var h := s.books.heap;
            var provided := if Allocate(h, requested).allocation.ptr != 0 then Allocation(0, 0)
                            else Granted(s, requested);
            && (provided.ptr != 0 ==> provided.size >= HEADER)
            && Step(s, Malloc(requested)).books.heap == BinderAllocate(h, requested, provided).heap
    ensures Step(s, Malloc(requested)).pages
            == if NoneHolds(s.books.heap.free, requested) then M.Step(s.pages, FallbackRequest(requested)) else s.pages
  {
    hide M.Execute, M.Step, M.NewMapping, F.Inv, PagesFor, M.Accounted, M.Supply, Allocate;
    AllocateFirstFit(s.books.heap, requested);
    if Allocate(s.books.heap, requested).allocation.ptr == 0 && Granted(s, requested).ptr != 0 {
      GrantedFits(s, requested);
    }
  }

  /** An answer is null, or the payload of a block that was put among the live ones. */
  ghost predicate HandsOut(before: seq<Chunk>, after: seq<Chunk>, requested: nat, answer: Allocation) {
    if answer.ptr == 0 then after == before
    else
      && |after| == |before| + 1 && after[..|before|] == before
      && answer == Allocation(after[|before|].UserPtr(), after[|before|].size) && answer.size >= requested
  }

  lemma AllocateHandsOut(h: Heap, requested: nat)
    ensures var r := Allocate(h, requested);
            HandsOut(h.live, r.heap.live, requested, r.allocation)
  {
    hide Allocate;
    AllocateFirstFit(h, requested);
  }

  /**
   kmalloc answers with a block that it has put among the live ones.  It fails exactly when
   no free block is large enough and the page allocator refuses, or grants virtual page 0,
   whose address reads as a failure, or grants too little; and it grants too little only for
   a request whose rounded size wraps.
   */
  lemma KmallocFailsExactly(s: System, requested: nat) returns (answer: Allocation)
    requires Inv(s) && Allowed(s, Malloc(requested))
    ensures HandsOut(s.books.heap.live, Step(s, Malloc(requested)).books.heap.live, requested, answer)
    ensures answer.ptr == 0
       <==> && NoneHolds(s.books.heap.free, requested)
            && (Granted(s, requested).ptr == 0 || Granted(s, requested).size < requested + HEADER)
    ensures NoneHolds(s.books.heap.free, requested) && Granted(s, requested).ptr != 0
            && Granted(s, requested).size < requested + HEADER
            ==> requested > WORD - PAGE_SIZE - HEADER
  {
    hide M.Execute, M.Step, M.NewMapping, F.Inv, M.Accounted, M.Supply;
    hide PagesFor, Allocate, PreferredSize, Step, Granted, HandsOut;
    var h := s.books.heap;
    AllocateFirstFit(h, requested);
    AllocateHandsOut(h, requested);
    KmallocIsTheBinder(s, requested);
    var provided := if Allocate(h, requested).allocation.ptr != 0 then Allocation(0, 0) else Granted(s, requested);
    answer := BinderAllocate(h, requested, provided).allocation;
    BinderFailsExactly(h, requested, provided);
    if provided.ptr != 0 {
      GrantedFits(s, requested);
      PreferredSizeSuffices(requested);
      AllocateHandsOut(Add(h, provided.ptr, provided.size), requested);
    } else {
      NullHandsOut(h, requested);
    }
  }

  lemma NullHandsOut(h: Heap, requested: nat)
    ensures HandsOut(h.live, h.live, requested, Allocation(0, 0))
  {
  }

  // ------------------------------------------------------- what stays live

  /** kfree of a block frees that block: its bytes come back, and the blocks left live are the others. */
  lemma KfreeFreesTheBlock(s: System, index: nat)
    requires Inv(s) && Allowed(s, Kfree(index))
    ensures var t, live := Step(s, Kfree(index)), s.books.heap.live;
            && t.books.heap.live == live[..index] + live[index + 1..] && live[index] !in t.books.heap.live
            && TotalPayload(t.books.heap.free) == TotalPayload(s.books.heap.free) + live[index].size
            && t.pages == s.pages
  {
    hide F.Inv, M.Inv, F.Apply;
    F.GiveFreesTheBlock(s.books, index);
  }

  /** A step takes no block from the live ones but the one that it frees. */
  lemma StepKeepsLive(s: System, e: Event, c: Chunk)
    requires Inv(s) && Allowed(s, e) && c in s.books.heap.live
    requires e.Kfree? ==> s.books.heap.live[e.index] != c
    ensures c in Step(s, e).books.heap.live
  {
    hide Inv, Allocate, M.Step, M.Execute, Granted, Step, HandsOut;
    match e
    case Malloc(requested) =>
      var answer := KmallocFailsExactly(s, requested);
      HandsOutKeeps(s.books.heap.live, Step(s, e).books.heap.live, requested, answer, c);
    case Kfree(index) =>
      KfreeFreesTheBlock(s, index);
      var i :| 0 <= i < |s.books.heap.live| && s.books.heap.live[i] == c;
      assert Step(s, e).books.heap.live[if i < index then i else i - 1] == c;
    case Other(request) => OtherKeepsHeap(s, request);
  }

  lemma HandsOutKeeps(before: seq<Chunk>, after: seq<Chunk>, requested: nat, answer: Allocation, c: Chunk)
    requires HandsOut(before, after, requested, answer) && c in before
    ensures c in after
  {
    if answer.ptr != 0 {
      assert c in after[..|before|];
    }
  }

  lemma OtherKeepsHeap(s: System, q: M.Request)
    requires Inv(s) && RequestAllowed(s, q)
    ensures Step(s, Other(q)).books == s.books
  {
    hide Inv, M.Step;
  }

  /** None of the events frees block `c`. */
  ghost predicate NeverFrees(s: System, es: seq<Event>, c: Chunk)
    decreases |es|
  {
    es == []
    || (&& Inv(s) && Allowed(s, es[0]) && !(es[0].Kfree? && s.books.heap.live[es[0].index] == c)
        && NeverFrees(Step(s, es[0]), es[1..], c))
  }

  /** Over any run, a block that kmalloc has handed out keeps its place and its size until that very block is freed. */
  lemma {:induction false} LiveUntilFreed(s: System, es: seq<Event>, t: System, c: Chunk)
    requires Inv(s) && Reaches(s, es, t) && c in s.books.heap.live && NeverFrees(s, es, c)
    ensures c in t.books.heap.live
    decreases |es|
  {
    hide Inv, Step, Allowed;
    if es != [] {
      StepKeepsInv(s, es[0]);
      StepKeepsLive(s, es[0], c);
      LiveUntilFreed(Step(s, es[0]), es[1..], t, c);
    }
  }

  // ------------------------------------------------------- mapped memory

  /** Every byte of every live block, header and payload, is translated. */
  ghost predicate AllMapped(s: System)
    requires Consistent(s.pages.state.tables)
  {
    forall j, byte: nat | 0 <= j < |s.books.heap.live| && s.books.heap.live[j].Extent().Has(byte) ::
      Translate(s.pages.state.tables, byte).Some?
  }

  /** Two different bytes of live blocks are two different bytes of physical memory. */
  ghost predicate NothingShared(s: System)
    requires Consistent(s.pages.state.tables)
  {
    forall j, k, a: nat, b: nat
      | 0 <= j < |s.books.heap.live| && 0 <= k < |s.books.heap.live| && a != b
        && s.books.heap.live[j].Extent().Has(a) && s.books.heap.live[k].Extent().Has(b) ::
      Translate(s.pages.state.tables, a) != Translate(s.pages.state.tables, b)
  }

  /** A byte of a live block lies in a page that was handed out. */
  lemma LiveInMapping(s: System, j: nat, byte: nat) returns (i: nat)
    requires Inv(s) && j < |s.books.heap.live| && s.books.heap.live[j].Extent().Has(byte)
    ensures i < |s.pages.maps| && s.pages.maps[i].v.Has(byte / PAGE_SIZE)
  {
    hide M.Inv;
    var live := Extents(s.books.heap.live);
    CoverSplitAt(live, j, byte);
    assert F.Balanced(s.books, byte);
    BytesCover(s.grants, byte);
    assert Cover(s.grants, byte / PAGE_SIZE) <= Cover(M.Virts(s.pages.maps), byte / PAGE_SIZE);
    i := CoverWitness(M.Virts(s.pages.maps), byte / PAGE_SIZE);
  }

  /** A byte of a live block translates to its place in the physical page behind it. */
  lemma LiveTranslates(s: System, j: nat, byte: nat) returns (i: nat)
    requires Inv(s) && j < |s.books.heap.live| && s.books.heap.live[j].Extent().Has(byte)
    ensures i < |s.pages.maps| && s.pages.maps[i].v.Has(byte / PAGE_SIZE)
    ensures SlotOf(byte / PAGE_SIZE) in MapOf(s.pages.state.tables)
    ensures var m := s.pages.maps[i];
            && MapOf(s.pages.state.tables)[SlotOf(byte / PAGE_SIZE)] == BackingAddress(m.v, m.p, byte / PAGE_SIZE)
            && Translate(s.pages.state.tables, byte)
               == Some(BackingAddress(m.v, m.p, byte / PAGE_SIZE) + byte % PAGE_SIZE)
  {
    hide MapOf, F.Inv;
    i := LiveInMapping(s, j, byte);
    M.InvMaps(s.pages, i, byte / PAGE_SIZE);
    M.TranslateIsLookup(s.pages.state.tables, byte / PAGE_SIZE, byte % PAGE_SIZE);
  }

  /** Pages handed out that are walked to one position are one page. */
  lemma SamePage(s: M.System, i: nat, a: nat, j: nat, b: nat)
    requires M.Inv(s) && i < |s.maps| && j < |s.maps| && s.maps[i].v.Has(a) && s.maps[j].v.Has(b)
    requires SlotOf(a) == SlotOf(b)
    ensures a == b
  {
    assert M.Representable(s.maps[i]) && M.Representable(s.maps[j]);
    TakesIsSlot(s.maps[i].v, a);
    TakesIsSlot(s.maps[j].v, b);
  }

  lemma LiveApart(s: System, j: nat, k: nat, a: nat, b: nat)
    requires Inv(s) && j < |s.books.heap.live| && k < |s.books.heap.live|
    requires s.books.heap.live[j].Extent().Has(a) && s.books.heap.live[k].Extent().Has(b)
    requires Translate(s.pages.state.tables, a) == Translate(s.pages.state.tables, b)
    ensures a == b
  {
    hide Translate, MapOf, F.Inv, SlotOf;
    var i := LiveTranslates(s, j, a);
    var l := LiveTranslates(s, k, b);
    SameByte(s.pages.maps[i], a, s.pages.maps[l], b);
    M.InvInjective(s.pages);
    SamePage(s.pages, i, a / PAGE_SIZE, l, b / PAGE_SIZE);
  }

  lemma SameByte(m: M.Mapping, a: nat, n: M.Mapping, b: nat)
    requires m.v.Has(a / PAGE_SIZE) && n.v.Has(b / PAGE_SIZE)
    requires BackingAddress(m.v, m.p, a / PAGE_SIZE) + a % PAGE_SIZE
          == BackingAddress(n.v, n.p, b / PAGE_SIZE) + b % PAGE_SIZE
    ensures BackingAddress(m.v, m.p, a / PAGE_SIZE) == BackingAddress(n.v, n.p, b / PAGE_SIZE)
    ensures a % PAGE_SIZE == b % PAGE_SIZE
  {
  }

  // ------------------------------------------------------------ whole runs

  /** The kernel's state when both allocators are set up and no memory was asked for. */
  function Start(physNodes: nat, virtNodes: nat, base: nat, slots: nat): System {
    System(M.Boot(physNodes, virtNodes, base, slots), F.NOTHING_ADDED, [])
  }

  /** `t` is reached from `s` by events that are allowed where they happen. */
  ghost predicate Reaches(s: System, es: seq<Event>, t: System)
    decreases |es|
  {
    if es == [] then t == s
    else Inv(s) && Allowed(s, es[0]) && Reaches(Step(s, es[0]), es[1..], t)
  }

  lemma {:induction false} RunKeepsInv(s: System, es: seq<Event>, t: System)
    requires Inv(s) && Reaches(s, es, t)
    ensures Inv(t)
    decreases |es|
  {
    hide Inv, Step, Allowed;
    if es != [] {
      StepKeepsInv(s, es[0]);
      RunKeepsInv(Step(s, es[0]), es[1..], t);
    }
  }

  lemma StartInv(physNodes: nat, virtNodes: nat, base: nat, slots: nat)
    requires base % L2_TABLE_BYTES == 0 && base + slots * L2_TABLE_BYTES <= WORD
    ensures Inv(Start(physNodes, virtNodes, base, slots))
  {
    M.BootInv(physNodes, virtNodes, base, slots);
  }

  /**
   Memory safety of kmalloc over every run of kmalloc, kfree and other page requests that
   complete: live blocks are aligned and disjoint, every byte of them is translated and may
   be accessed, and no two of their bytes share a byte of physical memory.
   */
  lemma KernelHeapIsSafe(physNodes: nat, virtNodes: nat, base: nat, slots: nat, es: seq<Event>, t: System)
    requires base % L2_TABLE_BYTES == 0 && base + slots * L2_TABLE_BYTES <= WORD
    requires Reaches(Start(physNodes, virtNodes, base, slots), es, t)
    ensures Inv(t)
    ensures PairwiseDisjoint(Extents(t.books.heap.free + t.books.heap.live))
    ensures F.AllAligned(t.books.heap.free + t.books.heap.live)
    ensures AllMapped(t) && NothingShared(t) && M.AllOpen(t.pages)
  {
    hide Start;
    StartInv(physNodes, virtNodes, base, slots);
    RunKeepsInv(Start(physNodes, virtNodes, base, slots), es, t);
    F.BlocksDisjointInside(t.books);
    LiveIsMapped(t);
    M.InvTranslates(t.pages);
  }

  lemma LiveIsMapped(t: System)
    requires Inv(t)
    ensures AllMapped(t) && NothingShared(t)
  {
    hide Translate, F.Inv, MapOf;
    forall j, byte: nat | 0 <= j < |t.books.heap.live| && t.books.heap.live[j].Extent().Has(byte)
      ensures Translate(t.pages.state.tables, byte).Some?
    {
      var i := LiveTranslates(t, j, byte);
    }
    forall j, k, a: nat, b: nat
      | 0 <= j < |t.books.heap.live| && 0 <= k < |t.books.heap.live| && a != b
        && t.books.heap.live[j].Extent().Has(a) && t.books.heap.live[k].Extent().Has(b)
      ensures Translate(t.pages.state.tables, a) != Translate(t.pages.state.tables, b)
    {
      if Translate(t.pages.state.tables, a) == Translate(t.pages.state.tables, b) {
        LiveApart(t, j, k, a, b);
      }
    }
  }
}
