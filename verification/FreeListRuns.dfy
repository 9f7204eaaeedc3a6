/**
 What the free list guarantees over whole runs: no overlap, exact accounting of every
 byte, and maximal coalescing.
 */
module FreeListRuns {
  import opened Algorithm
  import opened TwoMath
  import opened Regions
  import opened FreeList

  /**
   The heap together with its books: the bytes dropped by merges, the number of headers
   dropped, and the memory added.
   */
  datatype Books = Books(heap: Heap, holes: seq<Region>, merges: nat, added: seq<Region>)

  datatype Op =
    | AddMemory(addr: nat, size: nat)
    | Take(requested: nat)
    | Give(index: nat)

  /** Memory is added aligned and once; what is given back was handed out. */
  ghost predicate Allowed(s: Books, op: Op) {
    match op
    case AddMemory(addr, size) =>
      && size >= HEADER && addr % ALIGNMENT == 0 && size % ALIGNMENT == 0 && addr + size <= WORD
      && CoversAtMostOnce(s.added + [Region(addr, size)])
    case Take(requested) => requested < WORD
    case Give(j) => j < |s.heap.live|
  }

  ghost function Apply(s: Books, op: Op): Books
    requires Inv(s) && Allowed(s, op)
  {
    match op
    case AddMemory(addr, size) =>
      s.(heap := Add(s.heap, addr, size), added := s.added + [Region(addr, size)])
    case Take(requested) =>
      FreeFits(s);
      s.(heap := Allocate(s.heap, requested).heap)
    case Give(j) =>
      var c := s.heap.live[j];
      s.(heap := Free(s.heap, j), holes := s.holes + [Hole(s.heap.free, c)],
         merges := s.merges + Merges(s.heap.free, c))
  }

  predicate Aligned(c: Chunk) {
    c.addr % ALIGNMENT == 0 && c.size % ALIGNMENT == 0
  }

  ghost predicate AllAligned(cs: seq<Chunk>) {
    forall i | 0 <= i < |cs| :: Aligned(cs[i])
  }

  /** Byte p is free, handed out or dropped exactly as often as it was added. */
  ghost predicate Balanced(s: Books, p: int) {
    Cover(Extents(s.heap.free), p) + Cover(Extents(s.heap.live), p) + Cover(s.holes, p) == Cover(s.added, p)
  }

  function TotalLength(rs: seq<Region>): nat {
    if rs == [] then 0 else rs[0].length + TotalLength(rs[1..])
  }

  /** Bytes added are the headers and payloads of all blocks, plus one header for each merge. */
  predicate Accounts(s: Books) {
    TotalLength(s.added) == TotalBytes(s.heap.free) + TotalBytes(s.heap.live) + HEADER * s.merges
  }

  ghost predicate Inv(s: Books) {
    && (forall p: int :: Balanced(s, p))
    && CoversAtMostOnce(s.added) && (forall i | 0 <= i < |s.added| :: s.added[i].offset + s.added[i].length <= WORD)
    && AllAligned(s.heap.free) && AllAligned(s.heap.live)
    && Accounts(s)
  }

  // ------------------------------------------------- consequences of the books

  /** A free block ends where some added memory does, or before. */
  lemma FreeEnds(s: Books, i: nat)
    requires Inv(s) && i < |s.heap.free|
    ensures s.heap.free[i].End() <= WORD
  {
    var c := s.heap.free[i];
    assert Balanced(s, c.End() - 1);
    CoverSplitAt(Extents(s.heap.free), i, c.End() - 1);
    var k := CoverWitness(s.added, c.End() - 1);
  }

  lemma FreeFits(s: Books)
    requires Inv(s)
    ensures forall c | c in s.heap.free :: c.size < WORD
  {
    forall c | c in s.heap.free ensures c.size < WORD {
      var i :| 0 <= i < |s.heap.free| && s.heap.free[i] == c;
      FreeEnds(s, i);
    }
  }

  lemma FreeFreeApart(s: Books, i: nat, j: nat, p: int)
    requires Inv(s) && i < |s.heap.free| && j < |s.heap.free| && i != j
    ensures !(s.heap.free[i].Extent().Has(p) && s.heap.free[j].Extent().Has(p))
  {
    assert Balanced(s, p) && Cover(s.added, p) <= 1;
    if i < j {
      CoverTwo(Extents(s.heap.free), i, j, p);
    } else {
      CoverTwo(Extents(s.heap.free), j, i, p);
    }
  }

  lemma FreeLiveApart(s: Books, i: nat, j: nat, p: int)
    requires Inv(s) && i < |s.heap.free| && j < |s.heap.live|
    ensures !(s.heap.free[i].Extent().Has(p) && s.heap.live[j].Extent().Has(p))
  {
    assert Balanced(s, p) && Cover(s.added, p) <= 1;
    CoverSplitAt(Extents(s.heap.free), i, p);
    CoverSplitAt(Extents(s.heap.live), j, p);
  }

  /** The extents of all blocks, free and live, are pairwise disjoint and lie in added memory. */
  lemma BlocksDisjointInside(s: Books)
    requires Inv(s)
    ensures PairwiseDisjoint(Extents(s.heap.free + s.heap.live))
    ensures forall p: int :: Cover(Extents(s.heap.free + s.heap.live), p) <= Cover(s.added, p)
    ensures AllAligned(s.heap.free + s.heap.live)
  {
    var all := Extents(s.heap.free + s.heap.live);
    assert all == Extents(s.heap.free) + Extents(s.heap.live);
    forall p: int ensures Cover(all, p) <= Cover(s.added, p) <= 1 {
      CoverConcat(Extents(s.heap.free), Extents(s.heap.live), p);
      assert Balanced(s, p);
    }
    CoverAtMostOnce(all);
  }

  // ------------------------------------------------------- the merged block

  /** The block that a freed block merges into. */
  function Merged(free: seq<Chunk>, c: Chunk): Chunk {
    var left, right := Left(free, c), Right(free, c);
    var front := if left < |free| then Adopt(free[left], c) else c;
    if right < |free| then Adopt(front, free[right]) else front
  }

  /** Where the merged block starts and ends: it stops short of the old end by the dropped headers. */
  lemma MergedBounds(free: seq<Chunk>, c: Chunk)
    ensures var left, right := Left(free, c), Right(free, c);
            && Merged(free, c).addr == (if left < |free| then free[left].addr else c.addr)
            && Merged(free, c).End()
               == (if right < |free| then free[right].End() else c.End()) - HEADER * Merges(free, c)
            && (left < |free| ==> free[left].End() == c.addr)
            && (right < |free| ==> free[right].addr == c.End())
            && (forall i | 0 <= i < left :: free[i].End() != c.addr)
            && (forall i | 0 <= i < right :: free[i].addr != c.End())
  {
    var left, right := Left(free, c), Right(free, c);
    if left < |free| {
      assert EndsAt(c)(free[left]);
    }
    if right < |free| {
      assert StartsAt(c)(free[right]);
    }
    forall i | 0 <= i < left ensures free[i].End() != c.addr {
      assert !EndsAt(c)(free[i]);
    }
    forall i | 0 <= i < right ensures free[i].addr != c.End() {
      assert !StartsAt(c)(free[i]);
    }
  }

  /** The blocks of the list after a merge: the merged one, and others that were there before. */
  lemma CoalescedMembers(free: seq<Chunk>, c: Chunk)
    ensures var left, right := Left(free, c), Right(free, c);
            && (left < |free| ==> left != right)
            && (forall d | d in Coalesced(free, c, left, right) :: d == Merged(free, c) || UntouchedIn(free, c, d))
  {
    hide FirstIndex, Cover;
    var left, right := Left(free, c), Right(free, c);
    CoalescedCover(free, c, 0);
    var after := Coalesced(free, c, left, right);
    forall k | 0 <= k < |after| && after[k] != Merged(free, c) ensures UntouchedIn(free, c, after[k]) {
      var i := if right < |free| && k >= right then k + 1 else k;
      assert i < |free| && i != left && i != right && after[k] == free[i];
    }
  }

  /** `d` is a free block other than the neighbours of `c`. */
  ghost predicate UntouchedIn(free: seq<Chunk>, c: Chunk, d: Chunk) {
    exists i | 0 <= i < |free| && i != Left(free, c) && i != Right(free, c) :: d == free[i]
  }

  // ------------------------------------------------------------ one step

  lemma {:induction false} TotalLengthAppend(rs: seq<Region>, r: Region)
    ensures TotalLength(rs + [r]) == TotalLength(rs) + r.length
  {
    if rs == [] {
      assert rs + [r] == [r];
    } else {
      assert (rs + [r])[1..] == rs[1..] + [r];
      TotalLengthAppend(rs[1..], r);
    }
  }

  lemma AlignedSum(x: nat, y: nat)
    requires x % ALIGNMENT == 0 && y % ALIGNMENT == 0
    ensures (x + y) % ALIGNMENT == 0 && (x >= y ==> (x - y) % ALIGNMENT == 0)
  {
  }

  /** Every operation keeps the books balanced, whatever neighbours a freed block has. */
  lemma ApplyInv(s: Books, op: Op)
    requires Inv(s) && Allowed(s, op)
    ensures Inv(Apply(s, op))
  {
    FreeFits(s);
    match op
    case AddMemory(addr, size) => AddInv(s, addr, size);
    case Take(requested) => TakeInv(s, requested);
    case Give(j) => GiveInv(s, j);
  }

  lemma AddInv(s: Books, addr: nat, size: nat)
    requires Inv(s) && Allowed(s, AddMemory(addr, size))
    ensures Inv(Apply(s, AddMemory(addr, size)))
  {
    var t := Apply(s, AddMemory(addr, size));
    var c := Chunk(addr, size - HEADER);
    forall p: int ensures Balanced(t, p) {
      assert Balanced(s, p);
      ExtentsAppend(s.heap.free, c, p);
      CoverAppend(s.added, Region(addr, size), p);
    }
    AlignedSum(size, HEADER);
    TotalLengthAppend(s.added, Region(addr, size));
    PayloadAppend(s.heap.free, c);
    PayloadAndHeaders(s.heap.free);
    PayloadAndHeaders(t.heap.free);
  }

  lemma TakeInv(s: Books, requested: nat)
    requires Inv(s) && Allowed(s, Take(requested))
    ensures Inv(Apply(s, Take(requested)))
  {
    FreeFits(s);
    var t := Apply(s, Take(requested));
    forall p: int ensures Balanced(t, p) {
      assert Balanced(s, p);
      AllocateConserves(s.heap, requested, p);
    }
    AllocateAccounts(s.heap, requested);
    TakeAligned(s.heap, requested);
  }

  lemma TakeAligned(h: Heap, requested: nat)
    requires AllAligned(h.free) && AllAligned(h.live)
    ensures AllAligned(Allocate(h, requested).heap.free) && AllAligned(Allocate(h, requested).heap.live)
  {
    var i := FirstIndex(h.free, Holds(requested));
    if i < |h.free| {
      var c := h.free[i];
      RemainingBounds(c, requested);
      var remaining := Remaining(c, requested);
      assert Aligned(c);
      AlignedSum(c.size, remaining);
      if remaining > MIN_SPLIT {
        AlignedSum(c.addr + HEADER, c.size - remaining);
      }
    }
  }

  lemma GiveInv(s: Books, j: nat)
    requires Inv(s) && Allowed(s, Give(j))
    ensures Inv(Apply(s, Give(j)))
  {
    var t := Apply(s, Give(j));
    var c := s.heap.live[j];
    forall p: int ensures Balanced(t, p) {
      assert Balanced(s, p);
      FreeConserves(s.heap, j, p);
      CoverAppend(s.holes, Hole(s.heap.free, c), p);
    }
    FreeAccounts(s.heap, j);
    GiveAligned(s.heap, j);
  }

  lemma GiveAligned(h: Heap, j: nat)
    requires j < |h.live| && AllAligned(h.free) && AllAligned(h.live)
    ensures AllAligned(Free(h, j).free) && AllAligned(Free(h, j).live)
  {
    var c := h.live[j];
    MergedAligned(h.free, c);
    CoalescedMembers(h.free, c);
    forall i | 0 <= i < |Free(h, j).free| ensures Aligned(Free(h, j).free[i]) {
      assert Free(h, j).free[i] in Free(h, j).free;
    }
  }

  lemma MergedAligned(free: seq<Chunk>, c: Chunk)
    requires AllAligned(free) && Aligned(c)
    ensures Aligned(Merged(free, c))
  {
    var left, right := Left(free, c), Right(free, c);
    var front := if left < |free| then Adopt(free[left], c) else c;
    if left < |free| {
      AlignedSum(free[left].size, c.size);
    }
    assert Aligned(front);
    if right < |free| {
      AlignedSum(front.size, free[right].size);
    }
  }

  // ------------------------------------------------------------ whole runs

  ghost predicate Runnable(s: Books, ops: seq<Op>)
    decreases |ops|
  {
    ops == [] || (Inv(s) && Allowed(s, ops[0]) && Runnable(Apply(s, ops[0]), ops[1..]))
  }

  ghost function Run(s: Books, ops: seq<Op>): Books
    requires Runnable(s, ops)
    decreases |ops|
  {
    if ops == [] then s else Run(Apply(s, ops[0]), ops[1..])
  }

  /** Every call is allowed where it is made; nothing is asked of the states in between. */
  ghost predicate CallsAllowed(s: Books, ops: seq<Op>)
    decreases |ops|
  {
    ops == [] || (Allowed(s, ops[0]) && (Inv(s) ==> CallsAllowed(Apply(s, ops[0]), ops[1..])))
  }

  /** From a state in order the callers' obligations alone make a run. */
  lemma {:induction false} AllowedCallsRun(s: Books, ops: seq<Op>)
    requires Inv(s)
    ensures Runnable(s, ops) <==> CallsAllowed(s, ops)
    decreases |ops|
  {
    if ops != [] && Allowed(s, ops[0]) {
      ApplyInv(s, ops[0]);
      AllowedCallsRun(Apply(s, ops[0]), ops[1..]);
    }
  }

  const NOTHING_ADDED: Books := Books(Heap([], []), [], 0, [])

  lemma {:induction false} RunInv(s: Books, ops: seq<Op>)
    requires Inv(s) && Runnable(s, ops)
    ensures Inv(Run(s, ops))
    ensures s.added <= Run(s, ops).added
    decreases |ops|
  {
    if ops != [] {
      ApplyInv(s, ops[0]);
      RunInv(Apply(s, ops[0]), ops[1..]);
    }
  }

  /**
   Safety and exact accounting over every run of adding, allocating and freeing: blocks
   are aligned, disjoint and inside added memory, and the bytes added are the bytes of
   the blocks plus one header for each merge.
   */
  lemma SafeOverRuns(ops: seq<Op>)
    requires Runnable(NOTHING_ADDED, ops)
    ensures var t := Run(NOTHING_ADDED, ops);
            && Inv(t) && Accounts(t)
            && PairwiseDisjoint(Extents(t.heap.free + t.heap.live)) && AllAligned(t.heap.free + t.heap.live)
            && (forall p: int :: Cover(Extents(t.heap.free + t.heap.live), p) <= Cover(t.added, p))
  {
    RunInv(NOTHING_ADDED, ops);
    BlocksDisjointInside(Run(NOTHING_ADDED, ops));
  }

  /** Giving a block back takes that block from the live ones, for good, and frees its bytes. */
  lemma GiveFreesTheBlock(s: Books, j: nat)
    requires Inv(s) && Allowed(s, Give(j))
    ensures var live, t := s.heap.live, Apply(s, Give(j)).heap;
            && t.live == live[..j] + live[j + 1..] && live[j] !in t.live
            && TotalPayload(t.free) == TotalPayload(s.heap.free) + live[j].size
  {
    var live := s.heap.live;
    FreeAccounts(s.heap, j);
    forall k | 0 <= k < |live| && k != j ensures live[k] != live[j] {
      LiveLiveApart(s, j, k, live[j].addr);
    }
  }

  lemma LiveLiveApart(s: Books, i: nat, j: nat, p: int)
    requires Inv(s) && i < |s.heap.live| && j < |s.heap.live| && i != j
    ensures !(s.heap.live[i].Extent().Has(p) && s.heap.live[j].Extent().Has(p))
  {
    assert Balanced(s, p) && Cover(s.added, p) <= 1;
    if i < j {
      CoverTwo(Extents(s.heap.live), i, j, p);
    } else {
      CoverTwo(Extents(s.heap.live), j, i, p);
    }
  }

  /** No operation but giving it back takes a block from the live ones. */
  lemma ApplyKeepsLive(s: Books, op: Op, c: Chunk)
    requires Inv(s) && Allowed(s, op) && c in s.heap.live
    requires op.Give? ==> s.heap.live[op.index] != c
    ensures c in Apply(s, op).heap.live
  {
    hide Inv;
    match op
    case Take(requested) => AllocateFirstFit(s.heap, requested);
    case Give(j) =>
      GiveFreesTheBlock(s, j);
      var i :| 0 <= i < |s.heap.live| && s.heap.live[i] == c;
      assert Apply(s, op).heap.live[if i < j then i else i - 1] == c;
    case AddMemory(_, _) =>
  }

  /** None of the operations gives block `c` back. */
  ghost predicate NeverGives(s: Books, ops: seq<Op>, c: Chunk)
    requires Runnable(s, ops)
    decreases |ops|
  {
    ops == [] || (!(ops[0].Give? && s.heap.live[ops[0].index] == c) && NeverGives(Apply(s, ops[0]), ops[1..], c))
  }

  /** Over any run a block stays where it is, as large as it is, until that very block is given back. */
  lemma {:induction false} LiveUntilGiven(s: Books, ops: seq<Op>, c: Chunk)
    requires Inv(s) && Runnable(s, ops) && c in s.heap.live && NeverGives(s, ops, c)
    ensures c in Run(s, ops).heap.live
    decreases |ops|
  {
    hide Inv, Allowed, Apply;
    if ops != [] {
      ApplyInv(s, ops[0]);
      ApplyKeepsLive(s, ops[0], c);
      LiveUntilGiven(Apply(s, ops[0]), ops[1..], c);
    }
  }

  // ------------------------------------------------- maximal coalescing

  /** No added region starts where another one ends. */
  ghost predicate Apart(added: seq<Region>) {
    forall i, j | 0 <= i < |added| && 0 <= j < |added| :: added[i].offset + added[i].length != added[j].offset
  }

  /** A block lies inside one added region. */
  ghost predicate Housed(c: Chunk, added: seq<Region>) {
    exists k | 0 <= k < |added| ::
      added[k].offset <= c.addr && c.End() <= added[k].offset + added[k].length
  }

  ghost predicate AllHoused(cs: seq<Chunk>, added: seq<Region>) {
    forall i | 0 <= i < |cs| :: Housed(cs[i], added)
  }

  /** No free block ends where another free block starts. */
  ghost predicate NoTouch(free: seq<Chunk>) {
    forall i, j | 0 <= i < |free| && 0 <= j < |free| :: free[i].End() != free[j].addr
  }

  ghost predicate Tidy(s: Books) {
    Inv(s) && AllHoused(s.heap.free, s.added) && AllHoused(s.heap.live, s.added) && NoTouch(s.heap.free)
  }

  /** Added regions do not share a byte. */
  lemma AddedApart(s: Books, i: nat, j: nat, p: int)
    requires CoversAtMostOnce(s.added) && i < |s.added| && j < |s.added|
    requires s.added[i].Has(p) && s.added[j].Has(p)
    ensures i == j
  {
    assert Cover(s.added, p) <= 1;
    if i < j {
      CoverTwo(s.added, i, j, p);
    } else if j < i {
      CoverTwo(s.added, j, i, p);
    }
  }

  /** Touching blocks live in the same added region. */
  lemma SameHouse(s: Books, left: Chunk, right: Chunk)
    requires CoversAtMostOnce(s.added) && Apart(s.added)
    requires Housed(left, s.added) && Housed(right, s.added) && left.End() == right.addr
    ensures exists k | 0 <= k < |s.added| ::
              s.added[k].offset <= left.addr && right.End() <= s.added[k].offset + s.added[k].length
  {
    var i :| 0 <= i < |s.added|
      && s.added[i].offset <= left.addr && left.End() <= s.added[i].offset + s.added[i].length;
    var j :| 0 <= j < |s.added|
      && s.added[j].offset <= right.addr && right.End() <= s.added[j].offset + s.added[j].length;
    if left.End() < s.added[i].offset + s.added[i].length {
      AddedApart(s, i, j, right.addr);
    } else {
      assert s.added[i].offset + s.added[i].length != s.added[j].offset;
      AddedApart(s, i, j, right.addr - 1);
    }
  }

  lemma AllHousedMore(cs: seq<Chunk>, added: seq<Region>, r: Region)
    requires AllHoused(cs, added)
    ensures AllHoused(cs, added + [r])
  {
    forall i | 0 <= i < |cs| ensures Housed(cs[i], added + [r]) {
      var k :| 0 <= k < |added| && added[k].offset <= cs[i].addr && cs[i].End() <= added[k].offset + added[k].length;
      assert (added + [r])[k] == added[k];
    }
  }

  /** A housed block touches an added region from outside only if the house does. */
  lemma HouseBetween(s: Books, c: Chunk, n: nat)
    requires CoversAtMostOnce(s.added) && Apart(s.added) && n < |s.added|
    requires exists k | 0 <= k < |s.added| && k != n ::
               s.added[k].offset <= c.addr && c.End() <= s.added[k].offset + s.added[k].length
    ensures c.End() != s.added[n].offset && s.added[n].offset + s.added[n].length != c.addr
  {
    var k :| 0 <= k < |s.added| && k != n &&
             s.added[k].offset <= c.addr && c.End() <= s.added[k].offset + s.added[k].length;
    assert s.added[k].offset + s.added[k].length != s.added[n].offset;
    assert s.added[n].offset + s.added[n].length != s.added[k].offset;
    if c.End() == s.added[n].offset && s.added[n].length > 0 {
      AddedApart(s, k, n, s.added[n].offset);
    } else if s.added[n].offset + s.added[n].length == c.addr && s.added[n].length > 0 {
      AddedApart(s, k, n, c.addr - 1);
    }
  }

  lemma AddTidy(s: Books, addr: nat, size: nat)
    requires Tidy(s) && Allowed(s, AddMemory(addr, size)) && Apart(s.added + [Region(addr, size)])
    ensures Tidy(Apply(s, AddMemory(addr, size)))
  {
    hide Free, Allocate, Balanced, Accounts, TotalBytes, Extents;
    var t := Apply(s, AddMemory(addr, size));
    var r, n := Region(addr, size), |s.added|;
    ApplyInv(s, AddMemory(addr, size));
    AllHousedMore(s.heap.free, s.added, r);
    AllHousedMore(s.heap.live, s.added, r);
    assert t.added[n] == r;
    assert Housed(Chunk(addr, size - HEADER), t.added);
    forall i | 0 <= i < |s.heap.free| ensures s.heap.free[i].End() != addr && addr + size != s.heap.free[i].addr {
      var c := s.heap.free[i];
      assert Housed(c, s.added);
      var k :| 0 <= k < |s.added| && s.added[k].offset <= c.addr && c.End() <= s.added[k].offset + s.added[k].length;
      assert t.added[k] == s.added[k];
      HouseBetween(t, c, n);
    }
    AppendNoTouch(s.heap.free, Chunk(addr, size - HEADER));
  }

  lemma AppendNoTouch(free: seq<Chunk>, c: Chunk)
    requires NoTouch(free)
    requires forall i | 0 <= i < |free| :: free[i].End() != c.addr && c.End() != free[i].addr
    ensures NoTouch(free + [c])
  {
  }

  lemma RemoveNoTouch(free: seq<Chunk>, i: nat)
    requires NoTouch(free) && i < |free|
    ensures NoTouch(RemoveAt(free, i))
  {
  }

  lemma TakeHoused(h: Heap, requested: nat, added: seq<Region>)
    requires AllHoused(h.free, added) && AllHoused(h.live, added)
    ensures var t := Allocate(h, requested).heap; AllHoused(t.free, added) && AllHoused(t.live, added)
  {
    var i := FirstIndex(h.free, Holds(requested));
    if i < |h.free| {
      var c := h.free[i];
      assert Housed(c, added);
      RemainingBounds(c, requested);
      var remaining := Remaining(c, requested);
      if remaining > MIN_SPLIT {
        var kept := Chunk(c.addr, c.size - remaining);
        assert Housed(kept, added) && Housed(Chunk(kept.End(), remaining - HEADER), added);
      }
    }
  }

  lemma TakeNoTouch(s: Books, requested: nat)
    requires Tidy(s) && Allowed(s, Take(requested))
    ensures NoTouch(Allocate(s.heap, requested).heap.free)
  {
    var i := FirstIndex(s.heap.free, Holds(requested));
    if i < |s.heap.free| {
      var c := s.heap.free[i];
      RemainingBounds(c, requested);
      RemoveNoTouch(s.heap.free, i);
      var remaining := Remaining(c, requested);
      if remaining > MIN_SPLIT {
        var kept := Chunk(c.addr, c.size - remaining);
        var rest := Chunk(kept.End(), remaining - HEADER);
        SplitTouchesNone(s, i, rest);
        AppendNoTouch(RemoveAt(s.heap.free, i), rest);
      }
    }
  }

  lemma TakeTidy(s: Books, requested: nat)
    requires Tidy(s) && Allowed(s, Take(requested))
    ensures Tidy(Apply(s, Take(requested)))
  {
    FreeFits(s);
    ApplyInv(s, Take(requested));
    TakeHoused(s.heap, requested, s.added);
    TakeNoTouch(s, requested);
  }

  /** The split-off end of a free block touches no other free block. */
  lemma SplitTouchesNone(s: Books, i: nat, rest: Chunk)
    requires Tidy(s) && i < |s.heap.free|
    requires s.heap.free[i].addr < rest.addr && rest.End() == s.heap.free[i].End()
    ensures var others := RemoveAt(s.heap.free, i);
            forall k | 0 <= k < |others| :: others[k].End() != rest.addr && rest.End() != others[k].addr
  {
    var others := RemoveAt(s.heap.free, i);
    forall k | 0 <= k < |others| ensures others[k].End() != rest.addr && rest.End() != others[k].addr {
      var j := if k < i then k else k + 1;
      assert others[k] == s.heap.free[j];
      FreeFreeApart(s, i, j, rest.addr - 1);
      assert s.heap.free[i].End() != s.heap.free[j].addr;
    }
  }

  /** No other free block touches the merged one. */
  lemma MergedTouchesNone(s: Books, j: nat, i: nat)
    requires Tidy(s) && j < |s.heap.live| && i < |s.heap.free|
    requires var c := s.heap.live[j]; i != Left(s.heap.free, c) && i != Right(s.heap.free, c)
    ensures var m := Merged(s.heap.free, s.heap.live[j]);
            s.heap.free[i].End() != m.addr && m.End() != s.heap.free[i].addr
  {
    var free, c := s.heap.free, s.heap.live[j];
    var left, right := Left(free, c), Right(free, c);
    MergedBounds(free, c);
    var m, x := Merged(free, c), free[i];
    if left < |free| {
      assert x.End() != free[left].addr;
    }
    FreeLiveApart(s, i, j, x.addr);
    if right < |free| {
      FreeFreeApart(s, i, right, x.addr);
    }
  }

  lemma MergedHoused(s: Books, j: nat)
    requires Tidy(s) && Apart(s.added) && j < |s.heap.live|
    ensures Housed(Merged(s.heap.free, s.heap.live[j]), s.added)
  {
    var free, c := s.heap.free, s.heap.live[j];
    var left, right := Left(free, c), Right(free, c);
    MergedBounds(free, c);
    assert Housed(c, s.added);
    var front := if left < |free| then Chunk(free[left].addr, c.End() - free[left].addr - HEADER) else c;
    if left < |free| {
      assert Housed(free[left], s.added);
      SameHouse(s, free[left], c);
    }
    assert Housed(front, s.added) && front.End() == c.End();
    if right < |free| {
      assert Housed(free[right], s.added);
      SameHouse(s, front, free[right]);
    }
  }

  lemma GiveTidy(s: Books, j: nat)
    requires Tidy(s) && Apart(s.added) && Allowed(s, Give(j))
    ensures Tidy(Apply(s, Give(j)))
  {
    hide Inv, Housed, Left, Right, Coalesced;
    ApplyInv(s, Give(j));
    var t := Apply(s, Give(j));
    forall k | 0 <= k < |t.heap.free| ensures Housed(t.heap.free[k], t.added) {
      CoalescedHoused(s, j, t.heap.free[k]);
    }
    forall a, b | 0 <= a < |t.heap.free| && 0 <= b < |t.heap.free|
      ensures t.heap.free[a].End() != t.heap.free[b].addr
    {
      PairDoesNotTouch(s, j, t.heap.free[a], t.heap.free[b]);
    }
  }

  lemma CoalescedHoused(s: Books, j: nat, d: Chunk)
    requires Tidy(s) && Apart(s.added) && j < |s.heap.live| && d in Free(s.heap, j).free
    ensures Housed(d, s.added)
  {
    MergedHoused(s, j);
    CoalescedMembers(s.heap.free, s.heap.live[j]);
  }

  lemma PairDoesNotTouch(s: Books, j: nat, x: Chunk, y: Chunk)
    requires Tidy(s) && j < |s.heap.live|
    requires x in Free(s.heap, j).free && y in Free(s.heap, j).free
    ensures x.End() != y.addr
  {
    var free, c := s.heap.free, s.heap.live[j];
    CoalescedMembers(free, c);
    if x != Merged(free, c) {
      var i :| 0 <= i < |free| && i != Left(free, c) && i != Right(free, c) && x == free[i];
      MergedTouchesNone(s, j, i);
      if y != Merged(free, c) {
        var k :| 0 <= k < |free| && k != Left(free, c) && k != Right(free, c) && y == free[k];
      }
    } else if y != Merged(free, c) {
      var k :| 0 <= k < |free| && k != Left(free, c) && k != Right(free, c) && y == free[k];
      MergedTouchesNone(s, j, k);
    }
  }

  lemma ApplyTidy(s: Books, op: Op)
    requires Tidy(s) && Allowed(s, op) && Apart(Apply(s, op).added)
    ensures Tidy(Apply(s, op))
  {
    match op
    case AddMemory(addr, size) => AddTidy(s, addr, size);
    case Take(requested) => TakeTidy(s, requested);
    case Give(j) => GiveTidy(s, j);
  }

  lemma {:induction false} RunTidy(s: Books, ops: seq<Op>)
    requires Tidy(s) && Runnable(s, ops) && Apart(Run(s, ops).added)
    ensures Tidy(Run(s, ops))
    decreases |ops|
  {
    hide Inv, Housed, Free, Allocate;
    if ops != [] {
      var t := Apply(s, ops[0]);
      ApplyInv(s, ops[0]);
      RunInv(t, ops[1..]);
      forall i, j | 0 <= i < |t.added| && 0 <= j < |t.added|
        ensures t.added[i].offset + t.added[i].length != t.added[j].offset
      {
        var last := Run(t, ops[1..]).added;
        assert last[i] == t.added[i] && last[j] == t.added[j];
      }
      ApplyTidy(s, ops[0]);
      RunTidy(t, ops[1..]);
    }
  }

  /**
   Coalescing is maximal: if no two added regions touch, then after any run no free
   block ends where another free block starts.
   */
  lemma CoalescingIsMaximal(ops: seq<Op>)
    requires Runnable(NOTHING_ADDED, ops) && Apart(Run(NOTHING_ADDED, ops).added)
    ensures NoTouch(Run(NOTHING_ADDED, ops).heap.free)
  {
    RunTidy(NOTHING_ADDED, ops);
  }

  ghost predicate AddsOnly(ops: seq<Op>) {
    forall i | 0 <= i < |ops| :: ops[i].AddMemory?
  }

  lemma {:induction false} AddsAreFree(s: Books, ops: seq<Op>)
    requires Inv(s) && Runnable(s, ops) && AddsOnly(ops) && Extents(s.heap.free) == s.added
    ensures Extents(Run(s, ops).heap.free) == Run(s, ops).added
    decreases |ops|
  {
    if ops != [] {
      var t := Apply(s, ops[0]);
      ApplyInv(s, ops[0]);
      var c := Chunk(ops[0].addr, ops[0].size - HEADER);
      assert Extents(s.heap.free + [c]) == Extents(s.heap.free) + [c.Extent()];
      AddsAreFree(t, ops[1..]);
    }
  }

  /**
   The condition cannot be weakened: adding never merges, so after a run that only adds,
   free blocks touch exactly when added regions do.
   */
  lemma AddingNeverMerges(ops: seq<Op>)
    requires Runnable(NOTHING_ADDED, ops) && AddsOnly(ops)
    ensures var t := Run(NOTHING_ADDED, ops); NoTouch(t.heap.free) <==> Apart(t.added)
  {
    AddsAreFree(NOTHING_ADDED, ops);
    var t := Run(NOTHING_ADDED, ops);
    assert |t.heap.free| == |t.added|;
    assert forall i | 0 <= i < |t.heap.free| ::
        t.added[i].offset == t.heap.free[i].addr && t.added[i].offset + t.added[i].length == t.heap.free[i].End() by {
      forall i | 0 <= i < |t.heap.free|
        ensures t.added[i].offset == t.heap.free[i].addr
        ensures t.added[i].offset + t.added[i].length == t.heap.free[i].End()
      {
        assert Extents(t.heap.free)[i] == t.heap.free[i].Extent();
      }
    }
    if NoTouch(t.heap.free) {
      forall i, j | 0 <= i < |t.added| && 0 <= j < |t.added|
        ensures t.added[i].offset + t.added[i].length != t.added[j].offset
      {
        assert t.heap.free[i].End() != t.heap.free[j].addr;
      }
    }
    if Apart(t.added) {
      forall i, j | 0 <= i < |t.heap.free| && 0 <= j < |t.heap.free|
        ensures t.heap.free[i].End() != t.heap.free[j].addr
      {
        assert t.added[i].offset + t.added[i].length != t.added[j].offset;
      }
    }
  }
}
