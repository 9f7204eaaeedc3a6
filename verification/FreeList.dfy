/**
 The specification of the first-fit byte allocator (IntrusiveFreeList in
 pine/malloc.cpp): blocks with a header in front, splitting, and coalescing with the
 free neighbours on both sides.

 Addresses and sizes are bytes.  A merge adds up payload sizes only, so each one drops
 the bytes of one header from the allocator; those bytes are kept in the books here as
 `holes`.
 */
module FreeList {
  import opened Algorithm
  import opened TwoMath
  import opened Regions

  /** Size of a header node: two links and a padded size word, on a 32-bit machine. */
  const HEADER: nat := 16

  const ALIGNMENT: nat := 8

  /** min_allocation_size(Alignment): a smaller remainder stays with the block. */
  const MIN_SPLIT: nat := 24

  /** A header at `addr` followed by `size` bytes of payload. */
  datatype Chunk = Chunk(addr: nat, size: nat) {
    function End(): nat { addr + HEADER + size }

    function Extent(): Region { Region(addr, HEADER + size) }

    function UserPtr(): nat { addr + HEADER }
  }

  /** The free list in list order, and the headers in front of the blocks handed out. */
  datatype Heap = Heap(free: seq<Chunk>, live: seq<Chunk>)

  datatype Reply = Reply(heap: Heap, allocation: Allocation)

  // ------------------------------------------------------------ operations

  function Holds(requested: nat): Chunk -> bool {
    (c: Chunk) => c.size >= requested
  }

  /** The part of a block beyond a request, rounded down to the alignment. */
  function Remaining(c: Chunk, requested: nat): nat
    requires requested <= c.size
  {
    (c.size - requested) - (c.size - requested) % ALIGNMENT
  }

  /** The source computes it by masking. */
  lemma RemainingByMask(c: Chunk, requested: nat)
    requires requested <= c.size < WORD
    ensures AlignDownTwo(c.size - requested, ALIGNMENT) == Remaining(c, requested)
  {
    assert Pow2(3) == ALIGNMENT;
    AlignDownTwoFloors(c.size - requested, 3);
  }

  function Allocate(h: Heap, requested: nat): Reply
  {
    var i := FirstIndex(h.free, Holds(requested));
    if i == |h.free| then Reply(h, Allocation(0, 0))
    else
      var c := h.free[i];
      var remaining := Remaining(c, requested);
      RemainingBounds(c, requested);
      if remaining > MIN_SPLIT then
        var kept := Chunk(c.addr, c.size - remaining);
        var rest := Chunk(kept.End(), remaining - HEADER);
        Reply(Heap(RemoveAt(h.free, i) + [rest], h.live + [kept]), Allocation(kept.UserPtr(), kept.size))
      else
        Reply(Heap(RemoveAt(h.free, i), h.live + [c]), Allocation(c.UserPtr(), c.size))
  }

  function Add(h: Heap, addr: nat, size: nat): Heap
    requires size >= HEADER
  {
    h.(free := h.free + [Chunk(addr, size - HEADER)])
  }

  /** The block that ends where `c` starts. */
  function EndsAt(c: Chunk): Chunk -> bool {
    (d: Chunk) => d.addr < c.addr && d.End() == c.addr
  }

  /** The block that starts where `c` ends. */
  function StartsAt(c: Chunk): Chunk -> bool {
    (d: Chunk) => d.addr > c.addr && c.End() == d.addr
  }

  lemma OneSideOnly(c: Chunk, d: Chunk)
    ensures !(EndsAt(c)(d) && StartsAt(c)(d))
  {
  }

  /** adopt_right_node_size: payload sizes are added, the right header is not. */
  function Adopt(left: Chunk, right: Chunk): Chunk {
    Chunk(left.addr, left.size + right.size)
  }

  /** The list after block `c` comes back, given the positions of its neighbours. */
  function Coalesced(free: seq<Chunk>, c: Chunk, left: nat, right: nat): seq<Chunk>
    requires left <= |free| && right <= |free| && (left < |free| ==> left != right)
  {
    if left < |free| && right < |free| then
      RemoveAt(free[left := Adopt(Adopt(free[left], c), free[right])], right)
    else if left < |free| then free[left := Adopt(free[left], c)]
    else if right < |free| then RemoveAt(free, right) + [Adopt(c, free[right])]
    else free + [c]
  }

  function Left(free: seq<Chunk>, c: Chunk): nat {
    FirstIndex(free, EndsAt(c))
  }

  function Right(free: seq<Chunk>, c: Chunk): nat {
    FirstIndex(free, StartsAt(c))
  }

  /** Free the block at position j of the live ones. */
  function Free(h: Heap, j: nat): Heap
    requires j < |h.live|
  {
    var c := h.live[j];
    Heap(Coalesced(h.free, c, Left(h.free, c), Right(h.free, c)), RemoveAt(h.live, j))
  }

  /** How many headers freeing `c` drops. */
  function Merges(free: seq<Chunk>, c: Chunk): nat {
    (if Left(free, c) < |free| then 1 else 0) + (if Right(free, c) < |free| then 1 else 0)
  }

  /** The bytes that freeing `c` drops: those at the end of the merged block. */
  function Hole(free: seq<Chunk>, c: Chunk): Region {
    var left, right := Left(free, c), Right(free, c);
    var end := if right < |free| then free[right].End() else c.End();
    var bytes := HEADER * Merges(free, c);
    Region(if bytes <= end then end - bytes else 0, bytes)
  }

  // ------------------------------------------------------------ one block

  lemma RemainingBounds(c: Chunk, requested: nat)
    requires requested <= c.size
    ensures var r := Remaining(c, requested);
            r % ALIGNMENT == 0 && c.size - requested - ALIGNMENT < r <= c.size - requested
  {
  }

  /** The list after the block at position i is cut down to the request and the rest appended. */
  function SplitAt(free: seq<Chunk>, i: nat, requested: nat): (s: seq<Chunk>)
    requires i < |free| && requested <= free[i].size
    ensures |s| >= |free|
  {
    var c, r := free[i], Remaining(free[i], requested);
    RemainingBounds(c, requested);
    if r > MIN_SPLIT then
      var kept := Chunk(c.addr, c.size - r);
      free[i := kept] + [Chunk(kept.End(), r - HEADER)]
    else free
  }

  /** Allocating splits the block found and takes its front off the list. */
  lemma AllocateSplits(h: Heap, requested: nat, i: nat)
    requires i == FirstIndex(h.free, Holds(requested)) && i < |h.free|
    ensures requested <= h.free[i].size
    ensures var s := SplitAt(h.free, i, requested);
            Allocate(h, requested)
            == Reply(Heap(RemoveAt(s, i), h.live + [s[i]]), Allocation(s[i].UserPtr(), s[i].size))
  {
    var c := h.free[i];
    RemainingBounds(c, requested);
    var r := Remaining(c, requested);
    if r > MIN_SPLIT {
      var kept := Chunk(c.addr, c.size - r);
      var rest := Chunk(kept.End(), r - HEADER);
      assert RemoveAt(h.free[i := kept] + [rest], i) == RemoveAt(h.free, i) + [rest];
    }
  }

  /** No free block can serve the request. */
  ghost predicate NoneHolds(free: seq<Chunk>, requested: nat) {
    forall i | 0 <= i < |free| :: free[i].size < requested
  }

  /**
   allocate fails exactly when no free block is large enough, and then changes nothing.
   Otherwise it hands out the front of the first block that is: at least the bytes
   requested, and fewer than 32 more.
   */
  lemma AllocateFirstFit(h: Heap, requested: nat)
    ensures var a := Allocate(h, requested);
            && (a.allocation.ptr == 0 <==> NoneHolds(h.free, requested))
            && (NoneHolds(h.free, requested) ==> a.heap == h)
            && (!NoneHolds(h.free, requested) ==>
                 exists i: nat ::
                   && i < |h.free| && h.free[i].size >= requested && NoneHolds(h.free[..i], requested)
                   && a.heap.live == h.live + [Chunk(h.free[i].addr, a.allocation.size)]
                   && a.allocation.ptr == h.free[i].UserPtr()
                   && requested <= a.allocation.size < requested + MIN_SPLIT + ALIGNMENT)
  {
    var i := FirstIndex(h.free, Holds(requested));
    if i < |h.free| {
      RemainingBounds(h.free[i], requested);
      assert Holds(requested)(h.free[i]);
      assert NoneHolds(h.free[..i], requested) by {
        forall j | 0 <= j < i ensures h.free[j].size < requested {
          assert !Holds(requested)(h.free[j]);
        }
      }
    } else {
      forall j | 0 <= j < |h.free| ensures h.free[j].size < requested {
        assert !Holds(requested)(h.free[j]);
      }
    }
  }

  /**
   A block is cut exactly if the rest beyond the request, rounded down to 8 bytes, exceeds 24:
   then that rest, with a header of its own, joins the end of the list.  Otherwise all of it
   is handed out.  The other free blocks stay in their order.
   */
  lemma AllocateCutsExactly(h: Heap, requested: nat, i: nat)
    requires i < |h.free| && h.free[i].size >= requested && NoneHolds(h.free[..i], requested)
    ensures var a, c, others := Allocate(h, requested), h.free[i], h.free[..i] + h.free[i + 1..];
            var rest := (c.size - requested) / 8 * 8;
            if rest > 24 then
              && a.allocation == Allocation(c.addr + 16, c.size - rest)
              && a.heap.live == h.live + [Chunk(c.addr, c.size - rest)]
              && a.heap.free == others + [Chunk(c.addr + 16 + c.size - rest, rest - 16)]
            else
              && a.allocation == Allocation(c.addr + 16, c.size)
              && a.heap.live == h.live + [c] && a.heap.free == others
  {
    forall j | 0 <= j < i ensures !Holds(requested)(h.free[j]) {
      assert h.free[..i][j] == h.free[j];
    }
    FirstIndexIs(h.free, Holds(requested), i);
    RestInEights(h.free[i], requested);
  }

  lemma RestInEights(c: Chunk, requested: nat)
    requires requested <= c.size
    ensures Remaining(c, requested) == (c.size - requested) / 8 * 8 <= c.size - requested
  {
  }

  /** Where a search for a block ends: at the first that passes, or at the end of the list. */
  ghost predicate FirstOf(free: seq<Chunk>, passes: Chunk -> bool, i: nat) {
    && i <= |free| && (i < |free| ==> passes(free[i]))
    && forall j | 0 <= j < i :: !passes(free[j])
  }

  /**
   A block that comes back grows the free block that ends where it starts, and is grown by the
   one that starts where it ends, which leaves the list; with none on its left it joins the end.
   */
  lemma FreeMergesExactly(h: Heap, k: nat, left: nat, right: nat)
    requires k < |h.live|
    requires FirstOf(h.free, (d: Chunk) => d.addr + 16 + d.size == h.live[k].addr, left)
    requires FirstOf(h.free, (d: Chunk) => h.live[k].addr + 16 + h.live[k].size == d.addr, right)
    ensures var c, n, t := h.live[k], |h.free|, Free(h, k);
            var others := if right < n then h.free[..right] + h.free[right + 1..] else h.free;
            var more := c.size + if right < n then h.free[right].size else 0;
            && t.live == h.live[..k] + h.live[k + 1..]
            && (left == n ==> t.free == others + [Chunk(c.addr, more)])
            && (left < n ==>
                  && left != right
                  && t.free == others[(if right < left then left - 1 else left)
                                      := Chunk(h.free[left].addr, h.free[left].size + more)])
  {
    hide FirstIndex, Coalesced;
    var c := h.live[k];
    assert left < |h.free| ==> EndsAt(c)(h.free[left]);
    FirstIndexIs(h.free, EndsAt(c), left);
    FirstIndexIs(h.free, StartsAt(c), right);
    if left < |h.free| {
      OneSideOnly(c, h.free[left]);
    }
    CoalescedIs(h.free, c, left, right);
  }

  lemma CoalescedIs(free: seq<Chunk>, c: Chunk, left: nat, right: nat)
    requires left <= |free| && right <= |free| && (left < |free| ==> left != right)
    ensures var n, t := |free|, Coalesced(free, c, left, right);
            var others := if right < n then free[..right] + free[right + 1..] else free;
            var more := c.size + if right < n then free[right].size else 0;
            && (left == n ==> t == others + [Chunk(c.addr, more)])
            && (left < n ==>
                  t == others[(if right < left then left - 1 else left)
                              := Chunk(free[left].addr, free[left].size + more)])
  {
    if left < |free| && right < |free| {
      ReplaceThenRemove(free, left, Adopt(Adopt(free[left], c), free[right]), right);
    }
  }

  lemma ReplaceThenRemove(free: seq<Chunk>, i: nat, x: Chunk, j: nat)
    requires i < |free| && j < |free| && i != j
    ensures RemoveAt(free[i := x], j) == RemoveAt(free, j)[(if j < i then i - 1 else i) := x]
  {
  }

  // ------------------------------------------------------------ whole lists

  function Extents(cs: seq<Chunk>): seq<Region> {
    seq(|cs|, i requires 0 <= i < |cs| => cs[i].Extent())
  }

  /** Headers and payloads of all blocks. */
  function TotalBytes(cs: seq<Chunk>): nat {
    if cs == [] then 0 else HEADER + cs[0].size + TotalBytes(cs[1..])
  }

  /** Payloads of all blocks. */
  function TotalPayload(cs: seq<Chunk>): nat {
    if cs == [] then 0 else cs[0].size + TotalPayload(cs[1..])
  }

  lemma {:induction false} PayloadAndHeaders(cs: seq<Chunk>)
    ensures TotalBytes(cs) == TotalPayload(cs) + HEADER * |cs|
  {
    if cs != [] {
      PayloadAndHeaders(cs[1..]);
    }
  }

  lemma {:induction false} PayloadConcat(a: seq<Chunk>, b: seq<Chunk>)
    ensures TotalPayload(a + b) == TotalPayload(a) + TotalPayload(b)
  {
    if a == [] {
      assert a + b == b;
    } else {
      assert (a + b)[1..] == a[1..] + b;
      PayloadConcat(a[1..], b);
    }
  }

  lemma PayloadRemove(cs: seq<Chunk>, i: nat)
    requires i < |cs|
    ensures TotalPayload(RemoveAt(cs, i)) + cs[i].size == TotalPayload(cs)
  {
    assert cs == cs[..i] + cs[i..] && cs[i..] == [cs[i]] + cs[i + 1..];
    PayloadConcat(cs[..i], cs[i..]);
    PayloadConcat([cs[i]], cs[i + 1..]);
    PayloadConcat(cs[..i], cs[i + 1..]);
  }

  lemma PayloadReplace(cs: seq<Chunk>, i: nat, c: Chunk)
    requires i < |cs|
    ensures TotalPayload(cs[i := c]) + cs[i].size == TotalPayload(cs) + c.size
  {
    PayloadRemove(cs, i);
    PayloadRemove(cs[i := c], i);
    assert RemoveAt(cs[i := c], i) == RemoveAt(cs, i);
  }

  lemma PayloadAppend(cs: seq<Chunk>, c: Chunk)
    ensures TotalPayload(cs + [c]) == TotalPayload(cs) + c.size
  {
    PayloadConcat(cs, [c]);
  }

  /** Coverage of a list of blocks, under the edits that the operations make. */
  lemma ExtentsRemove(cs: seq<Chunk>, i: nat, p: int)
    requires i < |cs|
    ensures Cover(Extents(RemoveAt(cs, i)), p) + Hit(cs[i].Extent(), p) == Cover(Extents(cs), p)
  {
    CoverRemove(Extents(cs), i, p);
    assert Extents(RemoveAt(cs, i)) == RemoveAt(Extents(cs), i);
  }

  lemma ExtentsReplace(cs: seq<Chunk>, i: nat, c: Chunk, p: int)
    requires i < |cs|
    ensures Cover(Extents(cs[i := c]), p) + Hit(cs[i].Extent(), p) == Cover(Extents(cs), p) + Hit(c.Extent(), p)
  {
    CoverReplace(Extents(cs), i, c.Extent(), p);
    assert Extents(cs[i := c]) == Extents(cs)[i := c.Extent()];
  }

  lemma ExtentsAppend(cs: seq<Chunk>, c: Chunk, p: int)
    ensures Cover(Extents(cs + [c]), p) == Cover(Extents(cs), p) + Hit(c.Extent(), p)
  {
    CoverAppend(Extents(cs), c.Extent(), p);
    assert Extents(cs + [c]) == Extents(cs) + [c.Extent()];
  }

  /** Splitting and handing out moves bytes from free to live and loses none. */
  lemma AllocateConserves(h: Heap, requested: nat, p: int)
    ensures var t := Allocate(h, requested).heap;
            Cover(Extents(t.free), p) + Cover(Extents(t.live), p)
            == Cover(Extents(h.free), p) + Cover(Extents(h.live), p)
  {
    var i := FirstIndex(h.free, Holds(requested));
    if i < |h.free| {
      var c := h.free[i];
      var remaining := Remaining(c, requested);
      RemainingBounds(c, requested);
      ExtentsRemove(h.free, i, p);
      if remaining > MIN_SPLIT {
        var kept := Chunk(c.addr, c.size - remaining);
        ExtentsAppend(RemoveAt(h.free, i), Chunk(kept.End(), remaining - HEADER), p);
        ExtentsAppend(h.live, kept, p);
      } else {
        ExtentsAppend(h.live, c, p);
      }
    }
  }

  /** Coalescing keeps every byte except those of the dropped headers, which become a hole. */
  lemma FreeConserves(h: Heap, j: nat, p: int)
    requires j < |h.live|
    ensures var c, t := h.live[j], Free(h, j);
            Cover(Extents(t.free), p) + Cover(Extents(t.live), p) + Hit(Hole(h.free, c), p)
            == Cover(Extents(h.free), p) + Cover(Extents(h.live), p)
  {
    var c := h.live[j];
    ExtentsRemove(h.live, j, p);
    CoalescedCover(h.free, c, p);
  }

  lemma CoalescedCover(free: seq<Chunk>, c: Chunk, p: int)
    ensures var left, right := Left(free, c), Right(free, c);
            && (left < |free| ==> left != right)
            && Cover(Extents(Coalesced(free, c, left, right)), p) + Hit(Hole(free, c), p)
            == Cover(Extents(free), p) + Hit(c.Extent(), p)
  {
    var left, right := Left(free, c), Right(free, c);
    if left < |free| {
      assert EndsAt(c)(free[left]);
    }
    if right < |free| {
      assert StartsAt(c)(free[right]);
    }
    if left < |free| && right < |free| {
      var merged := Adopt(Adopt(free[left], c), free[right]);
      ExtentsReplace(free, left, merged, p);
      ExtentsRemove(free[left := merged], right, p);
    } else if left < |free| {
      ExtentsReplace(free, left, Adopt(free[left], c), p);
    } else if right < |free| {
      ExtentsRemove(free, right, p);
      ExtentsAppend(RemoveAt(free, right), Adopt(c, free[right]), p);
    } else {
      ExtentsAppend(free, c, p);
    }
  }

  /** free grows the free payload by exactly the size it reports, and drops one header a merge. */
  lemma FreeAccounts(h: Heap, j: nat)
    requires j < |h.live|
    ensures var c, t := h.live[j], Free(h, j);
            && TotalPayload(t.free) == TotalPayload(h.free) + c.size
            && TotalBytes(t.free) + TotalBytes(t.live) + HEADER * Merges(h.free, c)
            == TotalBytes(h.free) + TotalBytes(h.live)
  {
    hide TotalPayload, TotalBytes;
    var c := h.live[j];
    var left, right := Left(h.free, c), Right(h.free, c);
    CoalescedCover(h.free, c, 0);
    PayloadRemove(h.live, j);
    if left < |h.free| && right < |h.free| {
      var merged := Adopt(Adopt(h.free[left], c), h.free[right]);
      PayloadReplace(h.free, left, merged);
      PayloadRemove(h.free[left := merged], right);
    } else if left < |h.free| {
      PayloadReplace(h.free, left, Adopt(h.free[left], c));
    } else if right < |h.free| {
      PayloadRemove(h.free, right);
      PayloadAppend(RemoveAt(h.free, right), Adopt(c, h.free[right]));
    } else {
      PayloadAppend(h.free, c);
    }
    PayloadAndHeaders(h.free);
    PayloadAndHeaders(h.live);
    PayloadAndHeaders(Free(h, j).free);
    PayloadAndHeaders(Free(h, j).live);
  }

  lemma AllocateAccounts(h: Heap, requested: nat)
    ensures var t := Allocate(h, requested).heap;
            TotalBytes(t.free) + TotalBytes(t.live) == TotalBytes(h.free) + TotalBytes(h.live)
  {
    hide TotalPayload, TotalBytes;
    var t := Allocate(h, requested).heap;
    var i := FirstIndex(h.free, Holds(requested));
    if i < |h.free| {
      var c := h.free[i];
      var remaining := Remaining(c, requested);
      RemainingBounds(c, requested);
      PayloadRemove(h.free, i);
      if remaining > MIN_SPLIT {
        var kept := Chunk(c.addr, c.size - remaining);
        PayloadAppend(RemoveAt(h.free, i), Chunk(kept.End(), remaining - HEADER));
        PayloadAppend(h.live, kept);
      } else {
        PayloadAppend(h.live, c);
      }
    }
    PayloadAndHeaders(h.free);
    PayloadAndHeaders(h.live);
    PayloadAndHeaders(t.free);
    PayloadAndHeaders(t.live);
  }
}
