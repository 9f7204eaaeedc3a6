/**
 The exact free lists after a call that takes the left end of a free block: what boot and
 real inputs are computed with.
 */
module PageLists {
  import opened Algorithm
  import opened TwoMath
  import opened Regions
  import opened PageBackend
  import opened AlignedBlocks

  /**
   The lists when the left end, of depth `stop`, of the block of a node is taken: the node
   is gone, and each depth from there up to the block's has got a right half.
   */
  function ListsWithout(b: Backend, h: Handle, stop: nat): (lists: seq<seq<Region>>)
    requires ValidHandle(b, h) && stop <= h.depth
    ensures |lists| == MAX_DEPTH
  {
    seq(MAX_DEPTH, d requires 0 <= d < MAX_DEPTH =>
      if d == h.depth then RemoveAt(b.lists[d], h.index)
      else if stop <= d < h.depth then InsertedAfterFirst(b.lists[d], Region(At(b, h).offset + Pow2(d), Pow2(d)))
      else b.lists[d])
  }

  /** Where halving the block of a node towards a depth stops. */
  function Stop(b: Backend, h: Handle, depth: nat): nat {
    StopDepth(h.depth, depth, b.nodes + 1)
  }

  function TakenLeft(b: Backend, h: Handle, depth: nat): (r: Reply)
    requires ValidHandle(b, h) && depth <= h.depth
    ensures r.region.Some?
  {
    var stop := Stop(b, h, depth);
    Reply(Backend(ListsWithout(b, h, stop), b.nodes + 1 - (h.depth - stop)), Some(Region(At(b, h).offset, Pow2(stop))))
  }

  lemma TrimIsTakenLeft(b: Backend, h: Handle, depth: nat)
    requires WellFormed(b) && ValidHandle(b, h) && depth <= h.depth
    ensures var t := TrimAligned(RemoveNode(b, h), At(b, h), h.depth, depth);
            Reply(t.backend, Some(t.region)) == TakenLeft(b, h, depth)
  {
    hide InsertedAfterFirst, TrimAligned, Pow2, StopDepth, RemoveAt;
    RemoveNodeWellFormed(b, h);
    TrimAlignedShape(RemoveNode(b, h), At(b, h), h.depth, depth);
    TrimAlignedLists(RemoveNode(b, h), At(b, h), h.depth, depth);
    var t := TrimAligned(RemoveNode(b, h), At(b, h), h.depth, depth).backend;
    ListsAre(b, h, Stop(b, h, depth), t.lists);
  }

  lemma ListsAre(b: Backend, h: Handle, stop: nat, lists: seq<seq<Region>>)
    requires ValidHandle(b, h) && stop <= h.depth && |lists| == MAX_DEPTH
    requires forall d | 0 <= d < MAX_DEPTH ::
               var l, half := RemoveNode(b, h).lists[d], Region(At(b, h).offset + Pow2(d), Pow2(d));
               lists[d] == if stop <= d < h.depth then InsertedAfterFirst(l, half) else l
    ensures lists == ListsWithout(b, h, stop)
  {
    hide InsertedAfterFirst, Pow2, RemoveAt;
  }

  /** A reservation at the left end of the one free block that passes the test. */
  lemma ReserveTakesLeft(b: Backend, region: Region, h: Handle)
    requires WellFormed(b) && ValidHandle(b, h) && region.length < 0x40_0000
    requires At(b, h).offset == region.offset && At(b, h).offset + At(b, h).length < WORD
    requires CeilLog(region.length) <= h.depth
    requires forall d, i | 0 <= d < MAX_DEPTH && 0 <= i < |b.lists[d]| && b.lists[d][i].Contains(region) ::
               d == h.depth && i == h.index
    ensures Reserve(b, region) == TakenLeft(b, h, CeilLog(region.length))
  {
    hide Pow2, Depth, CeilLog;
    DepthInRange(region.length);
    CeilLogAndDepth(region.length);
    FindNodeFirst(b, Depth(region.length), Containing(region));
    RemoveNodeWellFormed(b, h);
    LeftEndHolds(At(b, h), h.depth, region);
    assert Containing(region)(At(b, h));
    assert FindNode(b, Depth(region.length), Containing(region)) == Some(h);
    TrimAroundLeft(RemoveNode(b, h), At(b, h), h.depth, region);
    TrimIsTakenLeft(b, h, CeilLog(region.length));
  }

  lemma LeftEndHolds(r: Region, depth: nat, region: Region)
    requires Block(r, depth) && r.offset == region.offset && CeilLog(region.length) <= depth
    requires r.offset + r.length < WORD
    ensures r.Contains(region)
  {
    CeilLogIsLeast(region.length, depth);
    ContainsIsInside(region, r);
  }

  /** The one free block that holds a page. */
  lemma OneHolder(b: Backend, d: nat, i: nat, e: nat, j: nat, page: int)
    requires |b.lists| == MAX_DEPTH && d < MAX_DEPTH && e < MAX_DEPTH && i < |b.lists[d]| && j < |b.lists[e]|
    requires FreeCover(b.lists, page) <= 1 && b.lists[d][i].Has(page) && b.lists[e][j].Has(page)
    ensures d == e && i == j
  {
    if d == e {
      FreeCoverList(b.lists, d, page);
      if i < j {
        CoverTwo(b.lists[d], i, j, page);
      } else if j < i {
        CoverTwo(b.lists[d], j, i, page);
      }
    } else {
      FreeCoverTwoLists(b.lists, if d < e then d else e, if d < e then e else d, page);
      CoverSplitAt(b.lists[d], i, page);
      CoverSplitAt(b.lists[e], j, page);
    }
  }

  /** For a region of pages that are free once, the block at its start is the one that passes. */
  lemma ReserveTakesLeftOnce(b: Backend, region: Region, h: Handle)
    requires WellFormed(b) && ValidHandle(b, h) && 0 < region.length < 0x40_0000
    requires At(b, h).offset == region.offset && CeilLog(region.length) <= h.depth
    requires FreeCover(b.lists, region.offset) <= 1 && region.offset + region.length < WORD
    requires forall d, i | 0 <= d < MAX_DEPTH && 0 <= i < |b.lists[d]| ::
               b.lists[d][i].offset + b.lists[d][i].length < WORD
    ensures Reserve(b, region) == TakenLeft(b, h, CeilLog(region.length))
  {
    hide Pow2;
    RemoveNodeWellFormed(b, h);
    forall d, i | 0 <= d < MAX_DEPTH && 0 <= i < |b.lists[d]| && b.lists[d][i].Contains(region)
      ensures d == h.depth && i == h.index
    {
      ContainsIsInside(region, b.lists[d][i]);
      OneHolder(b, d, i, h.depth, h.index, region.offset);
    }
    ReserveTakesLeft(b, region, h);
  }

  /** An allocation takes the left end of the head of the first list that is not empty. */
  lemma AllocateTakesLeft(b: Backend, pages: nat, d: nat)
    requires WellFormed(b) && pages < 0x40_0000 && CeilLog(pages) <= d < MAX_DEPTH && b.lists[d] != []
    requires forall e | Depth(pages) <= e < d :: b.lists[e] == []
    ensures Allocate(b, pages, 1) == TakenLeft(b, Handle(d, 0), CeilLog(pages))
  {
    hide Pow2, Depth, CeilLog;
    DepthInRange(pages);
    CeilLogAndDepth(pages);
    CeilLogIsLeast(pages, d);
    var pred := FitsAligned(pages, 1);
    FindNodeFirst(b, Depth(pages), pred);
    assert pred(b.lists[d][0]);
    FoundFits(b, pages, 1);
    assert FindNode(b, Depth(pages), pred) == Some(Handle(d, 0));
    WantedDepthIsCeilLog(pages);
    TrimIsTakenLeft(b, Handle(d, 0), CeilLog(pages));
  }
}
