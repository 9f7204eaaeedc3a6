/**
 The specification of the power-of-two page allocator (PageAllocatorBackend in
 pine/malloc.cpp): its state as a value, its operations as functions of that value,
 and what those functions guarantee.  The class that performs the operations in place
 is in PageAllocatorInPlace.dfy and is proved equal to these functions.
 */
module PageBackend {
  import opened Algorithm
  import opened TwoMath
  import opened Regions

  /** (32 address bits) - bit_width(PageSize) + 2; one free list per depth below it. */
  const MAX_DEPTH: nat := 21

  /**
   `lists[d]` is the free list of depth d, in list order.  `nodes` is the number of
   list nodes the node allocator can still supply.
   */
  datatype Backend = Backend(lists: seq<seq<Region>>, nodes: nat)

  /** A node pointer: the list the node is linked into and its position there. */
  datatype Handle = Handle(depth: nat, index: nat)

  datatype Trimmed = Trimmed(backend: Backend, region: Region)

  datatype Reply = Reply(backend: Backend, region: Option<Region>)

  predicate WellFormed(b: Backend) {
    && |b.lists| == MAX_DEPTH
    && forall d, i | 0 <= d < MAX_DEPTH && 0 <= i < |b.lists[d]| :: Block(b.lists[d][i], d)
  }

  predicate ValidHandle(b: Backend, h: Handle) {
    |b.lists| == MAX_DEPTH && h.depth < MAX_DEPTH && h.index < |b.lists[h.depth]|
  }

  function At(b: Backend, h: Handle): Region
    requires ValidHandle(b, h)
  {
    b.lists[h.depth][h.index]
  }

  /** depth_from_page_length. */
  function Depth(pages: nat): nat {
    if pages == 0 then 0 else BitWidth(pages) - 1
  }

  // ------------------------------------------------------------ operations

  /** First match in the lists of depth `depth` and above. */
  function FindNode(b: Backend, depth: nat, pred: Region -> bool): Option<Handle>
    requires |b.lists| == MAX_DEPTH && depth <= MAX_DEPTH
    decreases MAX_DEPTH - depth
  {
    if depth == MAX_DEPTH then None
    else
      var i := FirstIndex(b.lists[depth], pred);
      if i < |b.lists[depth]| then Some(Handle(depth, i)) else FindNode(b, depth + 1, pred)
  }

  /** The search predicate of find_free_pages. */
  function FitsAligned(pages: nat, alignment: nat): Region -> bool
    requires alignment > 0
  {
    (r: Region) => r.Fits(pages) && r.AlignedTo(alignment)
  }

  /** The search predicate of find_free_region. */
  function Containing(region: Region): Region -> bool {
    (r: Region) => r.Contains(region)
  }

  function RemoveNode(b: Backend, h: Handle): Backend
    requires ValidHandle(b, h)
  {
    Backend(b.lists[h.depth := RemoveAt(b.lists[h.depth], h.index)], b.nodes + 1)
  }

  /** The new node goes where LinkedList.InsertNode puts it: after the first node. */
  function InsertNode(b: Backend, depth: nat, r: Region): Backend
    requires |b.lists| == MAX_DEPTH && depth < MAX_DEPTH && b.nodes > 0
  {
    Backend(b.lists[depth := InsertedAfterFirst(b.lists[depth], r)], b.nodes - 1)
  }

  function FreeRegion(b: Backend, r: Region): Backend
    requires |b.lists| == MAX_DEPTH && Depth(r.length) < MAX_DEPTH
  {
    if r.length == 0 || b.nodes == 0 then b else InsertNode(b, Depth(r.length), r)
  }

  /** Keep the left half and free the right one, until the wanted depth or no node is left. */
  function TrimAligned(b: Backend, r: Region, depth: nat, endDepth: nat): Trimmed
    requires |b.lists| == MAX_DEPTH && endDepth <= depth < MAX_DEPTH
    decreases depth
  {
    if depth == endDepth || b.nodes == 0 then Trimmed(b, r)
    else TrimAligned(InsertNode(b, depth - 1, r.Halve().1), r.Halve().0, depth - 1, endDepth)
  }

  /** Keep the half that contains `min` and free the other one. */
  function TrimAround(b: Backend, r: Region, depth: nat, endDepth: nat, min: Region): Trimmed
    requires |b.lists| == MAX_DEPTH && endDepth <= depth < MAX_DEPTH
    decreases depth
  {
    var (left, right) := r.Halve();
    if depth == endDepth || (!left.Contains(min) && !right.Contains(min)) || b.nodes == 0 then Trimmed(b, r)
    else if left.Contains(min) then TrimAround(InsertNode(b, depth - 1, right), left, depth - 1, endDepth, min)
    else TrimAround(InsertNode(b, depth - 1, left), right, depth - 1, endDepth, min)
  }

  /** The depth that an allocation of `pages` is trimmed down to. */
  function WantedDepth(pages: nat): nat {
    Depth(AlignUpToPower(pages))
  }

  function Allocate(b: Backend, pages: nat, alignment: nat): Reply
    requires WellFormed(b) && pages < 0x40_0000 && alignment > 0
  {
    DepthInRange(pages);
    match FindNode(b, Depth(pages), FitsAligned(pages, alignment))
    case None => Reply(b, None)
    case Some(h) =>
      FoundFits(b, pages, alignment);
      var t := TrimAligned(RemoveNode(b, h), At(b, h), h.depth, WantedDepth(pages));
      Reply(t.backend, Some(t.region))
  }

  function Reserve(b: Backend, region: Region): Reply
    requires WellFormed(b) && region.length < 0x40_0000
  {
    DepthInRange(region.length);
    match FindNode(b, Depth(region.length), Containing(region))
    case None => Reply(b, None)
    case Some(h) =>
      FindNodeFirst(b, Depth(region.length), Containing(region));
      var t := TrimAround(RemoveNode(b, h), At(b, h), h.depth, Depth(region.length), region);
      Reply(t.backend, Some(t.region))
  }

  // ---------------------------------------------------- the order of a free list

  /** operator> of regions. */
  predicate Above(a: Region, b: Region) {
    a.offset > b.offset || (a.offset == b.offset && a.length > b.length)
  }

  /** The order that the search for an insertion point relies on: greater regions first. */
  ghost predicate Descending(l: seq<Region>) {
    forall i, j | 0 <= i < j < |l| :: !Above(l[j], l[i])
  }

  /**
   A free list in descending order stays in that order through an insertion exactly when
   it is empty or the new region belongs between its first two.
   */
  lemma InsertionKeepsOrderExactly(l: seq<Region>, r: Region)
    requires Descending(l)
    ensures Descending(InsertedAfterFirst(l, r))
       <==> l == [] || (!Above(r, l[0]) && (|l| > 1 ==> !Above(l[1], r)))
  {
    var t := InsertedAfterFirst(l, r);
    if l != [] {
      assert t[0] == l[0] && t[1] == r && (|l| > 1 ==> t[2] == l[1]);
      if !Above(r, l[0]) && (|l| > 1 ==> !Above(l[1], r)) {
        forall i, j | 0 <= i < j < |t| ensures !Above(t[j], t[i]) {
          InsertedAt(l, r, i);
          InsertedAt(l, r, j);
          if i == 1 {
            assert j == 2 || !Above(l[j - 1], l[1]);
          }
        }
      }
    }
  }

  lemma InsertedAt(l: seq<Region>, r: Region, i: nat)
    requires l != [] && i <= |l|
    ensures InsertedAfterFirst(l, r)[i] == if i == 0 then l[0] else if i == 1 then r else l[i - 1]
  {
  }

  // ------------------------------------------------------------- the search

  lemma DepthBounds(pages: nat)
    ensures pages > 0 ==> Pow2(Depth(pages)) <= pages < Pow2(Depth(pages) + 1)
  {
    if pages > 0 {
      BitWidthBounds(pages);
    }
  }

  lemma DepthOfPow2(d: nat)
    ensures Depth(Pow2(d)) == d
  {
    BitWidthUnique(Pow2(d), d);
  }

  /** The depth function is monotone. */
  lemma DepthMonotone(m: nat, n: nat)
    requires m <= n
    ensures Depth(m) <= Depth(n)
  {
    if m > 0 {
      DepthBounds(m);
      DepthBounds(n);
      if Depth(n) < Depth(m) {
        Pow2Monotone(Depth(n) + 1, Depth(m));
      }
    }
  }

  lemma DepthInRange(pages: nat)
    requires pages < 0x40_0000
    ensures Depth(pages) <= MAX_DEPTH
  {
    DepthMonotone(pages, 0x3F_FFFF);
    assert Pow2(21) <= 0x3F_FFFF < Pow2(22) by { Pow2Values(); }
    BitWidthUnique(0x3F_FFFF, 21);
  }

  /** The search returns the first match of the lowest list that has one, and misses none. */
  lemma {:induction false} FindNodeFirst(b: Backend, depth: nat, pred: Region -> bool)
    requires |b.lists| == MAX_DEPTH && depth <= MAX_DEPTH
    ensures match FindNode(b, depth, pred)
            case Some(h) =>
              && ValidHandle(b, h) && depth <= h.depth && pred(At(b, h))
              && (forall d, i | depth <= d < h.depth && 0 <= i < |b.lists[d]| :: !pred(b.lists[d][i]))
              && (forall i | 0 <= i < h.index :: !pred(b.lists[h.depth][i]))
            case None =>
              forall d, i | depth <= d < MAX_DEPTH && 0 <= i < |b.lists[d]| :: !pred(b.lists[d][i])
    decreases MAX_DEPTH - depth
  {
    if depth < MAX_DEPTH {
      FindNodeFirst(b, depth + 1, pred);
    }
  }

  lemma WantedDepthIsCeilLog(pages: nat)
    requires pages < 0x40_0000
    ensures AlignUpToPower(pages) == Pow2(CeilLog(pages))
    ensures WantedDepth(pages) == CeilLog(pages)
  {
    AlignUpToPowerIsLeast(pages);
    DepthOfPow2(CeilLog(pages));
  }

  /** A block that fits the request is at least as deep as the depth it is trimmed to. */
  lemma FoundFits(b: Backend, pages: nat, alignment: nat)
    requires WellFormed(b) && pages < 0x40_0000 && alignment > 0
    requires Depth(pages) <= MAX_DEPTH
    ensures match FindNode(b, Depth(pages), FitsAligned(pages, alignment))
            case None => true
            case Some(h) => ValidHandle(b, h) && WantedDepth(pages) <= h.depth
  {
    FindNodeFirst(b, Depth(pages), FitsAligned(pages, alignment));
    match FindNode(b, Depth(pages), FitsAligned(pages, alignment))
    case None =>
    case Some(h) =>
      assert Block(At(b, h), h.depth);
      WantedDepthIsCeilLog(pages);
      CeilLogIsLeast(pages, h.depth);
  }

  // ----------------------------------------------------------- counting

  /** How many free regions, over all depths, contain page p. */
  function FreeCover(lists: seq<seq<Region>>, p: int): nat {
    if lists == [] then 0 else Cover(lists[0], p) + FreeCover(lists[1..], p)
  }

  /** How many list nodes are in use. */
  function NodeCount(lists: seq<seq<Region>>): nat {
    if lists == [] then 0 else |lists[0]| + NodeCount(lists[1..])
  }

  lemma {:induction false} FreeCoverUpdate(lists: seq<seq<Region>>, d: nat, l: seq<Region>, p: int)
    requires d < |lists|
    ensures FreeCover(lists[d := l], p) + Cover(lists[d], p) == FreeCover(lists, p) + Cover(l, p)
  {
    if d == 0 {
      assert lists[d := l][1..] == lists[1..];
    } else {
      assert lists[d := l][1..] == lists[1..][d - 1 := l];
      FreeCoverUpdate(lists[1..], d - 1, l, p);
    }
  }

  lemma {:induction false} NodeCountUpdate(lists: seq<seq<Region>>, d: nat, l: seq<Region>)
    requires d < |lists|
    ensures NodeCount(lists[d := l]) + |lists[d]| == NodeCount(lists) + |l|
  {
    if d == 0 {
      assert lists[d := l][1..] == lists[1..];
    } else {
      assert lists[d := l][1..] == lists[1..][d - 1 := l];
      NodeCountUpdate(lists[1..], d - 1, l);
    }
  }

  /** Any free region is counted. */
  lemma {:induction false} FreeCoverAtLeast(lists: seq<seq<Region>>, d: nat, i: nat, p: int)
    requires d < |lists| && i < |lists[d]|
    ensures FreeCover(lists, p) >= Hit(lists[d][i], p)
  {
    if d == 0 {
      CoverSplitAt(lists[0], i, p);
    } else {
      FreeCoverAtLeast(lists[1..], d - 1, i, p);
    }
  }

  lemma {:induction false} FreeCoverList(lists: seq<seq<Region>>, d: nat, p: int)
    requires d < |lists|
    ensures FreeCover(lists, p) >= Cover(lists[d], p)
  {
    if d > 0 {
      FreeCoverList(lists[1..], d - 1, p);
    }
  }

  lemma {:induction false} FreeCoverTwoLists(lists: seq<seq<Region>>, d: nat, e: nat, p: int)
    requires d < e < |lists|
    ensures FreeCover(lists, p) >= Cover(lists[d], p) + Cover(lists[e], p)
  {
    if d == 0 {
      FreeCoverList(lists[1..], e - 1, p);
    } else {
      FreeCoverTwoLists(lists[1..], d - 1, e - 1, p);
    }
  }

  /** Nodes in the lists plus nodes left in the pool: the size of the node pool. */
  function PoolSize(b: Backend): nat {
    b.nodes + NodeCount(b.lists)
  }

  lemma InsertNodeCounts(b: Backend, d: nat, r: Region, p: int)
    requires |b.lists| == MAX_DEPTH && d < MAX_DEPTH && b.nodes > 0
    ensures FreeCover(InsertNode(b, d, r).lists, p) == FreeCover(b.lists, p) + Hit(r, p)
    ensures PoolSize(InsertNode(b, d, r)) == PoolSize(b)
  {
    var l := b.lists[d];
    FreeCoverUpdate(b.lists, d, InsertedAfterFirst(l, r), p);
    NodeCountUpdate(b.lists, d, InsertedAfterFirst(l, r));
    CoverInsert(l, if l == [] then 0 else 1, r, p);
    assert l == [] ==> l[..0] + [r] + l[0..] == [r];
  }

  lemma RemoveNodeCounts(b: Backend, h: Handle, p: int)
    requires ValidHandle(b, h)
    ensures FreeCover(RemoveNode(b, h).lists, p) + Hit(At(b, h), p) == FreeCover(b.lists, p)
    ensures PoolSize(RemoveNode(b, h)) == PoolSize(b)
  {
    var l := b.lists[h.depth];
    FreeCoverUpdate(b.lists, h.depth, RemoveAt(l, h.index), p);
    NodeCountUpdate(b.lists, h.depth, RemoveAt(l, h.index));
    CoverRemove(l, h.index, p);
  }

  lemma InsertNodeWellFormed(b: Backend, d: nat, r: Region)
    requires WellFormed(b) && d < MAX_DEPTH && Block(r, d) && b.nodes > 0
    ensures WellFormed(InsertNode(b, d, r))
  {
  }

  lemma RemoveNodeWellFormed(b: Backend, h: Handle)
    requires WellFormed(b) && ValidHandle(b, h)
    ensures WellFormed(RemoveNode(b, h)) && Block(At(b, h), h.depth)
  {
  }

  // ------------------------------------------------------------ trimming

  /** Trimming takes at most one node for each depth. */
  lemma {:induction false} TrimAlignedNodes(b: Backend, r: Region, depth: nat, endDepth: nat)
    requires |b.lists| == MAX_DEPTH && endDepth <= depth < MAX_DEPTH
    ensures TrimAligned(b, r, depth, endDepth).backend.nodes + depth >= b.nodes
    decreases depth
  {
    if depth != endDepth && b.nodes > 0 {
      TrimAlignedNodes(InsertNode(b, depth - 1, r.Halve().1), r.Halve().0, depth - 1, endDepth);
    }
  }

  lemma {:induction false} TrimAroundNodes(b: Backend, r: Region, depth: nat, endDepth: nat, min: Region)
    requires |b.lists| == MAX_DEPTH && endDepth <= depth < MAX_DEPTH
    ensures TrimAround(b, r, depth, endDepth, min).backend.nodes + depth >= b.nodes
    decreases depth
  {
    var (left, right) := r.Halve();
    if depth != endDepth && (left.Contains(min) || right.Contains(min)) && b.nodes > 0 {
      if left.Contains(min) {
        TrimAroundNodes(InsertNode(b, depth - 1, right), left, depth - 1, endDepth, min);
      } else {
        TrimAroundNodes(InsertNode(b, depth - 1, left), right, depth - 1, endDepth, min);
      }
    }
  }

  /** Where halving from `depth` towards `endDepth` stops with `nodes` nodes in the pool. */
  function StopDepth(depth: nat, endDepth: nat, nodes: nat): nat {
    if endDepth + nodes >= depth then endDepth else depth - nodes
  }

  /**
   Trimming keeps every free region a block of its list's depth, and returns the block
   at the start of the trimmed one, of the wanted depth unless the nodes ran out first.
   */
  lemma {:induction false} TrimAlignedShape(b: Backend, r: Region, depth: nat, endDepth: nat)
    requires WellFormed(b) && endDepth <= depth < MAX_DEPTH && Block(r, depth)
    ensures var t := TrimAligned(b, r, depth, endDepth);
            && WellFormed(t.backend)
            && t.region == Region(r.offset, Pow2(StopDepth(depth, endDepth, b.nodes)))
            && Block(t.region, StopDepth(depth, endDepth, b.nodes))
            && (StopDepth(depth, endDepth, b.nodes) == endDepth || t.backend.nodes == 0)
    decreases depth
  {
    if depth != endDepth && b.nodes > 0 {
      HalveBlock(r, depth);
      TrimAlignedShape(InsertNode(b, depth - 1, r.Halve().1), r.Halve().0, depth - 1, endDepth);
    }
  }

  /**
   The lists after trimming: from the depth where it stops up to the depth of the block,
   each has got the right half of that depth; the others are as before.
   */
  lemma {:induction false} TrimAlignedLists(b: Backend, r: Region, depth: nat, endDepth: nat)
    requires |b.lists| == MAX_DEPTH && endDepth <= depth < MAX_DEPTH && Block(r, depth)
    ensures var t := TrimAligned(b, r, depth, endDepth).backend;
            var stop := StopDepth(depth, endDepth, b.nodes);
            && |t.lists| == MAX_DEPTH && stop <= depth && t.nodes == b.nodes - (depth - stop)
            && forall d | 0 <= d < MAX_DEPTH ::
                 t.lists[d] == if stop <= d < depth
                               then InsertedAfterFirst(b.lists[d], Region(r.offset + Pow2(d), Pow2(d)))
                               else b.lists[d]
    decreases depth
  {
    hide InsertedAfterFirst;
    if depth != endDepth && b.nodes > 0 {
      HalveBlock(r, depth);
      TrimAlignedLists(InsertNode(b, depth - 1, r.Halve().1), r.Halve().0, depth - 1, endDepth);
    }
  }

  /** Trimming loses no page and no node, even when it stops early. */
  lemma {:induction false} TrimAlignedConserves(b: Backend, r: Region, depth: nat, endDepth: nat, p: int)
    requires |b.lists| == MAX_DEPTH && endDepth <= depth < MAX_DEPTH
    ensures var t := TrimAligned(b, r, depth, endDepth);
            && FreeCover(t.backend.lists, p) + Hit(t.region, p) == FreeCover(b.lists, p) + Hit(r, p)
            && PoolSize(t.backend) == PoolSize(b)
    decreases depth
  {
    if depth != endDepth && b.nodes > 0 {
      HalveCover(r, p);
      InsertNodeCounts(b, depth - 1, r.Halve().1, p);
      TrimAlignedConserves(InsertNode(b, depth - 1, r.Halve().1), r.Halve().0, depth - 1, endDepth, p);
    }
  }

  lemma {:induction false} TrimAroundConserves(
      b: Backend, r: Region, depth: nat, endDepth: nat, min: Region, p: int)
    requires |b.lists| == MAX_DEPTH && endDepth <= depth < MAX_DEPTH
    ensures var t := TrimAround(b, r, depth, endDepth, min);
            && FreeCover(t.backend.lists, p) + Hit(t.region, p) == FreeCover(b.lists, p) + Hit(r, p)
            && PoolSize(t.backend) == PoolSize(b)
    decreases depth
  {
    var (left, right) := r.Halve();
    if depth != endDepth && (left.Contains(min) || right.Contains(min)) && b.nodes > 0 {
      HalveCover(r, p);
      if left.Contains(min) {
        InsertNodeCounts(b, depth - 1, right, p);
        TrimAroundConserves(InsertNode(b, depth - 1, right), left, depth - 1, endDepth, min, p);
      } else {
        InsertNodeCounts(b, depth - 1, left, p);
        TrimAroundConserves(InsertNode(b, depth - 1, left), right, depth - 1, endDepth, min, p);
      }
    }
  }

  /** Trimming around a region keeps blocks blocks, whatever the region is. */
  lemma {:induction false} TrimAroundShape(
      b: Backend, r: Region, depth: nat, endDepth: nat, min: Region) returns (e: nat)
    requires WellFormed(b) && endDepth <= depth < MAX_DEPTH && Block(r, depth)
    ensures var t := TrimAround(b, r, depth, endDepth, min);
            && WellFormed(t.backend) && endDepth <= e <= depth && Block(t.region, e)
            && r.offset <= t.region.offset
            && t.region.offset + t.region.length <= r.offset + r.length
    decreases depth
  {
    var (left, right) := r.Halve();
    if depth != endDepth && (left.Contains(min) || right.Contains(min)) && b.nodes > 0 {
      HalveBlock(r, depth);
      if left.Contains(min) {
        e := TrimAroundShape(InsertNode(b, depth - 1, right), left, depth - 1, endDepth, min);
      } else {
        e := TrimAroundShape(InsertNode(b, depth - 1, left), right, depth - 1, endDepth, min);
      }
    } else {
      e := depth;
    }
  }

  /** `r` lies inside `outer`, as intervals of mathematical integers. */
  predicate Inside(r: Region, outer: Region) {
    outer.offset <= r.offset && r.offset + r.length <= outer.offset + outer.length
  }

  /** No naturally aligned block around `r` is smaller than `outer`. */
  ghost predicate SmallestAround(outer: Region, r: Region) {
    && Inside(r, outer)
    && forall x: Region, d: nat :: Block(x, d) && Inside(r, x) ==> outer.length <= x.length
  }

  /** A region that neither half of a block contains is in no block of half its size. */
  lemma StraddlingNeedsWhole(r: Region, curr: Region, depth: nat, x: Region, d: nat)
    requires Block(curr, depth) && depth > 0 && Inside(r, curr)
    requires !Inside(r, curr.Halve().0) && !Inside(r, curr.Halve().1)
    requires Block(x, d) && Inside(r, x)
    ensures curr.length <= x.length
  {
    HalveBlock(curr, depth);
    var mid := curr.offset + curr.Halve().0.length;
    if d < depth {
      Pow2Divides(mid, d, depth - 1);
      MultipleHasNoRemainder(1, Pow2(d));
      SumOfMultiples(x.offset, Pow2(d), Pow2(d));
      MultiplesApart(x.offset, mid, Pow2(d));
    } else {
      Pow2Monotone(depth, d);
    }
  }

  /** A block is no smaller than the wanted depth of what it holds. */
  lemma HolderIsDeepEnough(r: Region, x: Region, d: nat)
    requires Block(x, d) && Inside(r, x)
    ensures Pow2(Depth(r.length)) <= x.length
  {
    DepthBounds(r.length);
  }

  /** In a block that does not wrap, the code's containment test is interval containment. */
  lemma ContainsIsInside(r: Region, outer: Region)
    requires outer.offset + outer.length < WORD && r.offset + r.length < WORD
    ensures outer.Contains(r) <==> Inside(r, outer)
  {
  }

  /** Both reasons to stop halving mean that no smaller block holds the region. */
  lemma StopIsSmallest(min: Region, r: Region, depth: nat)
    requires Block(r, depth) && Inside(min, r)
    requires depth == Depth(min.length)
          || (depth > 0 && !Inside(min, r.Halve().0) && !Inside(min, r.Halve().1))
    ensures SmallestAround(r, min)
  {
    forall x: Region, d: nat | Block(x, d) && Inside(min, x) ensures r.length <= x.length {
      if depth == Depth(min.length) {
        HolderIsDeepEnough(min, x, d);
      } else {
        StraddlingNeedsWhole(min, r, depth, x, d);
      }
    }
  }

  /**
   Trimming around a region gives the smallest naturally aligned block that
   contains it, unless the nodes ran out.
   */
  lemma {:induction false} TrimAroundSmallest(b: Backend, r: Region, depth: nat, min: Region)
    requires WellFormed(b) && Depth(min.length) <= depth < MAX_DEPTH && Block(r, depth)
    requires Inside(min, r) && r.offset + r.length < WORD
    ensures var t := TrimAround(b, r, depth, Depth(min.length), min);
            && Inside(min, t.region)
            && (SmallestAround(t.region, min) || t.backend.nodes == 0)
            && (depth <= Depth(min.length) + b.nodes ==> SmallestAround(t.region, min))
    decreases depth
  {
    var (left, right) := r.Halve();
    if depth == Depth(min.length) {
      StopIsSmallest(min, r, depth);
    } else {
      HalveBlock(r, depth);
      ContainsIsInside(min, left);
      ContainsIsInside(min, right);
      if !left.Contains(min) && !right.Contains(min) {
        StopIsSmallest(min, r, depth);
      } else if b.nodes > 0 {
        var (keep, give) := if left.Contains(min) then (left, right) else (right, left);
        InsertNodeWellFormed(b, depth - 1, give);
        TrimAroundSmallest(InsertNode(b, depth - 1, give), keep, depth - 1, min);
      }
    }
  }
}
