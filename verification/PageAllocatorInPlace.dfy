/**
 The page allocator as the source runs it: free lists and node pool updated in place
 (PageAllocatorBackend in pine/malloc.cpp).  Each method is proved to take the state to
 exactly the value that the functions of PageBackend give.
 */
module PageAllocatorInPlace {
  import opened Algorithm
  import opened TwoMath
  import opened Regions
  import opened PageBackend

  method DepthFromPageLength(pages: nat) returns (depth: nat)
    ensures depth == Depth(pages)
  {
    if pages == 0 {
      return 0;
    }
    var width := ComputeBitWidth(pages);
    return width - 1;
  }

  class PageAllocatorBackend {
    var freeLists: seq<seq<Region>>
    var freeNodes: nat

    /** The state as a value. */
    function View(): Backend
      reads this
    {
      Backend(freeLists, freeNodes)
    }

    /** An allocator without pages, with room for `nodes` list nodes. */
    constructor (nodes: nat)
      ensures View() == Backend(seq(MAX_DEPTH, _ => []), nodes)
    {
      freeLists := seq(MAX_DEPTH, _ => []);
      freeNodes := nodes;
    }

    /** The slot of a new list node, if the node allocator has one. */
    method CreateNode(region: Region) returns (depth: nat, created: bool)
      modifies this`freeNodes
      ensures created <==> old(freeNodes) > 0
      ensures created ==> freeNodes == old(freeNodes) - 1 && depth == Depth(region.length)
      ensures !created ==> freeNodes == old(freeNodes) && depth == 0
    {
      if freeNodes == 0 {
        return 0, false;
      }
      freeNodes := freeNodes - 1;
      depth := DepthFromPageLength(region.length);
      created := true;
    }

    /** Links a created node into the list of `depth`. */
    method InsertNode(depth: nat, region: Region)
      requires |freeLists| == MAX_DEPTH && depth < MAX_DEPTH
      modifies this`freeLists
      ensures freeLists == old(freeLists)[depth := InsertedAfterFirst(old(freeLists)[depth], region)]
    {
      freeLists := freeLists[depth := InsertedAfterFirst(freeLists[depth], region)];
    }

    /** Unlinks a node from the list of `depth`, which must be the list that it is in. */
    method RemoveNode(depth: nat, node: Handle)
      requires ValidHandle(View(), node) && depth == node.depth
      modifies this
      ensures View() == PageBackend.RemoveNode(old(View()), node)
    {
      freeLists := freeLists[depth := RemoveAt(freeLists[depth], node.index)];
      freeNodes := freeNodes + 1;
    }

    method FreePageRegion(region: Region)
      requires |freeLists| == MAX_DEPTH && Depth(region.length) < MAX_DEPTH
      modifies this
      ensures View() == FreeRegion(old(View()), region)
    {
      if region.length == 0 {
        return;
      }
      var depth, created := CreateNode(region);
      if !created {
        return;
      }
      InsertNode(depth, region);
    }

    method Add(pages: Region)
      requires |freeLists| == MAX_DEPTH && Depth(pages.length) < MAX_DEPTH
      modifies this
      ensures View() == FreeRegion(old(View()), pages)
    {
      FreePageRegion(pages);
    }

    method Free(allocation: Allocation)
      requires |freeLists| == MAX_DEPTH
      requires Depth(PageRegionFromPtr(allocation.ptr, allocation.size).length) < MAX_DEPTH
      modifies this
      ensures View() == FreeRegion(old(View()), PageRegionFromPtr(allocation.ptr, allocation.size))
    {
      FreePageRegion(PageRegionFromPtr(allocation.ptr, allocation.size));
    }

    method FindFree(start: nat, pred: Region -> bool) returns (node: Option<Handle>)
      requires |freeLists| == MAX_DEPTH && start <= MAX_DEPTH
      ensures node == FindNode(View(), start, pred)
    {
      var depth := start;
      while depth != MAX_DEPTH
        invariant start <= depth <= MAX_DEPTH
        invariant FindNode(View(), start, pred) == FindNode(View(), depth, pred)
        decreases MAX_DEPTH - depth
      {
        var i := FindIf(freeLists[depth], pred);
        if i != |freeLists[depth]| {
          return Some(Handle(depth, i));
        }
        depth := depth + 1;
      }
      return None;
    }

    method TrimAlignedRegion(region: Region, depth: nat, endDepth: nat) returns (trimmed: Region)
      requires |freeLists| == MAX_DEPTH && endDepth <= depth < MAX_DEPTH
      modifies this
      ensures Trimmed(View(), trimmed) == TrimAligned(old(View()), region, depth, endDepth)
    {
      hide Pow2, Depth;
      trimmed := region;
      var currDepth := depth;
      while currDepth != endDepth
        invariant |freeLists| == MAX_DEPTH && endDepth <= currDepth <= depth
        invariant TrimAligned(View(), trimmed, currDepth, endDepth)
               == TrimAligned(old(View()), region, depth, endDepth)
        decreases currDepth
      {
        var (reserved, remainder) := trimmed.Halve();
        currDepth := currDepth - 1;
        var _, created := CreateNode(remainder);
        if !created {
          break;
        }
        InsertNode(currDepth, remainder);
        trimmed := reserved;
      }
    }

    method RemoveAndTrimPages(node: Handle, minPages: nat) returns (trimmed: Region)
      requires WellFormed(View()) && ValidHandle(View(), node)
      requires WantedDepth(minPages) <= node.depth
      modifies this
      ensures Trimmed(View(), trimmed)
           == TrimAligned(PageBackend.RemoveNode(old(View()), node), At(old(View()), node),
                          node.depth, WantedDepth(minPages))
    {
      var region := At(View(), node);
      DepthOfPow2(node.depth);
      var depth := DepthFromPageLength(region.length);
      RemoveNode(depth, node);
      var minDepth := DepthFromPageLength(AlignUpToPower(minPages));
      trimmed := TrimAlignedRegion(region, depth, minDepth);
    }

    method RemoveAndTrimRegion(node: Handle, minRegion: Region) returns (trimmed: Region)
      requires WellFormed(View()) && ValidHandle(View(), node)
      requires Depth(minRegion.length) <= node.depth
      modifies this
      ensures Trimmed(View(), trimmed)
           == TrimAround(PageBackend.RemoveNode(old(View()), node), At(old(View()), node),
                         node.depth, Depth(minRegion.length), minRegion)
    {
      hide Pow2, Depth;
      trimmed := At(View(), node);
      DepthOfPow2(node.depth);
      var currDepth := DepthFromPageLength(trimmed.length);
      RemoveNode(currDepth, node);
      ghost var start, whole := View(), trimmed;

      var endDepth := DepthFromPageLength(minRegion.length);
      while currDepth != endDepth
        invariant |freeLists| == MAX_DEPTH && endDepth <= currDepth <= node.depth
        invariant TrimAround(View(), trimmed, currDepth, endDepth, minRegion)
               == TrimAround(start, whole, node.depth, endDepth, minRegion)
        decreases currDepth
      {
        var (reserved, remainder) := trimmed.Halve();
        if !reserved.Contains(minRegion) {
          if !remainder.Contains(minRegion) {
            break;
          }
          remainder, reserved := reserved, remainder;
        }
        currDepth := currDepth - 1;
        var _, created := CreateNode(remainder);
        if !created {
          break;
        }
        InsertNode(currDepth, remainder);
        trimmed := reserved;
      }
    }

    method Allocate(pages: nat, alignment: nat) returns (allocation: Allocation)
      requires WellFormed(View()) && pages < 0x40_0000 && alignment > 0
      modifies this
      ensures var a := PageBackend.Allocate(old(View()), pages, alignment);
              View() == a.backend && allocation == ToAllocation(a.region)
    {
      DepthInRange(pages);
      FoundFits(View(), pages, alignment);
      var depth := DepthFromPageLength(pages);
      var node := FindFree(depth, FitsAligned(pages, alignment));
      if node == None {
        return Allocation(0, 0);
      }
      var region := RemoveAndTrimPages(node.value, pages);
      return ToAllocation(Some(region));
    }

    method ReserveRegion(region: Region) returns (allocation: Allocation)
      requires WellFormed(View()) && region.length < 0x40_0000
      modifies this
      ensures var a := Reserve(old(View()), region);
              View() == a.backend && allocation == ToAllocation(a.region)
    {
      DepthInRange(region.length);
      FindNodeFirst(View(), Depth(region.length), Containing(region));
      var depth := DepthFromPageLength(region.length);
      var node := FindFree(depth, Containing(region));
      if node == None {
        return Allocation(0, 0);
      }
      var final := RemoveAndTrimRegion(node.value, region);
      return ToAllocation(Some(final));
    }
  }
}
