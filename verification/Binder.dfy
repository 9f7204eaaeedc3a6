/**
 An allocator that asks another one for memory when it has none left
 (FallbackAllocatorBinder and the size functions of IntrusiveFreeList in
 pine/malloc.hpp).  What the fallback answers is a parameter.
 */
module Binder {
  import opened TwoMath
  import opened Regions
  import opened FreeList
  import opened FreeListInPlace

  /** min_allocation_size. */
  function MinAllocationSize(requested: nat): (size: nat)
    requires requested < WORD
    ensures size < WORD
  {
    (AlignUpTwo(requested, ALIGNMENT) + HEADER) % WORD
  }

  /** What is asked of the fallback to serve a request. */
  function PreferredSize(requested: nat): nat
    requires requested < WORD
  {
    AlignUpTwo(MinAllocationSize(requested), PAGE_SIZE)
  }

  lemma RoundedSizes(requested: nat)
    requires requested < WORD
    ensures RoundsUp(requested, ALIGNMENT, AlignUpTwo(requested, ALIGNMENT))
    ensures RoundsUp(MinAllocationSize(requested), PAGE_SIZE, PreferredSize(requested))
    ensures MIN_SPLIT == MinAllocationSize(ALIGNMENT)
  {
    hide AlignUpTwo, And;
    assert Pow2(3) == ALIGNMENT;
    AlignUpTwoCeils(requested, 3);
    AlignUpTwoCeils(ALIGNMENT, 3);
    assert Pow2(12) == PAGE_SIZE by {
      assert Pow2(4) == 16 && Pow2(8) == 256;
    }
    AlignUpTwoCeils(MinAllocationSize(requested), 12);
  }

  /** The size asked for has room for the request and its header, exactly if rounding up does not wrap. */
  lemma PreferredSizeSuffices(requested: nat)
    requires requested < WORD
    ensures PreferredSize(requested) >= requested + HEADER <==> requested <= WORD - PAGE_SIZE - HEADER
    ensures requested <= WORD - PAGE_SIZE - HEADER ==>
              && PreferredSize(requested) % PAGE_SIZE == 0
              && PreferredSize(requested) <= requested + ALIGNMENT + HEADER + (PAGE_SIZE - 1)
  {
    hide AlignUpTwo, PreferredSize;
    RoundedSizes(requested);
  }

  function BinderAllocate(h: Heap, requested: nat, provided: Allocation): Reply
    requires provided.ptr != 0 ==> provided.size >= HEADER
  {
    var first := Allocate(h, requested);
    if first.allocation.ptr != 0 then first
    else if provided.ptr == 0 then Reply(first.heap, Allocation(0, 0))
    else Allocate(Add(first.heap, provided.ptr, provided.size), requested)
  }

  /** It fails exactly when no free block is large enough and the fallback gives none that is. */
  lemma BinderFailsExactly(h: Heap, requested: nat, provided: Allocation)
    requires provided.ptr != 0 ==> provided.size >= HEADER
    ensures BinderAllocate(h, requested, provided).allocation.ptr == 0
       <==> NoneHolds(h.free, requested) && (provided.ptr == 0 || provided.size < requested + HEADER)
  {
    hide Allocate;
    AllocateFirstFit(h, requested);
    if NoneHolds(h.free, requested) && provided.ptr != 0 {
      var more := Add(h, provided.ptr, provided.size);
      AllocateFirstFit(more, requested);
      assert more.free[|h.free|].size == provided.size - HEADER;
      if provided.size < requested + HEADER {
        assert NoneHolds(more.free, requested);
      }
    }
  }

  /** Once the fallback supplies what it was asked for, the request is served. */
  lemma PreferredSizeServes(h: Heap, requested: nat, provided: Allocation)
    requires requested <= WORD - PAGE_SIZE - HEADER
    requires provided.ptr != 0 && provided.size >= PreferredSize(requested)
    ensures provided.size >= HEADER
    ensures var a := BinderAllocate(h, requested, provided).allocation;
            a.ptr != 0 && requested <= a.size < requested + MIN_SPLIT + ALIGNMENT
  {
    hide Allocate, PreferredSize;
    PreferredSizeSuffices(requested);
    BinderFailsExactly(h, requested, provided);
    AllocateFirstFit(h, requested);
    AllocateFirstFit(Add(h, provided.ptr, provided.size), requested);
  }

  class FallbackAllocatorBinder {
    const allocator: IntrusiveFreeList

    constructor (allocator: IntrusiveFreeList)
      ensures this.allocator == allocator
    {
      this.allocator := allocator;
    }

    /** allocate, where `provided` is the fallback's answer if it is asked. */
    method Allocate(requested: nat, provided: Allocation) returns (allocation: Allocation)
      requires allocator.Valid() && forall c | c in allocator.heap.free :: c.size < WORD
      requires provided.size < WORD && (provided.ptr != 0 ==> provided.size >= HEADER)
      modifies allocator.repr
      ensures allocator.Valid() && fresh(allocator.repr - old(allocator.repr))
      ensures Reply(allocator.heap, allocation) == BinderAllocate(old(allocator.heap), requested, provided)
    {
      hide IntrusiveFreeList.Valid;
      AllocateFirstFit(allocator.heap, requested);
      allocation := allocator.Allocate(requested);
      if allocation.ptr == 0 {
        if provided.ptr == 0 {
          return Allocation(0, 0);
        }
        allocator.Add(provided.ptr, provided.size);
        allocation := allocator.Allocate(requested);
      }
    }
  }
}
