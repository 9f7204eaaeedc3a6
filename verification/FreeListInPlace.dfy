/**
 The first-fit allocator as the source runs it: header nodes linked by hand into a free
 list, with their sizes rewritten in place (IntrusiveFreeList in pine/malloc.cpp).  Each
 method is proved to take the heap to exactly the value that the functions of FreeList
 give.
 */
module FreeListInPlace {
  import opened Algorithm
  import opened TwoMath
  import opened Regions
  import opened LinkedList
  import opened FreeList

  /** One step of the walk for neighbours: block k can be the first on one side only. */
  lemma NeighborStep(free: seq<Chunk>, c: Chunk, k: nat, l: nat, r: nat)
    requires k < |free| && FoundSoFar(free, EndsAt(c), k, l) && FoundSoFar(free, StartsAt(c), k, r)
    ensures var goesLeft := l == |free| && EndsAt(c)(free[k]);
            var goesRight := !goesLeft && r == |free| && StartsAt(c)(free[k]);
            && FoundSoFar(free, EndsAt(c), k + 1, if goesLeft then k else l)
            && FoundSoFar(free, StartsAt(c), k + 1, if goesRight then k else r)
  {
    OneSideOnly(c, free[k]);
    FoundNext(free, EndsAt(c), k, l);
    FoundNext(free, StartsAt(c), k, r);
  }

  class IntrusiveFreeList {
    const list: ManualLinkedList<Chunk>
    /** The headers that stay in memory in front of the blocks handed out. */
    var live: seq<Node<Chunk>>
    /** The blocks as values. */
    ghost var heap: Heap
    /** This allocator, its list and all header nodes. */
    ghost var repr: set<object>

    /**
     The list is linked, the headers of live blocks are outside of it and unlinked, and the
     nodes hold the blocks of `heap`.
     */
    ghost predicate Valid()
      reads this, list, list.nodes, live
    {
      && list.Valid()
      && this in repr && list in repr
      && (forall n | n in list.nodes :: n in repr)
      && (forall i | 0 <= i < |live| :: live[i] in repr && live[i] !in list.nodes)
      && (forall i | 0 <= i < |live| :: live[i].next == null && live[i].prev == null)
      && (forall i, j | 0 <= i < j < |live| :: live[i] != live[j])
      && ContentsOf(list.nodes) == heap.free && ContentsOf(live) == heap.live
    }

    /** The node is a header that is neither in the list nor in front of a live block. */
    ghost predicate Loose(node: Node<Chunk>)
      reads this, list, node
    {
      node in repr && node !in list.nodes && node !in live && node.next == null && node.prev == null
    }

    /** The node is the header of the free block at position i, or null past the last one. */
    ghost predicate FreeAt(node: Node?<Chunk>, i: nat)
      reads this, list, node
    {
      if i < |heap.free| then
        i < |list.nodes| && node == list.nodes[i] && node.contents == heap.free[i]
      else node == null
    }

    /** What this allocator may write: itself, its list and the nodes in it. */
    lemma Footprint()
      requires Valid()
      ensures this in repr && list in repr && forall n | n in list.nodes :: n in repr
    {
    }

    /** The headers of the free blocks stand in list order. */
    lemma FreeNodes()
      requires Valid()
      ensures list.Valid() && |list.nodes| == |heap.free|
      ensures forall i | 0 <= i < |heap.free| :: FreeAt(list.nodes[i], i)
    {
    }

    /** Different positions hold different headers. */
    lemma DifferentNodes(a: Node?<Chunk>, i: nat, b: Node?<Chunk>, j: nat)
      requires Valid() && FreeAt(a, i) && FreeAt(b, j) && i < |heap.free| && i != j
      ensures a != b
    {
    }

    constructor ()
      ensures Valid() && fresh(repr) && heap == Heap([], [])
    {
      list := new ManualLinkedList<Chunk>();
      live := [];
      new;
      heap := Heap([], []);
      repr := {this, list};
    }

    /** Links a block in at the end of the list. */
    method LinkBlock(node: Node<Chunk>)
      requires Valid() && Loose(node)
      modifies list, list.nodes, node, this`heap
      ensures Valid() && heap == Heap(old(heap).free + [old(node.contents)], old(heap).live)
      ensures list.nodes == old(list.nodes) + [node]
      ensures forall n | n in list.nodes :: n.contents == old(n.contents)
    {
      list.Append(node);
      heap := Heap(heap.free + [node.contents], heap.live);
    }

    /** construct_node: a header in front of fresh memory. */
    method ConstructNode(addr: nat, regionSize: nat) returns (node: Node<Chunk>)
      requires Valid() && regionSize >= HEADER
      modifies this`repr
      ensures Valid() && fresh(node) && Loose(node) && repr == old(repr) + {node}
      ensures node.contents == Chunk(addr, regionSize - HEADER)
    {
      node := new Node(Chunk(addr, regionSize - HEADER));
      repr := repr + {node};
    }

    /** Unlinks the free block at position i. */
    method UnlinkBlock(node: Node<Chunk>, ghost i: nat)
      requires Valid() && i < |heap.free| && FreeAt(node, i)
      modifies list, list.nodes, this`heap
      ensures Valid() && Loose(node) && heap == Heap(RemoveAt(old(heap).free, i), old(heap).live)
      ensures node.contents == old(node.contents) && list.nodes == RemoveAt(old(list.nodes), i)
    {
      hide ManualLinkedList.Valid;
      ghost var before := list.nodes;
      list.Remove(node, i);
      heap := Heap(RemoveAt(heap.free, i), heap.live);
      forall k | 0 <= k < |list.nodes| ensures list.nodes[k].contents == heap.free[k] {
        var n := before[if k < i then k else k + 1];
        assert list.nodes[k] == n && n in before;
      }
    }

    /** The header of an unlinked block stays in memory while the block is handed out. */
    method HandOut(node: Node<Chunk>)
      requires Valid() && Loose(node)
      modifies this`live, this`heap
      ensures Valid() && heap == Heap(old(heap).free, old(heap).live + [node.contents])
    {
      live := live + [node];
      heap := Heap(heap.free, heap.live + [node.contents]);
    }

    /** Changes the recorded size of the free block at position i. */
    method Resize(node: Node<Chunk>, size: nat, ghost i: nat)
      requires Valid() && i < |heap.free| && FreeAt(node, i)
      modifies node`contents, this`heap
      ensures Valid() && node.contents == Chunk(old(node.contents.addr), size)
      ensures heap == Heap(old(heap).free[i := node.contents], old(heap).live)
    {
      node.contents := Chunk(node.contents.addr, size);
      heap := Heap(heap.free[i := node.contents], heap.live);
    }

    method Add(addr: nat, size: nat)
      requires Valid() && size >= HEADER
      modifies repr
      ensures Valid() && fresh(repr - old(repr))
      ensures heap == FreeList.Add(old(heap), addr, size)
      ensures heap.live == old(heap.live) && heap.free == old(heap.free) + [Chunk(addr, size - 16)]
    {
      var node := ConstructNode(addr, size);
      LinkBlock(node);
    }

    /** Cuts the free block at position i down to the request, if the rest is worth keeping. */
    method SplitBlock(node: Node<Chunk>, requested: nat, ghost i: nat)
      requires Valid() && i < |heap.free| && FreeAt(node, i) && requested <= node.contents.size < WORD
      modifies repr
      ensures Valid() && fresh(repr - old(repr)) && i < |heap.free| && FreeAt(node, i)
      ensures heap == Heap(SplitAt(old(heap).free, i, requested), old(heap).live)
    {
      hide Valid;
      Footprint();
      ghost var chunk := heap.free[i];
      RemainingBounds(chunk, requested);
      RemainingByMask(chunk, requested);
      var remaining := AlignDownTwo(node.contents.size - requested, ALIGNMENT);
      if remaining > MIN_SPLIT {
        Resize(node, node.contents.size - remaining, i);
        var rest := ConstructNode(node.contents.End(), remaining);
        LinkBlock(rest);
      }
    }

    /** find_if over the free list: the first block that can serve the request, or null. */
    method FindFirstFit(requested: nat) returns (node: Node?<Chunk>, ghost i: nat)
      requires Valid()
      ensures i == FirstIndex(heap.free, Holds(requested))
      ensures FreeAt(node, FirstIndex(heap.free, Holds(requested)))
    {
      i := FirstIndex(heap.free, Holds(requested));
      var it := list.Find(Holds(requested));
      var end := list.End();
      it.EqualAt(end, list, i, |list.nodes|);
      node := if it.Equals(end) then null else it.ptr;
    }

    method Allocate(requested: nat) returns (allocation: Allocation)
      requires Valid() && forall c | c in heap.free :: c.size < WORD
      modifies repr
      ensures Valid() && fresh(repr - old(repr))
      ensures Reply(heap, allocation) == FreeList.Allocate(old(heap), requested)
    {
      hide Valid;
      Footprint();
      var node, i := FindFirstFit(requested);
      if node == null {
        return Allocation(0, 0);
      }
      AllocateSplits(heap, requested, i);
      SplitBlock(node, requested, i);
      Footprint();
      UnlinkBlock(node, i);
      allocation := Allocation(node.contents.UserPtr(), node.contents.size);
      HandOut(node);
    }

    /** to_node_ptr: the position of the header in front of the payload at `ptr`. */
    method ToNodePtr(ptr: nat) returns (j: nat)
      requires Valid() && exists k | 0 <= k < |heap.live| :: heap.live[k].UserPtr() == ptr
      ensures j < |live| && j < |heap.live| && heap.live[j].UserPtr() == ptr
    {
      j := 0;
      while live[j].contents.UserPtr() != ptr
        invariant j < |live|
        invariant forall k | 0 <= k < j :: heap.live[k].UserPtr() != ptr
        decreases |live| - j
      {
        j := j + 1;
      }
    }

    /** One walk over the free list for the blocks that touch `node` on its left and on its right. */
    method TryFindNeighboringMemoryNodes(node: Node<Chunk>) returns (left: Node?<Chunk>, right: Node?<Chunk>)
      requires Valid()
      ensures FreeAt(left, Left(heap.free, node.contents))
      ensures FreeAt(right, Right(heap.free, node.contents))
    {
      hide Valid;
      hide ManualLinkedList.Valid;
      hide EndsAt, StartsAt, FoundSoFar;
      FreeNodes();
      left, right := null, null;
      var c := node.contents;
      ghost var free, n: nat := heap.free, |list.nodes|;
      ghost var l: nat, r: nat, k: nat := n, n, 0;
      var it := list.Begin();
      var end := list.End();
      assert FoundSoFar(free, EndsAt(c), 0, n) && FoundSoFar(free, StartsAt(c), 0, n) by {
        FoundNone(free, EndsAt(c));
        FoundNone(free, StartsAt(c));
      }
      it.EqualAt(end, list, k, n);
      while !it.Equals(end)
        invariant fresh(it) && it != end
        invariant k <= n && it.At(list, k) && end.At(list, n)
        invariant it.Equals(end) <==> k == n
        invariant l <= n && left == NodeAt(list.nodes, l) && FoundSoFar(free, EndsAt(c), k, l)
        invariant r <= n && right == NodeAt(list.nodes, r) && FoundSoFar(free, StartsAt(c), k, r)
        modifies it
        decreases n - k
      {
        var d := it.ptr.contents;
        assert d == free[k];
        NeighborStep(free, c, k, l, r);
        if left == null && EndsAt(c)(d) {
          left, l := it.ptr, k;
        } else if right == null && StartsAt(c)(d) {
          right, r := it.ptr, k;
        }
        k := k + 1;
        if left != null && right != null {
          break;
        }
        it.Increment(list, k - 1);
        it.EqualAt(end, list, k, n);
      }
      FoundAll(free, EndsAt(c), k, l);
      FoundAll(free, StartsAt(c), k, r);
    }

    /** Takes the header at position j out of those of the blocks handed out. */
    method Reclaim(j: nat) returns (node: Node<Chunk>)
      requires Valid() && j < |live|
      modifies this`live, this`heap
      ensures Valid() && Loose(node) && node == old(live)[j] && node.contents == old(heap).live[j]
      ensures heap == Heap(old(heap).free, RemoveAt(old(heap).live, j))
    {
      node := live[j];
      live := RemoveAt(live, j);
      heap := Heap(heap.free, RemoveAt(heap.live, j));
    }

    /** adopt_right_node_size for a free block on the left. */
    method AdoptInto(left: Node<Chunk>, right: Node<Chunk>, ghost i: nat)
      requires Valid() && i < |heap.free| && FreeAt(left, i) && left != right
      modifies left`contents, this`heap
      ensures Valid() && left.contents == Adopt(old(left.contents), right.contents)
      ensures heap == Heap(old(heap).free[i := left.contents], old(heap).live)
    {
      Resize(left, left.contents.size + right.contents.size, i);
    }

    /** The merging part of free. */
    method Coalesce(node: Node<Chunk>, left: Node?<Chunk>, right: Node?<Chunk>, ghost l: nat, ghost r: nat)
      requires Valid() && Loose(node)
      requires l <= |heap.free| && r <= |heap.free| && (l < |heap.free| ==> l != r)
      requires FreeAt(left, l) && FreeAt(right, r)
      modifies repr
      ensures Valid() && repr == old(repr)
      ensures heap == Heap(Coalesced(old(heap).free, old(node.contents), l, r), old(heap).live)
    {
      hide Valid;
      Footprint();
      var nodePtr := node;
      var wasAdopted := false;
      if left != null {
        DifferentNodes(left, l, right, r);
        AdoptInto(left, node, l);
        nodePtr := left;
        wasAdopted := true;
      }
      if right != null {
        if wasAdopted {
          AdoptInto(nodePtr, right, l);
        } else {
          nodePtr.contents := Adopt(nodePtr.contents, right.contents);
        }
        UnlinkBlock(right, r);
      }
      if !wasAdopted {
        LinkBlock(nodePtr);
      }
    }

    method Free(ptr: nat) returns (sizeFreed: nat)
      requires Valid() && exists k | 0 <= k < |heap.live| :: heap.live[k].UserPtr() == ptr
      modifies repr
      ensures Valid() && repr == old(repr)
      ensures exists j | 0 <= j < |old(heap).live| ::
                && old(heap).live[j].UserPtr() == ptr && sizeFreed == old(heap).live[j].size
                && heap == FreeList.Free(old(heap), j)
    {
      hide Valid;
      Footprint();
      var j := ToNodePtr(ptr);
      var node := Reclaim(j);
      sizeFreed := node.contents.size;
      var left, right := TryFindNeighboringMemoryNodes(node);
      CoalescedCover(heap.free, node.contents, 0);
      Coalesce(node, left, right, Left(heap.free, node.contents), Right(heap.free, node.contents));
      assert heap == FreeList.Free(old(heap), j);
    }
  }
}
