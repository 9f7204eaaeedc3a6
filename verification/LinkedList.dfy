/**
 The hand-linked list (pine/linked_list.hpp) and its iterator (PtrIter in
 pine/iter.hpp): nodes are objects whose links are rewritten in place.
 */
module LinkedList {
  import opened Algorithm

  class Node<T> {
    var next: Node?<T>
    var prev: Node?<T>
    var contents: T

    constructor (content: T)
      ensures next == null && prev == null && contents == content
    {
      next, prev := null, null;
      contents := content;
    }

    /** The destructor: takes the node out of the chain it is linked into. */
    method Unlink()
      requires next != this && prev != this && (next != null ==> next != prev)
      modifies this, prev, next
      ensures next == null && prev == null && contents == old(contents)
      ensures old(prev) != null ==>
                && old(prev).next == old(next) && old(prev).prev == old(prev.prev)
                && old(prev).contents == old(prev.contents)
      ensures old(next) != null ==>
                && old(next).prev == old(prev) && old(next).next == old(next.next)
                && old(next).contents == old(next.contents)
    {
      var oldPrev, oldNext := prev, next;
      prev, next := null, null;
      if oldPrev != null {
        oldPrev.next := oldNext;
      }
      if oldNext != null {
        oldNext.prev := oldPrev;
      }
    }
  }

  /** The contents of a sequence of nodes. */
  ghost function ContentsOf<T>(nodes: seq<Node<T>>): (s: seq<T>)
    reads nodes
    ensures |s| == |nodes|
    ensures forall i | 0 <= i < |s| :: s[i] == nodes[i].contents
  {
    seq(|nodes|, i requires 0 <= i < |nodes| reads nodes => nodes[i].contents)
  }

  /** The node at position i, or null outside of the sequence. */
  ghost function NodeAt<T>(nodes: seq<Node<T>>, i: int): Node?<T> {
    if 0 <= i < |nodes| then nodes[i] else null
  }

  /** Forward and backward links describe one sequence of different nodes. */
  ghost predicate Linked<T>(nodes: seq<Node<T>>)
    reads nodes
  {
    && (forall i {:trigger nodes[i].next} | 0 <= i < |nodes| :: nodes[i].next == NodeAt(nodes, i + 1))
    && (forall i {:trigger nodes[i].prev} | 0 <= i < |nodes| :: nodes[i].prev == NodeAt(nodes, i - 1))
    && (forall i, j | 0 <= i < j < |nodes| :: nodes[i] != nodes[j])
  }

  /** Rewriting four links puts a node in at position k. */
  lemma LinkedWith<T>(nodes: seq<Node<T>>, k: nat, node: Node<T>)
    requires k <= |nodes| && node !in nodes
    requires forall i, j | 0 <= i < j < |nodes| :: nodes[i] != nodes[j]
    requires node.next == NodeAt(nodes, k) && node.prev == NodeAt(nodes, k - 1)
    requires forall i {:trigger nodes[i].next} | 0 <= i < |nodes| ::
               nodes[i].next == if i == k - 1 then node else NodeAt(nodes, i + 1)
    requires forall i {:trigger nodes[i].prev} | 0 <= i < |nodes| ::
               nodes[i].prev == if i == k then node else NodeAt(nodes, i - 1)
    ensures var t := nodes[..k] + [node] + nodes[k..];
            && Linked(t)
            && NodeAt(t, 0) == (if k == 0 then node else NodeAt(nodes, 0))
            && NodeAt(t, |t| - 1) == (if k == |nodes| then node else NodeAt(nodes, |nodes| - 1))
  {
  }

  /** Rewriting two links takes the node at position k out. */
  lemma LinkedWithout<T>(nodes: seq<Node<T>>, k: nat)
    requires k < |nodes|
    requires forall i, j | 0 <= i < j < |nodes| :: nodes[i] != nodes[j]
    requires forall i {:trigger nodes[i].next} | 0 <= i < |nodes| && i != k ::
               nodes[i].next == NodeAt(nodes, if i == k - 1 then k + 1 else i + 1)
    requires forall i {:trigger nodes[i].prev} | 0 <= i < |nodes| && i != k ::
               nodes[i].prev == NodeAt(nodes, if i == k + 1 then k - 1 else i - 1)
    ensures var t := nodes[..k] + nodes[k + 1..];
            && Linked(t) && nodes[k] !in t
            && NodeAt(t, 0) == NodeAt(nodes, if k == 0 then 1 else 0)
            && NodeAt(t, |t| - 1) == NodeAt(nodes, if k == |t| then |t| - 1 else |t|)
  {
  }

  class ManualLinkedList<T> {
    var head: Node?<T>
    var tail: Node?<T>
    var length: nat
    /** The nodes in list order. */
    ghost var nodes: seq<Node<T>>

    /** Links, both ends and the length all describe `nodes`. */
    ghost predicate Valid()
      reads this, nodes
    {
      && length == |nodes|
      && head == NodeAt(nodes, 0) && tail == NodeAt(nodes, |nodes| - 1)
      && Linked(nodes)
    }

    /** The contents in list order. */
    ghost function Contents(): seq<T>
      reads this, nodes
    {
      ContentsOf(nodes)
    }

    constructor ()
      ensures Valid() && nodes == []
    {
      head, tail, length, nodes := null, null, 0, [];
    }

    /**
     Puts `node` after the node `after`, which is at position k, or after the tail when
     `after` is null.
     */
    method InsertAfter(after: Node?<T>, node: Node<T>, ghost k: int)
      requires Valid() && node !in nodes && node.next == null && node.prev == null
      requires if after == null then k == |nodes| - 1 else 0 <= k < |nodes| && nodes[k] == after
      modifies this, nodes, node
      ensures Valid() && nodes == old(nodes)[..k + 1] + [node] + old(nodes)[k + 1..]
      ensures forall n | n in nodes :: n.contents == old(n.contents)
    {
      length := length + 1;
      var afterNode := after;
      if afterNode == null {
        afterNode := tail;
      }
      if head == null {
        head, tail := node, node;
      } else {
        node.prev := afterNode;
        var next := afterNode.next;
        afterNode.next := node;
        if next != null {
          node.next := next;
          next.prev := node;
        } else {
          tail := node;
        }
      }
      LinkedWith(nodes, k + 1, node);
      nodes := nodes[..k + 1] + [node] + nodes[k + 1..];
    }

    method Append(node: Node<T>)
      requires Valid() && node !in nodes && node.next == null && node.prev == null
      modifies this, nodes, node
      ensures Valid() && nodes == old(nodes) + [node]
      ensures forall n | n in nodes :: n.contents == old(n.contents)
    {
      InsertAfter(tail, node, |nodes| - 1);
    }

    /** Takes out the node at position k. */
    method Remove(node: Node<T>, ghost k: nat)
      requires Valid() && k < |nodes| && nodes[k] == node
      modifies this, nodes
      ensures Valid() && nodes == old(nodes)[..k] + old(nodes)[k + 1..]
      ensures node !in nodes && node.next == null && node.prev == null
      ensures forall n | n in old(nodes) :: n.contents == old(n.contents)
    {
      length := length - 1;
      var prev, next := node.prev, node.next;
      node.Unlink();
      if node == head {
        head := next;
      }
      if node == tail {
        tail := if prev != null then prev else next;
      }
      LinkedWithout(nodes, k);
      nodes := nodes[..k] + nodes[k + 1..];
    }

    method Begin() returns (it: PtrIter<T>)
      requires Valid()
      ensures fresh(it) && it.At(this, 0)
    {
      it := new PtrIter(head, tail);
    }

    method End() returns (it: PtrIter<T>)
      requires Valid()
      ensures fresh(it) && it.At(this, |nodes|)
    {
      it := new PtrIter(tail, null);
    }

    /** find_if from begin to end: stops at the first node whose contents satisfy the predicate. */
    method Find(pred: T -> bool) returns (it: PtrIter<T>)
      requires Valid()
      ensures fresh(it) && it.At(this, FirstIndex(Contents(), pred))
    {
      it := Begin();
      var end := End();
      ghost var k := 0;
      it.EqualAt(end, this, k, |nodes|);
      while !it.Equals(end)
        invariant fresh(it) && it != end
        invariant k <= |nodes| && it.At(this, k) && end.At(this, |nodes|)
        invariant it.Equals(end) <==> k == |nodes|
        invariant forall j | 0 <= j < k :: !pred(nodes[j].contents)
        modifies it
        decreases |nodes| - k
      {
        if pred(it.ptr.contents) {
          break;
        }
        it.Increment(this, k);
        k := k + 1;
        it.EqualAt(end, this, k, |nodes|);
      }
      FirstIndexIs(Contents(), pred, k);
    }
  }

  class PtrIter<T> {
    var ptr: Node?<T>
    var atEnd: bool

    constructor (ptr: Node?<T>, last: Node?<T>)
      ensures this.ptr == ptr && atEnd == (last == null)
    {
      this.ptr := ptr;
      atEnd := last == null;
    }

    /** The iterator stands at position k of the list; the last position is the end. */
    ghost predicate At(list: ManualLinkedList<T>, k: nat)
      reads this, list, list.nodes
    {
      && k <= |list.nodes|
      && if k < |list.nodes| then ptr == list.nodes[k] && !atEnd else ptr == list.tail && atEnd
    }

    /** The copy that passing an iterator by value makes. */
    method Copy(ghost list: ManualLinkedList<T>, ghost k: nat) returns (it: PtrIter<T>)
      requires At(list, k)
      ensures fresh(it) && it.At(list, k)
    {
      it := new PtrIter(ptr, null);
      it.atEnd := atEnd;
    }

    /** advance by a number of steps that stays inside the list. */
    method Advance(steps: nat, ghost list: ManualLinkedList<T>, ghost k: nat)
      requires list.Valid() && At(list, k) && k + steps <= |list.nodes|
      modifies this
      ensures At(list, k + steps)
    {
      var left := steps;
      ghost var i := k;
      while left > 0
        invariant i + left == k + steps && At(list, i)
      {
        Increment(list, i);
        left, i := left - 1, i + 1;
      }
    }

    /** next: a copy, advanced. */
    method Next(steps: nat, ghost list: ManualLinkedList<T>, ghost k: nat) returns (it: PtrIter<T>)
      requires list.Valid() && At(list, k) && k + steps <= |list.nodes|
      ensures fresh(it) && it.At(list, k + steps)
    {
      it := Copy(list, k);
      it.Advance(steps, list, k);
    }

    predicate Equals(other: PtrIter<T>)
      reads this, other
    {
      ptr == other.ptr && atEnd == other.atEnd
    }

    method Increment(ghost list: ManualLinkedList<T>, ghost k: nat)
      requires list.Valid() && At(list, k) && k < |list.nodes|
      modifies this
      ensures list.Valid() && At(list, k + 1)
    {
      var next := ptr.next;
      if next != null {
        ptr := next;
      } else {
        atEnd := true;
      }
    }

    method Decrement(ghost list: ManualLinkedList<T>, ghost k: nat)
      requires list.Valid() && At(list, k) && k > 0
      modifies this
      ensures At(list, k - 1)
    {
      if atEnd {
        atEnd := false;
      } else {
        ptr := ptr.prev;
      }
    }

    lemma Standing(list: ManualLinkedList<T>, k: nat)
      requires list.Valid() && At(list, k) && k < |list.nodes|
      ensures ptr == list.nodes[k] && ptr.contents == list.Contents()[k]
    {
    }

    /** Iterators of one list are equal exactly when they stand at the same position. */
    lemma EqualAt(other: PtrIter<T>, list: ManualLinkedList<T>, j: nat, k: nat)
      requires list.Valid() && At(list, j) && other.At(list, k)
      ensures Equals(other) <==> j == k
    {
    }
  }

  /** Walks a list from begin to end. */
  method Forward<T>(list: ManualLinkedList<T>) returns (visited: seq<Node<T>>)
    requires list.Valid()
    ensures visited == list.nodes
  {
    visited := [];
    var it := list.Begin();
    var end := list.End();
    ghost var k := 0;
    it.EqualAt(end, list, k, |list.nodes|);
    while !it.Equals(end)
      invariant fresh(it) && it != end
      invariant k <= |list.nodes| && it.At(list, k) && end.At(list, |list.nodes|)
      invariant it.Equals(end) <==> k == |list.nodes|
      invariant visited == list.nodes[..k]
      modifies it
      decreases |list.nodes| - k
    {
      visited := visited + [it.ptr];
      it.Increment(list, k);
      k := k + 1;
      it.EqualAt(end, list, k, |list.nodes|);
    }
  }

  /** Walks a list from its end back to begin. */
  method Backward<T>(list: ManualLinkedList<T>) returns (visited: seq<Node<T>>)
    requires list.Valid()
    ensures |visited| == |list.nodes|
    ensures forall i | 0 <= i < |visited| :: visited[i] == list.nodes[|visited| - 1 - i]
  {
    visited := [];
    var it := list.End();
    var begin := list.Begin();
    ghost var k: nat := |list.nodes|;
    it.EqualAt(begin, list, k, 0);
    while !it.Equals(begin)
      invariant fresh(it) && it != begin
      invariant k <= |list.nodes| && it.At(list, k) && begin.At(list, 0)
      invariant it.Equals(begin) <==> k == 0
      invariant |visited| == |list.nodes| - k
      invariant forall i | 0 <= i < |visited| :: visited[i] == list.nodes[|list.nodes| - 1 - i]
      modifies it
      decreases k
    {
      it.Decrement(list, k);
      k := k - 1;
      visited := visited + [it.ptr];
      it.EqualAt(begin, list, k, 0);
    }
  }

  /**
   distance between two iterators of a list: it walks from the first to the second and
   never counts a step, so its answer is the distance exactly when there is none to walk.
   */
  method Distance<T>(begin: PtrIter<T>, end: PtrIter<T>, ghost list: ManualLinkedList<T>, ghost j: nat, ghost k: nat)
    returns (dist: nat)
    requires list.Valid() && begin.At(list, j) && end.At(list, k) && j <= k
    ensures dist == 0 && (dist == k - j <==> begin.Equals(end))
  {
    dist := 0;
    var it := begin.Copy(list, j);
    ghost var i := j;
    begin.EqualAt(end, list, j, k);
    it.EqualAt(end, list, i, k);
    while !it.Equals(end)
      invariant fresh(it) && it != end
      invariant j <= i <= k && it.At(list, i) && end.At(list, k)
      invariant it.Equals(end) <==> i == k
      modifies it
      decreases k - i
    {
      it.Increment(list, i);
      i := i + 1;
      it.EqualAt(end, list, i, k);
    }
  }

  /** The search went past the positions before k, and stopped at k or at the end of the range. */
  ghost predicate StopsAt<T>(s: seq<T>, compare: T -> bool, from: nat, to: nat, k: nat)
    requires to <= |s|
  {
    && from <= k <= to
    && (k > from ==> compare(s[k - 1]))
    && (k < to ==> !compare(s[k]))
  }

  /** One turn of lower_bound: past the node in the middle if it compares, else where it was. */
  method Probe<T>(
      begin: PtrIter<T>, offset: nat, compare: T -> bool, ghost list: ManualLinkedList<T>, ghost k: nat)
    returns (it: PtrIter<T>, right: bool)
    requires list.Valid() && begin.At(list, k) && k + offset < |list.nodes|
    ensures right == compare(list.Contents()[k + offset])
    ensures if right then fresh(it) && it.At(list, k + offset + 1) else it == begin
  {
    hide ManualLinkedList.Valid, PtrIter.At;
    var middle := begin.Next(offset, list, k);
    middle.Standing(list, k + offset);
    right := compare(middle.ptr.contents);
    if right {
      it := middle.Next(1, list, k + offset);
    } else {
      it := begin;
    }
  }

  /**
   The loop of lower_bound over `len` nodes from `begin`, which stands at position j: it
   ends between a node that compares and one that does not.
   */
  method SearchRange<T>(
      begin: PtrIter<T>, len: nat, compare: T -> bool, ghost list: ManualLinkedList<T>, ghost j: nat)
    returns (it: PtrIter<T>, ghost k: nat)
    requires list.Valid() && begin.At(list, j) && j + len <= |list.nodes|
    ensures fresh(it) && it.At(list, k) && StopsAt(list.Contents(), compare, j, j + len, k)
  {
    hide ManualLinkedList.Valid, PtrIter.At;
    ghost var s := list.Contents();
    it := begin.Copy(list, j);
    k := j;
    var left := len;
    while left > 0
      invariant fresh(it) && it.At(list, k) && list.Contents() == s
      invariant j <= k && k + left <= j + len
      invariant k > j ==> compare(s[k - 1])
      invariant k + left < j + len ==> !compare(s[k + left])
      modifies {}
    {
      var offset := left / 2;
      var right;
      it, right := Probe(it, offset, compare, list, k);
      if right {
        k := k + offset + 1;
        left := left - (offset + 1);
      } else {
        left := offset;
      }
    }
  }

  /** lower_bound over a whole list: with the length that distance reports, it stays at the begin. */
  method LowerBound<T>(list: ManualLinkedList<T>, compare: T -> bool) returns (after: Node?<T>)
    requires list.Valid()
    ensures after == NodeAt(list.nodes, 0)
  {
    hide Linked;
    var begin := list.Begin();
    var end := list.End();
    var len := Distance(begin, end, list, 0, |list.nodes|);
    var it, k := SearchRange(begin, len, compare, list, 0);
    return it.ptr;
  }

  /**
   insert_node of the page allocator: the node goes after the one that lower_bound stops
   at, which is always the first one, whatever the order of the list is.
   */
  method InsertNode<T>(list: ManualLinkedList<T>, node: Node<T>, greater: T -> bool)
    requires list.Valid() && node !in list.nodes && node.next == null && node.prev == null
    modifies list, list.nodes, node
    ensures list.Valid() && list.nodes == InsertedAfterFirst(old(list.nodes), node)
    ensures forall n | n in list.nodes :: n.contents == old(n.contents)
  {
    hide Linked;
    var after := LowerBound(list, greater);
    list.InsertAfter(after, node, if list.nodes == [] then -1 else 0);
  }
}
