/**
 Regions of pages (pine/page.hpp) and the bookkeeping used to prove that allocators
 neither lose, duplicate nor overlap memory.

 A `Region` is a half-open interval [offset, offset + length) of units: pages for the
 page allocator, bytes for the free list.  `Cover(rs, p)` counts how many regions of
 `rs` contain unit `p`.  Every conservation law below is an equation between such
 counts, one unit at a time; disjointness is the case where the count is at most one.
 */
module Regions {
  import opened TwoMath

  const PAGE_SIZE: nat := 4096
  const SECTION_SIZE: nat := 0x10_0000

  datatype Region = Region(offset: nat, length: nat) {

    predicate Has(p: int) {
      offset <= p < offset + length
    }

    /** End of the region, in 32-bit arithmetic. */
    function EndOffset(): nat {
      (offset + length) % WORD
    }

    predicate Contains(other: Region) {
      offset <= other.offset && EndOffset() >= other.EndOffset()
    }

    predicate Fits(count: nat) {
      length >= count
    }

    predicate AlignedTo(alignment: nat)
      requires alignment > 0
    {
      offset % alignment == 0
    }

    function Halve(): (Region, Region) {
      var half := length / 2;
      (Region(offset, half), Region(offset + half, half + length % 2))
    }

    /** Byte address of the unit `index` past the start of a page region. */
    function PagePtr(index: nat): nat {
      (offset + index) * PAGE_SIZE % WORD
    }

    /** Size of a page region in bytes. */
    function PageBytes(): nat {
      length * PAGE_SIZE % WORD
    }
  }

  /** What an allocator returns to its caller: a byte address and a byte size. */
  datatype Allocation = Allocation(ptr: nat, size: nat) {
    predicate IsNull() { size == 0 }
  }

  datatype Option<+T> = None | Some(value: T)

  function DivideUp(divisor: nat, dividend: nat): nat
    requires dividend > 0
  {
    (divisor + (dividend - 1)) % WORD / dividend
  }

  function PageRegionFromPtr(ptr: nat, size: nat): Region {
    Region(ptr / PAGE_SIZE, DivideUp(size, PAGE_SIZE))
  }

  function SectionRegionFromPtr(ptr: nat, size: nat): Region {
    Region(ptr / SECTION_SIZE, DivideUp(size, SECTION_SIZE))
  }

  function AsPageRegion(section: Region): Region {
    Region(section.offset * 256 % WORD, section.length * 256 % WORD)
  }

  function ToAllocation(r: Option<Region>): Allocation {
    match r
    case None => Allocation(0, 0)
    case Some(region) => Allocation(region.PagePtr(0), region.PageBytes())
  }

  /**
   A page region survives the trip through a byte address and a byte size exactly when
   both its offset and its length are below 2^20 pages.
   */
  lemma PageRegionRoundTrip(r: Region)
    ensures PageRegionFromPtr(r.PagePtr(0), r.PageBytes()) == r
       <==> r.offset < 0x10_0000 && r.length < 0x10_0000
  {
    if r.length < 0x10_0000 {
      assert r.length * PAGE_SIZE + (PAGE_SIZE - 1) < WORD;
    }
  }

  /** A region of exactly 2^20 pages is handed out with byte size 0, which reads as a failure. */
  lemma NullExactly(r: Region)
    requires 0 < r.length <= 0x10_0000
    ensures ToAllocation(Some(r)).IsNull() <==> r.length == 0x10_0000
  {
    if r.length < 0x10_0000 {
      assert 0 < r.length * PAGE_SIZE < WORD;
    }
  }

  // ------------------------------------------------------------ covering

  function Hit(r: Region, p: int): nat {
    if r.Has(p) then 1 else 0
  }

  function Cover(rs: seq<Region>, p: int): nat {
    if rs == [] then 0 else Hit(rs[0], p) + Cover(rs[1..], p)
  }

  function RemoveAt<T>(s: seq<T>, i: nat): seq<T>
    requires i < |s|
  {
    s[..i] + s[i + 1..]
  }

  lemma {:induction false} CoverConcat(a: seq<Region>, b: seq<Region>, p: int)
    ensures Cover(a + b, p) == Cover(a, p) + Cover(b, p)
  {
    if a == [] {
      assert a + b == b;
    } else {
      assert (a + b)[1..] == a[1..] + b;
      CoverConcat(a[1..], b, p);
    }
  }

  lemma CoverAppend(a: seq<Region>, r: Region, p: int)
    ensures Cover(a + [r], p) == Cover(a, p) + Hit(r, p)
  {
    CoverConcat(a, [r], p);
  }

  lemma CoverSplitAt(rs: seq<Region>, i: nat, p: int)
    requires i < |rs|
    ensures Cover(rs, p) == Cover(rs[..i], p) + Hit(rs[i], p) + Cover(rs[i + 1..], p)
  {
    assert rs == rs[..i] + rs[i..];
    CoverConcat(rs[..i], rs[i..], p);
    assert rs[i..][1..] == rs[i + 1..];
  }

  lemma CoverRemove(rs: seq<Region>, i: nat, p: int)
    requires i < |rs|
    ensures Cover(RemoveAt(rs, i), p) + Hit(rs[i], p) == Cover(rs, p)
  {
    CoverSplitAt(rs, i, p);
    CoverConcat(rs[..i], rs[i + 1..], p);
  }

  lemma CoverReplace(rs: seq<Region>, i: nat, r: Region, p: int)
    requires i < |rs|
    ensures Cover(rs[i := r], p) + Hit(rs[i], p) == Cover(rs, p) + Hit(r, p)
  {
    CoverSplitAt(rs, i, p);
    CoverSplitAt(rs[i := r], i, p);
    assert rs[i := r][..i] == rs[..i] && rs[i := r][i + 1..] == rs[i + 1..];
  }

  lemma CoverInsert(rs: seq<Region>, i: nat, r: Region, p: int)
    requires i <= |rs|
    ensures Cover(rs[..i] + [r] + rs[i..], p) == Cover(rs, p) + Hit(r, p)
  {
    assert rs == rs[..i] + rs[i..];
    CoverConcat(rs[..i], rs[i..], p);
    CoverConcat(rs[..i] + [r], rs[i..], p);
    CoverAppend(rs[..i], r, p);
  }

  /** Two different entries holding the same unit are counted twice. */
  lemma CoverTwo(rs: seq<Region>, i: nat, j: nat, p: int)
    requires i < j < |rs|
    ensures Cover(rs, p) >= Hit(rs[i], p) + Hit(rs[j], p)
  {
    CoverSplitAt(rs, j, p);
    CoverSplitAt(rs[..j], i, p);
  }

  lemma {:induction false} CoverWitness(rs: seq<Region>, p: int) returns (i: nat)
    requires Cover(rs, p) > 0
    ensures i < |rs| && rs[i].Has(p)
  {
    if rs[0].Has(p) {
      i := 0;
    } else {
      i := CoverWitness(rs[1..], p);
      i := i + 1;
    }
  }

  ghost predicate Disjoint(a: Region, b: Region) {
    forall p: int :: !(a.Has(p) && b.Has(p))
  }

  ghost predicate PairwiseDisjoint(rs: seq<Region>) {
    forall i, j | 0 <= i < j < |rs| :: Disjoint(rs[i], rs[j])
  }

  ghost predicate CoversAtMostOnce(rs: seq<Region>) {
    forall p: int :: Cover(rs, p) <= 1
  }

  /** A list covers no unit twice exactly when its regions are pairwise disjoint. */
  lemma CoverAtMostOnce(rs: seq<Region>)
    ensures CoversAtMostOnce(rs) <==> PairwiseDisjoint(rs)
  {
    if CoversAtMostOnce(rs) {
      forall i, j, p: int | 0 <= i < j < |rs| ensures !(rs[i].Has(p) && rs[j].Has(p)) {
        CoverTwo(rs, i, j, p);
        assert Cover(rs, p) <= 1;
      }
    }
    if PairwiseDisjoint(rs) {
      forall p: int ensures Cover(rs, p) <= 1 {
        DisjointCover(rs, p);
      }
    }
  }

  lemma {:induction false} DisjointCover(rs: seq<Region>, p: int)
    requires PairwiseDisjoint(rs)
    ensures Cover(rs, p) <= 1
  {
    if rs != [] {
      DisjointCover(rs[1..], p);
      if Cover(rs[1..], p) > 0 {
        var k := CoverWitness(rs[1..], p);
        assert Disjoint(rs[0], rs[k + 1]);
      }
    }
  }

  // ------------------------------------------------- naturally aligned blocks

  /** Length 2^depth and offset a multiple of 2^depth. */
  predicate Block(r: Region, depth: nat) {
    r.length == Pow2(depth) && r.offset % Pow2(depth) == 0
  }

  /** Halving a block of depth d gives its two buddies of depth d - 1. */
  lemma HalveBlock(r: Region, depth: nat)
    requires Block(r, depth) && depth > 0
    ensures var (left, right) := r.Halve();
            && Block(left, depth - 1) && Block(right, depth - 1)
            && left.offset == r.offset && right.offset == r.offset + left.length
            && 2 * left.length == r.length == 2 * right.length
  {
    var h := Pow2(depth - 1);
    EvenMultiple(r.offset, h);
    MultipleHasNoRemainder(1, h);
    SumOfMultiples(r.offset, h, h);
  }

  /** Both halves together hold exactly the units of the whole. */
  lemma HalveCover(r: Region, p: int)
    ensures Hit(r.Halve().0, p) + Hit(r.Halve().1, p) == Hit(r, p)
  {
  }
}
