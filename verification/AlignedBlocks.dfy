/**
 The naturally aligned blocks around a region, and where trimming around it stops for any
 number of list nodes.
 */
module AlignedBlocks {
  import opened TwoMath
  import opened Regions
  import opened PageBackend

  /** A naturally aligned block of depth d holds the region. */
  predicate FitsAt(region: Region, d: nat) {
    region.offset % Pow2(d) + region.length <= Pow2(d)
  }

  /** The least depth from d on at which a block holds the region. */
  function HolderDepth(region: Region, d: nat): nat
    decreases region.offset + region.length - d
  {
    if FitsAt(region, d) then d
    else
      DepthBelow(region, d);
      HolderDepth(region, d + 1)
  }

  lemma {:induction false} Pow2Above(d: nat)
    ensures d < Pow2(d)
  {
    if d > 0 {
      Pow2Above(d - 1);
    }
  }

  lemma DepthBelow(region: Region, d: nat)
    requires !FitsAt(region, d)
    ensures d < region.offset + region.length
  {
    Pow2Above(d);
    RemainderAtMost(region.offset, Pow2(d));
  }

  /** The naturally aligned block of depth d that the region starts in. */
  function BlockAt(region: Region, d: nat): Region {
    RemainderAtMost(region.offset, Pow2(d));
    Region(region.offset - region.offset % Pow2(d), Pow2(d))
  }

  /** The smallest naturally aligned block around a region. */
  function BlockAround(region: Region): Region {
    BlockAt(region, HolderDepth(region, 0))
  }

  lemma {:induction false} HolderDepthIsLeast(region: Region, d: nat, c: nat)
    requires d <= c
    ensures var e := HolderDepth(region, d);
            d <= e && FitsAt(region, e) && (FitsAt(region, c) ==> e <= c)
    decreases region.offset + region.length - d
  {
    if !FitsAt(region, d) {
      DepthBelow(region, d);
      if d < c {
        HolderDepthIsLeast(region, d + 1, c);
      } else {
        HolderDepthIsLeast(region, d + 1, d + 1);
      }
    }
  }

  /** An aligned interval of length m around a nonempty region starts at the floor of its offset. */
  lemma AlignedHolder(region: Region, x: Region, m: nat)
    requires m > 0 && x.offset % m == 0 && x.length == m && region.length > 0 && Inside(region, x)
    ensures x.offset == region.offset - region.offset % m && region.offset % m + region.length <= m
  {
    var floor := region.offset - region.offset % m;
    FloorIsMultiple(region.offset, m);
    if floor < x.offset {
      MultiplesApart(floor, x.offset, m);
    } else if x.offset < floor {
      MultiplesApart(x.offset, floor, m);
    }
  }

  /** The smallest block around a nonempty region is unique, and it is BlockAround. */
  lemma SmallestIsBlockAround(region: Region, r: Region, e: nat)
    requires region.length > 0 && Block(r, e) && SmallestAround(r, region)
    ensures r == BlockAround(region)
  {
    hide Pow2, HolderDepth;
    var d := HolderDepth(region, 0);
    HolderDepthIsLeast(region, 0, e);
    AlignedHolder(region, r, Pow2(e));
    FloorIsMultiple(region.offset, Pow2(d));
    assert Block(BlockAround(region), d) && Inside(region, BlockAround(region));
    if d < e {
      Pow2Strict(d, e);
    }
  }

  /** The naturally aligned block of the request's own size class holds the region. */
  predicate FitsOneBlock(region: Region) {
    FitsAt(region, CeilLog(region.length))
  }

  lemma BlockAroundLength(region: Region, d: nat)
    ensures FitsAt(region, d) ==> BlockAround(region).length <= Pow2(d)
    ensures BlockAround(region).length == Pow2(CeilLog(region.length)) <==> FitsOneBlock(region)
  {
    hide Pow2, HolderDepth;
    var e, c := HolderDepth(region, 0), CeilLog(region.length);
    HolderDepthIsLeast(region, 0, d);
    HolderDepthIsLeast(region, 0, c);
    CeilLogIsLeast(region.length, e);
    if FitsAt(region, d) {
      Pow2Monotone(e, d);
    }
    if c < e {
      Pow2Strict(c, e);
    }
  }

  lemma BlockAroundAtLeast(region: Region)
    ensures Pow2(CeilLog(region.length)) <= BlockAround(region).length
  {
    hide Pow2, HolderDepth;
    var e := HolderDepth(region, 0);
    HolderDepthIsLeast(region, 0, 0);
    CeilLogIsLeast(region.length, e);
    Pow2Monotone(CeilLog(region.length), e);
  }

  lemma {:induction false} FitsAtMonotone(region: Region, d: nat, e: nat)
    requires d <= e && FitsAt(region, d)
    ensures FitsAt(region, e)
    decreases e
  {
    if d < e {
      FitsAtMonotone(region, d, e - 1);
      RemainderByDouble(region.offset, Pow2(e - 1));
    }
  }

  lemma RemainderByDouble(x: nat, m: nat)
    requires m > 0
    ensures x % (2 * m) == x % m || x % (2 * m) == x % m + m
  {
    var q, r := x / (2 * m), x % (2 * m);
    assert x == (2 * q) * m + r;
    if r < m {
      DivModUnique(x, m, 2 * q, r);
    } else {
      assert x == (2 * q + 1) * m + (r - m);
      DivModUnique(x, m, 2 * q + 1, r - m);
    }
  }

  /** The block that the region starts in is a block. */
  lemma BlockAtIsBlock(region: Region, d: nat)
    ensures Block(BlockAt(region, d), d)
    ensures FitsAt(region, d) ==> Inside(region, BlockAt(region, d))
  {
    FloorIsMultiple(region.offset, Pow2(d));
  }

  /** The only block of its depth around a nonempty region. */
  lemma OnlyBlockAt(region: Region, r: Region, d: nat)
    requires region.length > 0 && Block(r, d) && Inside(region, r)
    ensures FitsAt(region, d) && r == BlockAt(region, d)
  {
    AlignedHolder(region, r, Pow2(d));
  }

  /** A block is the smallest one around itself. */
  lemma BlockHoldsItself(r: Region, d: nat)
    requires Block(r, d)
    ensures HolderDepth(r, 0) == d && BlockAround(r) == r
  {
    var e := HolderDepth(r, 0);
    HolderDepthIsLeast(r, 0, d);
    if e < d {
      Pow2Strict(e, d);
    }
  }

  /** A region in a block that fits a block of half the size is in one of the halves. */
  lemma HalfHolds(region: Region, r: Region, depth: nat)
    requires Block(r, depth) && depth > 0 && Inside(region, r) && FitsAt(region, depth - 1)
    ensures Inside(region, r.Halve().0) || Inside(region, r.Halve().1)
  {
    HalveBlock(r, depth);
    var h := Pow2(depth - 1);
    if region.length > 0 {
      var x := BlockAt(region, depth - 1);
      BlockAtIsBlock(region, depth - 1);
      var mid := r.offset + h;
      if x.offset + h <= mid {
        BelowStart(r, x, h);
      } else if x.offset < mid {
        MultiplesApart(x.offset, mid, h);
      }
    }
  }

  lemma BelowStart(r: Region, x: Region, h: nat)
    requires h > 0 && r.offset % h == 0 && x.offset % h == 0 && r.offset < x.offset + h
    ensures r.offset <= x.offset
  {
    if x.offset < r.offset {
      MultiplesApart(x.offset, r.offset, h);
    }
  }

  /** Halves only hold a region above the depth of the smallest block around it. */
  lemma HalfIsHolder(region: Region, r: Region, depth: nat)
    requires Block(r, depth) && depth > 0 && region.length > 0
    requires Inside(region, r.Halve().0) || Inside(region, r.Halve().1)
    ensures HolderDepth(region, 0) < depth
  {
    HalveBlock(r, depth);
    var half := if Inside(region, r.Halve().0) then r.Halve().0 else r.Halve().1;
    OnlyBlockAt(region, half, depth - 1);
    HolderDepthIsLeast(region, 0, depth - 1);
  }

  lemma HolderBounds(region: Region, r: Region, depth: nat)
    requires Block(r, depth) && Inside(region, r)
    ensures Depth(region.length) <= HolderDepth(region, 0) <= depth
  {
    var e := HolderDepth(region, 0);
    if region.length > 0 {
      OnlyBlockAt(region, r, depth);
    } else {
      assert region.offset % Pow2(0) == 0;
    }
    HolderDepthIsLeast(region, 0, depth);
    DepthBounds(region.length);
    if e < Depth(region.length) {
      Pow2Monotone(e + 1, Depth(region.length));
    }
  }

  /**
   Trimming around a region stops at the smallest block around it, or where the nodes run
   out; a nonempty region determines the block of that depth.
   */
  lemma {:induction false} TrimAroundStops(b: Backend, r: Region, depth: nat, min: Region)
    requires WellFormed(b) && Block(r, depth) && Depth(min.length) <= depth < MAX_DEPTH
    requires Inside(min, r) && r.offset + r.length < WORD
    ensures var e := StopDepth(depth, HolderDepth(min, 0), b.nodes);
            var t := TrimAround(b, r, depth, Depth(min.length), min);
            && Depth(min.length) <= HolderDepth(min, 0) <= e <= depth && Block(t.region, e) && Inside(min, t.region)
            && (min.length > 0 ==> t.region == BlockAt(min, e))
    decreases depth
  {
    hide Pow2, Depth, HolderDepth;
    HolderBounds(min, r, depth);
    if min.length > 0 {
      OnlyBlockAt(min, r, depth);
    }
    if depth > 0 {
      HalfChoice(min, r, depth);
      var (left, right) := r.Halve();
      if depth > HolderDepth(min, 0) && b.nodes > 0 {
        var (keep, give) := if left.Contains(min) then (left, right) else (right, left);
        InsertNodeWellFormed(b, depth - 1, give);
        TrimAroundStops(InsertNode(b, depth - 1, give), keep, depth - 1, min);
      }
    }
  }

  /** What the code's test says of the halves of a block around a region. */
  lemma HalfChoice(min: Region, r: Region, depth: nat)
    requires Block(r, depth) && depth > 0 && Inside(min, r) && r.offset + r.length < WORD
    ensures var (left, right) := r.Halve();
            && Block(left, depth - 1) && Block(right, depth - 1)
            && left.offset + left.length < WORD && right.offset + right.length < WORD
            && (left.Contains(min) <==> Inside(min, left)) && (right.Contains(min) <==> Inside(min, right))
            && (depth > HolderDepth(min, 0) ==> left.Contains(min) || right.Contains(min))
            && (depth == HolderDepth(min, 0) > Depth(min.length) ==> !left.Contains(min) && !right.Contains(min))
  {
    hide Pow2, Depth, HolderDepth, FitsAt;
    var hd := HolderDepth(min, 0);
    var (left, right) := r.Halve();
    HalveBlock(r, depth);
    ContainsIsInside(min, left);
    ContainsIsInside(min, right);
    if depth == hd > Depth(min.length) {
      NoHalfHolds(min, r, depth);
    } else if depth > hd {
      HolderDepthIsLeast(min, 0, depth);
      FitsAtMonotone(min, hd, depth - 1);
      HalfHolds(min, r, depth);
    }
  }

  lemma NoHalfHolds(region: Region, r: Region, depth: nat)
    requires Block(r, depth) && depth == HolderDepth(region, 0) > Depth(region.length)
    ensures !Inside(region, r.Halve().0) && !Inside(region, r.Halve().1)
  {
    if region.length > 0 && (Inside(region, r.Halve().0) || Inside(region, r.Halve().1)) {
      HalfIsHolder(region, r, depth);
    }
  }

  // ------------------------------------------------ regions at the start of a block

  /** Trimming around a region at the start of a block keeps the left half every time. */
  lemma {:induction false} TrimAroundLeft(b: Backend, r: Region, depth: nat, min: Region)
    requires |b.lists| == MAX_DEPTH && Block(r, depth) && CeilLog(min.length) <= depth < MAX_DEPTH
    requires min.offset == r.offset && r.offset + r.length < WORD
    ensures Depth(min.length) <= CeilLog(min.length)
    ensures TrimAround(b, r, depth, Depth(min.length), min) == TrimAligned(b, r, depth, CeilLog(min.length))
    decreases depth
  {
    hide Pow2, Depth, CeilLog;
    var c := CeilLog(min.length);
    CeilLogAndDepth(min.length);
    CeilLogIsLeast(min.length, depth);
    if depth > 0 {
      HalveBlock(r, depth);
      CeilLogIsLeast(min.length, depth - 1);
      var (left, right) := r.Halve();
      ContainsIsInside(min, left);
      ContainsIsInside(min, right);
      if c < depth && b.nodes > 0 {
        TrimAroundLeft(InsertNode(b, depth - 1, right), left, depth - 1, min);
      }
    }
  }

  lemma CeilLogAndDepth(n: nat)
    ensures Depth(n) <= CeilLog(n)
  {
    DepthBounds(n);
    CeilLogIsLeast(n, CeilLog(n));
    if CeilLog(n) < Depth(n) {
      Pow2Strict(CeilLog(n), Depth(n));
    }
  }
}
