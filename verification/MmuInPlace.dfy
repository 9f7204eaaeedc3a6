/**
 The memory-management unit's page allocator as the source runs it: two page allocators
 and two arrays of table entries, written in place (kernel/arch/aarch32/mmu.cpp).  Each
 method is proved to take the state to exactly the value that the functions of Mmu give.
 */
module MmuInPlace {
  import opened TwoMath
  import opened Regions
  import opened PageBackend
  import opened PageLedger
  import opened PageTable
  import opened Mmu
  import opened PageAllocatorInPlace

  /** Region lengths for which rounding the byte size up to sections does not wrap. */
  const MAX_RECORDED_PAGES: nat := 0xF_FF00

  /** The writes from k on when the second-level table for the first of them is known. */
  ghost function WritesEntered(t: Tables, ws: seq<Write>, k: nat): Result
    requires Consistent(t) && ValidWrites(ws) && k < |ws| && TypeOf(t.l1[ws[k].i]) == L2_PTR
  {
    var w := WritePage(t, ws[k].i, ws[k].j, ws[k].entry);
    if w.outcome != Recorded then w
    else
      WritePageKeeps(t, ws[k].i, ws[k].j, ws[k].entry);
      RecordWrites(w.tables, ws, k + 1)
  }

  class PageAllocator {
    const phys: PageAllocatorBackend
    const virt: PageAllocatorBackend
    const l1: array<nat>
    /** The words of the pool of second-level tables. */
    const l2: array<nat>
    const base: nat
    var used: nat

    function TablesView(): Tables
      reads this`used, l1, l2
    {
      Tables(l1[..], l2[..], base, used)
    }

    function View(): State
      reads this`used, l1, l2, phys, virt
    {
      State(phys.View(), virt.View(), TablesView())
    }

    ghost predicate Valid()
      reads this`used, l1, l2, phys, virt
    {
      phys != virt && l1 != l2 && Mmu.Ready(View())
    }

    /** An allocator with a cleared first-level table and a pool of `slots` second-level tables. */
    constructor (physical: PageAllocatorBackend, virtual: PageAllocatorBackend, base: nat, slots: nat)
      requires physical != virtual && WellFormed(physical.View()) && WellFormed(virtual.View())
      requires base % L2_TABLE_BYTES == 0 && base + slots * L2_TABLE_BYTES <= WORD
      ensures Valid() && phys == physical && virt == virtual
      ensures TablesView() == Tables(Zeros(L1_ENTRIES), Zeros(slots * L2_ENTRIES), base, 0)
      ensures fresh(l1) && fresh(l2)
    {
      phys, virt := physical, virtual;
      l1 := new nat[L1_ENTRIES](_ => 0);
      l2 := new nat[slots * L2_ENTRIES](_ => 0);
      this.base := base;
      used := 0;
      new;
      assert l1[..] == Zeros(L1_ENTRIES) && l2[..] == Zeros(slots * L2_ENTRIES);
    }

    /** The address of a fresh second-level table, or none when the pool is used up. */
    method TryReserveL2TableEntry() returns (address: Option<nat>)
      modifies this`used
      ensures (old(used) + 1) * L2_ENTRIES > l2.Length ==> address == None && used == old(used)
      ensures (old(used) + 1) * L2_ENTRIES <= l2.Length ==>
                address == Some(base + old(used) * L2_TABLE_BYTES) && used == old(used) + 1
    {
      if (used + 1) * L2_ENTRIES > l2.Length {
        return None;
      }
      address := Some(base + used * L2_TABLE_BYTES);
      used := used + 1;
    }

    /** Finds or makes the second-level table of L1 entry i. */
    method EnterTable(i: nat) returns (outcome: Outcome)
      requires l1 != l2 && Consistent(TablesView()) && i < L1_ENTRIES
      modifies this`used, l1, l2
      ensures Result(TablesView(), outcome) == EnterL1(old(TablesView()), i)
    {
      var entry := l1[i];
      if TypeOf(entry) == L2_PTR {
        return Recorded;
      }
      if TypeOf(entry) != FAULT {
        return AlreadyRecorded;
      }
      ghost var before := l2[..];
      var start := used * L2_ENTRIES;
      var address := TryReserveL2TableEntry();
      if address == None {
        return NoTable;
      }
      forall k | start <= k < start + L2_ENTRIES {
        l2[k] := 0;
      }
      assert l2[..] == before[..start] + Zeros(L2_ENTRIES) + before[start + L2_ENTRIES..];
      l1[i] := L2PtrEntry(address.value);
      return Recorded;
    }

    /** Writes entry j of the second-level table of L1 entry i, unless it is taken. */
    method WriteEntry(i: nat, j: nat, entry: nat) returns (outcome: Outcome)
      requires l1 != l2 && Consistent(TablesView())
      requires i < L1_ENTRIES && TypeOf(l1[i]) == L2_PTR && j < L2_ENTRIES
      modifies l2
      ensures Result(TablesView(), outcome) == WritePage(old(TablesView()), i, j, entry)
    {
      TableInPool(TablesView(), i);
      var at := TableStart(TablesView(), l1[i]) + j;
      if TypeOf(l2[at]) != FAULT {
        return AlreadyRecorded;
      }
      l2[at] := entry;
      return Recorded;
    }

    /** The inner loop of try_record_page_in_l1: the pages of one group, from its head on. */
    method RecordGroup(p: Region, v: Region, head: nat, i: nat, ghost ws: seq<Write>) returns (outcome: Outcome)
      requires l1 != l2 && Consistent(TablesView()) && i < L1_ENTRIES
      requires Codes(ws, v, p) && ValidWrites(ws) && head < v.length && head % L2_ENTRIES == 0
      requires ws[head].i == i && TypeOf(l1[i]) == L2_PTR
      modifies l2
      ensures outcome == Recorded ==>
                Entered(TablesView(), ws, GroupEnd(head, v.length), i, WritesEntered(old(TablesView()), ws, head), true)
      ensures outcome != Recorded ==>
                Result(TablesView(), outcome) == WritesEntered(old(TablesView()), ws, head)
    {
      hide WritePage;
      ghost var goal := WritesEntered(TablesView(), ws, head);
      var l2Offset := 0;
      while l2Offset < L2_ENTRIES && head + l2Offset < v.length
        invariant l2Offset <= L2_ENTRIES && head + l2Offset <= v.length
        invariant Entered(TablesView(), ws, head + l2Offset, i, goal, l2Offset == L2_ENTRIES)
      {
        WriteFields(ws, v, p, head, l2Offset);
        EnteredStep(TablesView(), ws, head + l2Offset, i, l2Offset + 1 == L2_ENTRIES);
        ghost var written := WritePage(TablesView(), i, ws[head + l2Offset].j, ws[head + l2Offset].entry);
        outcome := WriteEntry(i, L2Index(v.PagePtr(head + l2Offset)), PageEntry(p.PagePtr(head + l2Offset)));
        assert Result(TablesView(), outcome) == written;
        if outcome != Recorded {
          return;
        }
        l2Offset := l2Offset + 1;
      }
      return Recorded;
    }

    method TryRecordPageInL1(p: Region, v: Region) returns (outcome: Outcome)
      requires l1 != l2 && Consistent(TablesView()) && v.length <= MAX_RECORDED_PAGES
      modifies this`used, l1, l2
      ensures Result(TablesView(), outcome) == RecordPages(old(TablesView()), v, p)
    {
      hide WritePage, EnterL1, L1Index;
      WritesForValid(v, p);
      ghost var ws := WritesFor(v, p);
      assert Codes(ws, v, p);
      ghost var goal := RecordWrites(TablesView(), ws, 0);
      var numL1Entries := DivideUp(v.PageBytes(), SECTION_SIZE);
      L1EntriesToWalk(v.length);
      var l1Offset := 0;
      while l1Offset < numL1Entries
        invariant l1Offset <= numL1Entries
        invariant Consistent(TablesView()) && GroupStart(TablesView(), ws, l1Offset, goal)
      {
        var i := L1Index(v.PagePtr(l1Offset * L2_ENTRIES));
        HeadWrite(v, p, l1Offset);
        EnterL1Keeps(TablesView(), i);
        outcome := EnterTable(i);
        if outcome != Recorded {
          return;
        }
        outcome := RecordGroup(p, v, l1Offset * L2_ENTRIES, i, ws);
        if outcome != Recorded {
          return;
        }
        l1Offset := l1Offset + 1;
      }
      return Recorded;
    }

    method TryRecordSectionInL1(p: Region, v: Region) returns (outcome: Outcome)
      requires l1 != l2 && l1.Length == L1_ENTRIES
      modifies l1
      ensures Result(TablesView(), outcome) == RecordSections(old(TablesView()), v, p)
    {
      SectionWritesForValid(v, p);
      if p.length != v.length {
        return LengthMismatch;
      }
      ghost var ws := SectionWritesFor(v, p);
      ghost var goal := RecordSectionWrites(TablesView(), ws, 0);
      var l1Offset := 0;
      while l1Offset < v.length
        invariant l1Offset <= v.length
        invariant RecordSectionWrites(TablesView(), ws, l1Offset) == goal
      {
        var write := SectionWriteFor(v, p, l1Offset);
        assert ws[l1Offset] == write;
        if TypeOf(l1[write.i]) != FAULT {
          return AlreadyRecorded;
        }
        ghost var t := TablesView();
        l1[write.i] := write.entry;
        assert TablesView() == t.(l1 := t.l1[write.i := write.entry]);
        l1Offset := l1Offset + 1;
      }
      return Recorded;
    }

    method TryReservePageUnrecorded(pages: nat, alignment: nat, backing: Backing)
      returns (physAlloc: Allocation, virtAlloc: Allocation, panicked: bool)
      requires phys != virt && WellFormed(phys.View()) && WellFormed(virt.View())
      requires pages < 0x40_0000 && alignment > 0
      modifies phys, virt
      ensures Attempt(View(), physAlloc, virtAlloc, panicked)
           == TryReservePages(old(View()), pages, alignment, backing)
    {
      AllocateLists(phys.View(), pages, alignment);
      physAlloc := phys.Allocate(pages, alignment);
      if physAlloc.IsNull() {
        return NOTHING, NOTHING, false;
      }
      RegionOfIsShort(physAlloc);
      match backing {
        case Mixed =>
          virtAlloc := virt.Allocate(pages, 1);
        case Identity =>
          virtAlloc := virt.ReserveRegion(RegionOf(physAlloc));
          if virtAlloc.IsNull() {
            return physAlloc, NOTHING, true;
          }
      }
      if virtAlloc.IsNull() {
        phys.Free(physAlloc);
        return NOTHING, NOTHING, false;
      }
      panicked := false;
    }

    method TryReserveRegionUnrecorded(region: Region, backing: Backing)
      returns (physAlloc: Allocation, virtAlloc: Allocation)
      requires phys != virt && WellFormed(phys.View()) && WellFormed(virt.View())
      requires region.length < 0x40_0000
      modifies phys, virt
      ensures Attempt(View(), physAlloc, virtAlloc, false) == TryReserveRegion(old(View()), region, backing)
    {
      ReserveLists(virt.View(), region);
      virtAlloc := virt.ReserveRegion(region);
      if virtAlloc.IsNull() {
        return NOTHING, NOTHING;
      }
      RegionOfIsShort(virtAlloc);
      match backing {
        case Mixed =>
          physAlloc := phys.Allocate(region.length, 1);
        case Identity =>
          physAlloc := phys.ReserveRegion(RegionOf(virtAlloc));
      }
      if physAlloc.IsNull() {
        virt.Free(virtAlloc);
        return NOTHING, NOTHING;
      }
    }

    /** After a recording: the kernel stops on a panic; a failure gives the pages back. */
    method ConcludeRecording(outcome: Outcome, physAlloc: Allocation, p: Region, v: Region) returns (ending: Ending)
      requires phys != virt && |phys.View().lists| == MAX_DEPTH && |virt.View().lists| == MAX_DEPTH
      modifies phys, virt
      ensures Call(View(), ending) == Conclude(old(View()), Result(TablesView(), outcome), physAlloc, p, v)
    {
      match outcome {
        case Recorded =>
          return Done(p, v);
        case AlreadyRecorded =>
          return RecordedPanic;
        case _ =>
          RegionOfIsShort(physAlloc);
          phys.Free(physAlloc);
          virt.Free(physAlloc);
          return Unrecorded(p, v);
      }
    }

    method AllocatePages(pages: nat, alignment: nat, backing: Backing) returns (ending: Ending)
      requires Valid() && pages < 0x40_0000 && alignment > 0
      modifies this`used, l1, l2, phys, virt
      ensures Valid()
      ensures Call(View(), ending) == Mmu.AllocatePages(old(View()), pages, alignment, backing)
    {
      AllocatePagesReady(View(), pages, alignment, backing);
      TryReservePagesSound(View(), pages, alignment, backing);
      GrantedPagesLength(View(), pages, alignment, backing);
      var physAlloc, virtAlloc, panicked := TryReservePageUnrecorded(pages, alignment, backing);
      if panicked {
        return IdentityPanic;
      }
      if physAlloc.IsNull() {
        return Refused;
      }
      var p, v := RegionOf(physAlloc), RegionOf(virtAlloc);
      var outcome := TryRecordPageInL1(p, v);
      ending := ConcludeRecording(outcome, physAlloc, p, v);
    }

    method ReserveRegion(region: Region, backing: Backing) returns (ending: Ending)
      requires Valid() && region.length < 0x40_0000
      modifies this`used, l1, l2, phys, virt
      ensures Valid()
      ensures Call(View(), ending) == Mmu.ReserveRegion(old(View()), region, backing)
    {
      ReserveRegionReady(View(), region, backing);
      TryReserveRegionSound(View(), region, backing);
      GrantedRegionLength(View(), region, backing);
      var physAlloc, virtAlloc := TryReserveRegionUnrecorded(region, backing);
      if physAlloc.IsNull() {
        return Refused;
      }
      var p, v := RegionOf(physAlloc), RegionOf(virtAlloc);
      if v.length != p.length {
        return LengthPanic;
      }
      var outcome := TryRecordPageInL1(p, v);
      ending := ConcludeRecording(outcome, physAlloc, p, v);
    }

    method ReserveSectionRegion(sections: Region, backing: Backing) returns (ending: Ending)
      requires Valid() && AsPageRegion(sections).length < 0x40_0000
      modifies this`used, l1, l2, phys, virt
      ensures Valid()
      ensures Call(View(), ending) == ReserveSections(old(View()), sections, backing)
    {
      ReserveSectionsReady(View(), sections, backing);
      TryReserveRegionSound(View(), AsPageRegion(sections), backing);
      var physAlloc, virtAlloc := TryReserveRegionUnrecorded(AsPageRegion(sections), backing);
      if physAlloc.IsNull() {
        return Refused;
      }
      var p := SectionRegionFromPtr(physAlloc.ptr, physAlloc.size);
      var v := SectionRegionFromPtr(virtAlloc.ptr, virtAlloc.size);
      var outcome := TryRecordSectionInL1(p, v);
      ending := ConcludeRecording(outcome, physAlloc, p, v);
    }
  }

  /** A block's byte size is at most that of 2^19 pages, or it reads as null. */
  lemma BlockIsRecordable(r: Option<Region>)
    requires r.Some? ==> Depth(r.value.length) < MAX_DEPTH && Block(r.value, Depth(r.value.length))
    requires !ToAllocation(r).IsNull()
    ensures RegionOf(ToAllocation(r)).length <= MAX_RECORDED_PAGES
  {
    var d := Depth(r.value.length);
    Pow2Values();
    if d == 20 {
      NullExactly(r.value);
    } else {
      Pow2Strict(d, 20);
      BytesAndBack(r.value.length);
    }
  }

  lemma BytesAndBack(length: nat)
    requires length <= 0x8_0000
    ensures DivideUp(length * PAGE_SIZE % WORD, PAGE_SIZE) == length
  {
  }

  lemma GrantedPagesLength(s: State, pages: nat, alignment: nat, backing: Backing)
    requires WellFormed(s.phys) && WellFormed(s.virt) && pages < 0x40_0000 && alignment > 0
    ensures var a := TryReservePages(s, pages, alignment, backing);
            !a.virt.IsNull() ==> RegionOf(a.virt).length <= MAX_RECORDED_PAGES
  {
    var phys := ToAllocation(Allocate(s.phys, pages, alignment).region);
    RegionOfIsShort(phys);
    AllocateExact(s.virt, pages, 1);
    ReserveShape(s.virt, RegionOf(phys));
    var v := match backing
             case Mixed => Allocate(s.virt, pages, 1).region
             case Identity => Reserve(s.virt, RegionOf(phys)).region;
    if !ToAllocation(v).IsNull() {
      BlockIsRecordable(v);
    }
  }

  lemma GrantedRegionLength(s: State, region: Region, backing: Backing)
    requires WellFormed(s.phys) && WellFormed(s.virt) && region.length < 0x40_0000
    ensures var a := TryReserveRegion(s, region, backing);
            !a.virt.IsNull() ==> RegionOf(a.virt).length <= MAX_RECORDED_PAGES
  {
    var v := Reserve(s.virt, region).region;
    ReserveShape(s.virt, region);
    if !ToAllocation(v).IsNull() {
      BlockIsRecordable(v);
    }
  }

  /** The outer loop's invariant: what is left to do from group n on leads to the goal. */
  ghost predicate GroupStart(t: Tables, ws: seq<Write>, n: nat, goal: Result) {
    && Consistent(t) && ValidWrites(ws)
    && var k := if n * L2_ENTRIES <= |ws| then n * L2_ENTRIES else |ws|;
       PageTable.Ready(t, ws, k) && RecordWrites(t, ws, k) == goal
  }

  /** The inner loop's invariant: inside a group the table is known, at its end the next group starts. */
  ghost predicate Entered(t: Tables, ws: seq<Write>, k: nat, i: nat, goal: Result, atEnd: bool) {
    && Consistent(t) && ValidWrites(ws) && k <= |ws|
    && if atEnd || k == |ws| then PageTable.Ready(t, ws, k) && RecordWrites(t, ws, k) == goal
       else ws[k].i == i && TypeOf(t.l1[i]) == L2_PTR && WritesEntered(t, ws, k) == goal
  }

  lemma TableInPool(t: Tables, i: nat)
    requires Consistent(t) && i < L1_ENTRIES && TypeOf(t.l1[i]) == L2_PTR
    ensures 0 <= TableStart(t, t.l1[i]) <= |t.l2| - L2_ENTRIES
  {
    assert IsTablePointer(t, t.l1[i]);
  }

  /** One past the last page of the group that starts at page `head`. */
  function GroupEnd(head: nat, length: nat): nat {
    if head + L2_ENTRIES <= length then head + L2_ENTRIES else length
  }

  /** The writes are those of the code for the pages of v backed by the pages of p. */
  ghost predicate Codes(ws: seq<Write>, v: Region, p: Region) {
    |ws| == v.length && forall k: nat {:trigger WriteFor(v, p, k)} | k < |ws| :: ws[k] == WriteFor(v, p, k)
  }

  lemma WriteFields(ws: seq<Write>, v: Region, p: Region, head: nat, j: nat)
    requires Codes(ws, v, p) && head % L2_ENTRIES == 0 && j < L2_ENTRIES && head + j < v.length
    ensures ws[head + j].j == L2Index(v.PagePtr(head + j)) && ws[head + j].entry == PageEntry(p.PagePtr(head + j))
    ensures head + j + 1 < |ws| ==> ws[head + j + 1].head == (j + 1 == L2_ENTRIES)
  {
    assert ws[head + j] == WriteFor(v, p, head + j);
    LastOfGroup(head, j);
    if head + j + 1 < |ws| {
      assert ws[head + j + 1] == WriteFor(v, p, head + j + 1);
    }
  }

  lemma LastOfGroup(head: nat, j: nat)
    requires head % L2_ENTRIES == 0 && j < L2_ENTRIES
    ensures (head + j + 1) % L2_ENTRIES == 0 <==> j + 1 == L2_ENTRIES
  {
  }

  /** One turn of the inner loop. */
  lemma EnteredStep(t: Tables, ws: seq<Write>, k: nat, i: nat, atEnd: bool)
    requires Consistent(t) && ValidWrites(ws) && k < |ws|
    requires ws[k].i == i && TypeOf(t.l1[i]) == L2_PTR
    requires k + 1 < |ws| ==> ws[k + 1].head == atEnd
    ensures var w := WritePage(t, i, ws[k].j, ws[k].entry);
            && (w.outcome != Recorded ==> WritesEntered(t, ws, k) == w)
            && (w.outcome == Recorded ==>
                  Entered(w.tables, ws, k + 1, i, WritesEntered(t, ws, k), atEnd))
            && Consistent(w.tables)
  {
    WritePageKeeps(t, i, ws[k].j, ws[k].entry);
  }

  /** The number of first-level entries that the pages of a region are recorded under. */
  lemma L1EntriesToWalk(length: nat)
    requires length <= MAX_RECORDED_PAGES
    ensures var n := DivideUp(length * PAGE_SIZE % WORD, SECTION_SIZE);
            && n * L2_ENTRIES >= length && (n > 0 ==> (n - 1) * L2_ENTRIES < length)
            && (length == 0 ==> n == 0)
  {
    assert length * PAGE_SIZE + (SECTION_SIZE - 1) < WORD;
    assert length * PAGE_SIZE + (SECTION_SIZE - 1) == (length + (L2_ENTRIES - 1)) * PAGE_SIZE + (PAGE_SIZE - 1);
  }

  lemma HeadWrite(v: Region, p: Region, n: nat)
    requires n * L2_ENTRIES < v.length
    ensures var w := WritesFor(v, p)[n * L2_ENTRIES];
            w.head && w.i == L1Index(v.PagePtr(n * L2_ENTRIES))
  {
    assert GroupHead(n * L2_ENTRIES) == n * L2_ENTRIES;
  }
}
