/**
 The two-level translation table (kernel/arch/aarch32/mmu.hpp) as a value, and the
 recording of page and section regions in it (kernel/arch/aarch32/mmu.cpp).

 Entries are 32-bit words, written and read with the field layout of the source; it is
 based on the short descriptors of the ARMv7-A Architecture Reference Manual, section
 B3.5.  Second-level tables live in one pool of 1 KiB slots.
 */
module PageTable {
  import opened TwoMath
  import opened Regions
  import opened PageBackend

  const L1_ENTRIES: nat := 1024
  const L2_ENTRIES: nat := 256
  const L2_TABLE_BYTES: nat := 1024

  /** Positions of the table: pages that the 10-bit first-level index can tell apart. */
  const SLOTS: nat := 0x4_0000

  /** The position of the table that the walk of a page's address ends at. */
  function SlotOf(page: nat): nat {
    page % SLOTS
  }

  // ------------------------------------------------------------- entries

  const FAULT: nat := 0
  const L2_PTR: nat := 1
  const SECTION: nat := 2
  const PAGE: nat := 2

  function L1Index(address: nat): nat {
    address / SECTION_SIZE % L1_ENTRIES
  }

  function L2Index(address: nat): nat {
    address / PAGE_SIZE % L2_ENTRIES
  }

  function TypeOf(entry: nat): nat {
    entry % 4
  }

  /** Page: access bits 4-5 set, address bits 10-29 in bits 12-31. */
  function PageEntry(address: nat): nat {
    PAGE + 0x30 + address / 0x400 % 0x10_0000 * 0x1000
  }

  function PageAddress(entry: nat): nat {
    entry / 0x1000 * 0x400
  }

  /** Access bits of a page: 3 lets everyone read and write. */
  function PageAccess(word: nat): nat {
    word / 0x10 % 4
  }

  /** Section: access bits 10-11 set, address bits 20-29 in bits 20-29. */
  function SectionEntry(address: nat): nat {
    SECTION + 0xC00 + address / 0x10_0000 % 0x400 * 0x10_0000
  }

  function SectionAddress(entry: nat): nat {
    entry / 0x10_0000 % 0x400 * 0x10_0000
  }

  /** Access bits of a section. */
  function SectionAccess(entry: nat): nat {
    entry / 0x400 % 4
  }

  /** Access for everyone. */
  const EVERYONE: nat := 3

  /** A page that everyone may access, with its other attribute bits, 2-3 and 6-11, clear. */
  predicate OpenPage(word: nat) {
    TypeOf(word) == PAGE && PageAccess(word) == EVERYONE && word / 4 % 4 == 0 && word / 0x40 % 0x40 == 0
  }

  /** A section that everyone may access, with its other attribute bits, 2-9 and 12-19, clear. */
  predicate OpenSection(entry: nat) {
    && TypeOf(entry) == SECTION && SectionAccess(entry) == EVERYONE
    && entry / 4 % 0x100 == 0 && entry / 0x1000 % 0x100 == 0
  }

  /** A pointer to a second-level table with its attribute bits, 2-9, clear. */
  predicate PlainPointer(entry: nat) {
    TypeOf(entry) == L2_PTR && entry / 4 % 0x100 == 0
  }

  /** Pointer to a second-level table: address bits 10-31 in bits 10-31. */
  function L2PtrEntry(address: nat): nat {
    L2_PTR + address / 0x400 * 0x400
  }

  function L2PtrAddress(entry: nat): nat {
    entry / 0x400 * 0x400
  }

  lemma OpenPageWord(q: nat)
    ensures OpenPage(0x32 + 0x1000 * q)
  {
    DivModUnique(0x32 + 0x1000 * q, 4, 0xC + 0x400 * q, 2);
    DivModUnique(0xC + 0x400 * q, 4, 3 + 0x100 * q, 0);
    DivModUnique(0x32 + 0x1000 * q, 0x10, 3 + 0x100 * q, 2);
    DivModUnique(3 + 0x100 * q, 4, 0x40 * q, 3);
    DivModUnique(0x32 + 0x1000 * q, 0x40, 0x40 * q, 0x32);
    DivModUnique(0x40 * q, 0x40, q, 0);
  }

  /**
   A page entry is open to everyone, and decodes to the address that was encoded exactly for
   1 KiB aligned addresses below 2^30, because the 20-bit field drops the two highest bits.
   */
  lemma PageEntryRoundTrip(address: nat)
    requires address < WORD
    ensures OpenPage(PageEntry(address)) && PageEntry(address) < WORD
    ensures PageAddress(PageEntry(address)) == address <==> address % 0x400 == 0 && address < 0x4000_0000
  {
    var q := address / 0x400 % 0x10_0000;
    assert PageEntry(address) == 0x32 + 4 * (0x400 * q);
    assert PageEntry(address) / 0x1000 == q;
    OpenPageWord(q);
  }

  lemma OpenSectionWord(q: nat)
    ensures OpenSection(0xC02 + 0x10_0000 * q)
  {
    DivModUnique(0xC02 + 0x10_0000 * q, 4, 0x300 + 0x4_0000 * q, 2);
    DivModUnique(0x300 + 0x4_0000 * q, 0x100, 3 + 0x400 * q, 0);
    DivModUnique(0xC02 + 0x10_0000 * q, 0x400, 3 + 0x400 * q, 2);
    DivModUnique(3 + 0x400 * q, 4, 0x100 * q, 3);
    DivModUnique(0xC02 + 0x10_0000 * q, 0x1000, 0x100 * q, 0xC02);
    DivModUnique(0x100 * q, 0x100, q, 0);
  }

  lemma SectionEntryRoundTrip(address: nat)
    requires address < WORD
    ensures OpenSection(SectionEntry(address)) && SectionEntry(address) < WORD
    ensures SectionAddress(SectionEntry(address)) == address
       <==> address % SECTION_SIZE == 0 && address < 0x4000_0000
  {
    var q := address / 0x10_0000 % 0x400;
    assert SectionEntry(address) == 0xC02 + 4 * (0x4_0000 * q);
    assert SectionEntry(address) / 0x10_0000 == q;
    OpenSectionWord(q);
  }

  lemma L2PtrEntryRoundTrip(address: nat)
    requires address < WORD
    ensures PlainPointer(L2PtrEntry(address)) && L2PtrEntry(address) < WORD
    ensures L2PtrAddress(L2PtrEntry(address)) == address <==> address % L2_TABLE_BYTES == 0
  {
    var q := address / 0x400;
    assert L2PtrEntry(address) == 1 + 4 * (0x100 * q);
    assert L2PtrEntry(address) == 0x400 * q + 1;
  }

  // -------------------------------------------------------------- tables

  /**
   `l1` is the first-level table.  `l2` holds the words of the slots of the pool of
   second-level tables, which starts at address `base`; the first `used` slots are
   handed out.
   */
  datatype Tables = Tables(l1: seq<nat>, l2: seq<nat>, base: nat, used: nat)

  /** The slot of the pool that an L1 entry points to. */
  function TableSlot(t: Tables, entry: nat): int {
    (L2PtrAddress(entry) - t.base) / L2_TABLE_BYTES
  }

  /** Index in `l2` of the first word of the table that an L1 entry points to. */
  function TableStart(t: Tables, entry: nat): int {
    TableSlot(t, entry) * L2_ENTRIES
  }

  predicate IsTablePointer(t: Tables, entry: nat) {
    && TypeOf(entry) == L2_PTR
    && 0 <= TableSlot(t, entry) < t.used
    && L2PtrAddress(entry) == t.base + TableSlot(t, entry) * L2_TABLE_BYTES
  }

  /** Pool and entries are well formed, and no two L1 entries share a second-level table. */
  ghost predicate Consistent(t: Tables) {
    && |t.l1| == L1_ENTRIES
    && t.base % L2_TABLE_BYTES == 0 && t.base + 4 * |t.l2| <= WORD
    && t.used * L2_ENTRIES <= |t.l2|
    && (forall i | 0 <= i < L1_ENTRIES ::
          TypeOf(t.l1[i]) == FAULT || TypeOf(t.l1[i]) == SECTION || IsTablePointer(t, t.l1[i]))
    && (forall i, j | 0 <= i < j < L1_ENTRIES && TypeOf(t.l1[i]) == L2_PTR && TypeOf(t.l1[j]) == L2_PTR ::
          TableSlot(t, t.l1[i]) != TableSlot(t, t.l1[j]))
  }

  /** The walk: the physical address that page `s` of the table translates to. */
  function Lookup(t: Tables, s: nat): Option<nat>
    requires Consistent(t) && s < SLOTS
  {
    var entry := t.l1[s / L2_ENTRIES];
    if TypeOf(entry) == SECTION then Some(SectionAddress(entry) + s % L2_ENTRIES * PAGE_SIZE)
    else if TypeOf(entry) == L2_PTR then
      var word := t.l2[TableStart(t, entry) + s % L2_ENTRIES];
      if TypeOf(word) == FAULT then None else Some(PageAddress(word))
    else None
  }

  /** All translations. */
  function MapOf(t: Tables): map<nat, nat>
    requires Consistent(t)
  {
    map s | 0 <= s < SLOTS && Lookup(t, s).Some? :: Lookup(t, s).value
  }

  /** The walk of a 32-bit virtual address. */
  function Translate(t: Tables, address: nat): Option<nat>
    requires Consistent(t)
  {
    var s := L1Index(address) * L2_ENTRIES + L2Index(address);
    match Lookup(t, s)
    case None => None
    case Some(physical) => Some(physical + address % PAGE_SIZE)
  }

  // ------------------------------------------------------------ recording

  datatype Outcome = Recorded | NoTable | AlreadyRecorded | LengthMismatch

  datatype Result = Result(tables: Tables, outcome: Outcome)

  function Zeros(n: nat): seq<nat> {
    seq(n, _ => 0)
  }

  /** A fresh, cleared second-level table for L1 entry i. */
  function NewTable(t: Tables, i: nat): Tables
    requires i < |t.l1| && (t.used + 1) * L2_ENTRIES <= |t.l2|
  {
    var start := t.used * L2_ENTRIES;
    t.(l1 := t.l1[i := L2PtrEntry(t.base + t.used * L2_TABLE_BYTES)],
       l2 := t.l2[..start] + Zeros(L2_ENTRIES) + t.l2[start + L2_ENTRIES..],
       used := t.used + 1)
  }

  /** The first-level part of recording: find or make the second-level table of L1 entry i. */
  function EnterL1(t: Tables, i: nat): Result
    requires Consistent(t) && i < L1_ENTRIES
  {
    if TypeOf(t.l1[i]) == L2_PTR then Result(t, Recorded)
    else if TypeOf(t.l1[i]) != FAULT then Result(t, AlreadyRecorded)
    else if (t.used + 1) * L2_ENTRIES > |t.l2| then Result(t, NoTable)
    else Result(NewTable(t, i), Recorded)
  }

  /** The second-level part: write entry j of the table of L1 entry i, if it is free. */
  function WritePage(t: Tables, i: nat, j: nat, entry: nat): Result
    requires Consistent(t) && i < L1_ENTRIES && TypeOf(t.l1[i]) == L2_PTR && j < L2_ENTRIES
  {
    var at := TableStart(t, t.l1[i]) + j;
    if TypeOf(t.l2[at]) != FAULT then Result(t, AlreadyRecorded)
    else Result(t.(l2 := t.l2[at := entry]), Recorded)
  }

  /**
   One page to be recorded: entry j of the table of L1 entry i gets the word `entry`.
   At the head of a group of 256 pages the first level is looked at first.
   */
  datatype Write = Write(head: bool, i: nat, j: nat, entry: nat) {
    /** The page of the table that is written. */
    function Slot(): nat { i * L2_ENTRIES + j }
  }

  /** Indexes are in range, and a group stays under the L1 entry of its head. */
  predicate ValidWrites(ws: seq<Write>) {
    forall k | 0 <= k < |ws| ::
      && ws[k].i < L1_ENTRIES && ws[k].j < L2_ENTRIES && TypeOf(ws[k].entry) == PAGE
      && (!ws[k].head ==> k > 0 && ws[k - 1].i == ws[k].i)
  }

  /** Before a write inside a group, the group has its second-level table. */
  predicate Ready(t: Tables, ws: seq<Write>, k: nat)
    requires |t.l1| == L1_ENTRIES && ValidWrites(ws)
  {
    k < |ws| && !ws[k].head ==> TypeOf(t.l1[ws[k].i]) == L2_PTR
  }

  function RecordOne(t: Tables, w: Write): Result
    requires Consistent(t) && w.i < L1_ENTRIES && w.j < L2_ENTRIES
    requires !w.head ==> TypeOf(t.l1[w.i]) == L2_PTR
  {
    var entered := if w.head then EnterL1(t, w.i) else Result(t, Recorded);
    if entered.outcome != Recorded then entered
    else
      EnterL1Keeps(t, w.i);
      WritePage(entered.tables, w.i, w.j, w.entry)
  }

  /** The writes from k on, up to the first that fails. */
  function RecordWrites(t: Tables, ws: seq<Write>, k: nat): Result
    requires Consistent(t) && ValidWrites(ws) && Ready(t, ws, k)
    decreases |ws| - k
  {
    if k >= |ws| then Result(t, Recorded)
    else
      var one := RecordOne(t, ws[k]);
      if one.outcome != Recorded then one
      else
        RecordOneKeeps(t, ws[k]);
        RecordWrites(one.tables, ws, k + 1)
  }

  /** First page of the group of 256 that page k of a region is recorded with. */
  function GroupHead(k: nat): nat {
    k - k % L2_ENTRIES
  }

  /**
   How page k of the virtual region v is recorded: under the L1 entry of the first page
   of its group, at the L2 index of its own address, backed by page k of p.
   */
  function WriteFor(v: Region, p: Region, k: nat): Write {
    Write(k % L2_ENTRIES == 0, L1Index(v.PagePtr(GroupHead(k))), L2Index(v.PagePtr(k)), PageEntry(p.PagePtr(k)))
  }

  function WritesFor(v: Region, p: Region): seq<Write> {
    seq(v.length, k requires 0 <= k => WriteFor(v, p, k))
  }

  lemma WritesForValid(v: Region, p: Region)
    ensures ValidWrites(WritesFor(v, p))
  {
    var ws := WritesFor(v, p);
    forall k | 0 <= k < |ws| ensures TypeOf(ws[k].entry) == PAGE {
      PageEntryRoundTrip(p.PagePtr(k));
    }
    forall k | 0 <= k < |ws| && !ws[k].head ensures k > 0 && ws[k - 1].i == ws[k].i {
      SameGroup(k);
    }
  }

  lemma SameGroup(k: nat)
    requires k % L2_ENTRIES != 0
    ensures k > 0 && GroupHead(k - 1) == GroupHead(k)
  {
  }

  /** Recording of the pages of v, backed by the pages of p. */
  function RecordPages(t: Tables, v: Region, p: Region): Result
    requires Consistent(t)
  {
    WritesForValid(v, p);
    RecordWrites(t, WritesFor(v, p), 0)
  }

  /** One section to be recorded in L1 entry i. */
  datatype SectionWrite = SectionWrite(i: nat, entry: nat)

  predicate ValidSections(ws: seq<SectionWrite>) {
    forall k | 0 <= k < |ws| :: ws[k].i < L1_ENTRIES && TypeOf(ws[k].entry) == SECTION
  }

  /** The section writes from k on, up to the first that fails. */
  function RecordSectionWrites(t: Tables, ws: seq<SectionWrite>, k: nat): Result
    requires |t.l1| == L1_ENTRIES && ValidSections(ws)
    decreases |ws| - k
  {
    if k >= |ws| then Result(t, Recorded)
    else if TypeOf(t.l1[ws[k].i]) != FAULT then Result(t, AlreadyRecorded)
    else RecordSectionWrites(t.(l1 := t.l1[ws[k].i := ws[k].entry]), ws, k + 1)
  }

  function SectionWriteFor(v: Region, p: Region, k: nat): SectionWrite {
    SectionWrite(L1Index((v.offset + k) * SECTION_SIZE % WORD), SectionEntry((p.offset + k) * SECTION_SIZE % WORD))
  }

  function SectionWritesFor(v: Region, p: Region): seq<SectionWrite> {
    seq(v.length, k requires 0 <= k => SectionWriteFor(v, p, k))
  }

  lemma SectionWritesForValid(v: Region, p: Region)
    ensures ValidSections(SectionWritesFor(v, p))
  {
    forall k | 0 <= k < v.length
      ensures SectionWriteFor(v, p, k).i < L1_ENTRIES && TypeOf(SectionWriteFor(v, p, k).entry) == SECTION
    {
      SectionEntryRoundTrip((p.offset + k) * SECTION_SIZE % WORD);
    }
  }

  /** Recording of the sections of v, backed by the sections of p. */
  function RecordSections(t: Tables, v: Region, p: Region): Result
    requires |t.l1| == L1_ENTRIES
  {
    SectionWritesForValid(v, p);
    if p.length != v.length then Result(t, LengthMismatch)
    else RecordSectionWrites(t, SectionWritesFor(v, p), 0)
  }

  // ------------------------------------------------- effect on translations

  lemma EnterL1Keeps(t: Tables, i: nat)
    requires Consistent(t) && i < L1_ENTRIES
    ensures var e := EnterL1(t, i);
            && Consistent(e.tables) && MapOf(e.tables) == MapOf(t)
            && |e.tables.l2| == |t.l2| && e.tables.base == t.base && e.tables.used <= t.used + 1
            && e.outcome != LengthMismatch
            && (e.outcome == Recorded ==> TypeOf(e.tables.l1[i]) == L2_PTR)
            && (e.outcome == AlreadyRecorded ==> TypeOf(t.l1[i]) == SECTION)
            && (e.outcome == NoTable <==> TypeOf(t.l1[i]) == FAULT && (t.used + 1) * L2_ENTRIES > |t.l2|)
            && (e.outcome == Recorded ==> e.tables.used == t.used + if TypeOf(t.l1[i]) == FAULT then 1 else 0)
            && (forall k | 0 <= k < L1_ENTRIES && k != i :: e.tables.l1[k] == t.l1[k])
  {
    if TypeOf(t.l1[i]) == FAULT && (t.used + 1) * L2_ENTRIES <= |t.l2| {
      NewTableKeeps(t, i);
    }
  }

  lemma NewTableConsistent(t: Tables, i: nat)
    requires Consistent(t) && i < L1_ENTRIES && TypeOf(t.l1[i]) == FAULT
    requires (t.used + 1) * L2_ENTRIES <= |t.l2|
    ensures Consistent(NewTable(t, i))
    ensures var entry := NewTable(t, i).l1[i];
            IsTablePointer(NewTable(t, i), entry) && TableSlot(t, entry) == t.used
  {
    NewEntry(t);
    var t' := NewTable(t, i);
    forall k | 0 <= k < L1_ENTRIES && k != i && TypeOf(t.l1[k]) == L2_PTR
      ensures IsTablePointer(t', t'.l1[k]) && TableSlot(t', t'.l1[k]) == TableSlot(t, t.l1[k]) < t.used
    {
      assert IsTablePointer(t, t.l1[k]);
    }
  }

  /** The entry for the next slot of the pool. */
  lemma NewEntry(t: Tables)
    requires t.base % L2_TABLE_BYTES == 0 && t.base + t.used * L2_TABLE_BYTES < WORD
    ensures var entry := L2PtrEntry(t.base + t.used * L2_TABLE_BYTES);
            && TypeOf(entry) == L2_PTR && TableSlot(t, entry) == t.used
            && L2PtrAddress(entry) == t.base + t.used * L2_TABLE_BYTES
  {
    hide L2PtrEntry, L2PtrAddress, TypeOf;
    L2PtrEntryRoundTrip(t.base + t.used * L2_TABLE_BYTES);
  }

  lemma NewTableKeeps(t: Tables, i: nat)
    requires Consistent(t) && i < L1_ENTRIES && TypeOf(t.l1[i]) == FAULT
    requires (t.used + 1) * L2_ENTRIES <= |t.l2|
    ensures Consistent(NewTable(t, i)) && MapOf(NewTable(t, i)) == MapOf(t)
    ensures TypeOf(NewTable(t, i).l1[i]) == L2_PTR
  {
    NewTableConsistent(t, i);
    var t' := NewTable(t, i);
    forall s: nat | s < SLOTS ensures Lookup(t', s) == Lookup(t, s) {
      NewTableLookup(t, i, s);
    }
  }

  lemma NewTableLookup(t: Tables, i: nat, s: nat)
    requires Consistent(t) && i < L1_ENTRIES && TypeOf(t.l1[i]) == FAULT
    requires (t.used + 1) * L2_ENTRIES <= |t.l2| && s < SLOTS
    requires Consistent(NewTable(t, i))
    ensures Lookup(NewTable(t, i), s) == Lookup(t, s)
  {
    NewTableConsistent(t, i);
    var t' := NewTable(t, i);
    var entry := t'.l1[s / L2_ENTRIES];
    if TypeOf(entry) == L2_PTR {
      var at := TableStart(t', entry) + s % L2_ENTRIES;
      if s / L2_ENTRIES == i {
        assert t'.l2[at] == 0;
      } else {
        assert IsTablePointer(t, entry);
        assert t'.l2[at] == t.l2[at];
      }
    }
  }

  lemma WritePageKeeps(t: Tables, i: nat, j: nat, entry: nat)
    requires Consistent(t) && i < L1_ENTRIES && TypeOf(t.l1[i]) == L2_PTR && j < L2_ENTRIES
    requires TypeOf(entry) == PAGE
    ensures var w := WritePage(t, i, j, entry);
            var s := i * L2_ENTRIES + j;
            && Consistent(w.tables) && w.tables.l1 == t.l1
            && w.tables.used == t.used && |w.tables.l2| == |t.l2|
            && w.outcome != NoTable && w.outcome != LengthMismatch
            && (w.outcome == AlreadyRecorded <==> s in MapOf(t))
            && (w.outcome == Recorded ==> MapOf(w.tables) == MapOf(t)[s := PageAddress(entry)])
            && (w.outcome != Recorded ==> w.tables == t)
  {
    var w := WritePage(t, i, j, entry);
    var s := i * L2_ENTRIES + j;
    assert s / L2_ENTRIES == i && s % L2_ENTRIES == j;
    if w.outcome == Recorded {
      WritePageConsistent(t, i, j, entry);
      forall r: nat | r < SLOTS
        ensures Lookup(w.tables, r) == if r == s then Some(PageAddress(entry)) else Lookup(t, r)
      {
        WritePageLookup(t, i, j, entry, r);
      }
    }
  }

  lemma WritePageConsistent(t: Tables, i: nat, j: nat, entry: nat)
    requires Consistent(t) && i < L1_ENTRIES && TypeOf(t.l1[i]) == L2_PTR && j < L2_ENTRIES
    ensures Consistent(WritePage(t, i, j, entry).tables)
  {
    var t' := WritePage(t, i, j, entry).tables;
    forall k | 0 <= k < L1_ENTRIES
      ensures TableSlot(t', t'.l1[k]) == TableSlot(t, t.l1[k])
      ensures IsTablePointer(t, t.l1[k]) ==> IsTablePointer(t', t'.l1[k])
    {
    }
  }

  lemma WritePageLookup(t: Tables, i: nat, j: nat, entry: nat, r: nat)
    requires Consistent(t) && i < L1_ENTRIES && TypeOf(t.l1[i]) == L2_PTR && j < L2_ENTRIES
    requires TypeOf(entry) == PAGE && r < SLOTS
    requires WritePage(t, i, j, entry).outcome == Recorded
    requires Consistent(WritePage(t, i, j, entry).tables)
    ensures Lookup(WritePage(t, i, j, entry).tables, r)
         == if r == i * L2_ENTRIES + j then Some(PageAddress(entry)) else Lookup(t, r)
  {
    var t' := WritePage(t, i, j, entry).tables;
    var k := r / L2_ENTRIES;
    assert r == k * L2_ENTRIES + r % L2_ENTRIES;
    if TypeOf(t.l1[k]) == L2_PTR {
      assert IsTablePointer(t, t.l1[k]) && IsTablePointer(t, t.l1[i]);
      assert k != i ==> TableSlot(t, t.l1[k]) != TableSlot(t, t.l1[i]);
      assert TableSlot(t', t.l1[k]) == TableSlot(t, t.l1[k]);
    }
  }

  /** Every second-level table in use translates at least one page. */
  ghost predicate NoEmptyTable(t: Tables)
    requires Consistent(t)
  {
    forall i | 0 <= i < L1_ENTRIES && TypeOf(t.l1[i]) == L2_PTR :: SectionInUse(t, i)
  }

  ghost predicate SectionInUse(t: Tables, i: nat)
    requires Consistent(t)
  {
    exists s | 0 <= s < SLOTS && s / L2_ENTRIES == i :: s in MapOf(t)
  }

  /** How many second-level tables a write takes from the pool. */
  function TableFor(t: Tables, w: Write): nat
    requires |t.l1| == L1_ENTRIES && w.i < L1_ENTRIES
  {
    if w.head && TypeOf(t.l1[w.i]) == FAULT then 1 else 0
  }

  /** A write adds one translation, or reports that it exists, or finds no room for a table. */
  lemma RecordOneKeeps(t: Tables, w: Write)
    requires Consistent(t) && w.i < L1_ENTRIES && w.j < L2_ENTRIES && TypeOf(w.entry) == PAGE
    requires !w.head ==> TypeOf(t.l1[w.i]) == L2_PTR
    ensures var one := RecordOne(t, w);
            && Consistent(one.tables) && one.outcome != LengthMismatch
            && (one.outcome == Recorded ==> TypeOf(one.tables.l1[w.i]) == L2_PTR)
            && (one.outcome == Recorded ==> MapOf(one.tables) == MapOf(t)[w.Slot() := PageAddress(w.entry)])
            && (one.outcome == Recorded ==> w.Slot() !in MapOf(t))
            && (one.outcome == AlreadyRecorded <==> w.Slot() in MapOf(t))
            && (one.outcome != Recorded ==> MapOf(one.tables) == MapOf(t))
            && (one.outcome == NoTable <==> TableFor(t, w) == 1 && (t.used + 1) * L2_ENTRIES > |t.l2|)
            && (one.outcome == Recorded ==> one.tables.used == t.used + TableFor(t, w))
            && one.tables.used <= t.used + (if w.head then 1 else 0) && |one.tables.l2| == |t.l2|
            && (forall k | 0 <= k < L1_ENTRIES && (k != w.i || !w.head) :: one.tables.l1[k] == t.l1[k])
            && (one.outcome == Recorded && NoEmptyTable(t) ==> NoEmptyTable(one.tables))
  {
    hide EnterL1, WritePage, MapOf, TypeOf;
    EnterL1Keeps(t, w.i);
    SlotIndexes(w);
    if w.Slot() in MapOf(t) {
      TranslatedEntry(t, w.Slot());
    }
    var entered := if w.head then EnterL1(t, w.i) else Result(t, Recorded);
    if entered.outcome == Recorded {
      WritePageKeeps(entered.tables, w.i, w.j, w.entry);
      if NoEmptyTable(t) && RecordOne(t, w).outcome == Recorded {
        StillNoEmptyTable(t, RecordOne(t, w).tables, w.i, w.Slot());
      }
    } else if entered.outcome == AlreadyRecorded {
      SectionTranslates(t, w.Slot());
    }
  }

  lemma SectionTranslates(t: Tables, s: nat)
    requires Consistent(t) && s < SLOTS && TypeOf(t.l1[s / L2_ENTRIES]) == SECTION
    ensures s in MapOf(t)
  {
    assert Lookup(t, s).Some?;
  }

  lemma TranslatedEntry(t: Tables, s: nat)
    requires Consistent(t) && s in MapOf(t)
    ensures TypeOf(t.l1[s / L2_ENTRIES]) != FAULT
  {
  }

  lemma SlotIndexes(w: Write)
    requires w.i < L1_ENTRIES && w.j < L2_ENTRIES
    ensures w.Slot() < SLOTS && w.Slot() / L2_ENTRIES == w.i && w.Slot() % L2_ENTRIES == w.j
  {
  }

  /** Only L1 entry i may have become a second-level table, and page s of it is translated. */
  lemma StillNoEmptyTable(t: Tables, t': Tables, i: nat, s: nat)
    requires Consistent(t) && Consistent(t') && NoEmptyTable(t) && i < L1_ENTRIES
    requires forall k | 0 <= k < L1_ENTRIES && k != i :: TypeOf(t'.l1[k]) == L2_PTR ==> TypeOf(t.l1[k]) == L2_PTR
    requires forall r | r in MapOf(t) :: r in MapOf(t')
    requires TypeOf(t'.l1[i]) == L2_PTR ==> s < SLOTS && s / L2_ENTRIES == i && s in MapOf(t')
    ensures NoEmptyTable(t')
  {
    forall k | 0 <= k < L1_ENTRIES && TypeOf(t'.l1[k]) == L2_PTR ensures SectionInUse(t', k) {
      if k == i {
        assert s in MapOf(t');
      } else {
        assert SectionInUse(t, k);
        var r :| 0 <= r < SLOTS && r / L2_ENTRIES == k && r in MapOf(t);
        assert r in MapOf(t');
      }
    }
  }

  // ---------------------------------------------------- effect of a recording

  /** The translations after the writes from k on. */
  function WrittenMap(m: map<nat, nat>, ws: seq<Write>, k: nat): map<nat, nat>
    decreases |ws| - k
  {
    if k >= |ws| then m else WrittenMap(m[ws[k].Slot() := PageAddress(ws[k].entry)], ws, k + 1)
  }

  ghost predicate SlotsDiffer(ws: seq<Write>) {
    forall j, k | 0 <= j < k < |ws| :: ws[j].Slot() != ws[k].Slot()
  }

  /** None of the writes from k on goes to page s. */
  ghost predicate Misses(ws: seq<Write>, k: nat, s: nat) {
    forall j | k <= j < |ws| :: ws[j].Slot() != s
  }

  /** Closed form of the written map: each write at its page, nothing else changed. */
  lemma {:induction false} WrittenMapAt(m: map<nat, nat>, ws: seq<Write>, k: nat, s: nat)
    requires SlotsDiffer(ws)
    ensures var r := WrittenMap(m, ws, k);
            && (Misses(ws, k, s) ==> (s in r <==> s in m) && (s in m ==> r[s] == m[s]))
            && (forall j | k <= j < |ws| && ws[j].Slot() == s :: s in r && r[s] == PageAddress(ws[j].entry))
    decreases |ws| - k
  {
    if k < |ws| {
      WrittenMapAt(m[ws[k].Slot() := PageAddress(ws[k].entry)], ws, k + 1, s);
      if ws[k].Slot() == s {
        assert Misses(ws, k + 1, s);
      }
    }
  }

  /** How many of the writes from k on start a group. */
  function Heads(ws: seq<Write>, k: nat): nat
    decreases |ws| - k
  {
    if k >= |ws| then 0 else (if ws[k].head then 1 else 0) + Heads(ws, k + 1)
  }

  /** Any run of writes, to whatever positions, keeps the table consistent. */
  lemma {:induction false} RecordWritesKeeps(t: Tables, ws: seq<Write>, k: nat)
    requires Consistent(t) && ValidWrites(ws) && Ready(t, ws, k)
    ensures var r := RecordWrites(t, ws, k);
            && Consistent(r.tables)
            && r.tables.used <= t.used + Heads(ws, k) && |r.tables.l2| == |t.l2|
            && (r.outcome == NoTable ==> (t.used + Heads(ws, k)) * L2_ENTRIES > |t.l2|)
    decreases |ws| - k
  {
    if k < |ws| {
      RecordOneKeeps(t, ws[k]);
      var one := RecordOne(t, ws[k]);
      if one.outcome == Recorded {
        RecordWritesKeeps(one.tables, ws, k + 1);
      }
    }
  }

  /** A run of writes to different positions succeeds exactly on their map, and only if none was taken. */
  lemma {:induction false} RecordWritesExact(t: Tables, ws: seq<Write>, k: nat)
    requires Consistent(t) && ValidWrites(ws) && Ready(t, ws, k) && SlotsDiffer(ws)
    ensures var r := RecordWrites(t, ws, k);
            && Consistent(r.tables) && r.outcome != LengthMismatch
            && (r.outcome == Recorded ==> MapOf(r.tables) == WrittenMap(MapOf(t), ws, k))
            && (r.outcome == Recorded ==> forall j | k <= j < |ws| :: ws[j].Slot() !in MapOf(t))
            && (r.outcome == AlreadyRecorded ==> exists j | k <= j < |ws| :: ws[j].Slot() in MapOf(t))
            && (r.outcome == Recorded && NoEmptyTable(t) ==> NoEmptyTable(r.tables))
    decreases |ws| - k
  {
    hide RecordOne, MapOf, NoEmptyTable;
    if k < |ws| {
      var one := RecordOne(t, ws[k]);
      RecordOneKeeps(t, ws[k]);
      if one.outcome == Recorded {
        RecordWritesExact(one.tables, ws, k + 1);
      }
    }
  }

  /** The physical address that backs a page of the virtual region v when p backs v. */
  function BackingAddress(v: Region, p: Region, page: nat): nat
    requires v.Has(page)
  {
    (p.offset + (page - v.offset)) * PAGE_SIZE
  }

  /** How many pages after the first of v position s of the table comes, round the table. */
  function IndexIn(v: Region, s: nat): nat {
    (s - v.offset) % SLOTS
  }

  /** Some page of v is walked to position s. */
  predicate Takes(v: Region, s: nat) {
    s < SLOTS && IndexIn(v, s) < v.length
  }

  /** The page of v that is walked to position s. */
  function PageAt(v: Region, s: nat): nat {
    v.offset + IndexIn(v, s)
  }

  lemma SlotOfIndex(v: Region, s: nat)
    requires s < SLOTS
    ensures SlotOf(PageAt(v, s)) == s
  {
  }

  lemma IndexOfSlot(v: Region, k: nat)
    requires k < SLOTS
    ensures IndexIn(v, SlotOf(v.offset + k)) == k
  {
  }

  /** The positions taken by a region of at most all positions are those of its pages. */
  lemma TakesIsSlot(v: Region, page: nat)
    requires v.length <= SLOTS && v.Has(page)
    ensures Takes(v, SlotOf(page)) && PageAt(v, SlotOf(page)) == page
  {
    IndexOfSlot(v, page - v.offset);
  }

  /** The translations m, with each page of v translated to the page of p beside it. */
  function Mapped(m: map<nat, nat>, v: Region, p: Region): map<nat, nat> {
    m + map s: nat | s < SLOTS && Takes(v, s) :: BackingAddress(v, p, PageAt(v, s))
  }

  /** Every page of v translates to the page of p that backs it. */
  ghost predicate Translates(m: map<nat, nat>, v: Region, p: Region) {
    forall page: nat | v.Has(page) :: SlotOf(page) in m && m[SlotOf(page)] == BackingAddress(v, p, page)
  }

  /** No page of v has a translation. */
  ghost predicate Untranslated(m: map<nat, nat>, v: Region) {
    forall page: nat | v.Has(page) :: SlotOf(page) !in m
  }

  /** The page whose position page k of v is recorded at. */
  function RecordSlot(v: Region, k: nat): nat {
    (v.offset + GroupHead(k)) / L2_ENTRIES * L2_ENTRIES + (v.offset + k) % L2_ENTRIES
  }

  /** The table indexes of a page's address, which wraps at 2^32 bytes. */
  lemma IndexesOfPage(page: nat)
    ensures L1Index(page * PAGE_SIZE % WORD) == page / L2_ENTRIES % L1_ENTRIES
    ensures L2Index(page * PAGE_SIZE % WORD) == page % L2_ENTRIES
  {
    hide L1Index, L2Index;
    LowPages(page);
    LowIndexes(page % 0x10_0000);
    IndexesOfLow(page);
  }

  lemma LowPages(page: nat)
    ensures page * PAGE_SIZE % WORD == page % 0x10_0000 * PAGE_SIZE
  {
    DivModUnique(page * PAGE_SIZE, WORD, page / 0x10_0000, page % 0x10_0000 * PAGE_SIZE);
  }

  lemma LowIndexes(low: nat)
    ensures L1Index(low * PAGE_SIZE) == low / L2_ENTRIES % L1_ENTRIES
    ensures L2Index(low * PAGE_SIZE) == low % L2_ENTRIES
  {
    DivModUnique(low * PAGE_SIZE, PAGE_SIZE, low, 0);
    DivModUnique(low * PAGE_SIZE, SECTION_SIZE, low / L2_ENTRIES, low % L2_ENTRIES * PAGE_SIZE);
  }

  lemma IndexesOfLow(page: nat)
    ensures page % 0x10_0000 / L2_ENTRIES % L1_ENTRIES == page / L2_ENTRIES % L1_ENTRIES
    ensures page % 0x10_0000 % L2_ENTRIES == page % L2_ENTRIES
  {
    var high, low := page / 0x10_0000, page % 0x10_0000;
    DivModUnique(page, L2_ENTRIES, high * 0x1000 + low / L2_ENTRIES, low % L2_ENTRIES);
    var group := low / L2_ENTRIES;
    DivModUnique(high * 0x1000 + group, L1_ENTRIES, high * 4 + group / L1_ENTRIES, group % L1_ENTRIES);
  }

  lemma SlotSplit(group: int, j: nat)
    requires j < L2_ENTRIES
    ensures (group * L2_ENTRIES + j) % SLOTS == group % L1_ENTRIES * L2_ENTRIES + j
  {
  }

  lemma RecordSlotIs(v: Region, p: Region, k: nat)
    requires k < v.length
    ensures WriteFor(v, p, k).Slot() == SlotOf(RecordSlot(v, k)) < SLOTS
  {
    var head := v.offset + GroupHead(k);
    IndexesOfPage(head);
    IndexesOfPage(v.offset + k);
    SlotSplit(head / L2_ENTRIES, (v.offset + k) % L2_ENTRIES);
  }

  lemma HeadGroup(o: nat, k: nat)
    ensures (o + GroupHead(k)) / L2_ENTRIES == o / L2_ENTRIES + k / L2_ENTRIES
  {
    assert GroupHead(k) == k / L2_ENTRIES * L2_ENTRIES;
  }

  lemma SameResidue(o: nat, j: nat, k: nat)
    requires j < k && j / L2_ENTRIES == k / L2_ENTRIES
    ensures (o + j) % L2_ENTRIES != (o + k) % L2_ENTRIES
  {
    assert k - j < L2_ENTRIES;
  }

  lemma SameGroupIndex(g: nat, j: nat, k: nat)
    requires j < L1_ENTRIES && k < L1_ENTRIES && (g + j) % L1_ENTRIES == (g + k) % L1_ENTRIES
    ensures j == k
  {
  }

  lemma RecordSlotSplit(v: Region, k: nat)
    ensures SlotOf(RecordSlot(v, k))
         == (v.offset / L2_ENTRIES + k / L2_ENTRIES) % L1_ENTRIES * L2_ENTRIES + (v.offset + k) % L2_ENTRIES
  {
    HeadGroup(v.offset, k);
    SlotSplit(v.offset / L2_ENTRIES + k / L2_ENTRIES, (v.offset + k) % L2_ENTRIES);
  }

  lemma RecordSlotsDiffer(v: Region, j: nat, k: nat)
    requires j < k < SLOTS
    ensures SlotOf(RecordSlot(v, j)) != SlotOf(RecordSlot(v, k))
  {
    hide SlotOf, RecordSlot;
    RecordSlotSplit(v, j);
    RecordSlotSplit(v, k);
    if SlotOf(RecordSlot(v, j)) == SlotOf(RecordSlot(v, k)) {
      SameGroupIndex(v.offset / L2_ENTRIES, j / L2_ENTRIES, k / L2_ENTRIES);
      SameResidue(v.offset, j, k);
    }
  }

  lemma WritesForDiffer(v: Region, p: Region)
    requires v.length <= SLOTS
    ensures SlotsDiffer(WritesFor(v, p))
  {
    var ws := WritesFor(v, p);
    forall j, k | 0 <= j < k < |ws| ensures ws[j].Slot() != ws[k].Slot() {
      RecordSlotIs(v, p, j);
      RecordSlotIs(v, p, k);
      RecordSlotsDiffer(v, j, k);
    }
  }

  /** The number of groups that the pages of a region are recorded in. */
  function Groups(length: nat): nat {
    (length + (L2_ENTRIES - 1)) / L2_ENTRIES
  }

  lemma {:induction false} HeadsOfRegion(v: Region, p: Region, k: nat)
    requires k <= v.length
    ensures Heads(WritesFor(v, p), k) == Groups(v.length) - Groups(k)
    decreases v.length - k
  {
    if k < v.length {
      HeadsOfRegion(v, p, k + 1);
      NextGroup(k);
    }
  }

  lemma NextGroup(k: nat)
    ensures Groups(k + 1) == Groups(k) + if k % L2_ENTRIES == 0 then 1 else 0
  {
  }

  /** The region stays within the reach of the L1 entry its groups are recorded under. */
  predicate StaysInGroups(v: Region) {
    v.offset % L2_ENTRIES == 0 || v.offset % L2_ENTRIES + v.length <= L2_ENTRIES
  }

  /** A naturally aligned block always does. */
  lemma BlockStaysInGroups(v: Region, d: nat)
    requires Block(v, d)
    ensures StaysInGroups(v)
  {
    assert Pow2(8) == L2_ENTRIES by { Pow2Values(); }
    if d >= 8 {
      Pow2Divides(v.offset, 8, d);
    } else {
      SmallBlockInGroup(v.offset, d, 8);
    }
  }

  lemma SmallBlockInGroup(o: nat, d: nat, e: nat)
    requires d <= e && o % Pow2(d) == 0
    ensures o % Pow2(e) + Pow2(d) <= Pow2(e)
  {
    MultipleHasNoRemainder(1, Pow2(e));
    Pow2Divides(Pow2(e), d, e);
    MultipleInMultiple(o, Pow2(d), Pow2(e));
  }

  lemma MultipleOfMultiple(x: nat, m: nat, n: nat)
    requires m > 0 && n > 0 && n % m == 0 && x % n == 0
    ensures x % m == 0
  {
    var q, c := x / n, n / m;
    assert n == c * m;
    assert x == (q * c) * m;
    MultipleHasNoRemainder(q * c, m);
  }

  lemma RemainderKeepsMultiple(o: nat, n: nat, m: nat)
    requires n > 0 && m > 0 && n % m == 0 && o % m == 0
    ensures o % n % m == 0
  {
    var floor := o - o % n;
    FloorIsMultiple(o, n);
    MultipleOfMultiple(floor, m, n);
    SumOfMultiples(o, floor, m);
  }

  lemma MultipleInMultiple(o: nat, m: nat, n: nat)
    requires m > 0 && n > 0 && n % m == 0 && o % m == 0
    ensures o % n + m <= n
  {
    RemainderKeepsMultiple(o, n, m);
    MultiplesApart(o % n, n, m);
  }

  lemma InGroupsSlot(v: Region, k: nat)
    requires k < v.length && StaysInGroups(v)
    ensures RecordSlot(v, k) == v.offset + k
  {
    HeadGroup(v.offset, k);
    if v.offset % L2_ENTRIES == 0 {
      assert (v.offset + k) / L2_ENTRIES == v.offset / L2_ENTRIES + k / L2_ENTRIES;
    } else {
      assert k / L2_ENTRIES == 0;
      assert (v.offset + k) / L2_ENTRIES == v.offset / L2_ENTRIES;
    }
  }

  lemma PageAddressExact(p: Region, k: nat)
    requires p.offset + k < SLOTS
    ensures PageAddress(PageEntry(p.PagePtr(k))) == (p.offset + k) * PAGE_SIZE
  {
    assert p.PagePtr(k) == (p.offset + k) * PAGE_SIZE;
    PageEntryRoundTrip(p.PagePtr(k));
  }

  /** The translations after page regions v and p were recorded where the code records them. */
  function RecordedMap(m: map<nat, nat>, v: Region, p: Region): map<nat, nat> {
    WrittenMap(m, WritesFor(v, p), 0)
  }

  /**
   A region that stays in its groups is recorded exactly: each of its pages is backed by
   the page beside it, and no other translation changes.
   */
  lemma RecordedExactly(m: map<nat, nat>, v: Region, p: Region)
    requires v.length <= SLOTS && p.offset + v.length <= SLOTS && StaysInGroups(v)
    ensures RecordedMap(m, v, p) == Mapped(m, v, p)
  {
    forall s: nat
      ensures s in RecordedMap(m, v, p) <==> s in Mapped(m, v, p)
      ensures s in Mapped(m, v, p) ==> RecordedMap(m, v, p)[s] == Mapped(m, v, p)[s]
    {
      RecordedExactlyAt(m, v, p, s);
    }
  }

  lemma RecordedExactlyAt(m: map<nat, nat>, v: Region, p: Region, s: nat)
    requires v.length <= SLOTS && p.offset + v.length <= SLOTS && StaysInGroups(v)
    ensures s in RecordedMap(m, v, p) <==> Takes(v, s) || s in m
    ensures s in RecordedMap(m, v, p) ==>
              RecordedMap(m, v, p)[s] == if Takes(v, s) then BackingAddress(v, p, PageAt(v, s)) else m[s]
  {
    var ws := WritesFor(v, p);
    WritesForDiffer(v, p);
    WrittenMapAt(m, ws, 0, s);
    if Takes(v, s) {
      var k := IndexIn(v, s);
      RecordSlotIs(v, p, k);
      InGroupsSlot(v, k);
      SlotOfIndex(v, s);
      PageAddressExact(p, k);
      assert ws[k].Slot() == s;
    } else {
      forall j | 0 <= j < |ws| ensures ws[j].Slot() != s {
        RecordSlotIs(v, p, j);
        InGroupsSlot(v, j);
        IndexOfSlot(v, j);
      }
      assert Misses(ws, 0, s);
    }
  }

  /** Only page k + 256 can be recorded at the first page k past the group of an unaligned region. */
  lemma StraddlerSlot(v: Region, k: nat, j: nat)
    requires v.offset % L2_ENTRIES != 0 && k == L2_ENTRIES - v.offset % L2_ENTRIES
    requires j < SLOTS && SlotOf(RecordSlot(v, j)) == SlotOf(v.offset + k)
    ensures j == k + L2_ENTRIES
  {
    hide RecordSlot;
    RecordSlotSplit(v, j);
    var g := v.offset / L2_ENTRIES;
    assert v.offset + k == (g + 1) * L2_ENTRIES;
    SlotSplit(g + 1, 0);
    assert (v.offset + j) % L2_ENTRIES == 0 && (g + j / L2_ENTRIES) % L1_ENTRIES == (g + 1) % L1_ENTRIES;
    SameGroupIndex(g, j / L2_ENTRIES, 1);
  }

  lemma StraddlerMistranslated(m: map<nat, nat>, v: Region, p: Region)
    requires v.length <= SLOTS && p.offset + v.length <= SLOTS
    requires Untranslated(m, v) && !StaysInGroups(v)
    ensures !Translates(RecordedMap(m, v, p), v, p)
  {
    var ws, r := WritesFor(v, p), RecordedMap(m, v, p);
    var k := L2_ENTRIES - v.offset % L2_ENTRIES;
    var page := v.offset + k;
    var s := SlotOf(page);
    assert v.Has(page) && BackingAddress(v, p, page) == (p.offset + k) * PAGE_SIZE;
    WritesForDiffer(v, p);
    WrittenMapAt(m, ws, 0, s);
    if k + L2_ENTRIES < v.length && ws[k + L2_ENTRIES].Slot() == s {
      PageAddressExact(p, k + L2_ENTRIES);
      assert r[s] == (p.offset + k + L2_ENTRIES) * PAGE_SIZE;
    } else {
      forall j | 0 <= j < |ws| ensures ws[j].Slot() != s {
        RecordSlotIs(v, p, j);
        if SlotOf(RecordSlot(v, j)) == s {
          StraddlerSlot(v, k, j);
        }
      }
      assert Misses(ws, 0, s);
      assert s !in r;
    }
  }

  /**
   A region of untranslated pages is translated correctly by its recording if and only
   if it stays in its groups: an unaligned region that crosses a 1 MiB boundary is
   written into the wrong second-level table.
   */
  lemma RecordingCorrectIffInGroups(m: map<nat, nat>, v: Region, p: Region)
    requires v.length <= SLOTS && p.offset + v.length <= SLOTS
    requires Untranslated(m, v)
    ensures Translates(RecordedMap(m, v, p), v, p) <==> StaysInGroups(v)
  {
    if StaysInGroups(v) {
      RecordedExactly(m, v, p);
      forall page: nat | v.Has(page)
        ensures SlotOf(page) in RecordedMap(m, v, p)
        ensures RecordedMap(m, v, p)[SlotOf(page)] == BackingAddress(v, p, page)
      {
        TakesIsSlot(v, page);
      }
    } else {
      StraddlerMistranslated(m, v, p);
    }
  }

  // ---------------------------------------------- how a recording ends, exactly

  /** The second-level tables that the writes from k up to n take from the pool. */
  function NewTables(t: Tables, ws: seq<Write>, k: nat, n: nat): nat
    requires |t.l1| == L1_ENTRIES && ValidWrites(ws) && n <= |ws|
    decreases n - k
  {
    if k >= n then 0 else TableFor(t, ws[k]) + NewTables(t, ws, k + 1, n)
  }

  lemma {:induction false} SameNewTables(t: Tables, t': Tables, ws: seq<Write>, k: nat, n: nat)
    requires |t.l1| == |t'.l1| == L1_ENTRIES && ValidWrites(ws) && n <= |ws|
    requires forall j | k <= j < n && ws[j].head :: t'.l1[ws[j].i] == t.l1[ws[j].i]
    ensures NewTables(t', ws, k, n) == NewTables(t, ws, k, n)
    decreases n - k
  {
    if k < n {
      SameNewTables(t, t', ws, k + 1, n);
    }
  }

  /** The writes from k up to n go to different free positions, and no two head the same L1 entry. */
  ghost predicate FreeUpTo(m: map<nat, nat>, ws: seq<Write>, k: nat, n: nat) {
    && k <= n <= |ws|
    && (forall j | k <= j < n :: ws[j].Slot() !in m)
    && (forall i, j | k <= i < j < n :: ws[i].Slot() != ws[j].Slot())
    && (forall i, j | k <= i < j < n && ws[i].head && ws[j].head :: ws[i].i != ws[j].i)
  }

  /** Position n is taken: before the recording, or by one of the writes from k on. */
  ghost predicate TakenAt(m: map<nat, nat>, ws: seq<Write>, k: nat, n: nat) {
    n < |ws| ==> ws[n].Slot() in m || exists j | k <= j < n :: ws[j].Slot() == ws[n].Slot()
  }

  /** A run of writes stops where the pool runs out, or else at the first position that is taken. */
  lemma {:induction false} RecordWritesOutcome(t: Tables, ws: seq<Write>, k: nat, n: nat)
    requires Consistent(t) && ValidWrites(ws) && Ready(t, ws, k)
    requires FreeUpTo(MapOf(t), ws, k, n) && TakenAt(MapOf(t), ws, k, n)
    ensures RecordWrites(t, ws, k).outcome
         == if (t.used + NewTables(t, ws, k, n)) * L2_ENTRIES > |t.l2| then NoTable
            else if n < |ws| then AlreadyRecorded else Recorded
    decreases n - k
  {
    hide MapOf, RecordOne, TypeOf;
    if k < |ws| {
      RecordOneKeeps(t, ws[k]);
      var one := RecordOne(t, ws[k]);
      if k < n && one.outcome == Recorded {
        SameNewTables(t, one.tables, ws, k + 1, n);
        RecordWritesOutcome(one.tables, ws, k + 1, n);
      }
    }
  }

  /** The position that page k of a region is walked to. */
  function SlotAt(v: Region, k: nat): nat {
    SlotOf(v.offset + k)
  }

  /** How many pages of v, from page k on, are walked to free positions before one is not. */
  function FreePages(m: map<nat, nat>, v: Region, k: nat): (n: nat)
    requires k <= v.length
    ensures k <= n <= v.length
    ensures forall j: nat | k <= j < n :: SlotAt(v, j) !in m
    ensures k <= SLOTS ==> n <= SLOTS
    ensures n < v.length ==> SlotAt(v, n) in m || n >= SLOTS
    decreases v.length - k
  {
    if k == v.length || k >= SLOTS || SlotAt(v, k) in m then k else FreePages(m, v, k + 1)
  }

  lemma FreePagesAll(m: map<nat, nat>, v: Region)
    ensures FreePages(m, v, 0) == v.length <==> Untranslated(m, v) && v.length <= SLOTS
  {
    var n := FreePages(m, v, 0);
    if n == v.length {
      forall page: nat | v.Has(page) ensures SlotOf(page) !in m {
        assert SlotAt(v, page - v.offset) !in m;
      }
    }
    assert n < v.length ==> v.Has(v.offset + n);
  }

  /** The pool runs out of second-level tables before the recording of v meets a taken position. */
  predicate TablesRunOut(t: Tables, v: Region)
    requires Consistent(t)
  {
    WritesForValid(v, v);
    (t.used + NewTables(t, WritesFor(v, v), 0, FreePages(MapOf(t), v, 0))) * L2_ENTRIES > |t.l2|
  }

  /** The tables taken do not depend on what backs the region. */
  lemma {:induction false} BackingTakesNoTables(t: Tables, v: Region, p: Region, k: nat, n: nat)
    requires Consistent(t) && n <= v.length && ValidWrites(WritesFor(v, v)) && ValidWrites(WritesFor(v, p))
    ensures NewTables(t, WritesFor(v, p), k, n) == NewTables(t, WritesFor(v, v), k, n)
    decreases n - k
  {
    if k < n {
      BackingTakesNoTables(t, v, p, k + 1, n);
    }
  }

  /** The writes of a region that stays in its groups are free as its pages are. */
  lemma WritesFreeUpTo(m: map<nat, nat>, v: Region, p: Region)
    requires StaysInGroups(v)
    ensures var n := FreePages(m, v, 0);
            FreeUpTo(m, WritesFor(v, p), 0, n) && TakenAt(m, WritesFor(v, p), 0, n)
  {
    hide SlotOf, RecordSlot, WriteFor, StaysInGroups;
    var ws, n := WritesFor(v, p), FreePages(m, v, 0);
    forall k: nat | k < v.length ensures ws[k].Slot() == SlotAt(v, k) == SlotOf(RecordSlot(v, k)) {
      RecordSlotIs(v, p, k);
      InGroupsSlot(v, k);
    }
    forall i: nat, j: nat | i < j < n
      ensures ws[i].Slot() != ws[j].Slot() && (ws[i].head && ws[j].head ==> ws[i].i != ws[j].i)
    {
      RecordSlotsDiffer(v, i, j);
      if ws[i].head && ws[j].head {
        HeadsDiffer(v, p, i, j);
      }
    }
    if SLOTS == n < v.length {
      AroundTheTable(v.offset);
      assert ws[0].Slot() == ws[n].Slot();
    }
  }

  lemma AroundTheTable(page: nat)
    ensures SlotOf(page + SLOTS) == SlotOf(page)
  {
  }

  lemma HeadsDiffer(v: Region, p: Region, i: nat, j: nat)
    requires i < j < SLOTS && WriteFor(v, p, i).head && WriteFor(v, p, j).head
    ensures WriteFor(v, p, i).i != WriteFor(v, p, j).i
  {
    IndexesOfPage(v.offset + i);
    IndexesOfPage(v.offset + j);
    var g := v.offset / L2_ENTRIES;
    assert (v.offset + i) / L2_ENTRIES == g + i / L2_ENTRIES && (v.offset + j) / L2_ENTRIES == g + j / L2_ENTRIES;
    if (g + i / L2_ENTRIES) % L1_ENTRIES == (g + j / L2_ENTRIES) % L1_ENTRIES {
      SameGroupIndex(g, i / L2_ENTRIES, j / L2_ENTRIES);
    }
  }

  /** Each page of v is translated to the page of p beside it, as far as the field of an entry reaches. */
  ghost predicate Placed(m: map<nat, nat>, v: Region, p: Region) {
    forall page: nat | v.Has(page) ::
      SlotOf(page) in m && m[SlotOf(page)] == SlotAt(p, page - v.offset) * PAGE_SIZE
  }

  /**
   What try_record_page_in_l1 does with naturally aligned regions.  Unless second-level
   tables run out first, it panics if and only if some page of the virtual region is walked
   to a position that is translated already, or the region is longer than the table;
   otherwise it succeeds on the one-to-one mapping.
   */
  lemma RecordPagesExact(t: Tables, v: Region, p: Region)
    requires Consistent(t) && StaysInGroups(v)
    ensures var r := RecordPages(t, v, p);
            && Consistent(r.tables)
            && r.outcome == (if TablesRunOut(t, v) then NoTable
                             else if Untranslated(MapOf(t), v) && v.length <= SLOTS then Recorded
                             else AlreadyRecorded)
            && (r.outcome == Recorded ==> Placed(MapOf(r.tables), v, p))
            && (r.outcome == Recorded && p.offset + v.length <= SLOTS ==> MapOf(r.tables) == Mapped(MapOf(t), v, p))
            && (r.outcome == Recorded && NoEmptyTable(t) ==> NoEmptyTable(r.tables))
  {
    hide RecordWrites, SlotOf, MapOf, Mapped, WrittenMap, NoEmptyTable, Consistent, NewTables, Placed;
    var ws, n := WritesFor(v, p), FreePages(MapOf(t), v, 0);
    WritesForValid(v, p);
    WritesForValid(v, v);
    WritesFreeUpTo(MapOf(t), v, p);
    RecordWritesOutcome(t, ws, 0, n);
    BackingTakesNoTables(t, v, p, 0, n);
    RecordWritesKeeps(t, ws, 0);
    FreePagesAll(MapOf(t), v);
    if v.length <= SLOTS {
      WritesForDiffer(v, p);
      RecordWritesExact(t, ws, 0);
      RecordedPlaces(MapOf(t), v, p);
      if p.offset + v.length <= SLOTS {
        RecordedExactly(MapOf(t), v, p);
      }
    }
  }

  lemma RecordedPlaces(m: map<nat, nat>, v: Region, p: Region)
    requires StaysInGroups(v) && v.length <= SLOTS
    ensures Placed(WrittenMap(m, WritesFor(v, p), 0), v, p)
  {
    hide SlotOf, StaysInGroups, WriteFor;
    var ws := WritesFor(v, p);
    WritesForDiffer(v, p);
    forall page: nat | v.Has(page)
      ensures var s, r := SlotOf(page), WrittenMap(m, ws, 0); s in r && r[s] == SlotAt(p, page - v.offset) * PAGE_SIZE
    {
      var k := page - v.offset;
      RecordSlotIs(v, p, k);
      InGroupsSlot(v, k);
      WrittenMapAt(m, ws, 0, SlotOf(page));
      assert ws[k].Slot() == SlotOf(page);
      PageAddressWraps(v, p, k);
    }
  }

  lemma PageAddressWraps(v: Region, p: Region, k: nat)
    ensures PageAddress(WriteFor(v, p, k).entry) == SlotOf(p.offset + k) * PAGE_SIZE
  {
    hide PageEntry, PageAddress;
    var page := p.offset + k;
    LowPages(page);
    PageEntryAddress(page % 0x10_0000);
    LowSlot(page);
  }

  lemma LowSlot(page: nat)
    ensures page % 0x10_0000 % SLOTS == page % SLOTS
  {
    var low := page % 0x10_0000;
    DivModUnique(page, SLOTS, page / 0x10_0000 * 4 + low / SLOTS, low % SLOTS);
  }

  lemma PageEntryAddress(low: nat)
    requires low < 0x10_0000
    ensures PageAddress(PageEntry(low * PAGE_SIZE)) == low % SLOTS * PAGE_SIZE
  {
    var q := low * PAGE_SIZE / 0x400 % 0x10_0000;
    assert low * PAGE_SIZE / 0x400 == 4 * low;
    assert q == 4 * (low % SLOTS);
    assert PageEntry(low * PAGE_SIZE) == q * 0x1000 + 0x32;
    DivModUnique(q * 0x1000 + 0x32, 0x1000, q, 0x32);
  }

  /** The pool has a second-level table for every group of a region. */
  predicate TablesLeftFor(t: Tables, length: nat) {
    (t.used + Groups(length)) * L2_ENTRIES <= |t.l2|
  }

  /** Then it does not run out. */
  lemma TablesLeftLast(t: Tables, v: Region)
    requires Consistent(t) && TablesLeftFor(t, v.length)
    ensures !TablesRunOut(t, v)
  {
    WritesForValid(v, v);
    var ws, n := WritesFor(v, v), FreePages(MapOf(t), v, 0);
    NewTablesAtMost(t, ws, 0, n);
    HeadsOfRegion(v, v, 0);
  }

  lemma {:induction false} NewTablesAtMost(t: Tables, ws: seq<Write>, k: nat, n: nat)
    requires |t.l1| == L1_ENTRIES && ValidWrites(ws) && n <= |ws|
    ensures NewTables(t, ws, k, n) <= Heads(ws, k)
    decreases n - k
  {
    if k < n {
      NewTablesAtMost(t, ws, k + 1, n);
    }
  }

  /** However the recording of pages ends, the table stays consistent and takes one slot a group. */
  lemma RecordPagesKeeps(t: Tables, v: Region, p: Region)
    requires Consistent(t)
    ensures var r := RecordPages(t, v, p).tables;
            Consistent(r) && r.used <= t.used + Groups(v.length) && |r.l2| == |t.l2|
  {
    WritesForValid(v, p);
    RecordWritesKeeps(t, WritesFor(v, p), 0);
    HeadsOfRegion(v, p, 0);
  }

  // ---------------------------------------------------------- access rights

  /** Every entry in use is one that everyone may access, at both levels, with nothing else set. */
  ghost predicate OpenToEveryone(t: Tables) {
    && (forall i | 0 <= i < |t.l1| :: TypeOf(t.l1[i]) == FAULT || OpenSection(t.l1[i]) || PlainPointer(t.l1[i]))
    && (forall k | 0 <= k < |t.l2| && k < t.used * L2_ENTRIES :: TypeOf(t.l2[k]) == FAULT || OpenPage(t.l2[k]))
  }

  /** The access bits that the walk to page `s` of the table finds, if it ends at a page. */
  function AccessAt(t: Tables, s: nat): Option<nat>
    requires Consistent(t) && s < SLOTS
  {
    var entry := t.l1[s / L2_ENTRIES];
    if TypeOf(entry) == SECTION then Some(SectionAccess(entry))
    else if TypeOf(entry) == L2_PTR then
      var word := t.l2[TableStart(t, entry) + s % L2_ENTRIES];
      if TypeOf(word) == FAULT then None else Some(PageAccess(word))
    else None
  }

  /** So every translated page may be accessed by everyone. */
  lemma TranslatedIsOpen(t: Tables, s: nat)
    requires Consistent(t) && OpenToEveryone(t) && s < SLOTS
    ensures AccessAt(t, s) == if s in MapOf(t) then Some(EVERYONE) else None
  {
    var entry := t.l1[s / L2_ENTRIES];
    if TypeOf(entry) == L2_PTR {
      assert IsTablePointer(t, entry);
      assert TableStart(t, entry) + s % L2_ENTRIES < t.used * L2_ENTRIES;
    }
  }

  lemma NewTableOpen(t: Tables, i: nat)
    requires Consistent(t) && OpenToEveryone(t) && i < L1_ENTRIES && (t.used + 1) * L2_ENTRIES <= |t.l2|
    ensures OpenToEveryone(NewTable(t, i))
  {
    hide L2PtrEntry, PlainPointer, OpenSection, OpenPage;
    L2PtrEntryRoundTrip(t.base + t.used * L2_TABLE_BYTES);
    var start := t.used * L2_ENTRIES;
    forall k | 0 <= k < start + L2_ENTRIES
      ensures TypeOf(NewTable(t, i).l2[k]) == FAULT || OpenPage(NewTable(t, i).l2[k])
    {
      assert NewTable(t, i).l2[k] == if k < start then t.l2[k] else 0;
    }
  }

  lemma RecordOneOpen(t: Tables, w: Write)
    requires Consistent(t) && OpenToEveryone(t) && w.i < L1_ENTRIES && w.j < L2_ENTRIES && OpenPage(w.entry)
    requires !w.head ==> TypeOf(t.l1[w.i]) == L2_PTR
    ensures OpenToEveryone(RecordOne(t, w).tables)
  {
    hide OpenToEveryone, TypeOf, OpenPage, NewTable, WritePage;
    EnterL1Keeps(t, w.i);
    if w.head && TypeOf(t.l1[w.i]) == FAULT && (t.used + 1) * L2_ENTRIES <= |t.l2| {
      NewTableOpen(t, w.i);
    }
    var entered := if w.head then EnterL1(t, w.i) else Result(t, Recorded);
    if entered.outcome == Recorded {
      WritePageOpen(entered.tables, w.i, w.j, w.entry);
    }
  }

  lemma WritePageOpen(t: Tables, i: nat, j: nat, entry: nat)
    requires Consistent(t) && OpenToEveryone(t) && OpenPage(entry)
    requires i < L1_ENTRIES && TypeOf(t.l1[i]) == L2_PTR && j < L2_ENTRIES
    ensures OpenToEveryone(WritePage(t, i, j, entry).tables)
  {
    hide TypeOf, OpenPage, OpenSection, PlainPointer;
  }

  ghost predicate OpenWrites(ws: seq<Write>) {
    forall k | 0 <= k < |ws| :: OpenPage(ws[k].entry)
  }

  lemma {:induction false} RecordWritesOpen(t: Tables, ws: seq<Write>, k: nat)
    requires Consistent(t) && ValidWrites(ws) && Ready(t, ws, k) && OpenToEveryone(t) && OpenWrites(ws)
    ensures OpenToEveryone(RecordWrites(t, ws, k).tables)
    decreases |ws| - k
  {
    hide OpenToEveryone, RecordOne, OpenPage;
    if k < |ws| {
      RecordOneOpen(t, ws[k]);
      RecordOneKeeps(t, ws[k]);
      if RecordOne(t, ws[k]).outcome == Recorded {
        RecordWritesOpen(RecordOne(t, ws[k]).tables, ws, k + 1);
      }
    }
  }

  /** However the recording of pages ends, everyone may access what the table translates. */
  lemma RecordPagesOpen(t: Tables, v: Region, p: Region)
    requires Consistent(t) && OpenToEveryone(t)
    ensures OpenToEveryone(RecordPages(t, v, p).tables)
  {
    hide OpenToEveryone, OpenPage, PageEntry, RecordWrites;
    var ws := WritesFor(v, p);
    WritesForValid(v, p);
    forall k | 0 <= k < |ws| ensures OpenPage(ws[k].entry) {
      PageEntryRoundTrip(p.PagePtr(k));
    }
    RecordWritesOpen(t, ws, 0);
  }

  lemma {:induction false} RecordSectionWritesOpen(t: Tables, ws: seq<SectionWrite>, k: nat)
    requires |t.l1| == L1_ENTRIES && ValidSections(ws) && OpenToEveryone(t)
    requires forall j | 0 <= j < |ws| :: OpenSection(ws[j].entry)
    ensures OpenToEveryone(RecordSectionWrites(t, ws, k).tables)
    decreases |ws| - k
  {
    hide TypeOf, OpenPage, OpenSection, PlainPointer;
    if k < |ws| && TypeOf(t.l1[ws[k].i]) == FAULT {
      RecordSectionWritesOpen(t.(l1 := t.l1[ws[k].i := ws[k].entry]), ws, k + 1);
    }
  }

  lemma RecordSectionsOpen(t: Tables, v: Region, p: Region)
    requires |t.l1| == L1_ENTRIES && OpenToEveryone(t)
    ensures OpenToEveryone(RecordSections(t, v, p).tables)
  {
    hide OpenToEveryone, OpenSection, SectionEntry, RecordSectionWrites;
    var ws := SectionWritesFor(v, p);
    SectionWritesForValid(v, p);
    forall k | 0 <= k < |ws| ensures OpenSection(ws[k].entry) {
      SectionEntryRoundTrip((p.offset + k) * SECTION_SIZE % WORD);
    }
    RecordSectionWritesOpen(t, ws, 0);
  }

  // ------------------------------------------------------------- sections

  /** The pages of a region of sections. */
  function SectionPages(v: Region): Region {
    Region(v.offset * L2_ENTRIES, v.length * L2_ENTRIES)
  }

  /** The translation that a section entry gives page s. */
  function SectionBacking(entry: nat, s: nat): nat {
    SectionAddress(entry) + s % L2_ENTRIES * PAGE_SIZE
  }

  /** The translations m, with the 256 pages of L1 entry i translated by a section entry. */
  function WithSection(m: map<nat, nat>, w: SectionWrite): map<nat, nat> {
    m + map s: nat | s < SLOTS && s / L2_ENTRIES == w.i :: SectionBacking(w.entry, s)
  }

  lemma SetSectionLookup(t: Tables, w: SectionWrite)
    requires Consistent(t) && w.i < L1_ENTRIES && TypeOf(t.l1[w.i]) == FAULT && TypeOf(w.entry) == SECTION
    ensures var t' := t.(l1 := t.l1[w.i := w.entry]);
            && Consistent(t')
            && (forall s: nat | s < SLOTS && s / L2_ENTRIES != w.i :: Lookup(t', s) == Lookup(t, s))
            && (forall s: nat | s < SLOTS && s / L2_ENTRIES == w.i ::
                  Lookup(t', s) == Some(SectionBacking(w.entry, s)) && Lookup(t, s) == None)
  {
    var t' := t.(l1 := t.l1[w.i := w.entry]);
    forall k | 0 <= k < L1_ENTRIES && k != w.i
      ensures t'.l1[k] == t.l1[k] && TableSlot(t', t'.l1[k]) == TableSlot(t, t.l1[k])
      ensures IsTablePointer(t, t.l1[k]) ==> IsTablePointer(t', t'.l1[k])
    {
    }
  }

  lemma SetSectionMaps(t: Tables, w: SectionWrite)
    requires Consistent(t) && w.i < L1_ENTRIES && TypeOf(t.l1[w.i]) == FAULT && TypeOf(w.entry) == SECTION
    ensures var t' := t.(l1 := t.l1[w.i := w.entry]);
            && Consistent(t') && MapOf(t') == WithSection(MapOf(t), w)
            && (forall r | r in MapOf(t) :: r in MapOf(t'))
  {
    SetSectionLookup(t, w);
    var t' := t.(l1 := t.l1[w.i := w.entry]);
    forall s: nat
      ensures s in MapOf(t') <==> s in WithSection(MapOf(t), w)
      ensures s in MapOf(t') ==> MapOf(t')[s] == WithSection(MapOf(t), w)[s]
      ensures s in MapOf(t) ==> s in MapOf(t')
    {
    }
  }

  /** Writing one section entry maps its pages and makes no empty table. */
  lemma SetSectionKeeps(t: Tables, w: SectionWrite)
    requires Consistent(t) && w.i < L1_ENTRIES && TypeOf(t.l1[w.i]) == FAULT && TypeOf(w.entry) == SECTION
    ensures var t' := t.(l1 := t.l1[w.i := w.entry]);
            && Consistent(t') && MapOf(t') == WithSection(MapOf(t), w)
            && (NoEmptyTable(t) ==> NoEmptyTable(t'))
  {
    SetSectionMaps(t, w);
    if NoEmptyTable(t) {
      StillNoEmptyTable(t, t.(l1 := t.l1[w.i := w.entry]), w.i, 0);
    }
  }

  /** In a table without empty second-level tables, an entry in use translates a page. */
  lemma EntryInUse(t: Tables, at: nat) returns (s: nat)
    requires Consistent(t) && NoEmptyTable(t) && at < L1_ENTRIES && TypeOf(t.l1[at]) != FAULT
    ensures s < SLOTS && s / L2_ENTRIES == at && s in MapOf(t)
  {
    if TypeOf(t.l1[at]) == SECTION {
      s := at * L2_ENTRIES;
      assert s / L2_ENTRIES == at;
      assert Lookup(t, s).Some?;
    } else {
      assert SectionInUse(t, at);
      s :| 0 <= s < SLOTS && s / L2_ENTRIES == at && s in MapOf(t);
    }
  }

  function WrittenSections(m: map<nat, nat>, ws: seq<SectionWrite>, k: nat): map<nat, nat>
    decreases |ws| - k
  {
    if k >= |ws| then m else WrittenSections(WithSection(m, ws[k]), ws, k + 1)
  }

  ghost predicate SectionsDiffer(ws: seq<SectionWrite>) {
    forall j, k | 0 <= j < k < |ws| :: ws[j].i != ws[k].i
  }

  ghost predicate MissesSection(ws: seq<SectionWrite>, k: nat, i: nat) {
    forall j | k <= j < |ws| :: ws[j].i != i
  }

  lemma {:induction false} WrittenSectionsAt(m: map<nat, nat>, ws: seq<SectionWrite>, k: nat, s: nat)
    requires SectionsDiffer(ws)
    ensures var r := WrittenSections(m, ws, k);
            && (MissesSection(ws, k, s / L2_ENTRIES) ==> (s in r <==> s in m) && (s in m ==> r[s] == m[s]))
            && (s < SLOTS ==> forall j | k <= j < |ws| && ws[j].i == s / L2_ENTRIES ::
                                s in r && r[s] == SectionBacking(ws[j].entry, s))
    decreases |ws| - k
  {
    if k < |ws| {
      WrittenSectionsAt(WithSection(m, ws[k]), ws, k + 1, s);
      if ws[k].i == s / L2_ENTRIES {
        assert MissesSection(ws, k + 1, s / L2_ENTRIES);
      }
    }
  }

  /** A run of section writes succeeds exactly on free L1 entries. */
  lemma {:induction false} RecordSectionWritesExact(t: Tables, ws: seq<SectionWrite>, k: nat)
    requires Consistent(t) && ValidSections(ws) && SectionsDiffer(ws)
    ensures var r := RecordSectionWrites(t, ws, k);
            && Consistent(r.tables)
            && r.outcome
               == (if forall j | k <= j < |ws| :: TypeOf(t.l1[ws[j].i]) == FAULT then Recorded else AlreadyRecorded)
            && (r.outcome == Recorded ==> MapOf(r.tables) == WrittenSections(MapOf(t), ws, k))
            && (r.outcome == Recorded && NoEmptyTable(t) ==> NoEmptyTable(r.tables))
    decreases |ws| - k
  {
    if k < |ws| && TypeOf(t.l1[ws[k].i]) == FAULT {
      SetSectionKeeps(t, ws[k]);
      var t' := t.(l1 := t.l1[ws[k].i := ws[k].entry]);
      forall j | k < j < |ws| ensures t'.l1[ws[j].i] == t.l1[ws[j].i] {
      }
      RecordSectionWritesExact(t', ws, k + 1);
    }
  }

  /** Any run of section writes, to whatever positions, keeps the table consistent. */
  lemma {:induction false} RecordSectionWritesKeeps(t: Tables, ws: seq<SectionWrite>, k: nat)
    requires Consistent(t) && ValidSections(ws)
    ensures Consistent(RecordSectionWrites(t, ws, k).tables)
    decreases |ws| - k
  {
    if k < |ws| {
      if TypeOf(t.l1[ws[k].i]) == FAULT {
        SetSectionLookup(t, ws[k]);
        RecordSectionWritesKeeps(t.(l1 := t.l1[ws[k].i := ws[k].entry]), ws, k + 1);
      }
    }
  }

  lemma RecordSectionsKeeps(t: Tables, v: Region, p: Region)
    requires Consistent(t)
    ensures Consistent(RecordSections(t, v, p).tables)
  {
    SectionWritesForValid(v, p);
    RecordSectionWritesKeeps(t, SectionWritesFor(v, p), 0);
  }

  lemma SectionWriteIs(v: Region, p: Region, k: nat)
    requires k < v.length && p.offset + v.length <= L1_ENTRIES
    ensures SectionWriteFor(v, p, k).i == (v.offset + k) % L1_ENTRIES
    ensures SectionAddress(SectionWriteFor(v, p, k).entry) == (p.offset + k) * SECTION_SIZE
  {
    SectionNumber(v.offset + k);
    SectionEntryRoundTrip((p.offset + k) * SECTION_SIZE);
  }

  lemma SectionNumber(n: nat)
    ensures L1Index(n * SECTION_SIZE % WORD) == n % L1_ENTRIES
  {
    var low := n % 0x1000;
    DivModUnique(n * SECTION_SIZE, WORD, n / 0x1000, low * SECTION_SIZE);
    DivModUnique(low * SECTION_SIZE, SECTION_SIZE, low, 0);
    DivModUnique(n, L1_ENTRIES, n / 0x1000 * 4 + low / L1_ENTRIES, low % L1_ENTRIES);
  }

  /** How many sections after the first of v L1 entry i comes, round the table. */
  function SectionIndexIn(v: Region, i: nat): nat {
    (i - v.offset) % L1_ENTRIES
  }

  lemma SectionIndexOf(v: Region, s: nat)
    requires s < SLOTS
    ensures IndexIn(SectionPages(v), s) == SectionIndexIn(v, s / L2_ENTRIES) * L2_ENTRIES + s % L2_ENTRIES
    ensures Takes(SectionPages(v), s) <==> SectionIndexIn(v, s / L2_ENTRIES) < v.length
  {
    var q, j := s / L2_ENTRIES - v.offset, s % L2_ENTRIES;
    assert s - SectionPages(v).offset == q * L2_ENTRIES + j;
    SlotSplit(q, j);
  }

  lemma SectionAt(v: Region, i: nat, k: nat)
    requires i < L1_ENTRIES && k < L1_ENTRIES
    ensures (v.offset + k) % L1_ENTRIES == i <==> SectionIndexIn(v, i) == k
  {
  }

  lemma SectionWritesDiffer(v: Region, p: Region)
    requires v.length <= L1_ENTRIES && p.offset + v.length <= L1_ENTRIES
    ensures SectionsDiffer(SectionWritesFor(v, p))
  {
    var ws := SectionWritesFor(v, p);
    forall j, k | 0 <= j < k < |ws| ensures ws[j].i != ws[k].i {
      SectionWriteIs(v, p, j);
      SectionWriteIs(v, p, k);
      SectionAt(v, ws[j].i, j);
      SectionAt(v, ws[j].i, k);
    }
  }

  lemma SectionsMapped(m: map<nat, nat>, v: Region, p: Region)
    requires v.length <= L1_ENTRIES && p.offset + v.length <= L1_ENTRIES
    ensures WrittenSections(m, SectionWritesFor(v, p), 0) == Mapped(m, SectionPages(v), SectionPages(p))
  {
    var r := WrittenSections(m, SectionWritesFor(v, p), 0);
    forall s: nat
      ensures s in r <==> s in Mapped(m, SectionPages(v), SectionPages(p))
      ensures s in r ==> r[s] == Mapped(m, SectionPages(v), SectionPages(p))[s]
    {
      SectionsMappedAt(m, v, p, s);
    }
  }

  lemma SectionsMappedAt(m: map<nat, nat>, v: Region, p: Region, s: nat)
    requires v.length <= L1_ENTRIES && p.offset + v.length <= L1_ENTRIES
    ensures var r := WrittenSections(m, SectionWritesFor(v, p), 0);
            && (s in r <==> Takes(SectionPages(v), s) || s in m)
            && (s in r ==> r[s] == if Takes(SectionPages(v), s)
                                   then BackingAddress(SectionPages(v), SectionPages(p), PageAt(SectionPages(v), s))
                                   else m[s])
  {
    var ws := SectionWritesFor(v, p);
    SectionWritesDiffer(v, p);
    WrittenSectionsAt(m, ws, 0, s);
    var i := s / L2_ENTRIES;
    if Takes(SectionPages(v), s) {
      SectionIndexOf(v, s);
      var k := SectionIndexIn(v, i);
      SectionWriteIs(v, p, k);
      SectionAt(v, i, k);
      assert ws[k].i == i;
    } else {
      forall j | 0 <= j < |ws| ensures ws[j].i != i {
        SectionWriteIs(v, p, j);
        if s < SLOTS {
          SectionIndexOf(v, s);
          SectionAt(v, i, j);
        }
      }
      assert MissesSection(ws, 0, i);
    }
  }

  /**
   What try_record_section_in_l1 does with section regions: unequal lengths are refused;
   otherwise it maps the pages one to one, and it panics if and only if some page of the
   virtual region is walked to a position that is translated already.
   */
  lemma RecordSectionsExact(t: Tables, v: Region, p: Region)
    requires Consistent(t) && NoEmptyTable(t)
    requires p.offset + p.length <= L1_ENTRIES
    ensures var r := RecordSections(t, v, p);
            && Consistent(r.tables) && r.outcome != NoTable
            && (r.outcome == LengthMismatch <==> v.length != p.length)
            && (r.outcome == Recorded ==> MapOf(r.tables) == Mapped(MapOf(t), SectionPages(v), SectionPages(p)))
            && (r.outcome == Recorded ==> NoEmptyTable(r.tables))
            && (v.length == p.length ==> (r.outcome == AlreadyRecorded <==> !Untranslated(MapOf(t), SectionPages(v))))
  {
    if v.length == p.length {
      var ws := SectionWritesFor(v, p);
      SectionWritesForValid(v, p);
      SectionWritesDiffer(v, p);
      SectionsMapped(MapOf(t), v, p);
      RecordSectionWritesExact(t, ws, 0);
      SectionsFree(t, v, p);
    }
  }

  /** The L1 entries of v are free exactly when no page of v is translated. */
  lemma SectionsFree(t: Tables, v: Region, p: Region)
    requires Consistent(t) && NoEmptyTable(t)
    requires v.length <= L1_ENTRIES && p.offset + v.length <= L1_ENTRIES
    requires ValidSections(SectionWritesFor(v, p))
    ensures (forall j | 0 <= j < v.length :: TypeOf(t.l1[SectionWritesFor(v, p)[j].i]) == FAULT)
       <==> Untranslated(MapOf(t), SectionPages(v))
  {
    var ws := SectionWritesFor(v, p);
    if forall j | 0 <= j < v.length :: TypeOf(t.l1[ws[j].i]) == FAULT {
      forall page: nat | SectionPages(v).Has(page) ensures SlotOf(page) !in MapOf(t) {
        var k := page / L2_ENTRIES - v.offset;
        SectionOfPage(v, p, page);
        assert ws[k].i == SlotOf(page) / L2_ENTRIES;
        assert Lookup(t, SlotOf(page)) == None;
      }
    }
    if Untranslated(MapOf(t), SectionPages(v)) {
      forall j | 0 <= j < v.length ensures TypeOf(t.l1[ws[j].i]) == FAULT {
        if TypeOf(t.l1[ws[j].i]) != FAULT {
          UsedSectionTranslates(t, v, p, j);
        }
      }
    }
  }

  /** An L1 entry of v that is in use translates a page of v. */
  lemma UsedSectionTranslates(t: Tables, v: Region, p: Region, j: nat)
    requires Consistent(t) && NoEmptyTable(t)
    requires j < v.length <= L1_ENTRIES && p.offset + v.length <= L1_ENTRIES
    requires TypeOf(t.l1[SectionWriteFor(v, p, j).i]) != FAULT
    ensures !Untranslated(MapOf(t), SectionPages(v))
  {
    SectionWriteIs(v, p, j);
    var s := EntryInUse(t, SectionWriteFor(v, p, j).i);
    SectionAt(v, s / L2_ENTRIES, j);
    SectionIndexOf(v, s);
    SlotOfIndex(SectionPages(v), s);
    assert SectionPages(v).Has(PageAt(SectionPages(v), s));
  }

  /** A page of a region of sections is walked to the L1 entry of its section. */
  lemma SectionOfPage(v: Region, p: Region, page: nat)
    requires SectionPages(v).Has(page) && p.offset + v.length <= L1_ENTRIES
    ensures var k := page / L2_ENTRIES - v.offset;
            0 <= k < v.length && SectionWriteFor(v, p, k).i == SlotOf(page) / L2_ENTRIES
  {
    var k := page / L2_ENTRIES - v.offset;
    SectionWriteIs(v, p, k);
    SlotSplit(page / L2_ENTRIES, page % L2_ENTRIES);
  }
}
