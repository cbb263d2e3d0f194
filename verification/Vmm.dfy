/** The two-level page tables of kernel/mem/vmm.rs: 32-bit paging as in section
    4.3 of volume 3A of the Intel SDM.  The tables, spread over frames of
    physical memory, refine a plain map from page number to frame and flags. */
module Vmm {
  import opened Bits
  import opened Options
  import opened RadixTree
  import opened Pmm

  const SLOTS: nat := 1024

  /** A 32-bit word of physical memory. */
  type U32 = x: nat | x < WORD

  /** Physical memory as its words: frame f holds words 1024 f to 1024 f + 1023. */
  type Ram = r: seq<U32> | |r| == SLOTS * FRAMES witness seq(SLOTS * FRAMES, _ => 0)

  /** How the processor reads an entry: bit 0 is present, bits 31:12 the frame. */
  function Decode(w: U32): Option<Slot<nat>> {
    if w % 2 == 1 then Some(Slot(w / PAGE, w % PAGE)) else None
  }

  function SlotAt(words: Ram, table: int, i: nat): Option<Slot<nat>> {
    if 0 <= table < FRAMES && i < SLOTS then Decode(words[SLOTS * table + i]) else None
  }

  function View(words: Ram): Memory<nat> {
    (table, i) => SlotAt(words, table, i)
  }

  /** The translation of a page: directory entry, then table entry. */
  function Walk(m: Memory<nat>, dir: nat, page: nat): Option<Slot<nat>> {
    match m(dir, page / SLOTS)
    case None => None
    case Some(d) => m(d.frame, page % SLOTS)
  }

  ghost function PagesOf(m: Memory<nat>, dir: nat): map<nat, Slot<nat>> {
    map page: nat | page < FRAMES && Walk(m, dir, page).Some? :: Walk(m, dir, page).value
  }

  ghost function TablesOf(m: Memory<nat>, dir: nat): map<nat, int> {
    map d: nat | d < SLOTS && m(dir, d).Some? :: m(dir, d).value.frame
  }

  /** The shape of memory that every operation keeps: no frame is two tables,
      the tables in use are not free, free frames are zero-filled, and directory
      entries grant everything (so a page's rights are those of its table entry). */
  ghost predicate Shape(m: Memory<nat>, dir: nat, free: set<nat>) {
    && dir !in free
    && Separated(m, dir, 2)
    && (forall t, i | i >= SLOTS :: m(t, i) == None)
    && (forall d | m(dir, d).Some? :: m(dir, d).value.frame !in free && m(dir, d).value.rights == 7)
    && (forall f, i | f in free :: m(f, i) == None)
  }

  /** The generic trails of this tree: one slot to a table, two to a page. */
  lemma TableTrail(m: Memory<nat>, dir: nat, d: nat)
    ensures Trail(m, dir, [d]) == match m(dir, d) case None => None case Some(s) => Some([s])
  {
    TrailExtend(m, dir, [], d);
    assert [] + [d] == [d];
    assert forall s: Slot<nat> :: [] + [s] == [s];
  }

  lemma PageTrail(m: Memory<nat>, dir: nat, d: nat, i: nat)
    ensures Trail(m, dir, [d, i]) ==
      match m(dir, d)
      case None => None
      case Some(t) => match m(t.frame, i) case None => None case Some(s) => Some([t, s])
  {
    TableTrail(m, dir, d);
    TrailExtend(m, dir, [d], i);
    assert [d] + [i] == [d, i];
    assert forall t: Slot<nat>, s: Slot<nat> :: [t] + [s] == [t, s];
  }

  /** m' is m with a directory slot filled in by an empty free frame. */
  ghost predicate Links(m: Memory<nat>, m': Memory<nat>, dir: nat, free: set<nat>, d: nat, f: nat) {
    && d < SLOTS && f in free
    && AgreeExcept(m, m', dir, d)
    && m(dir, d) == None && m'(dir, d) == Some(Slot(f, 7))
  }

  /** Hanging an empty free frame below the directory changes no translation. */
  lemma LinkTable(m: Memory<nat>, m': Memory<nat>, dir: nat, free: set<nat>, d: nat, f: nat)
    requires Shape(m, dir, free) && Links(m, m', dir, free, d, f)
    ensures Shape(m', dir, free - {f})
    ensures TablesOf(m', dir) == TablesOf(m, dir)[d := f]
    ensures PagesOf(m', dir) == PagesOf(m, dir)
  {
    LinkGrafts(m, m', dir, free, d, f);
    GraftSeparated(m, m', dir, 2, [], d, Slot(f, 7));
    LinkPages(m, m', dir, d, Slot(f, 7));
  }

  lemma LinkPages(m: Memory<nat>, m': Memory<nat>, dir: nat, d: nat, s: Slot<nat>)
    requires Grafts(m, m', dir, 2, [], d, s) == true
    ensures PagesOf(m', dir) == PagesOf(m, dir)
  {
    forall page: nat
      ensures Walk(m', dir, page) == Walk(m, dir, page)
    {
      Graft(m, m', dir, 2, [], d, s, [page / SLOTS, page % SLOTS]);
      PageTrail(m, dir, page / SLOTS, page % SLOTS);
      PageTrail(m', dir, page / SLOTS, page % SLOTS);
    }
  }

  lemma LinkGrafts(m: Memory<nat>, m': Memory<nat>, dir: nat, free: set<nat>, d: nat, f: nat)
    requires Shape(m, dir, free) && Links(m, m', dir, free, d, f)
    ensures Grafts(m, m', dir, 2, [], d, Slot(f, 7))
  {
    forall q: seq<nat> | |q| < 2
      ensures TableAt(m, dir, q) != Some(f)
    {
      if |q| == 1 {
        TableTrail(m, dir, q[0]);
        assert q == [q[0]];
      }
    }
  }

  /** Writing a table entry changes the translation of that page and of no other. */
  lemma WriteEntry(m: Memory<nat>, m': Memory<nat>, dir: nat, free: set<nat>, page: nat)
    requires Shape(m, dir, free)
    requires page < FRAMES && m(dir, page / SLOTS).Some?
    requires AgreeExcept(m, m', m(dir, page / SLOTS).value.frame, page % SLOTS)
    ensures Shape(m', dir, free)
    ensures TablesOf(m', dir) == TablesOf(m, dir)
    ensures PagesOf(m', dir) ==
            match m'(m(dir, page / SLOTS).value.frame, page % SLOTS)
            case None => PagesOf(m, dir) - {page}
            case Some(s) => PagesOf(m, dir)[page := s]
  {
    var d, i := page / SLOTS, page % SLOTS;
    var t := m(dir, d).value.frame;
    TableTrail(m, dir, d);
    assert t != dir by {
      assert TableAt(m, dir, []) == Some(dir) && TableAt(m, dir, [d]) == Some(t);
    }
    LeafSeparated(m, m', dir, 2, [d], i);
    PagesWritten(m, m', dir, page);
  }

  lemma PagesWritten(m: Memory<nat>, m': Memory<nat>, dir: nat, page: nat)
    requires Separated(m, dir, 2) == true
    requires page < FRAMES && m(dir, page / SLOTS).Some?
    requires AgreeExcept(m, m', m(dir, page / SLOTS).value.frame, page % SLOTS) == true
    ensures PagesOf(m', dir) ==
            match m'(m(dir, page / SLOTS).value.frame, page % SLOTS)
            case None => PagesOf(m, dir) - {page}
            case Some(s) => PagesOf(m, dir)[page := s]
  {
    var t, i := m(dir, page / SLOTS).value.frame, page % SLOTS;
    forall other: nat
      ensures Walk(m', dir, other) == if other == page then m'(t, i) else Walk(m, dir, other)
    {
      WalkWritten(m, m', dir, page, other);
    }
  }

  lemma WalkWritten(m: Memory<nat>, m': Memory<nat>, dir: nat, page: nat, other: nat)
    requires Separated(m, dir, 2)
    requires m(dir, page / SLOTS).Some?
    requires AgreeExcept(m, m', m(dir, page / SLOTS).value.frame, page % SLOTS)
    ensures Walk(m', dir, other) ==
            if other == page then m'(m(dir, page / SLOTS).value.frame, page % SLOTS) else Walk(m, dir, other)
  {
    var d, i := page / SLOTS, page % SLOTS;
    var d', i' := other / SLOTS, other % SLOTS;
    TableTrail(m, dir, d);
    PageTrail(m, dir, d', i');
    PageTrail(m', dir, d', i');
    assert [d] + [i] == [d, i];
    if other == page {
      TrailWritten(m, m', dir, 2, [d], i);
    } else {
      assert page == SLOTS * d + i && other == SLOTS * d' + i';
      assert [d', i'] != [d, i];
      TrailUnaffected(m, m', dir, 2, [d], i, [d', i']);
    }
  }

  // ------------------------------------------------------------ the entries

  lemma DirectoryIndex(virt: U32)
    ensures And(Shr(virt, 22), 0x3FF) == virt / PAGE / SLOTS < SLOTS
  {
    assert Pow2(22) == 0x40_0000 && Pow2(10) == SLOTS by { Pow2Values(); }
    FieldAt(virt, 22, 10, 0x3FF);
    DirectoryNumber(virt);
  }

  lemma DirectoryNumber(virt: U32)
    ensures virt / 0x40_0000 % SLOTS == virt / 0x40_0000 == virt / PAGE / SLOTS < SLOTS
  {
    DivDiv(virt, PAGE, SLOTS);
  }

  lemma TableIndex(virt: U32)
    ensures And(Shr(virt, 12), 0x3FF) == virt / PAGE % SLOTS
  {
    assert Pow2(12) == PAGE && Pow2(10) == SLOTS by { Pow2Values(); }
    FieldAt(virt, 12, 10, 0x3FF);
  }

  lemma EntryBits(w: U32)
    ensures And(w, 1) != 0 <==> w % 2 == 1
    ensures Pow2(32) == WORD
    ensures And(w, Not(32, 0xFFF)) == w / PAGE * PAGE
  {
    assert Pow2(1) == 2;
    AndLow(w, 1);
    PageStart(w);
  }

  /** The directory entry written for a new table. */
  lemma NewTableEntry(f: nat)
    requires f < FRAMES
    ensures Or(f * PAGE, 7) == f * PAGE + 7 < WORD
    ensures Decode(f * PAGE + 7) == Some(Slot(f, 7))
  {
    assert Or(f * PAGE, 7) == f * PAGE + 7 by {
      assert Pow2(12) == PAGE by { Pow2Values(); }
      OrMultiple(f, 7, 12, PAGE);
    }
    TableWord(f, f * PAGE + 7);
  }

  lemma TableWord(f: nat, w: nat)
    requires f < FRAMES && w == f * PAGE + 7
    ensures w < WORD && w / PAGE == f && w % PAGE == 7 && w % 2 == 1
  {
    assert w == 2 * (f * 2048 + 3) + 1;
  }

  /** The table entry written by map_page. */
  function PageEntry(phys: U32, flags: U32): (w: U32) {
    EntryBelow(phys, flags);
    Or(Or(phys, flags), 1)
  }

  lemma EntryBelow(phys: U32, flags: U32)
    ensures Or(Or(phys, flags), 1) < WORD
  {
    Pow2Values();
    OrBelow(32, phys, flags);
    OrBelow(32, Or(phys, flags), 1);
  }

  /** What an entry decodes to, for all arguments: the frame takes the upper bits
      of both, the flags the lower bits of both and the present bit. */
  lemma PageEntryDecodes(phys: U32, flags: U32)
    ensures Decode(PageEntry(phys, flags)) ==
            Some(Slot(Or(phys / PAGE, flags / PAGE), Or(Or(phys % PAGE, flags % PAGE), 1)))
  {
    OrSplits(phys, flags, 12);
    OrSplits(Or(phys, flags), 1, 12);
    SplitPage(phys);
    SplitPage(flags);
    SplitPage(1);
    SplitPage(PageEntry(phys, flags));
    OrHalves(Or(phys, flags), 1);
  }

  lemma SplitPage(x: nat)
    ensures Shr(x, 12) == x / PAGE && Low(x, 12) == x % PAGE
  {
    assert Pow2(12) == PAGE by { Pow2Values(); }
    ShrIsDivide(x, 12);
    LowIsMod(x, 12);
  }

  /** So the page is mapped to the given frame exactly when the flags do not
      reach into the frame number beyond bits it already has. */
  lemma MapsGivenFrameIff(phys: U32, flags: U32)
    ensures Decode(PageEntry(phys, flags)).Some?
    ensures Decode(PageEntry(phys, flags)).value.frame == phys / PAGE <==> SubBits(flags / PAGE, phys / PAGE)
  {
    PageEntryDecodes(phys, flags);
    OrAbsorbsIff(phys / PAGE, flags / PAGE);
  }

  /** For instance frame 1 with flags 0x2007 becomes frame 3. */
  lemma FlagsReachFrame(phys: U32, flags: U32)
    requires phys == 0x1000 && flags == 0x2007
    ensures Decode(PageEntry(phys, flags)) == Some(Slot(3, 7))
  {
    PageEntryDecodes(phys, flags);
    assert phys / PAGE == 1 && flags / PAGE == 2 && phys % PAGE == 0 && flags % PAGE == 7;
    assert Or(1, 2) == 3 && Or(0, 7) == 7 && Or(7, 1) == 7;
  }

  /** With an aligned address and flags below 4096 nothing is mixed up. */
  lemma AlignedEntry(phys: U32, flags: U32)
    requires phys % PAGE == 0 && flags < PAGE
    ensures Decode(PageEntry(phys, flags)) == Some(Slot(phys / PAGE, Or(flags, 1)))
  {
    PageEntryDecodes(phys, flags);
  }

  // ------------------------------------------------------ the abstract state

  /** What the directory, its tables and the frame allocator amount to. */
  datatype Mmu = Mmu(pool: Pool, tables: map<nat, int>, pages: map<nat, Slot<nat>>)

  ghost function StateOf(words: Ram, dir: nat, pool: Pool): Mmu {
    Mmu(pool, TablesOf(View(words), dir), PagesOf(View(words), dir))
  }

  ghost predicate Good(words: Ram, dir: nat, pool: Pool) {
    dir < FRAMES && ValidPool(pool) && Shape(View(words), dir, FramesOf(pool.free))
  }

  /** map_page succeeds unless it needs a new table and no frame is left. */
  ghost predicate CanMap(s: Mmu, d: nat) {
    d in s.tables || s.pool.free != {}
  }

  /** Making sure that there is a table for directory index d. */
  ghost function WithTable(s: Mmu, d: nat): Mmu {
    if d in s.tables || s.pool.free == {} then s
    else s.(pool := AllocPool(s.pool), tables := s.tables[d := FrameOf(Min(s.pool.free))])
  }

  /** No page but this one changes its translation. */
  ghost predicate OthersWalkSame(m: Memory<nat>, m': Memory<nat>, dir: nat, page: nat) {
    forall other: nat | other < FRAMES && other != page :: Walk(m', dir, other) == Walk(m, dir, other)
  }

  ghost predicate WalksSame(m: Memory<nat>, m': Memory<nat>, dir: nat) {
    forall page: nat | page < FRAMES :: Walk(m', dir, page) == Walk(m, dir, page)
  }

  /** The map from page to frame is what the walks say. */
  lemma PagesAreWalks(m: Memory<nat>, dir: nat, page: nat)
    requires page < FRAMES
    ensures Lookup(PagesOf(m, dir), page) == Walk(m, dir, page)
  {}

  lemma UpdatedWalks(m: Memory<nat>, m': Memory<nat>, dir: nat, page: nat, slot: Slot<nat>)
    requires page < FRAMES && PagesOf(m', dir) == PagesOf(m, dir)[page := slot]
    ensures Walk(m', dir, page) == Some(slot) && OthersWalkSame(m, m', dir, page)
  {
    PagesAreWalks(m', dir, page);
    forall other: nat | other < FRAMES && other != page
      ensures Walk(m', dir, other) == Walk(m, dir, other)
    {
      PagesAreWalks(m, dir, other);
      PagesAreWalks(m', dir, other);
    }
  }

  lemma KeptWalks(m: Memory<nat>, m': Memory<nat>, dir: nat)
    requires PagesOf(m', dir) == PagesOf(m, dir)
    ensures WalksSame(m, m', dir)
  {
    forall page: nat | page < FRAMES
      ensures Walk(m', dir, page) == Walk(m, dir, page)
    {
      PagesAreWalks(m, dir, page);
      PagesAreWalks(m', dir, page);
    }
  }

  /** map_page is an update of the map, unmap_page a removal. */
  ghost function MapMmu(s: Mmu, page: nat, slot: Slot<nat>): Mmu {
    if CanMap(s, page / SLOTS) then
      var t := WithTable(s, page / SLOTS);
      t.(pages := t.pages[page := slot])
    else s
  }

  ghost function UnmapMmu(s: Mmu, page: nat): Mmu {
    s.(pages := s.pages - {page})
  }

  datatype Op = Map(virt: U32, phys: U32, flags: U32) | Unmap(virt: U32)

  function Lookup(m: map<nat, Slot<nat>>, page: nat): Option<Slot<nat>> {
    if page in m then Some(m[page]) else None
  }

  /** What the last operation on a page makes of it. */
  ghost function AfterOps(ops: seq<Op>, start: map<nat, Slot<nat>>, page: nat): Option<Slot<nat>> {
    if ops == [] then Lookup(start, page)
    else
      var op := ops[|ops| - 1];
      if op.virt / PAGE != page then AfterOps(ops[..|ops| - 1], start, page)
      else if op.Unmap? then None
      else Some(Slot(Or(op.phys / PAGE, op.flags / PAGE), Or(Or(op.phys % PAGE, op.flags % PAGE), 1)))
  }

  ghost predicate AsLastLeft(pages: map<nat, Slot<nat>>, ops: seq<Op>, start: map<nat, Slot<nat>>) {
    forall page: nat :: Lookup(pages, page) == AfterOps(ops, start, page)
  }

  /** The step that one successful call takes, as the contracts of MapPage and UnmapPage have it. */
  ghost function OpMmu(s: Mmu, op: Op): Mmu {
    match op
    case Map(v, p, f) =>
      PageEntryDecodes(p, f);
      MapMmu(s, v / PAGE, Decode(PageEntry(p, f)).value)
    case Unmap(v) => UnmapMmu(s, v / PAGE)
  }

  /** Over any run of successful maps and unmaps on one directory every page is
      as the last operation on it left it. */
  lemma {:induction false} MapUnmapRun(trace: seq<Mmu>, ops: seq<Op>)
    requires |trace| == |ops| + 1
    requires forall k | 0 <= k < |ops| :: trace[k + 1] == OpMmu(trace[k], ops[k])
    requires forall k | 0 <= k < |ops| && ops[k].Map? :: CanMap(trace[k], ops[k].virt / PAGE / SLOTS)
    ensures AsLastLeft(trace[|ops|].pages, ops, trace[0].pages)
  {
    if ops != [] {
      var n := |ops| - 1;
      MapUnmapRun(trace[..n + 1], ops[..n]);
      assert trace[..n + 1][0] == trace[0];
      assert trace[n + 1] == OpMmu(trace[n], ops[n]);
      if ops[n].Map? { PageEntryDecodes(ops[n].phys, ops[n].flags); }
    }
  }

  // -------------------------------------------- the effect of single stores

  /** Storing one word changes one slot. */
  lemma ViewWrite(words: Ram, table: nat, i: nat, w: U32)
    requires table < FRAMES && i < SLOTS
    ensures AgreeExcept(View(words), View(words[SLOTS * table + i := w]), table, i)
    ensures View(words[SLOTS * table + i := w])(table, i) == Decode(w)
  {
  }

  lemma StoreTable(words: Ram, words': Ram, dir: nat, pool: Pool, d: nat, w: U32)
    requires Good(words, dir, pool) && pool.free != {}
    requires d < SLOTS && SlotAt(words, dir, d) == None
    requires w == FrameOf(Min(pool.free)) * PAGE + 7
    requires words' == words[SLOTS * dir + d := w]
    ensures SlotAt(words', dir, d) == Some(Slot(FrameOf(Min(pool.free)), 7))
    ensures Good(words', dir, AllocPool(pool))
    ensures StateOf(words', dir, AllocPool(pool)) == WithTable(StateOf(words, dir, pool), d)
  {
    var f := FrameOf(Min(pool.free));
    AllocFrame(pool);
    NewTableEntry(f);
    ViewWrite(words, dir, d, w);
    LinkTable(View(words), View(words'), dir, FramesOf(pool.free), d, f);
  }

  lemma StoreEntry(words: Ram, words': Ram, dir: nat, pool: Pool, page: nat, w: U32)
    requires Good(words, dir, pool) && page < FRAMES
    requires SlotAt(words, dir, page / SLOTS).Some?
    requires words' == words[SLOTS * SlotAt(words, dir, page / SLOTS).value.frame + page % SLOTS := w]
    ensures Good(words', dir, pool)
    ensures StateOf(words', dir, pool) ==
            match Decode(w)
            case None => UnmapMmu(StateOf(words, dir, pool), page)
            case Some(s) => StateOf(words, dir, pool).(pages := StateOf(words, dir, pool).pages[page := s])
  {
    var t := SlotAt(words, dir, page / SLOTS).value.frame;
    ViewWrite(words, t, page % SLOTS, w);
    WriteEntry(View(words), View(words'), dir, FramesOf(pool.free), page);
  }

  lemma PoolShrinks(words: Ram, dir: nat, pool: Pool)
    requires Good(words, dir, pool)
    ensures Good(words, dir, AllocPool(pool))
  {
    AllocFrame(pool);
  }

  lemma NoTableNoPage(words: Ram, dir: nat, pool: Pool, page: nat)
    requires SlotAt(words, dir, page / SLOTS) == None
    ensures UnmapMmu(StateOf(words, dir, pool), page) == StateOf(words, dir, pool)
  {
    assert Walk(View(words), dir, page) == None;
    var pages := PagesOf(View(words), dir);
    assert pages - {page} == pages;
  }

  // -------------------------------------------------------------- the class

  class VirtualMemoryManager {
    const ram: array<U32>
    const pmm: PhysicalMemoryManager
    /** Frame of the page directory in use. */
    const directory: nat

    ghost predicate Valid()
      reads this, ram, pmm, pmm.bitmap
    {
      && pmm.Valid()
      && ram.Length == SLOTS * FRAMES
      && ram as object != pmm.bitmap
      && Good(ram[..], directory, pmm.State()) == true
    }

    ghost function State(): Mmu
      reads this, ram, pmm, pmm.bitmap
      requires ram.Length == SLOTS * FRAMES
    {
      StateOf(ram[..], directory, pmm.State())
    }

    /** The translation of a page by the words in memory. */
    ghost function Translated(page: nat): Option<Slot<nat>>
      reads this, ram
      requires ram.Length == SLOTS * FRAMES
    {
      Walk(View(ram[..]), directory, page)
    }

    /** The directory has a table for the address. */
    ghost predicate Entered(virt: U32)
      reads this, ram
      requires ram.Length == SLOTS * FRAMES
    {
      SlotAt(ram[..], directory, virt / 0x40_0000).Some?
    }

    /** A manager for an empty directory over memory whose free frames are zero-filled. */
    constructor (ram: array<U32>, pmm: PhysicalMemoryManager, directory: nat)
      requires pmm.Valid() && ram.Length == SLOTS * FRAMES && ram as object != pmm.bitmap
      requires directory < FRAMES && directory !in FramesOf(pmm.State().free)
      requires forall i: nat | i < SLOTS :: SlotAt(ram[..], directory, i) == None
      requires forall f, i: nat | f in FramesOf(pmm.State().free) && i < SLOTS :: SlotAt(ram[..], f, i) == None
      ensures Valid() && this.ram == ram && this.pmm == pmm
      ensures State() == Mmu(pmm.State(), map[], map[])
    {
      this.ram, this.pmm, this.directory := ram, pmm, directory;
      new;
      EmptyShape(View(ram[..]), directory, FramesOf(pmm.State().free));
    }

    /** The table for a directory index: the one in place, or a new frame
        entered with 0x7; ok is false where the source panics for want of one. */
    method TableFor(pdIndex: nat) returns (ok: bool, pageTable: nat)
      requires Valid() && pdIndex < SLOTS
      modifies ram, pmm`freePages, pmm.bitmap
      ensures Valid()
      ensures ok == old(CanMap(State(), pdIndex))
      ensures ok ==> SlotAt(ram[..], directory, pdIndex).Some?
                     && pageTable == SlotAt(ram[..], directory, pdIndex).value.frame * PAGE
      ensures State() == old(WithTable(State(), pdIndex))
    {
      var entry := ram[SLOTS * directory + pdIndex];
      EntryBits(entry);
      if And(entry, 1) != 0 {
        return true, And(entry, Not(32, 0xFFF));
      }
      ok, pageTable := NewTable(pdIndex);
    }

    method NewTable(pdIndex: nat) returns (ok: bool, pageTable: nat)
      requires Valid() && pdIndex < SLOTS && SlotAt(ram[..], directory, pdIndex) == None
      modifies ram, pmm`freePages, pmm.bitmap
      ensures Valid()
      ensures ok == old(CanMap(State(), pdIndex))
      ensures ok ==> SlotAt(ram[..], directory, pdIndex).Some?
                     && pageTable == SlotAt(ram[..], directory, pdIndex).value.frame * PAGE
      ensures State() == old(WithTable(State(), pdIndex))
    {
      ghost var words: Ram, pool := ram[..], pmm.State();
      AllocFrame(pool);
      var frame := pmm.AllocPage();
      if frame == None {
        return false, 0;
      }
      assert frame.value == FrameOf(Min(pool.free)) * PAGE;
      NewTableEntry(FrameOf(Min(pool.free)));
      var w := Or(frame.value, 7);
      ram[SLOTS * directory + pdIndex] := w;
      assert ram[..] == words[SLOTS * directory + pdIndex := w];
      StoreTable(words, ram[..], directory, pool, pdIndex, w);
      return true, frame.value;
    }

    /** A frame taken from the shared allocator by someone else leaves the tables as they are. */
    method AllocForFault() returns (r: Option<nat>)
      requires Valid()
      modifies pmm`freePages, pmm.bitmap
      ensures Valid()
      ensures r == old(AllocResult(pmm.State()))
      ensures State() == old(State()).(pool := old(AllocPool(pmm.State())))
    {
      ghost var words: Ram, pool := ram[..], pmm.State();
      r := pmm.AllocPage();
      assert ram[..] == words;
      PoolShrinks(words, directory, pool);
    }

    /** map_page; ok is false where the source panics. */
    method MapPage(virt: U32, phys: U32, flags: U32) returns (ok: bool)
      requires Valid()
      modifies ram, pmm`freePages, pmm.bitmap
      ensures Valid()
      ensures ok == old(CanMap(State(), virt / PAGE / SLOTS))
      ensures ok <==> old(Entered(virt)) || old(pmm.State().free) != {}
      ensures Decode(PageEntry(phys, flags)).Some?
      ensures State() == old(MapMmu(State(), virt / PAGE, Decode(PageEntry(phys, flags)).value))
    {
      DirectoryIndex(virt);
      DirectoryNumber(virt);
      TableIndex(virt);
      PageEntryDecodes(phys, flags);
      var pdIndex := And(Shr(virt, 22), 0x3FF);
      var ptIndex := And(Shr(virt, 12), 0x3FF);
      var pageTable;
      ok, pageTable := TableFor(pdIndex);
      if ok {
        SetEntry(virt / PAGE, pageTable, ptIndex, PageEntry(phys, flags));
      }
    }

    /** The store through the table pointer that ends both operations. */
    method SetEntry(ghost page: nat, pageTable: nat, ptIndex: nat, w: U32)
      requires Valid() && page < FRAMES && ptIndex == page % SLOTS
      requires SlotAt(ram[..], directory, page / SLOTS).Some?
      requires pageTable == SlotAt(ram[..], directory, page / SLOTS).value.frame * PAGE
      modifies ram
      ensures Valid()
      ensures Decode(w) == None ==> State() == old(UnmapMmu(State(), page))
      ensures Decode(w).Some? ==> State() == old(State()).(pages := old(State()).pages[page := Decode(w).value])
    {
      ghost var words: Ram := ram[..];
      ghost var t := SlotAt(words, directory, page / SLOTS).value.frame;
      assert pageTable / 4 == SLOTS * t && t <= FRAMES - 1;
      ram[pageTable / 4 + ptIndex] := w;
      StoreEntry(words, ram[..], directory, pmm.State(), page, w);
    }

    /** unmap_page */
    method UnmapPage(virt: U32)
      requires Valid()
      modifies ram
      ensures Valid()
      ensures State() == old(UnmapMmu(State(), virt / PAGE))
    {
      DirectoryIndex(virt);
      TableIndex(virt);
      var pdIndex := And(Shr(virt, 22), 0x3FF);
      var ptIndex := And(Shr(virt, 12), 0x3FF);
      var entry := ram[SLOTS * directory + pdIndex];
      EntryBits(entry);
      if And(entry, 1) != 0 {
        var pageTable := And(entry, Not(32, 0xFFF));
        SetEntry(virt / PAGE, pageTable, ptIndex, 0);
      } else {
        NoTableNoPage(ram[..], directory, pmm.State(), virt / PAGE);
      }
    }
  }

  lemma EmptyShape(m: Memory<nat>, dir: nat, free: set<nat>)
    requires dir !in free
    requires forall i :: m(dir, i) == None
    requires forall t, i | i >= SLOTS :: m(t, i) == None
    requires forall f, i | f in free :: m(f, i) == None
    ensures Shape(m, dir, free)
    ensures PagesOf(m, dir) == map[] && TablesOf(m, dir) == map[]
  {
    EmptySeparated(m, dir, 2);
  }
}
