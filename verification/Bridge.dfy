/** The page-fault handler of lib/libcrust/bridge.rs over the frame allocator
    and the two-level tables: who owns which frame, over every run. */
module Bridge {
  import opened Bits
  import opened Options
  import opened RadixTree
  import opened Pmm
  import opened Vmm

  /** The memory system with the frames that are out of circulation: dropped ones
      were mapped at a page that was later unmapped or faulted again, lost ones
      were taken by a fault whose mapping then panicked. */
  datatype System = System(mmu: Mmu, dropped: set<int>, lost: set<int>, halted: bool)

  datatype Event = Fault(addr: U32) | Unmap(virt: U32)

  datatype Outcome = Served | NoFrame | Panicked

  /** The frame mapped at a page, if any, as a set. */
  ghost function MappedAt(s: Mmu, page: nat): set<int> {
    if page in s.pages then {s.pages[page].frame} else {}
  }

  ghost function FaultOutcome(s: Mmu, addr: U32): Outcome {
    if s.pool.free == {} then NoFrame
    else if CanMap(s.(pool := AllocPool(s.pool)), addr / PAGE / SLOTS) then Served
    else Panicked
  }

  ghost function FaultMmu(s: Mmu, addr: U32): Mmu {
    match FaultOutcome(s, addr)
    case NoFrame => s
    case Served => MapMmu(s.(pool := AllocPool(s.pool)), addr / PAGE, Slot(FrameOf(Min(s.pool.free)), 7))
    case Panicked => s.(pool := AllocPool(s.pool))
  }

  ghost function SystemStep(s: System, e: Event): System {
    if s.halted then s
    else
      match e
      case Fault(addr) =>
        var mmu := FaultMmu(s.mmu, addr);
        (match FaultOutcome(s.mmu, addr)
         case NoFrame => s
         case Served => s.(mmu := mmu, dropped := s.dropped + MappedAt(s.mmu, addr / PAGE))
         case Panicked => s.(mmu := mmu, lost := s.lost + {FrameOf(Min(s.mmu.pool.free))}, halted := true))
      case Unmap(virt) =>
        s.(mmu := UnmapMmu(s.mmu, virt / PAGE), dropped := s.dropped + MappedAt(s.mmu, virt / PAGE))
  }

  ghost function SystemRun(s: System, events: seq<Event>): System {
    if events == [] then s else SystemStep(SystemRun(s, events[..|events| - 1]), events[|events| - 1])
  }

  // -------------------------------------------------- ownership of frames

  ghost predicate Injective(m: map<nat, int>) {
    forall k, k' | k in m && k' in m && m[k] == m[k'] :: k == k'
  }

  ghost function At(m: map<nat, int>, k: nat): set<int> {
    if k in m then {m[k]} else {}
  }

  lemma ValuesRemove(m: map<nat, int>, k: nat)
    requires Injective(m)
    ensures (m - {k}).Values == m.Values - At(m, k)
    ensures Injective(m - {k}) && At(m, k) <= m.Values
  {
    forall v | v in m.Values - At(m, k)
      ensures v in (m - {k}).Values
    {
      var j :| j in m && m[j] == v;
      assert j in m - {k};
    }
    forall v | v in (m - {k}).Values
      ensures v in m.Values - At(m, k)
    {
      var j :| j in m - {k} && (m - {k})[j] == v;
      assert m[j] == v;
    }
  }

  lemma ValuesUpdate(m: map<nat, int>, k: nat, v: int)
    requires Injective(m) && v !in m.Values
    ensures m[k := v].Values == m.Values - At(m, k) + {v}
    ensures Injective(m[k := v])
  {
    ValuesRemove(m, k);
    var r := m - {k};
    assert m[k := v] == r[k := v];
    forall x | x in r.Values + {v}
      ensures x in r[k := v].Values
    {
      if x == v {
        assert r[k := v][k] == v;
      } else {
        var j :| j in r && r[j] == x;
        assert r[k := v][j] == x;
      }
    }
    forall x | x in r[k := v].Values
      ensures x in r.Values + {v}
    {
      var j :| j in r[k := v] && r[k := v][j] == x;
      assert j != k ==> r[j] == x;
    }
    var m' := m[k := v];
    forall i, j | i in m' && j in m' && m'[i] == m'[j]
      ensures i == j
    {
      assert i != k ==> m[i] in m.Values;
      assert j != k ==> m[j] in m.Values;
    }
  }

  lemma {:induction false} ValuesSize(m: map<nat, int>)
    requires Injective(m)
    ensures |m.Values| == |m|
  {
    if m == map[] {
      assert m.Values == {};
    } else {
      var k :| k in m;
      ValuesRemove(m, k);
      ValuesSize(m - {k});
      assert m[k] in m.Values;
    }
  }

  ghost function FrameMap(pages: map<nat, Slot<nat>>): map<nat, int> {
    map p | p in pages :: pages[p].frame
  }

  ghost function FreeOf(pool: Pool): set<int> { FramesOf(pool.free) }

  /** Every frame of the initial pool has exactly one role: free, table, mapped
      page, dropped or lost; and no frame is mapped at two pages or serves two
      directory entries. */
  ghost predicate Accounted(s: System, all: set<int>) {
    var tables, pages := s.mmu.tables, FrameMap(s.mmu.pages);
    && ValidPool(s.mmu.pool)
    && Injective(tables) && Injective(pages)
    && FreeOf(s.mmu.pool) !! tables.Values !! pages.Values !! s.dropped !! s.lost
    && FreeOf(s.mmu.pool) + tables.Values + pages.Values + s.dropped + s.lost == all
  }

  lemma UnmapAccounted(s: System, virt: U32, all: set<int>)
    requires Accounted(s, all) && !s.halted
    ensures Accounted(SystemStep(s, Event.Unmap(virt)), all)
  {
    var pages, page := FrameMap(s.mmu.pages), virt / PAGE;
    ValuesRemove(pages, page);
    assert FrameMap(s.mmu.pages - {page}) == pages - {page};
  }

  /** Taking a frame out of the pool. */
  lemma TakeFrame(pool: Pool)
    requires ValidPool(pool) && pool.free != {}
    ensures ValidPool(AllocPool(pool))
    ensures FrameOf(Min(pool.free)) in FreeOf(pool)
    ensures FreeOf(AllocPool(pool)) == FreeOf(pool) - {FrameOf(Min(pool.free))}
  {
    AllocFrame(pool);
  }

  lemma FaultAccounted(s: System, addr: U32, all: set<int>)
    requires Accounted(s, all) && !s.halted
    ensures Accounted(SystemStep(s, Fault(addr)), all)
  {
    if s.mmu.pool.free != {} {
      var f := FrameOf(Min(s.mmu.pool.free));
      var mid := s.(mmu := s.mmu.(pool := AllocPool(s.mmu.pool)), lost := s.lost + {f});
      TakeFrame(s.mmu.pool);
      assert Accounted(mid, all);
      if FaultOutcome(s.mmu, addr) == Served {
        TableAccounted(mid, addr / PAGE / SLOTS, all);
        var t := mid.(mmu := WithTable(mid.mmu, addr / PAGE / SLOTS));
        PageAccounted(t, s.lost, addr / PAGE, f, all);
      }
    }
  }

  lemma TableAccounted(s: System, d: nat, all: set<int>)
    requires Accounted(s, all)
    ensures Accounted(s.(mmu := WithTable(s.mmu, d)), all)
  {
    if d !in s.mmu.tables && s.mmu.pool.free != {} {
      TakeFrame(s.mmu.pool);
      ValuesUpdate(s.mmu.tables, d, FrameOf(Min(s.mmu.pool.free)));
    }
  }

  /** Giving the frame in hand to a page. */
  lemma PageAccounted(s: System, lost: set<int>, page: nat, f: nat, all: set<int>)
    requires Accounted(s, all) && f !in lost && s.lost == lost + {f}
    ensures Accounted(s.(mmu := s.mmu.(pages := s.mmu.pages[page := Slot(f, 7)]),
                         dropped := s.dropped + MappedAt(s.mmu, page), lost := lost), all)
  {
    var pages := FrameMap(s.mmu.pages);
    ValuesUpdate(pages, page, f);
    ValuesRemove(pages, page);
    assert FrameMap(s.mmu.pages[page := Slot(f, 7)]) == pages[page := f];
  }

  /** Over every run of faults and unmaps every frame keeps exactly one role. */
  lemma {:induction false} RunAccounted(s: System, events: seq<Event>, all: set<int>)
    requires Accounted(s, all) == true
    ensures Accounted(SystemRun(s, events), all) == true
  {
    if events != [] {
      var before := SystemRun(s, events[..|events| - 1]);
      RunAccounted(s, events[..|events| - 1], all);
      if !before.halted {
        match events[|events| - 1] {
          case Fault(a) => FaultAccounted(before, a, all);
          case Unmap(v) => UnmapAccounted(before, v, all);
        }
      }
    }
  }

  /** Conservation: the frames taken from the allocator since boot are the tables,
      the mapped pages and the frames dropped or lost, and none is counted twice. */
  lemma Conservation(boot: Pool, events: seq<Event>)
    requires ValidPool(boot)
    ensures var s := SystemRun(System(Mmu(boot, map[], map[]), {}, {}, false), events);
      |boot.free| - |s.mmu.pool.free| == |s.mmu.tables| + |s.mmu.pages| + |s.dropped| + |s.lost|
  {
    var s0 := System(Mmu(boot, map[], map[]), {}, {}, false);
    BootAccounted(boot);
    RunAccounted(s0, events, FreeOf(boot));
    FreeSize(boot);
    AccountedCounts(SystemRun(s0, events), FreeOf(boot));
  }

  lemma BootAccounted(boot: Pool)
    requires ValidPool(boot)
    ensures Accounted(System(Mmu(boot, map[], map[]), {}, {}, false), FreeOf(boot)) == true
  {
    assert FrameMap(map[]) == map[];
  }

  lemma AccountedCounts(s: System, all: set<int>)
    requires Accounted(s, all)
    ensures |all| == |s.mmu.pool.free| + |s.mmu.tables| + |s.mmu.pages| + |s.dropped| + |s.lost|
  {
    FreeSize(s.mmu.pool);
    ValuesSize(s.mmu.tables);
    FrameMapSize(s.mmu.pages);
    CountRoles(FreeOf(s.mmu.pool), s.mmu.tables.Values, FrameMap(s.mmu.pages).Values, s.dropped, s.lost, all);
  }

  lemma FrameMapSize(pages: map<nat, Slot<nat>>)
    requires Injective(FrameMap(pages))
    ensures |FrameMap(pages).Values| == |pages|
  {
    ValuesSize(FrameMap(pages));
    assert FrameMap(pages).Keys == pages.Keys;
  }

  lemma FreeSize(pool: Pool)
    requires ValidPool(pool)
    ensures |FreeOf(pool)| == |pool.free|
  {
    FramesSize(pool.free);
  }

  lemma CountRoles(a: set<int>, b: set<int>, c: set<int>, d: set<int>, e: set<int>, all: set<int>)
    requires a !! b !! c !! d !! e && a + b + c + d + e == all
    ensures |all| == |a| + |b| + |c| + |d| + |e|
  {
    assert |a + b| == |a| + |b|;
    assert |a + b + c| == |a + b| + |c|;
    assert |a + b + c + d| == |a + b + c| + |d|;
  }

  // ---------------------------------------------- which pages are mapped

  /** There are frames for the page and for its table, if that is missing. */
  ghost predicate HasFrames(s: System, addr: U32) {
    |s.mmu.pool.free| >= if addr / 0x40_0000 in s.mmu.tables then 1 else 2
  }

  /** An event that is carried out and sets or removes the translation of a page. */
  ghost predicate Decides(s: System, e: Event, page: nat) {
    && !s.halted
    && match e
       case Fault(addr) => addr / 4096 == page && HasFrames(s, addr)
       case Unmap(virt) => virt / 4096 == page
  }

  /** The translation such an event leaves: none after an unmap, and after a fault the
      frame that was the first free one. */
  ghost predicate Leaves(s: System, e: Event, t: Option<Slot<nat>>) {
    match e
    case Unmap(_) => t == None
    case Fault(_) => s.mmu.pool.free != {} && t == Some(Slot(FrameOf(Min(s.mmu.pool.free)), 7))
  }

  ghost predicate IsTrace(trace: seq<System>, events: seq<Event>) {
    && |trace| == |events| + 1
    && forall k | 0 <= k < |events| :: StepsTo(trace, events, k)
  }

  ghost predicate StepsTo(trace: seq<System>, events: seq<Event>, k: nat)
    requires k < |events| < |trace|
  {
    trace[k + 1] == SystemStep(trace[k], events[k])
  }

  ghost predicate NoneDecides(trace: seq<System>, events: seq<Event>, from: nat, n: nat, page: nat)
    requires n <= |events| < |trace|
  {
    forall k | from <= k < n :: !Decides(trace[k], events[k], page)
  }

  /** Event k is the last of the first n that decides the page, and left t. */
  ghost predicate LastLeft(trace: seq<System>, events: seq<Event>, k: nat, n: nat, page: nat, t: Option<Slot<nat>>)
    requires k < n <= |events| < |trace|
  {
    && Decides(trace[k], events[k], page) && Leaves(trace[k], events[k], t)
    && NoneDecides(trace, events, k + 1, n, page)
  }

  /** After n events: as the last deciding one left it, and as at the start without one. */
  ghost predicate AsDecided(trace: seq<System>, events: seq<Event>, n: nat, page: nat)
    requires n <= |events| < |trace|
  {
    var t := Lookup(trace[n].mmu.pages, page);
    || (NoneDecides(trace, events, 0, n, page) && t == Lookup(trace[0].mmu.pages, page))
    || exists k: nat :: k < n && LastLeft(trace, events, k, n, page, t)
  }

  lemma ServedIff(s: System, addr: U32)
    ensures FaultOutcome(s.mmu, addr) == Served <==> HasFrames(s, addr)
  {
    DirectoryNumber(addr);
    var free := s.mmu.pool.free;
    if free != {} {
      var rest := free - {Min(free)};
      assert |rest| == |free| - 1;
      assert rest == {} <==> |rest| == 0;
    }
  }

  /** What one event does to the translation of a page. */
  lemma EventOnPage(s: System, e: Event, page: nat)
    ensures var t := Lookup(SystemStep(s, e).mmu.pages, page);
      if Decides(s, e, page) then Leaves(s, e, t) else t == Lookup(s.mmu.pages, page)
  {
    if e.Fault? { ServedIff(s, e.addr); }
  }

  /** Over every run, after each of its events, a page is mapped if and only if the last
      event that decided it was a fault, namely to the frame taken for that fault. */
  lemma {:induction false} MappedByLast(trace: seq<System>, events: seq<Event>, n: nat, page: nat)
    requires IsTrace(trace, events) && n <= |events|
    ensures AsDecided(trace, events, n, page)
  {
    if n > 0 {
      var i := n - 1;
      MappedByLast(trace, events, i, page);
      assert StepsTo(trace, events, i);
      EventOnPage(trace[i], events[i], page);
      var t := Lookup(trace[n].mmu.pages, page);
      if Decides(trace[i], events[i], page) {
        assert LastLeft(trace, events, i, n, page, t);
      } else if !NoneDecides(trace, events, 0, n, page) {
        var k: nat :| k < i && LastLeft(trace, events, k, i, page, t);
        assert LastLeft(trace, events, k, n, page, t);
      }
    }
  }

  // ------------------------------------------------------------ the handler

  lemma FaultPage(addr: U32)
    ensures Pow2(32) == WORD
    ensures And(addr, Not(32, 0xFFF)) < WORD
    ensures And(addr, Not(32, 0xFFF)) / PAGE == addr / PAGE
  {
    EntryBits(addr);
    var p := addr / PAGE;
    assert p * PAGE / PAGE == p;
  }

  lemma FaultSlot(pool: Pool)
    requires ValidPool(pool) && pool.free != {}
    ensures AllocResult(pool).value < WORD
    ensures Decode(PageEntry(AllocResult(pool).value, 7)) == Some(Slot(FrameOf(Min(pool.free)), 7))
  {
    AllocFrame(pool);
    var f := FrameOf(Min(pool.free));
    assert f * PAGE / PAGE == f && f * PAGE % PAGE == 0;
    AlignedEntry(f * PAGE, 7);
    assert Or(7, 1) == 7;
  }

  /** The page that was hit is translated to the frame just taken from the allocator,
      with flags 7, and every other page as before. */
  ghost predicate MapsFault(words: Ram, words': Ram, dir: nat, pool: Pool, addr: U32) {
    && AllocResult(pool).Some?
    && Walk(View(words'), dir, addr / 4096) == Some(Slot(AllocResult(pool).value / 4096, 7))
    && OthersWalkSame(View(words), View(words'), dir, addr / 4096)
  }

  /** What the handler answers and leaves behind: 1 exactly if there is a frame for the
      page and another one for its table if that is missing, and then the page is mapped;
      a panic exactly if there is only the frame for the page; on 0 and on a panic every
      page is translated as before. */
  ghost predicate FaultDone(words: Ram, words': Ram, dir: nat, pool: Pool, addr: U32, r: nat, panics: bool) {
    var entered := SlotAt(words, dir, addr / 0x40_0000).Some?;
    && (r == 1 <==> |pool.free| >= if entered then 1 else 2)
    && (panics <==> |pool.free| == 1 && !entered)
    && if r == 1 then MapsFault(words, words', dir, pool, addr) else r == 0 && WalksSame(View(words), View(words'), dir)
  }

  lemma FaultWalks(words: Ram, words': Ram, dir: nat, pool: Pool, pool': Pool, addr: U32, r: nat, panics: bool)
    requires ValidPool(pool) && StateOf(words', dir, pool') == FaultMmu(StateOf(words, dir, pool), addr)
    requires FaultOutcome(StateOf(words, dir, pool), addr) == if panics then Panicked else if r == 1 then Served else NoFrame
    requires r <= 1 && (panics ==> r == 0)
    ensures FaultDone(words, words', dir, pool, addr, r, panics) == true
  {
    OutcomeByCount(words, dir, pool, addr);
    if r == 1 {
      var f := FrameOf(Min(pool.free));
      AllocFrame(pool);
      assert AllocResult(pool).value / 4096 == f;
      UpdatedWalks(View(words), View(words'), dir, addr / PAGE, Slot(f, 7));
    } else {
      KeptWalks(View(words), View(words'), dir);
    }
  }

  /** One frame is needed for the page, and another if there is no table for it. */
  lemma OutcomeByCount(words: Ram, dir: nat, pool: Pool, addr: U32)
    ensures var entered := SlotAt(words, dir, addr / 0x40_0000).Some?;
      FaultOutcome(StateOf(words, dir, pool), addr) ==
      if |pool.free| >= (if entered then 1 else 2) then Served else if |pool.free| == 1 then Panicked else NoFrame
  {
    DirectoryNumber(addr);
    if pool.free != {} {
      var rest := pool.free - {Min(pool.free)};
      assert |rest| == |pool.free| - 1;
      assert rest == {} <==> |rest| == 0;
    }
  }

  /** The kernel's one frame allocator and one set of tables, with the record of
      the frames that went out of circulation. */
  class Kernel {
    const vmm: VirtualMemoryManager
    ghost var dropped: set<int>
    ghost var lost: set<int>
    ghost var halted: bool

    ghost predicate Valid()
      reads this, vmm, vmm.ram, vmm.pmm, vmm.pmm.bitmap
    {
      vmm.Valid()
    }

    ghost function State(): System
      reads this, vmm, vmm.ram, vmm.pmm, vmm.pmm.bitmap
      requires Valid()
    {
      System(vmm.State(), dropped, lost, halted)
    }

    constructor (vmm: VirtualMemoryManager)
      requires vmm.Valid()
      ensures Valid() && this.vmm == vmm
      ensures State() == System(vmm.State(), {}, {}, false)
    {
      this.vmm := vmm;
      dropped, lost, halted := {}, {}, false;
    }

    /** rust_handle_page_fault: 1 when served, 0 when no frame is left; panics is
        set where the source panics because no frame is left for the table. */
    method Resolve(addr: U32) returns (r: nat, panics: bool)
      requires Valid()
      modifies vmm.ram, vmm.pmm`freePages, vmm.pmm.bitmap
      ensures Valid() && vmm.State() == old(FaultMmu(vmm.State(), addr))
      ensures old(FaultOutcome(vmm.State(), addr)) == if panics then Panicked else if r == 1 then Served else NoFrame
      ensures r == 0 || r == 1
      ensures FaultDone(old(vmm.ram[..]), vmm.ram[..], vmm.directory, old(vmm.pmm.State()), addr, r, panics) == true
    {
      ghost var before, words := vmm.State(), vmm.ram[..];
      r, panics := 0, false;
      var phys := vmm.AllocForFault();
      if phys != None {
        FaultSlot(before.pool);
        FaultPage(addr);
        var virt := And(addr, Not(32, 0xFFF));
        var ok := vmm.MapPage(virt, phys.value, 7);
        r, panics := if ok then 1 else 0, !ok;
      }
      FaultWalks(words, vmm.ram[..], vmm.directory, before.pool, vmm.pmm.State(), addr, r, panics);
    }

    /** The handler with the record of what it takes out of circulation. */
    method HandlePageFault(addr: U32) returns (r: nat, panics: bool)
      requires Valid() && !halted
      modifies this, vmm.ram, vmm.pmm`freePages, vmm.pmm.bitmap
      ensures Valid() && State() == old(SystemStep(State(), Fault(addr)))
      ensures old(FaultOutcome(vmm.State(), addr)) == if panics then Panicked else if r == 1 then Served else NoFrame
      ensures FaultDone(old(vmm.ram[..]), vmm.ram[..], vmm.directory, old(vmm.pmm.State()), addr, r, panics) == true
    {
      ghost var before := vmm.State();
      r, panics := Resolve(addr);
      if panics {
        lost, halted := lost + {FrameOf(Min(before.pool.free))}, true;
      } else if r == 1 {
        dropped := dropped + MappedAt(before, addr / PAGE);
      }
    }

    /** unmap_page called from outside the handler. */
    method Unmap(virt: U32)
      requires Valid() && !halted
      modifies this`dropped, vmm.ram
      ensures Valid()
      ensures State() == old(SystemStep(State(), Event.Unmap(virt)))
    {
      dropped := dropped + MappedAt(vmm.State(), virt / PAGE);
      vmm.UnmapPage(virt);
    }
  }
}
