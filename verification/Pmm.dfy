/** The bitmap allocator of physical frames, kernel/mem/pmm.rs.  The bitmap is a
    packed form of a set of free page numbers.  usize is 32 bits wide and, as
    the kernel is compiled without overflow checks, its arithmetic wraps. */
module Pmm {
  import opened Bits
  import opened Options

  const BASE: nat := 0x100000

  // ------------------------------------------------- the set in the bitmap

  predicate Used(bitmap: seq<nat>, page: nat)
    requires page < 8 * |bitmap|
  {
    Bit(bitmap[page / 8], page % 8)
  }

  function FreeSet(bitmap: seq<nat>): set<nat> {
    set p: nat | p < 8 * |bitmap| && !Used(bitmap, p)
  }

  lemma UsedBit(bitmap: seq<nat>, i: nat, bit: nat)
    requires i < |bitmap| && bit < 8
    ensures Used(bitmap, 8 * i + bit) == Bit(bitmap[i], bit)
  {
    assert (8 * i + bit) / 8 == i && (8 * i + bit) % 8 == bit;
  }

  /** One page changes its bit. */
  ghost predicate Changed(bitmap: seq<nat>, after: seq<nat>, page: nat, used: bool) {
    && |after| == |bitmap| && page < 8 * |bitmap|
    && forall p: nat | p < 8 * |bitmap| :: Used(after, p) == if p == page then used else Used(bitmap, p)
  }

  lemma ChangedSet(bitmap: seq<nat>, after: seq<nat>, page: nat, used: bool)
    requires Changed(bitmap, after, page, used)
    ensures FreeSet(after) == if used then FreeSet(bitmap) - {page} else FreeSet(bitmap) + {page}
  {}

  lemma SetBit(bitmap: seq<nat>, i: nat, bit: nat)
    requires i < |bitmap| && bit < 8
    ensures FreeSet(bitmap[i := Or(bitmap[i], Pow2(bit))]) == FreeSet(bitmap) - {8 * i + bit}
  {
    var after := bitmap[i := Or(bitmap[i], Pow2(bit))];
    forall p: nat | p < 8 * |bitmap|
      ensures Used(after, p) == (Used(bitmap, p) || p == 8 * i + bit)
    {
      if p / 8 == i {
        BitOr(bitmap[i], Pow2(bit), p % 8);
        BitOfPow2(bit, p % 8);
      }
    }
    ChangedSet(bitmap, after, 8 * i + bit, true);
  }

  lemma ClearBit(bitmap: seq<nat>, i: nat, bit: nat)
    requires i < |bitmap| && bit < 8
    requires Pow2(bit) < Pow2(8)
    ensures FreeSet(bitmap[i := And(bitmap[i], Not(8, Pow2(bit)))]) == FreeSet(bitmap) + {8 * i + bit}
  {
    var after := bitmap[i := And(bitmap[i], Not(8, Pow2(bit)))];
    forall p: nat | p < 8 * |bitmap|
      ensures Used(after, p) == (Used(bitmap, p) && p != 8 * i + bit)
    {
      if p / 8 == i { ClearedBit(bitmap[i], bit, p % 8); }
    }
    ChangedSet(bitmap, after, 8 * i + bit, false);
  }

  lemma ClearedBit(byte: nat, bit: nat, k: nat)
    requires k < 8 && Pow2(bit) < Pow2(8)
    ensures Bit(And(byte, Not(8, Pow2(bit))), k) == (Bit(byte, k) && k != bit)
  {
    BitAnd(byte, Not(8, Pow2(bit)), k);
    BitNot(8, Pow2(bit), k);
    BitOfPow2(bit, k);
  }

  /** The fast test of alloc_page: a byte is worth scanning exactly when it is not 0xFF. */
  lemma FullByte(bitmap: seq<nat>, i: nat)
    requires i < |bitmap| && bitmap[i] < 256
    ensures bitmap[i] == 0xFF <==> forall p | 8 * i <= p < 8 * i + 8 :: Used(bitmap, p)
  {
    assert Pow2(8) == 256;
    if bitmap[i] == 0xFF {
      forall p | 8 * i <= p < 8 * i + 8
        ensures Used(bitmap, p)
      {
        BitOfOnes(8, p % 8);
      }
    }
    if forall p | 8 * i <= p < 8 * i + 8 :: Used(bitmap, p) {
      forall bit: nat | bit < 8
        ensures Bit(bitmap[i], bit)
      {
        assert Used(bitmap, 8 * i + bit);
      }
      OnlyOnes(8, bitmap[i]);
    }
  }

  // ------------------------------------------------------ the abstract pool

  /** What the bitmap and the counter amount to: the number of pages that have a
      bit, the pages left over beyond the last whole byte of bits, the pages that
      can still be handed out, and the value of the free_pages counter. */
  datatype Pool = Pool(tracked: nat, slack: nat, free: set<nat>, counter: nat)

  ghost predicate ValidPool(s: Pool) {
    && s.tracked < 0x10_0000
    && (forall p | p in s.free :: p < s.tracked)
    && s.counter < WORD
  }

  /** Physical address of a page number, and back. */
  function AddrOf(page: nat): nat { (page * PAGE + BASE) % WORD }

  function PageOf(addr: nat): nat { (addr - BASE) % WORD / PAGE }

  lemma AddrRoundTrip(page: nat)
    requires page < 0x10_0000
    ensures PageOf(AddrOf(page)) == page
    ensures AddrOf(page) % PAGE == 0
  {
  }

  ghost predicate IsMin(m: nat, s: set<nat>) {
    m in s && forall x | x in s :: m <= x
  }

  ghost function Min(s: set<nat>): (m: nat)
    requires s != {}
    ensures IsMin(m, s)
  {
    MinExists(s);
    var m :| IsMin(m, s);
    m
  }

  lemma {:induction false} MinExists(s: set<nat>)
    requires s != {}
    ensures exists m :: IsMin(m, s)
  {
    var y :| y in s;
    var rest := s - {y};
    if rest == {} {
      assert s == {y};
      assert IsMin(y, s);
    } else {
      MinExists(rest);
      var m :| IsMin(m, rest);
      assert s == rest + {y};
      assert IsMin(if m <= y then m else y, s);
    }
  }

  datatype Op = Alloc | Free(addr: nat)

  ghost function AllocPool(s: Pool): Pool {
    if s.free == {} then s else s.(free := s.free - {Min(s.free)}, counter := (s.counter - 1) % WORD)
  }

  ghost function AllocResult(s: Pool): Option<nat> {
    if s.free == {} then None else Some(AddrOf(Min(s.free)))
  }

  lemma AllocAt(s: Pool, page: nat)
    requires IsMin(page, s.free)
    ensures AllocPool(s) == s.(free := s.free - {page}, counter := (s.counter - 1) % WORD)
    ensures AllocResult(s) == Some(AddrOf(page))
  {
    assert Min(s.free) in s.free;
  }

  ghost function FreePool(s: Pool, addr: nat): Pool {
    if PageOf(addr) < s.tracked
    then s.(free := s.free + {PageOf(addr)}, counter := (s.counter + 1) % WORD)
    else s
  }

  ghost function PoolStep(s: Pool, op: Op): Pool {
    match op
    case Alloc => AllocPool(s)
    case Free(a) => FreePool(s, a)
  }

  ghost function PoolRun(s: Pool, ops: seq<Op>): Pool {
    if ops == [] then s else PoolStep(PoolRun(s, ops[..|ops| - 1]), ops[|ops| - 1])
  }

  lemma {:induction false} PoolRunValid(s: Pool, ops: seq<Op>)
    requires ValidPool(s)
    ensures ValidPool(PoolRun(s, ops)) && PoolRun(s, ops).tracked == s.tracked
  {
    if ops != [] { PoolRunValid(s, ops[..|ops| - 1]); }
  }

  // ------------------------------------------------------------- properties

  /** A page handed out and given back leaves the pool as it was. */
  lemma AllocThenFree(s: Pool)
    requires ValidPool(s) && s.free != {}
    ensures FreePool(AllocPool(s), AllocResult(s).value) == s
  {
    AddrRoundTrip(Min(s.free));
    assert s.free - {Min(s.free)} + {Min(s.free)} == s.free;
  }

  /** How far the counter is ahead of the pages that can really be handed out. */
  ghost predicate Ahead(s: Pool, extra: nat) {
    s.counter == (|s.free| + s.slack + extra) % WORD
  }

  /** A free of a page that is already free is the only step that moves the
      counter away from the number of clear bits. */
  ghost predicate DoubleFree(s: Pool, op: Op) {
    op.Free? && PageOf(op.addr) in s.free
  }

  ghost function DoubleFrees(s: Pool, ops: seq<Op>): nat {
    if ops == [] then 0
    else
      DoubleFrees(s, ops[..|ops| - 1])
      + if DoubleFree(PoolRun(s, ops[..|ops| - 1]), ops[|ops| - 1]) then 1 else 0
  }

  lemma StepAhead(s: Pool, op: Op, extra: nat)
    requires ValidPool(s) && Ahead(s, extra)
    ensures Ahead(PoolStep(s, op), extra + if DoubleFree(s, op) then 1 else 0)
  {
    match op {
      case Alloc => if s.free != {} { TakeAhead(s, Min(s.free), extra); }
      case Free(a) => FreeAhead(s, PageOf(a), extra);
    }
  }

  lemma TakeAhead(s: Pool, page: nat, extra: nat)
    requires Ahead(s, extra) && page in s.free
    ensures Ahead(s.(free := s.free - {page}, counter := (s.counter - 1) % WORD), extra)
  {
    assert |s.free - {page}| == |s.free| - 1;
    WrapAdd(|s.free| + s.slack + extra, -1);
  }

  lemma FreeAhead(s: Pool, page: nat, extra: nat)
    requires Ahead(s, extra)
    ensures Ahead(s.(free := s.free + {page}, counter := (s.counter + 1) % WORD), extra + if page in s.free then 1 else 0)
  {
    WrapAdd(|s.free| + s.slack + extra, 1);
    if page in s.free {
      assert s.free + {page} == s.free;
    } else {
      assert |s.free + {page}| == |s.free| + 1;
    }
  }

  lemma WrapAdd(n: int, d: int)
    ensures (n % WORD + d) % WORD == (n + d) % WORD
  {
  }

  /** Over every run the counter is the number of clear bits, plus the pages
      beyond the last whole bitmap byte, plus one for every double free. */
  lemma {:induction false} CounterLedger(s: Pool, ops: seq<Op>)
    requires ValidPool(s) && Ahead(s, 0)
    ensures Ahead(PoolRun(s, ops), DoubleFrees(s, ops))
  {
    if ops != [] {
      var before := ops[..|ops| - 1];
      CounterLedger(s, before);
      PoolRunValid(s, before);
      StepAhead(PoolRun(s, before), ops[|ops| - 1], DoubleFrees(s, before));
    }
  }

  /** One step keeps the counter exact if and only if it is not a double free. */
  lemma CounterExactIff(s: Pool, op: Op)
    requires ValidPool(s) && Ahead(s, 0)
    ensures Ahead(PoolStep(s, op), 0) <==> !DoubleFree(s, op)
  {
    StepAhead(s, op, 0);
    if DoubleFree(s, op) {
      var s' := PoolStep(s, op);
      assert s'.free == s.free;
      var n := |s.free| + s.slack;
      assert n % WORD != (n + 1) % WORD;
    }
  }

  /** Allocating a page and freeing it twice leaves the counter one ahead. */
  lemma DoubleFreeLeads(s: Pool)
    requires ValidPool(s) && s.free != {}
    ensures var a := AllocResult(s).value;
      PoolRun(s, [Alloc, Free(a), Free(a)]) == s.(counter := (s.counter + 1) % WORD)
  {
    var a := AllocResult(s).value;
    var one: seq<Op> := [Alloc];
    var two := one + [Free(a)];
    assert PoolRun(s, one) == AllocPool(s) by { PoolRunSnoc(s, [], Alloc); assert [] + [Alloc] == one; }
    assert PoolRun(s, two) == s by { PoolRunSnoc(s, one, Free(a)); AllocThenFree(s); }
    PoolRunSnoc(s, two, Free(a));
    assert [Alloc, Free(a), Free(a)] == two + [Free(a)];
    FreeAgain(s, Min(s.free));
  }

  lemma PoolRunSnoc(s: Pool, ops: seq<Op>, op: Op)
    ensures PoolRun(s, ops + [op]) == PoolStep(PoolRun(s, ops), op)
  {
    assert (ops + [op])[..|ops|] == ops;
  }

  lemma FreeAgain(s: Pool, page: nat)
    requires ValidPool(s) && page in s.free
    ensures FreePool(s, AddrOf(page)) == s.(counter := (s.counter + 1) % WORD)
  {
    AddrRoundTrip(page);
    assert s.free + {page} == s.free;
  }

  /** The address handed out by step k of a run, if that step is a successful alloc. */
  ghost function Given(s: Pool, ops: seq<Op>, k: nat): Option<nat>
    requires k < |ops|
  {
    if ops[k].Alloc? then AllocResult(PoolRun(s, ops[..k])) else None
  }

  /** No page is handed out twice without having been given back in between. */
  lemma NoDoubleAllocation(s: Pool, ops: seq<Op>, i: nat, j: nat)
    requires ValidPool(s)
    requires i < j < |ops|
    requires Given(s, ops, i).Some? && Given(s, ops, i) == Given(s, ops, j)
    ensures exists k | i < k < j :: ops[k].Free? && PageOf(ops[k].addr) == PageOf(Given(s, ops, i).value)
  {
    var page := PageOf(Given(s, ops, i).value);
    PoolRunValid(s, ops[..i]);
    PoolRunValid(s, ops[..j]);
    AddrRoundTrip(Min(PoolRun(s, ops[..i]).free));
    AddrRoundTrip(Min(PoolRun(s, ops[..j]).free));
    assert ops[..i + 1][..i] == ops[..i];
    if forall k | i < k < j :: !(ops[k].Free? && PageOf(ops[k].addr) == page) {
      StaysTaken(s, ops, page, i + 1, j);
      assert false;
    }
  }

  lemma {:induction false} StaysTaken(s: Pool, ops: seq<Op>, page: nat, i: nat, j: nat)
    requires i <= j <= |ops|
    requires page !in PoolRun(s, ops[..i]).free
    requires forall k | i <= k < j :: !(ops[k].Free? && PageOf(ops[k].addr) == page)
    ensures page !in PoolRun(s, ops[..j]).free
    decreases j - i
  {
    if i < j {
      StaysTaken(s, ops, page, i, j - 1);
      assert ops[..j][..j - 1] == ops[..j - 1];
    }
  }

  // ------------------------------------------------------------------ frames

  const FRAMES: nat := 0x10_0000

  /** The page number of a frame, that is, of the physical addresses with the
      same upper 20 bits. */
  function PageOfFrame(frame: nat): nat { (frame - 256) % FRAMES }

  /** The free pages as frame numbers. */
  ghost function FramesOf(free: set<nat>): set<nat> {
    set f: nat | f < FRAMES && PageOfFrame(f) in free
  }

  function FrameOf(page: nat): nat { (page + 256) % FRAMES }

  lemma FrameOfPage(page: nat)
    requires page < FRAMES
    ensures AddrOf(page) == FrameOf(page) * PAGE && FrameOf(page) < FRAMES
    ensures forall f: nat | f < FRAMES :: PageOfFrame(f) == page <==> f == FrameOf(page)
  {
  }

  /** An allocation in terms of frames. */
  lemma AllocFrame(s: Pool)
    requires ValidPool(s)
    ensures s.free == {} <==> FramesOf(s.free) == {}
    ensures s.free != {} ==>
      var f := FrameOf(Min(s.free));
      && AllocResult(s) == Some(f * PAGE) && f in FramesOf(s.free)
      && FramesOf(AllocPool(s).free) == FramesOf(s.free) - {f}
  {
    if s.free != {} {
      var m := Min(s.free);
      FrameOfPage(m);
      assert PageOfFrame(FrameOf(m)) == m;
      assert FrameOf(m) in FramesOf(s.free);
    }
  }

  lemma {:induction false} FramesSize(free: set<nat>)
    requires forall p | p in free :: p < FRAMES
    ensures |FramesOf(free)| == |free|
  {
    if free == {} {
      assert FramesOf(free) == {};
    } else {
      var p :| p in free;
      FrameOfPage(p);
      FramesSize(free - {p});
      assert PageOfFrame(FrameOf(p)) == p;
      assert FramesOf(free) == FramesOf(free - {p}) + {FrameOf(p)};
    }
  }

  // --------------------------------------------------------- reserved pages

  /** The pages init marks used: addresses 0..0x9FC00 and 0x100000..0x200000,
      counted from address 0. */
  predicate Reserved(page: nat) { page < 160 || 256 <= page < 512 }

  ghost function BootFree(tracked: nat): set<nat> {
    set p: nat | p < tracked && !Reserved(p)
  }

  /** The addresses init means to keep: the first 639 KB and the megabyte from BASE. */
  predicate ReservedAddress(addr: nat) { addr < 0x9FC00 || BASE <= addr < 0x200000 }

  /** alloc_page counts pages from BASE while init counts them from 0, so an
      allocation lands in memory that init meant to reserve exactly when the lowest
      free page number is below 256, or is so high that its address wraps into the
      first 639 KB. */
  lemma ReservedIff(s: Pool)
    requires ValidPool(s) && s.free != {}
    ensures ReservedAddress(AllocResult(s).value) <==> Min(s.free) < 256 || 0xFFF00 <= Min(s.free) < 0xFFFA0
  {
    var m := Min(s.free);
    Wrap(m * PAGE + BASE);
  }

  /** With all pages of a 4 GB machine taken but one, the next is at address 0. */
  lemma WrapsToZero(s: Pool)
    requires s.tracked == 0xFFFF8 && s.free == {0xFFF00} && s.counter < WORD
    ensures ValidPool(s) && AllocResult(s) == Some(0)
  {
    assert IsMin(0xFFF00, s.free);
    AllocAt(s, 0xFFF00);
  }

  /** At boot, on every machine with more than 160 tracked pages, it is page 160. */
  lemma BootAllocatesReserved(s: Pool)
    requires ValidPool(s) && s.tracked > 160 && s.free == BootFree(s.tracked)
    ensures AllocResult(s) == Some(0x1A0000)
  {
    assert 160 in s.free;
    var m := Min(s.free);
    assert m == 160;
  }

  // -------------------------------------------------------------- the class

  class PhysicalMemoryManager {
    var bitmap: array<nat>
    var totalPages: nat
    var freePages: nat

    ghost predicate Valid()
      reads this, bitmap
    {
      && totalPages < 0x10_0000
      && bitmap.Length == totalPages / 8
      && (forall i | 0 <= i < bitmap.Length :: bitmap[i] < 256)
      && freePages < WORD
    }

    ghost function State(): Pool
      reads this, bitmap
    {
      Pool(8 * bitmap.Length, totalPages % 8, FreeSet(bitmap[..]), freePages)
    }

    /** init: the bitmap is cleared, then the reserved ranges are marked. */
    constructor (memoryLower: nat, memoryUpper: nat)
      ensures Valid() && fresh(bitmap)
      ensures totalPages == (memoryLower + memoryUpper) % WORD / PAGE
      ensures State().free == BootFree(8 * (totalPages / 8))
      ensures Ahead(State(), 0)
    {
      var total := (memoryLower + memoryUpper) % WORD / PAGE;
      totalPages := total;
      freePages := total;
      bitmap := new nat[total / 8];
      new;
      for i := 0 to bitmap.Length
        invariant bitmap.Length == total / 8 && totalPages == freePages == total
        invariant fresh(bitmap)
        invariant forall j | 0 <= j < i :: bitmap[j] == 0
      {
        bitmap[i] := 0;
      }
      ZeroBitmap(bitmap[..]);
      Reserve();
    }

    /** The two marking loops of init. */
    method Reserve()
      requires Valid() && freePages == totalPages
      requires State().free == Pages(0, 8 * bitmap.Length)
      modifies this`freePages, bitmap
      ensures Valid() && Ahead(State(), 0)
      ensures State().free == BootFree(8 * bitmap.Length)
    {
      ghost var s := State();
      FullExact(s, totalPages);
      NoneMarked(s, 0);
      MarkRange(0, 0x9FC00, 0, 160);
      ghost var t := State();
      BootRest(s, t);
      NoneMarked(t, 256);
      MarkRange(0x100000, 0x200000, 256, 512);
      BootMarked(s, t, State());
    }

    /** One of the two loops of init over a range of addresses: it marks the pages from
        lo up to hi. */
    method MarkRange(start: nat, end: nat, ghost lo: nat, ghost hi: nat)
      requires Valid() && Marked(State(), State(), lo, lo) == true
      requires lo <= hi && start == lo * PAGE && (hi - 1) * PAGE < end <= hi * PAGE
      modifies this`freePages, bitmap
      ensures Valid() && Marked(old(State()), State(), lo, hi) == true
    {
      MarkLoop(start, end, lo, hi);
      AllMarked(old(State()), lo, hi, State());
    }

    method MarkLoop(start: nat, end: nat, ghost lo: nat, ghost hi: nat)
      requires Valid() && lo <= hi && start == lo * PAGE && (hi - 1) * PAGE < end <= hi * PAGE
      modifies this`freePages, bitmap
      ensures Valid() && State() == MarkAll(old(State()), lo, hi)
    {
      var addr := start;
      ghost var page := lo;
      while addr < end
        invariant lo <= page <= hi && addr == page * PAGE
        invariant Valid() && State() == MarkAll(old(State()), lo, page)
      {
        assert addr / PAGE == page;
        MarkUsed(addr);
        addr, page := addr + PAGE, page + 1;
      }
    }

    /** mark_used */
    method MarkUsed(addr: nat)
      requires Valid()
      modifies this`freePages, bitmap
      ensures Valid()
      ensures State() == old(MarkPool(State(), addr / PAGE))
    {
      var page := addr / PAGE;
      var byteIdx, bitIdx := page / 8, page % 8;
      assert 8 * byteIdx + bitIdx == page;
      if byteIdx < bitmap.Length {
        TakeBit(byteIdx, bitIdx);
      }
    }

    /** The bitmap write and the counter update that mark_used and alloc_page share. */
    method TakeBit(i: nat, bit: nat)
      requires Valid() && i < bitmap.Length && bit < 8
      modifies this`freePages, bitmap
      ensures Valid()
      ensures State() == old(State()).(free := old(State().free) - {8 * i + bit},
                                       counter := (old(freePages) - 1) % WORD)
    {
      ghost var before := bitmap[..];
      ByteOps(bitmap[i], bit);
      bitmap[i] := Or(bitmap[i], Pow2(bit));
      freePages := (freePages - 1) % WORD;
      SetBit(before, i, bit);
      assert bitmap[..] == before[i := Or(before[i], Pow2(bit))];
    }

    /** Taking the first free page. */
    method TakeFirst(i: nat, bit: nat) returns (r: Option<nat>)
      requires Valid() && i < bitmap.Length && bit < 8 && IsMin(8 * i + bit, State().free)
      modifies this`freePages, bitmap
      ensures Valid()
      ensures r == old(AllocResult(State()))
      ensures State() == old(AllocPool(State()))
    {
      AllocAt(State(), 8 * i + bit);
      TakeBit(i, bit);
      return Some(((i * 8 + bit) * PAGE + BASE) % WORD);
    }

    /** alloc_page */
    method AllocPage() returns (r: Option<nat>)
      requires Valid()
      modifies this`freePages, bitmap
      ensures Valid()
      ensures r == old(AllocResult(State()))
      ensures State() == old(AllocPool(State()))
    {
      ghost var before := bitmap[..];
      for i := 0 to bitmap.Length
        invariant Valid() && bitmap[..] == before && freePages == old(freePages)
        invariant forall p | 0 <= p < 8 * i :: Used(before, p)
      {
        var byte := bitmap[i];
        FullByte(before, i);
        if byte != 0xFF {
          for bit := 0 to 8
            invariant Valid() && bitmap[..] == before && freePages == old(freePages)
            invariant forall p | 0 <= p < 8 * i + bit :: Used(before, p)
          {
            TestBit(byte, bit);
            UsedBit(before, i, bit);
            if And(byte, Pow2(bit)) == 0 {
              assert IsMin(8 * i + bit, FreeSet(before));
              r := TakeFirst(i, bit);
              return;
            }
          }
        }
      }
      assert FreeSet(before) == {};
      return None;
    }

    /** free_page: for every address, the caller's mistakes included. */
    method FreePage(addr: nat)
      requires Valid()
      modifies this`freePages, bitmap
      ensures Valid()
      ensures State() == old(FreePool(State(), addr))
    {
      var page := (addr - BASE) % WORD / PAGE;
      var byteIdx, bitIdx := page / 8, page % 8;
      ghost var before := bitmap[..];
      if byteIdx < bitmap.Length {
        var byte := bitmap[byteIdx];
        ByteOps(byte, bitIdx);
        bitmap[byteIdx] := And(byte, Not(8, Pow2(bitIdx)));
        freePages := (freePages + 1) % WORD;
        ClearBit(before, byteIdx, bitIdx);
        assert bitmap[..] == before[byteIdx := And(byte, Not(8, Pow2(bitIdx)))];
      }
    }

    method FreePagesCount() returns (n: nat)
      ensures n == State().counter
    {
      n := freePages;
    }
  }

  predicate Within(p: nat, lo: nat, hi: nat) { lo <= p < hi }

  /** The pages from lo up to hi. */
  ghost function Pages(lo: nat, hi: nat): set<nat> {
    set p: nat | p < hi && Within(p, lo, hi)
  }

  lemma {:induction false} PagesSize(lo: nat, hi: nat)
    requires lo <= hi
    ensures |Pages(lo, hi)| == hi - lo
  {
    if lo < hi {
      PagesSize(lo, hi - 1);
      assert Pages(lo, hi) == Pages(lo, hi - 1) + {hi - 1};
    } else {
      assert Pages(lo, hi) == {};
    }
  }

  /** The counter is the number of pages without a mark. */
  ghost predicate Exact(s: Pool) { s.counter == |s.free| + s.slack }

  lemma FullExact(s: Pool, total: nat)
    requires s.free == Pages(0, s.tracked) && s.counter == total
    requires s.tracked == 8 * (total / 8) && s.slack == total % 8
    ensures Exact(s)
  {
    PagesSize(0, s.tracked);
  }

  /** mark_used on the pool. */
  ghost function MarkPool(s: Pool, page: nat): Pool {
    if page < s.tracked
    then s.(free := s.free - {page}, counter := (s.counter - 1) % WORD)
    else s
  }

  /** The pages from lo up to hi are marked one after the other. */
  ghost function MarkAll(s: Pool, lo: nat, hi: nat): Pool {
    if hi <= lo then s else MarkPool(MarkAll(s, lo, hi - 1), hi - 1)
  }

  lemma {:induction false} AllMarked(s: Pool, lo: nat, hi: nat, t: Pool)
    requires lo <= hi && Marked(s, s, lo, lo) == true && t == MarkAll(s, lo, hi)
    ensures Marked(s, t, lo, hi) == true
    decreases hi
  {
    if lo < hi {
      var h, t' := hi - 1, MarkAll(s, lo, hi - 1);
      assert Marked(s, t', lo, h) == true by { AllMarked(s, lo, h, t'); }
      assert t == MarkPool(t', h);
      MarkedStep(s, t', lo, h);
    }
  }

  lemma MarkExact(s: Pool, page: nat)
    requires ValidPool(s) && Exact(s)
    requires page < s.tracked ==> page in s.free
    ensures ValidPool(MarkPool(s, page)) && Exact(MarkPool(s, page))
    ensures MarkPool(s, page).free == s.free - {page}
  {
    if page < s.tracked {
      assert |s.free - {page}| == |s.free| - 1;
      Wrap(s.counter - 1);
    }
  }

  lemma PagesSnoc(lo: nat, hi: nat, free: set<nat>)
    requires lo < hi
    ensures free - Pages(lo, hi) == free - Pages(lo, hi - 1) - {hi - 1}
  {
    assert Pages(lo, hi) == Pages(lo, hi - 1) + {hi - 1};
  }

  /** The pool t is s with the pages lo up to hi marked, its counter exact; none of
      the pages from lo on was marked before. */
  ghost predicate Marked(s: Pool, t: Pool, lo: nat, hi: nat) {
    && Pages(lo, s.tracked) <= s.free
    && t.tracked == s.tracked && t.free == s.free - Pages(lo, hi)
    && ValidPool(t) && Exact(t)
  }

  lemma MarkedStep(s: Pool, t: Pool, lo: nat, hi: nat)
    requires lo <= hi && Marked(s, t, lo, hi) == true
    ensures Marked(s, MarkPool(t, hi), lo, hi + 1) == true
  {
    StillFree(s.free, lo, hi, s.tracked);
    MarkExact(t, hi);
    PagesSnoc(lo, hi + 1, s.free);
  }

  lemma NoneMarked(s: Pool, lo: nat)
    requires ValidPool(s) && Exact(s) && Pages(lo, s.tracked) <= s.free
    ensures Marked(s, s, lo, lo) == true
  {
    assert Pages(lo, lo) == {};
  }

  lemma StillFree(free: set<nat>, lo: nat, page: nat, tracked: nat)
    requires Pages(lo, tracked) <= free && lo <= page
    ensures page < tracked ==> page in free - Pages(lo, page)
  {
    assert page < tracked ==> page in Pages(lo, tracked);
  }

  lemma BootRest(s: Pool, t: Pool)
    requires s.free == Pages(0, s.tracked) && Marked(s, t, 0, 160)
    ensures Pages(256, t.tracked) <= t.free
  {}

  /** The two ranges of init leave the pages that are not reserved. */
  lemma BootMarked(s: Pool, t: Pool, u: Pool)
    requires s.free == Pages(0, s.tracked) && Marked(s, t, 0, 160) && Marked(t, u, 256, 512)
    ensures Ahead(u, 0) && u.free == BootFree(u.tracked)
  {
    BootSet(s.tracked);
    Wrap(u.counter);
  }

  lemma ByteOps(byte: nat, bit: nat)
    requires byte < 256 && bit < 8
    ensures Pow2(bit) < Pow2(8) == 256
    ensures Or(byte, Pow2(bit)) < 256
    ensures And(byte, Not(8, Pow2(bit))) < 256
  {
    assert Pow2(8) == 256;
    Pow2Monotone(bit, 7);
    OrBelow(8, byte, Pow2(bit));
    AndBelow(byte, Not(8, Pow2(bit)));
  }

  lemma ZeroBitmap(bitmap: seq<nat>)
    requires forall i | 0 <= i < |bitmap| :: bitmap[i] == 0
    ensures FreeSet(bitmap) == Pages(0, 8 * |bitmap|)
  {
    forall p: nat | p < 8 * |bitmap|
      ensures !Used(bitmap, p)
    {
      BitOfZero(p % 8);
    }
  }

  lemma BootSet(tracked: nat)
    ensures Pages(0, tracked) - Pages(0, 160) - Pages(256, 512) == BootFree(tracked)
  {
  }
}
