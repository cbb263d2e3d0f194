/** When the blocks handed out by kernel/mem/slab_allocator.rs overlap: the exact
    condition, over every run, merges and wrapping requests included. */
module Overlap {
  import opened Bits
  import opened Options
  import opened Slab

  // ---------------------------------------------------------------- overlap

  /** Header and live payload of two blocks have no byte in common. */
  predicate Apart(b: Block, c: Block) { EndOf(b) <= c.addr || EndOf(c) <= b.addr }

  predicate InHeap(b: Block, lo: nat, hi: nat) { lo <= b.addr && EndOf(b) <= hi }

  /** All headers and live payloads are inside the heap and pairwise disjoint. */
  ghost predicate Sound(blocks: seq<Block>, lo: nat, hi: nat) {
    && (forall i | 0 <= i < |blocks| :: InHeap(blocks[i], lo, hi))
    && (forall i, j | 0 <= i < j < |blocks| :: Apart(blocks[i], blocks[j]))
  }

  /** Where the list says the next block starts. */
  function NextAddr(blocks: seq<Block>, hi: nat, i: nat): nat
    requires i < |blocks|
  {
    if i + 1 < |blocks| then blocks[i + 1].addr else hi
  }

  predicate EndsBefore(blocks: seq<Block>, hi: nat, i: nat)
    requires i < |blocks|
  {
    EndOf(blocks[i]) <= NextAddr(blocks, hi, i)
  }

  /** Every block ends before the next one of the list starts. */
  ghost predicate Clear(blocks: seq<Block>, lo: nat, hi: nat) {
    && blocks != [] && blocks[0].addr == lo
    && forall i: nat | i < |blocks| :: EndsBefore(blocks, hi, i)
  }

  /** The request can be served without overlap: the block chosen has room for it up
      to the next block of the list, and for the header of the rest if it is cut. */
  predicate Room(blocks: seq<Block>, hi: nat, size: nat) {
    var k := FirstFit(blocks, Total(size));
    k < |blocks| ==>
      blocks[k].addr + HEADER + size + (if Splits(blocks[k], Total(size)) then HEADER else 0) <= NextAddr(blocks, hi, k)
  }

  lemma {:induction false} ClearRises(blocks: seq<Block>, lo: nat, hi: nat, i: nat, j: nat)
    requires Clear(blocks, lo, hi) && i < j <= |blocks|
    ensures EndOf(blocks[i]) <= if j < |blocks| then blocks[j].addr else hi
    decreases j
  {
    if i + 1 < j {
      ClearRises(blocks, lo, hi, i, j - 1);
      assert EndsBefore(blocks, hi, j - 1);
    } else {
      assert EndsBefore(blocks, hi, i);
    }
  }

  lemma ClearIsSound(blocks: seq<Block>, lo: nat, hi: nat)
    requires Clear(blocks, lo, hi)
    ensures Sound(blocks, lo, hi)
  {
    forall i | 0 <= i < |blocks|
      ensures InHeap(blocks[i], lo, hi)
    {
      ClearRises(blocks, lo, hi, i, |blocks|);
      if i > 0 { ClearRises(blocks, lo, hi, 0, i); }
    }
    forall i, j | 0 <= i < j < |blocks|
      ensures Apart(blocks[i], blocks[j])
    {
      ClearRises(blocks, lo, hi, i, j);
    }
  }

  // ------------------------------------------------------------- one request

  /** A block that is handed out whole. */
  lemma WholeClear(blocks: seq<Block>, lo: nat, hi: nat, k: nat, b: Block)
    requires Clear(blocks, lo, hi) && k < |blocks| && b.addr == blocks[k].addr && EndOf(b) <= NextAddr(blocks, hi, k)
    ensures Clear(blocks[k := b], lo, hi)
  {
    var after := blocks[k := b];
    forall i: nat | i < |after|
      ensures EndsBefore(after, hi, i)
    {
      assert EndsBefore(blocks, hi, i);
    }
  }

  /** A block that is cut in two. */
  lemma CutClear(blocks: seq<Block>, lo: nat, hi: nat, k: nat, b: Block, c: Block)
    requires Clear(blocks, lo, hi) && k < |blocks| && b.addr == blocks[k].addr
    requires EndOf(b) <= c.addr && EndOf(c) <= NextAddr(blocks, hi, k)
    ensures Clear(blocks[..k] + [b, c] + blocks[k + 1..], lo, hi)
  {
    var after := blocks[..k] + [b, c] + blocks[k + 1..];
    forall i: nat | i < |after|
      ensures EndsBefore(after, hi, i)
    {
      if i < k {
        assert EndsBefore(blocks, hi, i);
      } else if i > k + 1 {
        assert EndsBefore(blocks, hi, i - 1);
      }
    }
  }

  lemma RoomKeepsClear(s: Heap, size: nat, lo: nat, hi: nat)
    requires Clear(s.blocks, lo, hi) && hi < WORD && size < WORD && Room(s.blocks, hi, size)
    ensures Clear(AllocHeap(s, size).blocks, lo, hi)
  {
    var k := FirstFit(s.blocks, Total(size));
    if k < |s.blocks| {
      var b, total := s.blocks[k], Total(size);
      NextInHeap(s.blocks, lo, hi, k);
      Wrap(size + HEADER);
      if Splits(b, total) {
        Wrap(b.addr + total);
        CutClear(s.blocks, lo, hi, k, Carve(b, total, size)[0], Carve(b, total, size)[1]);
      } else {
        WholeClear(s.blocks, lo, hi, k, Carve(b, total, size)[0]);
        assert s.blocks[..k] + Carve(b, total, size) + s.blocks[k + 1..] == s.blocks[k := Carve(b, total, size)[0]];
      }
    }
  }

  lemma NextInHeap(blocks: seq<Block>, lo: nat, hi: nat, k: nat)
    requires Clear(blocks, lo, hi) && k < |blocks|
    ensures blocks[k].addr + HEADER <= NextAddr(blocks, hi, k) <= hi
  {
    assert EndsBefore(blocks, hi, k);
    if k + 1 < |blocks| { ClearRises(blocks, lo, hi, k + 1, |blocks|); }
  }

  /** Without room the new live block runs over the next one or out of the heap. */
  lemma NoRoomOverlaps(s: Heap, size: nat, lo: nat, hi: nat)
    requires Clear(s.blocks, lo, hi) && hi < WORD && size < WORD && !Room(s.blocks, hi, size)
    ensures !Sound(AllocHeap(s, size).blocks, lo, hi)
  {
    var k := FirstFit(s.blocks, Total(size));
    var b, total := s.blocks[k], Total(size);
    var mid := Carve(b, total, size);
    var after := AllocHeap(s, size).blocks;
    NextInHeap(s.blocks, lo, hi, k);
    assert after[k] == mid[0] && EndOf(mid[0]) == b.addr + HEADER + size;
    if Splits(b, total) {
      assert after[k + 1] == mid[1];
      Wrap(size + HEADER);
      Wrap(b.addr + total);
      if k + 1 < |s.blocks| {
        assert after[k + 2] == s.blocks[k + 1];
        assert !InHeap(after[k], lo, hi) || !Apart(after[k], after[k + 2]) || !Apart(after[k + 1], after[k + 2]);
      } else {
        assert !InHeap(after[k], lo, hi) || !InHeap(after[k + 1], lo, hi);
      }
    } else if k + 1 < |s.blocks| {
      assert after[k + 1] == s.blocks[k + 1];
      assert !Apart(after[k], after[k + 1]);
    } else {
      assert !InHeap(after[k], lo, hi);
    }
  }

  /** A request leaves all headers and live payloads disjoint and inside the heap if
      and only if there is room for it. */
  lemma AllocSoundIff(s: Heap, size: nat, lo: nat, hi: nat)
    requires Clear(s.blocks, lo, hi) && hi < WORD && size < WORD
    ensures Sound(AllocHeap(s, size).blocks, lo, hi) <==> Room(s.blocks, hi, size)
    ensures Clear(AllocHeap(s, size).blocks, lo, hi) <==> Room(s.blocks, hi, size)
  {
    if Room(s.blocks, hi, size) {
      RoomKeepsClear(s, size, lo, hi);
      ClearIsSound(AllocHeap(s, size).blocks, lo, hi);
    } else {
      NoRoomOverlaps(s, size, lo, hi);
      if Clear(AllocHeap(s, size).blocks, lo, hi) {
        ClearIsSound(AllocHeap(s, size).blocks, lo, hi);
        assert false;
      }
    }
  }

  // ------------------------------------------------------------- one release

  lemma ClearTail(blocks: seq<Block>, lo: nat, hi: nat)
    requires Clear(blocks, lo, hi) && |blocks| > 1
    ensures Clear(blocks[1..], blocks[1].addr, hi) && EndOf(blocks[0]) <= blocks[1].addr
  {
    var rest := blocks[1..];
    assert EndsBefore(blocks, hi, 0);
    forall i: nat | i < |rest|
      ensures EndsBefore(rest, hi, i)
    {
      assert EndsBefore(blocks, hi, i + 1);
    }
  }

  lemma ClearCons(b: Block, rest: seq<Block>, hi: nat)
    requires rest != [] ==> Clear(rest, rest[0].addr, hi)
    requires EndOf(b) <= if rest == [] then hi else rest[0].addr
    ensures Clear([b] + rest, b.addr, hi)
  {
    var blocks := [b] + rest;
    forall i: nat | i < |blocks|
      ensures EndsBefore(blocks, hi, i)
    {
      if i > 0 { assert EndsBefore(rest, hi, i - 1); }
    }
  }

  /** The coalescing pass takes headers away and moves none. */
  lemma {:induction false} PassClear(blocks: seq<Block>, lo: nat, hi: nat)
    requires Clear(blocks, lo, hi)
    ensures Clear(MergePass(blocks), lo, hi)
  {
    if |blocks| >= 2 {
      ClearTail(blocks, lo, hi);
      if blocks[0].free && blocks[1].free {
        assert EndsBefore(blocks, hi, 1);
        assert blocks[1..][1..] == blocks[2..];
        if |blocks| > 2 {
          ClearTail(blocks[1..], blocks[1].addr, hi);
          PassClear(blocks[2..], blocks[2].addr, hi);
        }
        ClearCons(Merged(blocks[0], blocks[1]), MergePass(blocks[2..]), hi);
      } else {
        PassClear(blocks[1..], blocks[1].addr, hi);
        ClearCons(blocks[0], MergePass(blocks[1..]), hi);
      }
    }
  }

  /** A release never makes blocks overlap, whatever it merges. */
  lemma DeallocClear(s: Heap, k: nat, lo: nat, hi: nat)
    requires Clear(s.blocks, lo, hi) && k < |s.blocks|
    ensures Clear(DeallocHeap(s, k).blocks, lo, hi)
  {
    var b := s.blocks[k].(free := true);
    NextInHeap(s.blocks, lo, hi, k);
    WholeClear(s.blocks, lo, hi, k, b);
    PassClear(s.blocks[k := b], lo, hi);
  }

  // ------------------------------------------------------------------- runs

  /** Every request among the first n steps has room when it is made. */
  ghost predicate AllRoom(trace: seq<Heap>, ops: seq<Op>, hi: nat, n: nat)
    requires n <= |ops| <= |trace|
  {
    forall k | 0 <= k < n && ops[k].Alloc? :: Room(trace[k].blocks, hi, ops[k].size)
  }

  ghost predicate AllSound(trace: seq<Heap>, lo: nat, hi: nat, n: nat)
    requires n < |trace|
  {
    forall k | 0 <= k <= n :: Sound(trace[k].blocks, lo, hi)
  }

  lemma InitClear(lo: nat, size: nat)
    requires HEADER <= size && lo + size < WORD
    ensures Clear(Init(lo, size).blocks, lo, lo + size)
  {
  }

  lemma {:induction false} RoomRunClear(trace: seq<Heap>, ops: seq<Op>, lo: nat, size: nat, n: nat)
    requires HEADER <= size && lo + size < WORD && IsRun(trace, ops) && trace[0] == Init(lo, size)
    requires n <= |ops| && AllRoom(trace, ops, lo + size, n)
    ensures Clear(trace[n].blocks, lo, lo + size)
  {
    if n == 0 {
      InitClear(lo, size);
    } else {
      var i := n - 1;
      RoomRunClear(trace, ops, lo, size, i);
      assert Legal(trace[i], ops[i]) && trace[i + 1] == Step(trace[i], ops[i]);
      match ops[i] {
        case Alloc(asked) => RoomKeepsClear(trace[i], asked, lo, lo + size);
        case Dealloc(k) => DeallocClear(trace[i], k, lo, lo + size);
      }
    }
  }

  /** The first request without room makes blocks overlap or leave the heap. */
  lemma {:induction false} NoRoomRun(trace: seq<Heap>, ops: seq<Op>, lo: nat, size: nat, n: nat)
    requires HEADER <= size && lo + size < WORD && IsRun(trace, ops) && trace[0] == Init(lo, size)
    requires n <= |ops| && !AllRoom(trace, ops, lo + size, n)
    ensures exists k :: 0 <= k <= n && !Sound(trace[k].blocks, lo, lo + size)
  {
    var i := n - 1;
    if AllRoom(trace, ops, lo + size, i) == true {
      RoomRunClear(trace, ops, lo, size, i);
      assert Legal(trace[i], ops[i]) && trace[i + 1] == Step(trace[i], ops[i]);
      NoRoomOverlaps(trace[i], ops[i].size, lo, lo + size);
    } else {
      NoRoomRun(trace, ops, lo, size, i);
    }
  }

  /** Over every run from init, merges and overlong requests included: in all of the
      first n steps headers and live payloads are pairwise disjoint and inside the heap
      if and only if every request among them has room when it is made. */
  lemma SoundIffRoom(trace: seq<Heap>, ops: seq<Op>, lo: nat, size: nat, n: nat)
    requires HEADER <= size && lo + size < WORD && IsRun(trace, ops) && trace[0] == Init(lo, size) && n <= |ops|
    ensures AllSound(trace, lo, lo + size, n) <==> AllRoom(trace, ops, lo + size, n)
  {
    if AllRoom(trace, ops, lo + size, n) == true {
      forall k | 0 <= k <= n
        ensures Sound(trace[k].blocks, lo, lo + size) == true
      {
        RoomRunClear(trace, ops, lo, size, k);
        ClearIsSound(trace[k].blocks, lo, lo + size);
      }
    } else {
      NoRoomRun(trace, ops, lo, size, n);
    }
  }

  // ---------------------------------------------------- until the first merge

  /** In an unmerged heap every harmless request has room. */
  lemma HarmlessHasRoom(s: Heap, size: nat, lo: nat, hi: nat)
    requires Intact(s, lo, hi) && hi < WORD && size < WORD && Harmless(s.blocks, size)
    ensures Room(s.blocks, hi, size)
  {
    AllocIntactIff(s, size, lo, hi);
    IntactClear(s.blocks, lo, hi);
    IntactClear(AllocHeap(s, size).blocks, lo, hi);
    AllocSoundIff(s, size, lo, hi);
  }

  lemma {:induction false} IntactClear(blocks: seq<Block>, lo: nat, hi: nat)
    requires Tiles(blocks, lo, hi) && LiveFits(blocks)
    ensures Clear(blocks, lo, hi)
  {
    forall i: nat | i < |blocks|
      ensures EndsBefore(blocks, hi, i)
    {
      if i + 1 < |blocks| {
        TilesDisjoint(blocks, lo, hi, i, i + 1);
      } else {
        TilesWithin(blocks, lo, hi, i);
      }
    }
  }

  lemma {:induction false} MergesRise(trace: seq<Heap>, ops: seq<Op>, i: nat, j: nat)
    requires IsRun(trace, ops) && i <= j <= |ops|
    ensures trace[i].merges <= trace[j].merges
    decreases j
  {
    if i < j {
      MergesRise(trace, ops, i, j - 1);
      StepMerges(trace[j - 1], ops[j - 1]);
    }
  }

  lemma RoomUntilMerge(trace: seq<Heap>, ops: seq<Op>, lo: nat, size: nat)
    requires HEADER <= size && lo + size < WORD && AllHarmless(trace, ops)
    requires IsRun(trace, ops) && trace[0] == Init(lo, size) && trace[|ops|].merges == 0
    ensures AllRoom(trace, ops, lo + size, |ops|)
  {
    forall k | 0 <= k < |ops| && ops[k].Alloc?
      ensures Room(trace[k].blocks, lo + size, ops[k].size)
    {
      MergesRise(trace, ops, k, |ops|);
      IntactUntilMerge(trace[..k + 1], ops[..k], lo, size);
      assert Legal(trace[k], ops[k]);
      HarmlessHasRoom(trace[k], ops[k].size, lo, lo + size);
    }
  }

  /** So in a run of harmless requests, until the first merge, every header and live
      payload is inside the heap and no two of them overlap. */
  lemma DisjointUntilMerge(trace: seq<Heap>, ops: seq<Op>, lo: nat, size: nat)
    requires HEADER <= size && lo + size < WORD && AllHarmless(trace, ops)
    requires IsRun(trace, ops) && trace[0] == Init(lo, size) && trace[|ops|].merges == 0
    ensures AllSound(trace, lo, lo + size, |ops|)
  {
    RoomUntilMerge(trace, ops, lo, size);
    SoundIffRoom(trace, ops, lo, size, |ops|);
  }

  /** In the run of MergeOverlaps the merge itself does no harm; the request after it
      has no room. */
  lemma LastRequestHasNoRoom(lo: nat)
    requires lo + 1000 < WORD
    ensures Sound(Example(lo)[5].blocks, lo, lo + 1000) && Example(lo)[5].merges == 1
    ensures !Room(Example(lo)[5].blocks, lo + 1000, 224)
  {
    var blocks := Example(lo)[5].blocks;
    assert Clear(blocks, lo, lo + 1000);
    ClearIsSound(blocks, lo, lo + 1000);
    assert Total(224) == 236;
    assert FirstFit(blocks, 236) == 0;
  }
}
