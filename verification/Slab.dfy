/** The free-list allocator of kernel/mem/slab_allocator.rs, at the level of its
    list of blocks.  A split leaves the front block with a size that counts its
    header, a merge adds a header as if it did not: every merge makes the recorded
    sizes drift by one header. */
module Slab {
  import opened Bits
  import opened Options

  /** Size of SlabBlock: two 32-bit words and a flag. */
  const HEADER: nat := 12

  /** A block of the list.  asked is the size the client last asked for; the
      allocator itself does not record it. */
  datatype Block = Block(addr: nat, size: nat, free: bool, asked: nat)

  datatype Heap = Heap(blocks: seq<Block>, totalAllocated: nat, totalFreed: nat, merges: nat)

  // -------------------------------------------------------------- operations

  /** One free block; taking the header off the size wraps like every difference. */
  function Init(start: nat, size: nat): Heap {
    Heap([Block(start, (size - HEADER) % WORD, true, 0)], 0, 0, 0)
  }

  predicate Fits(b: Block, total: nat) { b.free && b.size >= total }

  /** Position of the first block that fits, or the length of the list. */
  function FirstFit(blocks: seq<Block>, total: nat): (k: nat)
    ensures k <= |blocks|
    ensures k < |blocks| ==> Fits(blocks[k], total)
    ensures forall j | 0 <= j < k :: !Fits(blocks[j], total)
  {
    if blocks == [] || Fits(blocks[0], total) then 0 else 1 + FirstFit(blocks[1..], total)
  }

  /** Bytes taken for a request: the addition of the header wraps. */
  function Total(size: nat): nat { (size + HEADER) % WORD }

  /** A block is cut in two if it has room for another header. */
  predicate Splits(b: Block, total: nat) { b.size > (total + HEADER) % WORD }

  /** The blocks that take the place of a chosen block. */
  function Carve(b: Block, total: nat, asked: nat): seq<Block>
    requires b.size >= total
  {
    if Splits(b, total)
    then [Block(b.addr, total, false, asked), Block((b.addr + total) % WORD, b.size - total, true, 0)]
    else [b.(free := false, asked := asked)]
  }

  function AllocHeap(s: Heap, size: nat): Heap {
    var total := Total(size);
    var k := FirstFit(s.blocks, total);
    if k == |s.blocks| then s
    else
      var carved := Carve(s.blocks[k], total, size);
      s.(blocks := s.blocks[..k] + carved + s.blocks[k + 1..], totalAllocated := (s.totalAllocated + carved[0].size) % WORD)
  }

  /** The pointer returned; None stands for null. */
  function AllocResult(s: Heap, size: nat): Option<nat> {
    var k := FirstFit(s.blocks, Total(size));
    if k == |s.blocks| then None else Some((s.blocks[k].addr + HEADER) % WORD)
  }

  /** A pointer that is returned is the payload of a block that was free, is live now
      and is recorded for this request; no block in front of it would have done. */
  lemma AllocGives(s: Heap, size: nat) returns (k: nat)
    requires AllocResult(s, size).Some?
    ensures k < |s.blocks| && k < |AllocHeap(s, size).blocks|
    ensures Fits(s.blocks[k], Total(size)) && forall j | 0 <= j < k :: !Fits(s.blocks[j], Total(size))
    ensures AllocHeap(s, size).blocks[..k] == s.blocks[..k]
    ensures var b := AllocHeap(s, size).blocks[k];
      b.addr == s.blocks[k].addr && !b.free && b.asked == size && Total(size) <= b.size
      && AllocResult(s, size) == Some((b.addr + HEADER) % WORD)
  {
    k := FirstFit(s.blocks, Total(size));
  }

  /** What a request that does not wrap gets, in plain numbers: the first free block of
      at least 12 bytes more.  With more than 12 further bytes to spare it is cut and the
      rest becomes a free block behind it, otherwise it is handed out whole. */
  lemma AllocExactly(s: Heap, size: nat) returns (k: nat)
    requires size + 24 < WORD
    ensures k <= |s.blocks| && forall j | 0 <= j < k :: !(s.blocks[j].free && s.blocks[j].size >= size + 12)
    ensures k == |s.blocks| ==> AllocResult(s, size) == None && AllocHeap(s, size) == s
    ensures k < |s.blocks| ==>
      var b, after := s.blocks[k], AllocHeap(s, size).blocks;
      && b.free && b.size >= size + 12
      && AllocResult(s, size) == Some((b.addr + 12) % WORD)
      && after == s.blocks[..k]
                  + (if b.size > size + 24
                     then [Block(b.addr, size + 12, false, size), Block((b.addr + size + 12) % WORD, b.size - size - 12, true, 0)]
                     else [Block(b.addr, b.size, false, size)])
                  + s.blocks[k + 1..]
  {
    k := FirstFit(s.blocks, Total(size));
    Wrap(size + HEADER);
    Wrap(size + HEADER + HEADER);
  }

  function Merged(a: Block, b: Block): Block {
    a.(size := (a.size + b.size + HEADER) % WORD)
  }

  /** The one coalescing pass of dealloc: it moves on past a merged block. */
  function MergePass(blocks: seq<Block>): (r: seq<Block>)
    ensures |r| <= |blocks|
  {
    if |blocks| < 2 then blocks
    else if blocks[0].free && blocks[1].free then [Merged(blocks[0], blocks[1])] + MergePass(blocks[2..])
    else [blocks[0]] + MergePass(blocks[1..])
  }

  function ReleaseHeap(s: Heap, k: nat): Heap
    requires k < |s.blocks|
  {
    s.(blocks := s.blocks[k := s.blocks[k].(free := true)],
       totalFreed := (s.totalFreed + s.blocks[k].size) % WORD)
  }

  function PassHeap(s: Heap): Heap {
    s.(blocks := MergePass(s.blocks), merges := s.merges + |s.blocks| - |MergePass(s.blocks)|)
  }

  function DeallocHeap(s: Heap, k: nat): Heap
    requires k < |s.blocks|
  {
    PassHeap(ReleaseHeap(s, k))
  }

  /** The blocks in use, in the order of the list. */
  function LiveBlocks(blocks: seq<Block>): seq<Block> {
    if blocks == [] then [] else (if blocks[0].free then [] else [blocks[0]]) + LiveBlocks(blocks[1..])
  }

  lemma {:induction false} LiveConcat(a: seq<Block>, b: seq<Block>)
    ensures LiveBlocks(a + b) == LiveBlocks(a) + LiveBlocks(b)
  {
    if a == [] {
      assert a + b == b;
    } else {
      var rest := a[1..];
      LiveConcat(rest, b);
      assert [a[0]] + rest == a && [a[0]] + (rest + b) == a + b;
      LiveCons(a[0], rest);
      LiveCons(a[0], rest + b);
      Associate(LiveBlocks([a[0]]), LiveBlocks(rest), LiveBlocks(b));
    }
  }

  lemma LiveCons(x: Block, rest: seq<Block>)
    ensures LiveBlocks([x] + rest) == LiveBlocks([x]) + LiveBlocks(rest)
  {
    assert ([x] + rest)[1..] == rest && [x][1..] == [];
  }

  lemma Associate(a: seq<Block>, b: seq<Block>, c: seq<Block>)
    ensures a + (b + c) == a + b + c
  {}

  lemma {:induction false} PassLive(blocks: seq<Block>)
    ensures LiveBlocks(MergePass(blocks)) == LiveBlocks(blocks)
  {
    if |blocks| >= 2 {
      if blocks[0].free && blocks[1].free {
        PassLive(blocks[2..]);
        assert blocks[1..][1..] == blocks[2..];
        assert ([Merged(blocks[0], blocks[1])] + MergePass(blocks[2..]))[1..] == MergePass(blocks[2..]);
      } else {
        PassLive(blocks[1..]);
        assert ([blocks[0]] + MergePass(blocks[1..]))[1..] == MergePass(blocks[1..]);
      }
    }
  }

  /** A release takes exactly that block out of use and leaves all others in use with
      their addresses, sizes and requests, whatever is merged. */
  lemma DeallocReleases(s: Heap, k: nat)
    requires k < |s.blocks|
    ensures LiveBlocks(DeallocHeap(s, k).blocks) == LiveBlocks(s.blocks[..k]) + LiveBlocks(s.blocks[k + 1..])
  {
    var b := s.blocks[k].(free := true);
    var pre, post := s.blocks[..k], s.blocks[k + 1..];
    assert s.blocks[k := b] == pre + [b] + post;
    PassLive(s.blocks[k := b]);
    LiveConcat(pre + [b], post);
    LiveConcat(pre, [b]);
  }

  // ------------------------------------------------------------------- runs

  /** A run: requests, and releases of the live block at some list position. */
  datatype Op = Alloc(size: nat) | Dealloc(k: nat)

  predicate Legal(s: Heap, op: Op) {
    match op
    case Alloc(size) => size < WORD
    case Dealloc(k) => k < |s.blocks| && !s.blocks[k].free
  }

  function Step(s: Heap, op: Op): Heap
    requires Legal(s, op)
  {
    match op
    case Alloc(size) => AllocHeap(s, size)
    case Dealloc(k) => DeallocHeap(s, k)
  }

  /** The states of a legal run. */
  ghost predicate IsRun(trace: seq<Heap>, ops: seq<Op>) {
    && |trace| == |ops| + 1
    && forall k | 0 <= k < |ops| :: Legal(trace[k], ops[k]) && trace[k + 1] == Step(trace[k], ops[k])
  }

  // --------------------------------------------------- adjacent free blocks

  predicate HeadFree(blocks: seq<Block>) { blocks != [] && blocks[0].free }

  predicate LastFree(blocks: seq<Block>) { blocks != [] && blocks[|blocks| - 1].free }

  /** One if a free block ends a and another starts b. */
  function Seam(a: seq<Block>, b: seq<Block>): nat {
    if LastFree(a) && HeadFree(b) then 1 else 0
  }

  /** Number of adjacent pairs of free blocks. */
  function Pairs(blocks: seq<Block>): nat {
    if |blocks| < 2 then 0
    else Seam(blocks[..1], blocks[1..]) + Pairs(blocks[1..])
  }

  /** One pass at least halves the adjacent free pairs. */
  lemma {:induction false} MergeHalvesPairs(blocks: seq<Block>)
    ensures 2 * Pairs(MergePass(blocks)) <= Pairs(blocks)
    ensures HeadFree(MergePass(blocks)) == HeadFree(blocks)
  {
    if |blocks| >= 2 {
      if blocks[0].free && blocks[1].free {
        MergeHalvesPairs(blocks[2..]);
        assert blocks[1..][1..] == blocks[2..];
        assert MergePass(blocks)[1..] == MergePass(blocks[2..]);
      } else {
        MergeHalvesPairs(blocks[1..]);
        assert MergePass(blocks)[1..] == MergePass(blocks[1..]);
      }
    }
  }

  /** Pairs of a concatenation: those of the parts and the seam. */
  lemma {:induction false} PairsConcat(a: seq<Block>, b: seq<Block>)
    ensures Pairs(a + b) == Pairs(a) + Seam(a, b) + Pairs(b)
  {
    if a == [] {
      assert a + b == b;
    } else if |a| == 1 {
      assert (a + b)[1..] == b;
    } else {
      PairsConcat(a[1..], b);
      assert (a + b)[1..] == a[1..] + b;
    }
  }

  /** Replacing one block by others: what it does to the pairs. */
  lemma PairsAround(pre: seq<Block>, mid: seq<Block>, post: seq<Block>)
    requires mid != []
    ensures Pairs(pre + mid + post) ==
            Pairs(pre) + Seam(pre, mid) + Pairs(mid) + Seam(mid, post) + Pairs(post)
  {
    PairsConcat(pre, mid);
    PairsConcat(pre + mid, post);
    assert LastFree(pre + mid) == LastFree(mid);
  }

  lemma AllocPairs(s: Heap, size: nat)
    ensures Pairs(AllocHeap(s, size).blocks) <= Pairs(s.blocks)
  {
    var k := FirstFit(s.blocks, Total(size));
    if k < |s.blocks| {
      var pre, b, post := s.blocks[..k], s.blocks[k], s.blocks[k + 1..];
      assert s.blocks == pre + [b] + post;
      PairsAround(pre, [b], post);
      PairsAround(pre, Carve(b, Total(size), size), post);
    }
  }

  lemma DeallocPairs(s: Heap, k: nat)
    requires k < |s.blocks|
    ensures 2 * Pairs(DeallocHeap(s, k).blocks) <= Pairs(s.blocks) + 2
  {
    var pre, b, post := s.blocks[..k], s.blocks[k], s.blocks[k + 1..];
    var b' := b.(free := true);
    assert s.blocks == pre + [b] + post;
    assert s.blocks[k := b'] == pre + [b'] + post;
    PairsAround(pre, [b], post);
    PairsAround(pre, [b'], post);
    MergeHalvesPairs(s.blocks[k := b']);
  }

  /** Over every run at most one adjacent pair of free blocks is left. */
  lemma {:induction false} RunPairs(trace: seq<Heap>, ops: seq<Op>)
    requires IsRun(trace, ops) && Pairs(trace[0].blocks) <= 1
    ensures Pairs(trace[|ops|].blocks) <= 1
  {
    if ops != [] {
      var n := |ops| - 1;
      RunPairs(trace[..n + 1], ops[..n]);
      assert Legal(trace[n], ops[n]) && trace[n + 1] == Step(trace[n], ops[n]);
      match ops[n] {
        case Alloc(size) => AllocPairs(trace[n], size);
        case Dealloc(k) => DeallocPairs(trace[n], k);
      }
    }
  }

  predicate PairAt(blocks: seq<Block>, i: nat) {
    i + 1 < |blocks| && blocks[i].free && blocks[i + 1].free
  }

  lemma {:induction false} PairCounts(blocks: seq<Block>, i: nat)
    requires PairAt(blocks, i)
    ensures Pairs(blocks) >= 1
  {
    if i > 0 { PairCounts(blocks[1..], i - 1); }
  }

  lemma {:induction false} TwoPairsCount(blocks: seq<Block>, i: nat, j: nat)
    requires i < j && PairAt(blocks, i) && PairAt(blocks, j)
    ensures Pairs(blocks) >= 2
  {
    if i > 0 {
      TwoPairsCount(blocks[1..], i - 1, j - 1);
    } else {
      PairCounts(blocks[1..], j - 1);
    }
  }

  /** In positions: after any run from init there are no two adjacent free pairs,
      so in particular never three free blocks in a row. */
  lemma AtMostOnePair(start: nat, size: nat, trace: seq<Heap>, ops: seq<Op>, i: nat, j: nat)
    requires IsRun(trace, ops) && trace[0] == Init(start, size)
    requires PairAt(trace[|ops|].blocks, i) && PairAt(trace[|ops|].blocks, j)
    ensures i == j
  {
    RunPairs(trace, ops);
    if i < j {
      TwoPairsCount(trace[|ops|].blocks, i, j);
    } else if j < i {
      TwoPairsCount(trace[|ops|].blocks, j, i);
    }
  }

  // ------------------------------------------------------------- the ledger

  function Sum(blocks: seq<Block>): nat {
    if blocks == [] then 0 else blocks[0].size + Sum(blocks[1..])
  }

  /** Recorded sizes of the live blocks. */
  function Live(blocks: seq<Block>): nat {
    if blocks == [] then 0 else (if blocks[0].free then 0 else blocks[0].size) + Live(blocks[1..])
  }

  lemma {:induction false} SumConcat(a: seq<Block>, b: seq<Block>)
    ensures Sum(a + b) == Sum(a) + Sum(b) && Live(a + b) == Live(a) + Live(b)
  {
    if a == [] {
      assert a + b == b;
    } else {
      assert (a + b)[1..] == a[1..] + b;
      SumConcat(a[1..], b);
    }
  }

  lemma SumAround(blocks: seq<Block>, k: nat, mid: seq<Block>)
    requires k < |blocks|
    ensures Sum(blocks[..k] + mid + blocks[k + 1..]) == Sum(blocks) - blocks[k].size + Sum(mid)
    ensures Live(blocks[..k] + mid + blocks[k + 1..]) ==
            Live(blocks) - (if blocks[k].free then 0 else blocks[k].size) + Live(mid)
  {
    var pre, post := blocks[..k], blocks[k + 1..];
    assert blocks == pre + [blocks[k]] + post;
    SumConcat(pre, [blocks[k]]);
    SumConcat(pre + [blocks[k]], post);
    SumConcat(pre, mid);
    SumConcat(pre + mid, post);
  }

  /** The recorded sizes add up to the heap without one header, plus one header
      for every merge so far; the two totals differ by what is live. */
  ghost predicate Ledger(s: Heap, heapSize: nat) {
    && Sum(s.blocks) % WORD == (heapSize - HEADER + HEADER * s.merges) % WORD
    && (s.totalAllocated - s.totalFreed) % WORD == Live(s.blocks) % WORD
  }

  lemma AllocLedger(s: Heap, size: nat, heapSize: nat)
    requires Ledger(s, heapSize)
    ensures Ledger(AllocHeap(s, size), heapSize)
  {
    var k := FirstFit(s.blocks, Total(size));
    if k < |s.blocks| {
      var mid := Carve(s.blocks[k], Total(size), size);
      SumAround(s.blocks, k, mid);
      assert Sum(mid) == s.blocks[k].size && Live(mid) == mid[0].size by { CarveSum(s.blocks[k], Total(size), size); }
      ModSum(s.totalAllocated, mid[0].size, s.totalFreed, Live(s.blocks));
    }
  }

  lemma CarveSum(b: Block, total: nat, asked: nat)
    requires b.size >= total
    ensures Sum(Carve(b, total, asked)) == b.size && Live(Carve(b, total, asked)) == Carve(b, total, asked)[0].size
  {
    var c := Carve(b, total, asked);
    if Splits(b, total) {
      assert c == [c[0]] + [c[1]];
      SumConcat([c[0]], [c[1]]);
    }
  }

  lemma ModSum(a: int, d: int, f: int, live: int)
    requires (a - f) % WORD == live % WORD
    ensures ((a + d) % WORD - f) % WORD == (live + d) % WORD
  {
  }

  lemma ModDiff(a: int, d: int, f: int, live: int)
    requires (a - f) % WORD == live % WORD
    ensures (a - (f + d) % WORD) % WORD == (live - d) % WORD
  {
  }

  /** Merging keeps the bytes handed out, and every merge adds a header's worth to
      the sum of the sizes. */
  ghost predicate SumsKept(blocks: seq<Block>, merged: seq<Block>) {
    && Live(merged) == Live(blocks)
    && Sum(merged) % WORD == (Sum(blocks) + HEADER * (|blocks| - |merged|)) % WORD
  }

  lemma {:induction false} MergeSums(blocks: seq<Block>)
    ensures SumsKept(blocks, MergePass(blocks)) == true
  {
    if |blocks| >= 2 {
      if blocks[0].free && blocks[1].free {
        MergeSums(blocks[2..]);
        JoinedSums(blocks, MergePass(blocks[2..]));
      } else {
        MergeSums(blocks[1..]);
        KeptSums(blocks, MergePass(blocks[1..]));
      }
    }
  }

  lemma JoinedSums(blocks: seq<Block>, rest: seq<Block>)
    requires |blocks| >= 2 && blocks[0].free && blocks[1].free && SumsKept(blocks[2..], rest) == true
    ensures SumsKept(blocks, [Merged(blocks[0], blocks[1])] + rest) == true
  {
    SumTwo(blocks);
    var w := blocks[0].size + blocks[1].size + HEADER;
    assert ([Merged(blocks[0], blocks[1])] + rest)[1..] == rest;
    ModAdd(w, Sum(rest), Sum(blocks[2..]) + HEADER * (|blocks| - 2 - |rest|));
  }

  lemma KeptSums(blocks: seq<Block>, rest: seq<Block>)
    requires blocks != [] && SumsKept(blocks[1..], rest) == true
    ensures SumsKept(blocks, [blocks[0]] + rest) == true
  {
    assert ([blocks[0]] + rest)[1..] == rest;
    ModAdd(blocks[0].size, Sum(rest), Sum(blocks[1..]) + HEADER * (|blocks| - 1 - |rest|));
  }

  lemma SumTwo(blocks: seq<Block>)
    requires |blocks| >= 2 && blocks[0].free && blocks[1].free
    ensures Sum(blocks) == blocks[0].size + blocks[1].size + Sum(blocks[2..]) && Live(blocks) == Live(blocks[2..])
  {
    assert blocks[1..][1..] == blocks[2..];
  }

  lemma ModAdd(w: int, x: int, y: int)
    requires x % WORD == y % WORD
    ensures (w + x) % WORD == (w + y) % WORD
    ensures (w % WORD + x) % WORD == (w + y) % WORD
  {
  }

  lemma DeallocLedger(s: Heap, k: nat, heapSize: nat)
    requires k < |s.blocks| && !s.blocks[k].free && Ledger(s, heapSize)
    ensures Ledger(DeallocHeap(s, k), heapSize)
  {
    var b := s.blocks[k];
    var marked := s.blocks[k := b.(free := true)];
    MarkSums(s.blocks, k);
    MergeSums(marked);
    LedgerMoves(s, MergePass(marked), marked, b.size, heapSize);
  }

  lemma LedgerMoves(s: Heap, merged: seq<Block>, marked: seq<Block>, size: nat, heapSize: nat)
    requires Ledger(s, heapSize) && SumsKept(marked, merged) && |merged| <= |marked|
    requires Sum(marked) == Sum(s.blocks) && Live(marked) == Live(s.blocks) - size
    ensures Ledger(Heap(merged, s.totalAllocated, (s.totalFreed + size) % WORD, s.merges + |marked| - |merged|), heapSize) == true
  {
    ModDiff(s.totalAllocated, size, s.totalFreed, Live(s.blocks));
    ModAdd(HEADER * (|marked| - |merged|), Sum(s.blocks), heapSize - HEADER + HEADER * s.merges);
  }

  lemma MarkSums(blocks: seq<Block>, k: nat)
    requires k < |blocks| && !blocks[k].free
    ensures var marked := blocks[k := blocks[k].(free := true)];
      Sum(marked) == Sum(blocks) && Live(marked) == Live(blocks) - blocks[k].size
  {
    var b := blocks[k].(free := true);
    assert blocks[k := b] == blocks[..k] + [b] + blocks[k + 1..];
    SumAround(blocks, k, [b]);
  }

  lemma {:induction false} RunLedger(trace: seq<Heap>, ops: seq<Op>, heapSize: nat)
    requires IsRun(trace, ops) && Ledger(trace[0], heapSize)
    ensures Ledger(trace[|ops|], heapSize)
  {
    if ops != [] {
      var n := |ops| - 1;
      RunLedger(trace[..n + 1], ops[..n], heapSize);
      assert Legal(trace[n], ops[n]) && trace[n + 1] == Step(trace[n], ops[n]);
      match ops[n] {
        case Alloc(size) => AllocLedger(trace[n], size, heapSize);
        case Dealloc(k) => DeallocLedger(trace[n], k, heapSize);
      }
    }
  }

  lemma InitLedger(start: nat, size: nat)
    ensures Ledger(Init(start, size), size)
  {
  }

  // The same without a modulus, as long as the sizes fit a word.

  lemma {:induction false} MergeSumsExactly(blocks: seq<Block>)
    requires Sum(blocks) + HEADER * (|blocks| - |MergePass(blocks)|) < WORD
    ensures Sum(MergePass(blocks)) == Sum(blocks) + HEADER * (|blocks| - |MergePass(blocks)|)
  {
    if |blocks| >= 2 {
      if blocks[0].free && blocks[1].free {
        var rest := MergePass(blocks[2..]);
        assert blocks[1..][1..] == blocks[2..];
        assert MergePass(blocks)[1..] == rest;
        MergeSumsExactly(blocks[2..]);
        Wrap(blocks[0].size + blocks[1].size + HEADER);
      } else {
        assert MergePass(blocks)[1..] == MergePass(blocks[1..]);
        MergeSumsExactly(blocks[1..]);
      }
    }
  }

  lemma AllocSum(s: Heap, size: nat)
    ensures Sum(AllocHeap(s, size).blocks) == Sum(s.blocks) && AllocHeap(s, size).merges == s.merges
  {
    var k := FirstFit(s.blocks, Total(size));
    if k < |s.blocks| {
      SumAround(s.blocks, k, Carve(s.blocks[k], Total(size), size));
      CarveSum(s.blocks[k], Total(size), size);
    }
  }

  lemma DeallocSum(s: Heap, k: nat)
    requires k < |s.blocks|
    requires Sum(s.blocks) + HEADER * (DeallocHeap(s, k).merges - s.merges) < WORD
    ensures Sum(DeallocHeap(s, k).blocks) == Sum(s.blocks) + HEADER * (DeallocHeap(s, k).merges - s.merges)
  {
    var b := s.blocks[k].(free := true);
    var marked := s.blocks[k := b];
    assert marked == s.blocks[..k] + [b] + s.blocks[k + 1..];
    SumAround(s.blocks, k, [b]);
    assert Sum(marked) == Sum(s.blocks);
    MergeSumsExactly(marked);
  }

  lemma StepMerges(s: Heap, op: Op)
    requires Legal(s, op)
    ensures s.merges <= Step(s, op).merges
  {
  }

  lemma {:induction false} SumExactly(trace: seq<Heap>, ops: seq<Op>, lo: nat, size: nat)
    requires HEADER <= size && IsRun(trace, ops) && trace[0] == Init(lo, size)
    requires size - HEADER + HEADER * trace[|ops|].merges < WORD
    ensures Sum(trace[|ops|].blocks) == size - HEADER + HEADER * trace[|ops|].merges
  {
    if ops == [] {
      Wrap(size - HEADER);
    } else {
      var n := |ops| - 1;
      assert Legal(trace[n], ops[n]) && trace[n + 1] == Step(trace[n], ops[n]);
      StepMerges(trace[n], ops[n]);
      SumExactly(trace[..n + 1], ops[..n], lo, size);
      match ops[n] {
        case Alloc(asked) => AllocSum(trace[n], asked);
        case Dealloc(k) => DeallocSum(trace[n], k);
      }
    }
  }

  lemma {:induction false} LiveBelowSum(blocks: seq<Block>)
    ensures Live(blocks) <= Sum(blocks)
  {
    if blocks != [] { LiveBelowSum(blocks[1..]); }
  }

  /** Over every run from init, as long as the sizes fit a word: they add up to the
      heap less one header plus one header for every merge, and total_allocated less
      total_freed, as a word, is what is live. */
  lemma ExactLedger(trace: seq<Heap>, ops: seq<Op>, lo: nat, size: nat)
    requires HEADER <= size && IsRun(trace, ops) && trace[0] == Init(lo, size)
    requires size - HEADER + HEADER * trace[|ops|].merges < WORD
    ensures var s := trace[|ops|];
      && Sum(s.blocks) == size - HEADER + HEADER * s.merges
      && (s.totalAllocated - s.totalFreed) % WORD == Live(s.blocks)
  {
    SumExactly(trace, ops, lo, size);
    InitLedger(lo, size);
    RunLedger(trace, ops, size);
    LiveBelowSum(trace[|ops|].blocks);
    Wrap(Live(trace[|ops|].blocks));
  }

  // ------------------------------------------------------------- the layout

  /** The blocks lie one behind the other from lo to hi.  All sizes count the
      header except that of the last block. */
  ghost predicate Tiles(blocks: seq<Block>, lo: nat, hi: nat) {
    && blocks != []
    && blocks[0].addr == lo
    && if |blocks| == 1 then lo + HEADER + blocks[0].size == hi
       else HEADER <= blocks[0].size && Tiles(blocks[1..], lo + blocks[0].size, hi)
  }

  /** Live blocks have room for what was asked. */
  ghost predicate LiveFits(blocks: seq<Block>) {
    forall i | 0 <= i < |blocks| && !blocks[i].free :: blocks[i].asked + HEADER <= blocks[i].size
  }

  /** The byte behind the header and, if the block is live, behind its payload. */
  function EndOf(b: Block): nat {
    b.addr + HEADER + if b.free then 0 else b.asked
  }

  /** In a tiled heap headers and live payloads are pairwise disjoint, in rising
      address order, and inside the heap. */
  lemma {:induction false} TilesDisjoint(blocks: seq<Block>, lo: nat, hi: nat, i: nat, j: nat)
    requires Tiles(blocks, lo, hi) && LiveFits(blocks) && i < j < |blocks|
    ensures lo <= blocks[i].addr
    ensures EndOf(blocks[i]) <= blocks[j].addr
    ensures EndOf(blocks[j]) <= hi
  {
    var rest := blocks[1..];
    assert forall k | 0 <= k < |rest| :: rest[k] == blocks[k + 1];
    TilesWithin(rest, lo + blocks[0].size, hi, j - 1);
    if i > 0 { TilesDisjoint(rest, lo + blocks[0].size, hi, i - 1, j - 1); }
  }

  lemma {:induction false} TilesWithin(blocks: seq<Block>, lo: nat, hi: nat, j: nat)
    requires Tiles(blocks, lo, hi) && LiveFits(blocks) && j < |blocks|
    ensures lo <= blocks[j].addr && EndOf(blocks[j]) <= hi
  {
    if |blocks| > 1 {
      var rest := blocks[1..];
      assert forall k | 0 <= k < |rest| :: rest[k] == blocks[k + 1];
      TilesWithin(rest, lo + blocks[0].size, hi, if j > 0 then j - 1 else 0);
    }
  }

  lemma {:induction false} TilesSum(blocks: seq<Block>, lo: nat, hi: nat)
    requires Tiles(blocks, lo, hi)
    ensures lo + Sum(blocks) + HEADER == hi
  {
    if |blocks| > 1 { TilesSum(blocks[1..], lo + blocks[0].size, hi); }
  }

  /** Carving a free block keeps the tiling. */
  lemma {:induction false} CarveTiles(blocks: seq<Block>, k: nat, total: nat, asked: nat, lo: nat, hi: nat)
    requires Tiles(blocks, lo, hi) && hi < WORD
    requires k < |blocks| && blocks[k].size >= total >= HEADER
    ensures Tiles(blocks[..k] + Carve(blocks[k], total, asked) + blocks[k + 1..], lo, hi) == true
  {
    var mid := Carve(blocks[k], total, asked);
    ReplaceCons(blocks, k, mid);
    if k > 0 {
      var rest := blocks[1..];
      CarveTiles(rest, k - 1, total, asked, lo + blocks[0].size, hi);
      TilesCons(blocks[0], rest[..k - 1] + mid + rest[k..], lo, hi);
    } else {
      CarveFront(blocks, total, asked, lo, hi);
    }
  }

  lemma ReplaceCons(blocks: seq<Block>, k: nat, mid: seq<Block>)
    requires k < |blocks|
    ensures blocks[..k] + mid + blocks[k + 1..] ==
            if k == 0 then mid + blocks[1..] else [blocks[0]] + (blocks[1..][..k - 1] + mid + blocks[1..][k..])
  {}

  lemma TilesCons(b: Block, rest: seq<Block>, lo: nat, hi: nat)
    requires b.addr == lo && HEADER <= b.size && Tiles(rest, lo + b.size, hi) == true
    ensures Tiles([b] + rest, lo, hi) == true
  {
    assert ([b] + rest)[1..] == rest;
  }

  lemma CarveFront(blocks: seq<Block>, total: nat, asked: nat, lo: nat, hi: nat)
    requires Tiles(blocks, lo, hi) && hi < WORD
    requires blocks[0].size >= total >= HEADER
    ensures Tiles(Carve(blocks[0], total, asked) + blocks[1..], lo, hi)
  {
    SizeBelow(blocks, lo, hi, 0);
    Wrap(total + HEADER);
    Wrap(lo + total);
    var mid := Carve(blocks[0], total, asked);
    var r := mid + blocks[1..];
    if |mid| == 2 {
      assert r[1..] == [mid[1]] + blocks[1..];
      assert r[1..][1..] == blocks[1..];
    } else {
      assert r[1..] == blocks[1..];
    }
  }

  lemma {:induction false} SizeBelow(blocks: seq<Block>, lo: nat, hi: nat, k: nat)
    requires Tiles(blocks, lo, hi) && k < |blocks|
    ensures lo + blocks[k].size + HEADER <= hi
  {
    if |blocks| > 1 {
      SizeBelow(blocks[1..], lo + blocks[0].size, hi, if k > 0 then k - 1 else 0);
    }
  }

  lemma {:induction false} MarkTiles(blocks: seq<Block>, k: nat, b: Block, lo: nat, hi: nat)
    requires Tiles(blocks, lo, hi) && k < |blocks|
    requires b.addr == blocks[k].addr && b.size == blocks[k].size
    ensures Tiles(blocks[k := b], lo, hi)
  {
    if k > 0 {
      MarkTiles(blocks[1..], k - 1, b, lo + blocks[0].size, hi);
      assert blocks[k := b][1..] == blocks[1..][k - 1 := b];
    } else {
      assert blocks[k := b][1..] == blocks[1..];
    }
  }

  /** The pass leaves a list alone exactly when it has no free pair. */
  lemma {:induction false} PassIdle(blocks: seq<Block>)
    ensures Pairs(blocks) == 0 <==> |MergePass(blocks)| == |blocks|
    ensures Pairs(blocks) == 0 ==> MergePass(blocks) == blocks
  {
    if |blocks| >= 2 && !(blocks[0].free && blocks[1].free) {
      PassIdle(blocks[1..]);
      assert blocks == [blocks[0]] + blocks[1..];
    }
  }

  lemma {:induction false} MergesAtMostPairs(blocks: seq<Block>)
    ensures |blocks| - |MergePass(blocks)| <= Pairs(blocks)
  {
    if |blocks| >= 2 {
      if blocks[0].free && blocks[1].free {
        MergesAtMostPairs(blocks[2..]);
        assert blocks[1..][1..] == blocks[2..];
      } else {
        MergesAtMostPairs(blocks[1..]);
      }
    }
  }

  predicate FreeNeighbour(blocks: seq<Block>, k: nat)
    requires k < |blocks|
  {
    (k > 0 && blocks[k - 1].free) || (k + 1 < |blocks| && blocks[k + 1].free)
  }

  /** Marking a live block free makes a pair with each free neighbour. */
  lemma MarkedPairs(blocks: seq<Block>, k: nat)
    requires k < |blocks| && !blocks[k].free && Pairs(blocks) == 0
    ensures Pairs(blocks[k := blocks[k].(free := true)]) <= 2
    ensures Pairs(blocks[k := blocks[k].(free := true)]) == 0 <==> !FreeNeighbour(blocks, k)
  {
    var pre, b, post := blocks[..k], blocks[k], blocks[k + 1..];
    var b' := b.(free := true);
    assert blocks == pre + [b] + post;
    assert blocks[k := b'] == pre + [b'] + post;
    PairsAround(pre, [b], post);
    PairsAround(pre, [b'], post);
  }

  /** What holds until the first merge. */
  ghost predicate Intact(s: Heap, lo: nat, hi: nat) {
    Tiles(s.blocks, lo, hi) && LiveFits(s.blocks) && Pairs(s.blocks) == 0
  }

  /** The size can be counted with a header, or no free block is large enough even
      for what the wrapped sum amounts to. */
  predicate Harmless(blocks: seq<Block>, size: nat) {
    size + HEADER < WORD || forall i | 0 <= i < |blocks| && blocks[i].free :: blocks[i].size < size + HEADER - WORD
  }

  /** A request keeps the layout if and only if it is harmless: an overlong one is
      taken for a short one. */
  lemma AllocIntactIff(s: Heap, size: nat, lo: nat, hi: nat)
    requires Intact(s, lo, hi) && hi < WORD && size < WORD
    ensures Intact(AllocHeap(s, size), lo, hi) <==> Harmless(s.blocks, size)
  {
    Wrap(size + HEADER);
    if FirstFit(s.blocks, Total(size)) < |s.blocks| {
      if size + HEADER < WORD {
        ShortIntact(s, size, lo, hi);
      } else {
        LongUnfit(s, size, lo, hi);
      }
    }
  }

  /** A granted request of countable size keeps the layout. */
  lemma ShortIntact(s: Heap, size: nat, lo: nat, hi: nat)
    requires Intact(s, lo, hi) && hi < WORD && Total(size) == size + HEADER
    requires FirstFit(s.blocks, Total(size)) < |s.blocks|
    ensures Intact(AllocHeap(s, size), lo, hi) == true
  {
    var k := FirstFit(s.blocks, Total(size));
    AllocPairs(s, size);
    CarveTiles(s.blocks, k, Total(size), size, lo, hi);
    CarveFits(s.blocks, k, size);
  }

  /** A granted overlong request leaves a live block that is too short for it. */
  lemma LongUnfit(s: Heap, size: nat, lo: nat, hi: nat)
    requires Intact(s, lo, hi) && hi < WORD <= size + HEADER
    requires FirstFit(s.blocks, Total(size)) < |s.blocks|
    ensures !LiveFits(AllocHeap(s, size).blocks)
  {
    var k := FirstFit(s.blocks, Total(size));
    var b := AllocHeap(s, size).blocks[k];
    assert b == Carve(s.blocks[k], Total(size), size)[0];
    SizeBelow(s.blocks, lo, hi, k);
    assert !b.free && b.size <= s.blocks[k].size;
  }

  lemma CarveFits(blocks: seq<Block>, k: nat, size: nat)
    requires k < |blocks| && blocks[k].size >= size + HEADER && LiveFits(blocks)
    ensures LiveFits(blocks[..k] + Carve(blocks[k], size + HEADER, size) + blocks[k + 1..])
  {
  }

  /** For instance the largest request that wraps to nothing: it is granted, and the
      two headers made of the one block lie at the same address. */
  lemma OverlongGranted(lo: nat)
    requires lo + 1000 < WORD
    ensures AllocResult(Init(lo, 1000), WORD - HEADER) == Some(lo + HEADER)
    ensures var blocks := AllocHeap(Init(lo, 1000), WORD - HEADER).blocks;
      |blocks| == 2 && blocks[0].addr == blocks[1].addr == lo
  {
    assert Total(WORD - HEADER) == 0;
    assert FirstFit(Init(lo, 1000).blocks, 0) == 0;
  }

  /** Releasing a block keeps the layout if and only if it has no free neighbour:
      the merge is what breaks it. */
  lemma DeallocTilesIff(s: Heap, k: nat, lo: nat, hi: nat)
    requires Intact(s, lo, hi)
    requires k < |s.blocks| && !s.blocks[k].free
    ensures Tiles(DeallocHeap(s, k).blocks, lo, hi) <==> !FreeNeighbour(s.blocks, k)
    ensures !FreeNeighbour(s.blocks, k) ==> Intact(DeallocHeap(s, k), lo, hi)
    ensures FreeNeighbour(s.blocks, k) <==> DeallocHeap(s, k).merges > s.merges
  {
    var marked := s.blocks[k := s.blocks[k].(free := true)];
    MarkedPairs(s.blocks, k);
    MarkTiles(s.blocks, k, marked[k], lo, hi);
    PassIdle(marked);
    if FreeNeighbour(s.blocks, k) {
      MergeNotTiled(marked, lo, hi);
    }
  }

  lemma MergeNotTiled(marked: seq<Block>, lo: nat, hi: nat)
    requires Tiles(marked, lo, hi) && 1 <= Pairs(marked) <= 2
    ensures !Tiles(MergePass(marked), lo, hi)
  {
    PassIdle(marked);
    MergesAtMostPairs(marked);
    MergeSums(marked);
    assert SumsKept(marked, MergePass(marked));
    TilesSum(marked, lo, hi);
    DriftVisible(Sum(marked), |marked| - |MergePass(marked)|);
    if Tiles(MergePass(marked), lo, hi) {
      TilesSum(MergePass(marked), lo, hi);
      assert false;
    }
  }

  /** Every request of a run is harmless when it is made. */
  ghost predicate AllHarmless(trace: seq<Heap>, ops: seq<Op>) {
    |trace| == |ops| + 1
    && forall k | 0 <= k < |ops| && ops[k].Alloc? :: Harmless(trace[k].blocks, ops[k].size)
  }

  /** Over every run from init, as long as no merge has happened, the blocks tile
      the heap and every live block has room for what was asked. */
  lemma {:induction false} IntactUntilMerge(trace: seq<Heap>, ops: seq<Op>, lo: nat, size: nat)
    requires HEADER <= size && lo + size < WORD && AllHarmless(trace, ops)
    requires IsRun(trace, ops) && trace[0] == Init(lo, size)
    requires trace[|ops|].merges == 0
    ensures Intact(trace[|ops|], lo, lo + size)
  {
    if ops == [] {
      Wrap(size - HEADER);
    } else {
      var n := |ops| - 1;
      assert Legal(trace[n], ops[n]) && trace[n + 1] == Step(trace[n], ops[n]);
      IntactUntilMerge(trace[..n + 1], ops[..n], lo, size);
      match ops[n] {
        case Alloc(asked) => AllocIntactIff(trace[n], asked, lo, lo + size);
        case Dealloc(k) => DeallocTilesIff(trace[n], k, lo, lo + size);
      }
    }
  }

  /** After a merge the blocks do not tile the heap again, unless 2^30 merges, or a
      multiple of that, have made the drift a whole number of words. */
  lemma TiledIffNeverMerged(trace: seq<Heap>, ops: seq<Op>, lo: nat, size: nat)
    requires HEADER <= size && lo + size < WORD && AllHarmless(trace, ops)
    requires IsRun(trace, ops) && trace[0] == Init(lo, size)
    requires trace[|ops|].merges == 0 || trace[|ops|].merges % 0x4000_0000 != 0
    ensures Tiles(trace[|ops|].blocks, lo, lo + size) <==> trace[|ops|].merges == 0
  {
    var s := trace[|ops|];
    InitLedger(lo, size);
    RunLedger(trace, ops, size);
    if s.merges == 0 {
      IntactUntilMerge(trace, ops, lo, size);
    } else if Tiles(s.blocks, lo, lo + size) {
      TilesSum(s.blocks, lo, lo + size);
      DriftVisible(size - HEADER, s.merges);
      assert false;
    }
  }

  /** The drift of m merges shows unless m is a multiple of 2^30. */
  lemma DriftVisible(x: int, m: nat)
    requires m % 0x4000_0000 != 0
    ensures (x + HEADER * m) % WORD != x % WORD
  {
  }

  /** The states of a short run: three allocations, the first two blocks
      released, one more allocation. */
  function Example(lo: nat): seq<Heap> {
    var b0, b1, b2 := Block(lo, 112, false, 100), Block(lo + 112, 112, false, 100), Block(lo + 224, 112, false, 100);
    var b3 := Block(lo + 336, 652, true, 0);
    [Heap([Block(lo, 988, true, 0)], 0, 0, 0),
     Heap([b0, Block(lo + 112, 876, true, 0)], 112, 0, 0),
     Heap([b0, b1, Block(lo + 224, 764, true, 0)], 224, 0, 0),
     Heap([b0, b1, b2, b3], 336, 0, 0),
     Heap([b0.(free := true), b1, b2, b3], 336, 112, 0),
     Heap([Block(lo, 236, true, 100), b2, b3], 336, 224, 1),
     Heap([Block(lo, 236, false, 224), b2, b3], 572, 224, 1)]
  }

  const EXAMPLE_OPS: seq<Op> := [Alloc(100), Alloc(100), Alloc(100), Dealloc(0), Dealloc(1), Alloc(224)]

  /** A request that is served by cutting block k. */
  lemma ExampleCut(s: Heap, size: nat, k: nat, s': Heap)
    requires size < 1000 && k < |s.blocks| && s.blocks[k].free && s.blocks[k].size > size + 2 * HEADER
    requires s.blocks[k].addr + size + HEADER < WORD
    requires forall j | 0 <= j < k :: !s.blocks[j].free
    requires s'.blocks == s.blocks[..k] + [Block(s.blocks[k].addr, size + HEADER, false, size),
                          Block(s.blocks[k].addr + size + HEADER, s.blocks[k].size - (size + HEADER), true, 0)] + s.blocks[k + 1..]
    requires s' == s.(blocks := s'.blocks, totalAllocated := s.totalAllocated + size + HEADER) && s'.totalAllocated < WORD
    ensures s' == AllocHeap(s, size)
  {
    Wrap(size + HEADER);
    Wrap(size + HEADER + HEADER);
    Wrap(s.blocks[k].addr + (size + HEADER));
    Wrap(s'.totalAllocated);
    assert FirstFit(s.blocks, Total(size)) == k;
  }

  lemma ExampleFirst(lo: nat)
    requires lo + 1000 < WORD
    ensures Example(lo)[1] == AllocHeap(Example(lo)[0], 100)
  {
    ExampleCut(Example(lo)[0], 100, 0, Example(lo)[1]);
  }

  lemma ExampleSecond(lo: nat)
    requires lo + 1000 < WORD
    ensures Example(lo)[2] == AllocHeap(Example(lo)[1], 100)
  {
    ExampleCut(Example(lo)[1], 100, 1, Example(lo)[2]);
  }

  lemma ExampleThird(lo: nat)
    requires lo + 1000 < WORD
    ensures Example(lo)[3] == AllocHeap(Example(lo)[2], 100)
  {
    ExampleCut(Example(lo)[2], 100, 2, Example(lo)[3]);
  }

  lemma ExampleLast(lo: nat)
    ensures Example(lo)[6] == AllocHeap(Example(lo)[5], 224)
  {
    var s := Example(lo)[5];
    assert Total(224) == 236;
    assert FirstFit(s.blocks, 236) == 0;
    assert !Splits(s.blocks[0], 236);
    assert s.blocks[..0] + [s.blocks[0].(free := false, asked := 224)] + s.blocks[1..] == Example(lo)[6].blocks;
  }

  lemma ExampleFree(lo: nat)
    requires lo + 1000 < WORD
    ensures Example(lo)[4] == DeallocHeap(Example(lo)[3], 0)
  {
    var b := Example(lo)[3].blocks;
    PassFour(b[0].(free := true), b[1], b[2], b[3]);
  }

  lemma ExampleMerge(lo: nat)
    requires lo + 1000 < WORD
    ensures Example(lo)[5] == DeallocHeap(Example(lo)[4], 1)
  {
    var b := Example(lo)[4].blocks;
    PassFour(b[0], b[1].(free := true), b[2], b[3]);
  }

  /** At its end a live payload covers the header of the live block behind it. */
  lemma MergeOverlaps(lo: nat)
    requires lo + 1000 < WORD
    ensures IsRun(Example(lo), EXAMPLE_OPS) && Example(lo)[0] == Init(lo, 1000)
    ensures var blocks := Example(lo)[6].blocks;
      !blocks[0].free && !blocks[1].free && EndOf(blocks[0]) > blocks[1].addr
  {
    assert (1000 - HEADER) % WORD == 988;
    ExampleFirst(lo);
    ExampleSecond(lo);
    ExampleThird(lo);
    ExampleFree(lo);
    ExampleMerge(lo);
    ExampleLast(lo);
  }

  lemma PassFour(a: Block, b: Block, c: Block, d: Block)
    requires a.free && !c.free
    ensures MergePass([a, b, c, d]) == if b.free then [Merged(a, b), c, d] else [a, b, c, d]
  {
    assert [c, d][1..] == [d];
    assert MergePass([c, d]) == [c, d];
    assert [b, c, d][1..] == [c, d];
    assert [a, b, c, d][1..] == [b, c, d] && [a, b, c, d][2..] == [c, d];
  }
}
