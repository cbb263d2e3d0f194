/** kernel/mem/slab_allocator.rs as written: a linked list of headers that alloc
    splits and dealloc merges in place.  Its methods carry out the list
    operations of module Slab. */
module SlabList {
  import opened Bits
  import opened Options
  import opened Slab

  class SlabBlock {
    /** The address of the header. */
    const addr: nat
    var next: SlabBlock?
    var size: nat
    var free: bool

    constructor (addr: nat, next: SlabBlock?, size: nat, free: bool)
      ensures this.addr == addr && this.next == next && this.size == size && this.free == free
    {
      this.addr, this.next, this.size, this.free := addr, next, size, free;
    }
  }

  /** The node at a position of a list, none behind the last. */
  ghost function NodeAt(nodes: seq<SlabBlock>, i: nat): SlabBlock? {
    if i < |nodes| then nodes[i] else null
  }

  /** A node points to the one behind it. */
  ghost predicate Points(nodes: seq<SlabBlock>, i: nat)
    requires i < |nodes|
    reads nodes[i]
  {
    nodes[i].next == NodeAt(nodes, i + 1)
  }

  ghost predicate Records(node: SlabBlock, b: Block)
    reads node
  {
    b.addr == node.addr && b.size == node.size && b.free == node.free
  }

  ghost predicate Distinct(nodes: seq<SlabBlock>) {
    forall i, j | 0 <= i < j < |nodes| :: nodes[i] != nodes[j]
  }

  class SlabAllocator {
    var head: SlabBlock?
    var totalAllocated: nat
    var totalFreed: nat
    /** The nodes from the head on, what they record, and the merges so far. */
    ghost var nodes: seq<SlabBlock>
    ghost var blocks: seq<Block>
    ghost var merges: nat
    /** All headers made so far. */
    ghost var headers: set<SlabBlock>

    ghost predicate Linked()
      reads this`nodes, this`blocks, this`headers, headers
    {
      && (forall i | 0 <= i < |nodes| :: nodes[i] in headers)
      && Distinct(nodes)
      && (forall i | 0 <= i < |nodes| :: Points(nodes, i))
      && |blocks| == |nodes|
      && (forall i | 0 <= i < |nodes| :: Records(nodes[i], blocks[i]))
    }

    ghost predicate Valid()
      reads this`head, this`nodes, this`blocks, this`headers, headers
    {
      Linked() && head == NodeAt(nodes, 0)
    }

    ghost function State(): Heap
      reads this
    {
      Heap(blocks, totalAllocated, totalFreed, merges)
    }

    /** new and init */
    constructor (heapStart: nat, heapSize: nat)
      ensures Valid() && fresh(headers)
      ensures State() == Init(heapStart, heapSize)
    {
      var b := new SlabBlock(heapStart, null, (heapSize - HEADER) % WORD, true);
      head, totalAllocated, totalFreed := b, 0, 0;
      nodes, headers, merges := [b], {b}, 0;
      blocks := [Block(heapStart, (heapSize - HEADER) % WORD, true, 0)];
    }

    /** alloc; the alignment is ignored, as in the source. */
    method Alloc(size: nat) returns (ptr: Option<nat>)
      requires Valid() && size < WORD
      modifies this, headers
      ensures Valid() && fresh(headers - old(headers))
      ensures ptr == old(AllocResult(State(), size))
      ensures State() == old(AllocHeap(State(), size))
    {
      var total := (size + HEADER) % WORD;
      var current := head;
      ghost var k := 0;
      while current != null
        invariant Valid() && k <= |nodes| && headers == old(headers)
        invariant State() == old(State())
        invariant current == NodeAt(nodes, k)
        invariant forall j | 0 <= j < k :: !Fits(blocks[j], total)
        decreases |nodes| - k
      {
        assert Points(nodes, k) && Records(nodes[k], blocks[k]);
        if current.free && current.size >= total {
          FirstFitIs(blocks, total, k);
          Take(current, k, total, size);
          return Some((current.addr + HEADER) % WORD);
        }
        current, k := current.next, k + 1;
      }
      FirstFitNone(blocks, total);
      return None;
    }

    /** Handing out the front of a block that fits. */
    method Take(current: SlabBlock, ghost k: nat, total: nat, ghost asked: nat)
      requires Valid() && k < |nodes| && current == nodes[k]
      requires Fits(blocks[k], total)
      modifies this, headers
      ensures Valid() && fresh(headers - old(headers))
      ensures State() == old(State()).(blocks := old(blocks[..k]) + Carve(old(blocks[k]), total, asked) + old(blocks[k + 1..]),
                                       totalAllocated := (old(totalAllocated) + Carve(old(blocks[k]), total, asked)[0].size) % WORD)
    {
      CarveBySteps(blocks, k, total, asked);
      assert Records(nodes[k], blocks[k]);
      var splits := current.size > (total + HEADER) % WORD;
      assert splits == Splits(blocks[k], total);
      if splits {
        Split(current, k, total);
      }
      HandOut(current, k, asked);
    }

    method HandOut(current: SlabBlock, ghost k: nat, ghost asked: nat)
      requires Valid() && k < |nodes| && current == nodes[k]
      modifies this`blocks, this`totalAllocated, current
      ensures Valid()
      ensures State() == old(State()).(blocks := old(blocks)[k := old(blocks[k]).(free := false, asked := asked)],
                                       totalAllocated := (old(totalAllocated) + old(blocks[k]).size) % WORD)
    {
      current.free := false;
      blocks := blocks[k := blocks[k].(free := false, asked := asked)];
      totalAllocated := (totalAllocated + current.size) % WORD;
      forall i | 0 <= i < |nodes|
        ensures Points(nodes, i)
      {
        assert old(Points(nodes, i));
      }
    }

    /** Cutting a block in two. */
    method Split(current: SlabBlock, ghost k: nat, total: nat)
      requires Valid() && k < |nodes| && current == nodes[k] && current.size >= total
      modifies this`nodes, this`blocks, this`headers, headers
      ensures Valid() && fresh(headers - old(headers))
      ensures |nodes| == |old(nodes)| + 1 && nodes[k] == current
      ensures blocks == old(CutAt(blocks, k, total))
    {
      var remaining := new SlabBlock((current.addr + total) % WORD, current.next, current.size - total, true);
      assert Block(remaining.addr, remaining.size, true, 0) == Rest(blocks[k], total);
      Shrink(current, k, total);
      InsertAfter(current, k, remaining);
    }

    method Shrink(current: SlabBlock, ghost k: nat, total: nat)
      requires Valid() && k < |nodes| && current == nodes[k]
      modifies this`blocks, current`size
      ensures Valid() && blocks == old(blocks)[k := old(blocks)[k].(size := total)]
    {
      current.size := total;
      blocks := blocks[k := blocks[k].(size := total)];
      forall i | 0 <= i < |nodes|
        ensures Points(nodes, i)
      {
        assert old(Points(nodes, i));
      }
    }

    /** Linking a new header behind a block. */
    method InsertAfter(current: SlabBlock, ghost k: nat, remaining: SlabBlock)
      requires Valid() && k < |nodes| && current == nodes[k]
      requires remaining !in headers && remaining.free && remaining.next == current.next
      modifies this`nodes, this`blocks, this`headers, current
      ensures Valid() && headers == old(headers) + {remaining}
      ensures nodes == Inserted(old(nodes), k + 1, remaining)
      ensures blocks == Inserted(old(blocks), k + 1, Block(remaining.addr, remaining.size, true, 0))
    {
      ghost var was, recorded := nodes, blocks;
      assert Points(was, k);
      current.next := remaining;
      headers := headers + {remaining};
      nodes := Inserted(was, k + 1, remaining);
      blocks := Inserted(recorded, k + 1, Block(remaining.addr, remaining.size, true, 0));
      forall i | 0 <= i < |nodes|
        ensures Points(nodes, i)
      {
        if i < k { assert old(Points(was, i)); }
        if i > k + 1 { assert old(Points(was, i - 1)); }
      }
      forall i | 0 <= i < |nodes|
        ensures Records(nodes[i], blocks[i])
      {
        if i <= k { assert old(Records(was[i], recorded[i])); }
        if i > k + 1 { assert old(Records(was[i - 1], recorded[i - 1])); }
      }
    }

    /** dealloc; the pointer is given as the header in front of it, k is its
        position in the list. */
    method Dealloc(block: SlabBlock?, ghost k: nat)
      requires Valid()
      requires block != null ==> k < |nodes| && nodes[k] == block
      modifies this, headers
      ensures Valid() && headers == old(headers)
      ensures State() == if block == null then old(State()) else old(DeallocHeap(State(), k))
    {
      if block == null { return; }
      Release(block, k);
      ghost var released := State();
      Coalesce();
      assert State() == PassHeap(released);
    }

    method Release(block: SlabBlock, ghost k: nat)
      requires Valid() && k < |nodes| && nodes[k] == block
      modifies this`blocks, this`totalFreed, block
      ensures Valid()
      ensures State() == old(ReleaseHeap(State(), k))
    {
      block.free := true;
      blocks := blocks[k := blocks[k].(free := true)];
      totalFreed := (totalFreed + block.size) % WORD;
      forall i | 0 <= i < |nodes|
        ensures Points(nodes, i)
      {
        assert old(Points(nodes, i));
      }
    }

    /** The pass over the list at the end of dealloc. */
    method Coalesce()
      requires Valid()
      modifies this`nodes, this`blocks, this`merges, headers
      ensures Valid()
      ensures blocks == MergePass(old(blocks)) && merges + |blocks| == old(merges) + |old(blocks)|
    {
      var current := head;
      ghost var i := 0;
      assert blocks[..0] + MergePass(blocks[0..]) == MergePass(blocks);
      while current != null
        invariant Valid() && i <= |nodes|
        invariant current == NodeAt(nodes, i) && merges + |blocks| == old(merges) + |old(blocks)|
        invariant blocks[..i] + MergePass(blocks[i..]) == MergePass(old(blocks))
        decreases |nodes| - i
      {
        ghost var before := blocks;
        var next := current.next;
        assert Points(nodes, i) && Records(nodes[i], blocks[i]);
        assert next != null ==> Records(next, blocks[i + 1]);
        if next != null && next.free && current.free {
          Absorb(current, i, next);
        }
        PassStep(before, i);
        assert Points(nodes, i);
        current, i := current.next, i + 1;
      }
      assert blocks == MergePass(old(blocks)) by {
        assert blocks[..i] == blocks && MergePass(blocks[i..]) == [];
      }
    }

    /** Merging a block with the one behind it. */
    method Absorb(current: SlabBlock, ghost i: nat, next: SlabBlock)
      requires Valid() && i + 1 < |nodes| && current == nodes[i] && next == nodes[i + 1]
      modifies this`nodes, this`blocks, this`merges, current
      ensures Valid() && merges == old(merges) + 1
      ensures |nodes| == |old(nodes)| - 1 && nodes[i] == current
      ensures blocks == old(blocks)[..i] + [Merged(old(blocks)[i], old(blocks)[i + 1])] + old(blocks)[i + 2..]
    {
      ghost var was, recorded := nodes, blocks;
      assert Records(current, recorded[i]) && Records(next, recorded[i + 1]);
      current.size := (current.size + next.size + HEADER) % WORD;
      current.next := next.next;
      merges := merges + 1;
      nodes := Removed(was, i + 1);
      blocks := recorded[..i] + [Merged(recorded[i], recorded[i + 1])] + recorded[i + 2..];
      RemovedDistinct(was, i + 1);
      forall j | 0 <= j < |nodes|
        ensures Points(nodes, j)
      {
        if j < i { assert old(Points(was, j)); } else { assert old(Points(was, j + 1)); }
      }
      forall j | 0 <= j < |nodes|
        ensures Records(nodes[j], blocks[j])
      {
        if j < i { assert old(Records(was[j], recorded[j])); }
        if j > i { assert old(Records(was[j + 1], recorded[j + 1])); }
      }
    }
  }

  /** One step of the pass on the blocks. */
  lemma PassStep(blocks: seq<Block>, i: nat)
    requires i < |blocks|
    ensures var after := if i + 1 < |blocks| && blocks[i].free && blocks[i + 1].free
                         then blocks[..i] + [Merged(blocks[i], blocks[i + 1])] + blocks[i + 2..] else blocks;
      blocks[..i] + MergePass(blocks[i..]) == after[..i + 1] + MergePass(after[i + 1..])
  {
    var rest := blocks[i..];
    if i + 1 < |blocks| && blocks[i].free && blocks[i + 1].free {
      var after := blocks[..i] + [Merged(blocks[i], blocks[i + 1])] + blocks[i + 2..];
      assert rest[2..] == blocks[i + 2..] == after[i + 1..];
      assert after[..i + 1] == blocks[..i] + [Merged(blocks[i], blocks[i + 1])];
    } else {
      assert rest[1..] == blocks[i + 1..];
      assert blocks[..i + 1] == blocks[..i] + [blocks[i]];
      assert MergePass(rest) == [blocks[i]] + MergePass(rest[1..]);
    }
  }

  /** A sequence without the element at position k. */
  ghost function Removed<T>(s: seq<T>, k: nat): (r: seq<T>)
    requires k < |s|
    ensures |r| == |s| - 1
    ensures forall i | 0 <= i < k :: r[i] == s[i]
    ensures forall i | k <= i < |r| :: r[i] == s[i + 1]
  {
    s[..k] + s[k + 1..]
  }

  lemma RemovedDistinct(nodes: seq<SlabBlock>, k: nat)
    requires k < |nodes| && Distinct(nodes)
    ensures Distinct(Removed(nodes, k))
  {}

  /** A sequence with x put in before position k. */
  ghost function Inserted<T>(s: seq<T>, k: nat, x: T): (r: seq<T>)
    requires k <= |s|
    ensures |r| == |s| + 1 && r[k] == x
    ensures forall i | 0 <= i < k :: r[i] == s[i]
    ensures forall i | k < i < |r| :: r[i] == s[i - 1]
  {
    s[..k] + [x] + s[k..]
  }

  /** What is left of a block behind its first total bytes. */
  function Rest(b: Block, total: nat): Block
    requires b.size >= total
  {
    Block((b.addr + total) % WORD, b.size - total, true, 0)
  }

  /** The list with block k cut in two. */
  ghost function CutAt(blocks: seq<Block>, k: nat, total: nat): seq<Block>
    requires k < |blocks| && blocks[k].size >= total
  {
    Inserted(blocks[k := blocks[k].(size := total)], k + 1, Rest(blocks[k], total))
  }

  /** Cutting a block if it is large enough and marking its front amounts to Carve. */
  lemma CarveBySteps(blocks: seq<Block>, k: nat, total: nat, asked: nat)
    requires k < |blocks| && blocks[k].size >= total
    ensures var cut := if Splits(blocks[k], total) then CutAt(blocks, k, total) else blocks;
      cut[k := cut[k].(free := false, asked := asked)] == blocks[..k] + Carve(blocks[k], total, asked) + blocks[k + 1..]
  {
  }

  lemma FirstFitIs(blocks: seq<Block>, total: nat, k: nat)
    requires k < |blocks| && Fits(blocks[k], total)
    requires forall j | 0 <= j < k :: !Fits(blocks[j], total)
    ensures FirstFit(blocks, total) == k
  {}

  lemma FirstFitNone(blocks: seq<Block>, total: nat)
    requires forall j | 0 <= j < |blocks| :: !Fits(blocks[j], total)
    ensures FirstFit(blocks, total) == |blocks|
  {}
}
