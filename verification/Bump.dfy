/** The bump allocator of kernel/mem/allocator.rs, with the wrapping 32-bit
    arithmetic of the compiled kernel. */
module Bump {
  import opened Bits
  import opened Options

  datatype Arena = Arena(start: nat, end: nat, next: nat)

  ghost predicate ValidArena(s: Arena) {
    s.start <= s.next <= s.end < WORD
  }

  datatype Request = Request(size: nat, align: nat)

  predicate ValidRequest(r: Request) { r.size < WORD && r.align < WORD }

  /** align - 1, which wraps for an alignment of zero. */
  function AlignMask(align: nat): nat { (align - 1) % WORD }

  lemma MaskFits(align: nat)
    ensures AlignMask(align) < Pow2(32) == WORD
  {
    assert Pow2(32) == WORD by { Pow2Values(); }
  }

  /** The candidate address: (next + mask) & !mask. */
  function Candidate(next: nat, align: nat): nat {
    MaskFits(align);
    And((next + AlignMask(align)) % WORD, Not(32, AlignMask(align)))
  }

  function AllocResult(s: Arena, r: Request): Option<nat>
    requires ValidRequest(r)
  {
    var c := Candidate(s.next, r.align);
    if (c + r.size) % WORD > s.end then None else Some(c)
  }

  function AllocArena(s: Arena, r: Request): Arena
    requires ValidRequest(r)
  {
    var c := Candidate(s.next, r.align);
    if (c + r.size) % WORD > s.end then s else s.(next := (c + r.size) % WORD)
  }

  // --------------------------------------------------------- the mask trick

  /** For every alignment, without wrap: the candidate is not below next and padded
      by at most the mask ... */
  lemma MaskPads(next: nat, align: nat)
    requires next + AlignMask(align) < WORD
    ensures next <= Candidate(next, align) <= next + AlignMask(align)
  {
    MaskFits(align);
    var m := AlignMask(align);
    Wrap(next + m);
    AndNot(32, next + m, m);
    OnlyBelow(next + m, m);
  }

  lemma OnlyBelow(x: nat, m: nat)
    ensures And(x, m) <= m && And(x, m) <= x
  {
    AndCommutes(x, m);
    AndBelow(m, x);
    AndBelow(x, m);
  }

  /** ... and with wrap it is below next. */
  lemma MaskWraps(next: nat, align: nat)
    requires next < WORD <= next + AlignMask(align)
    ensures Candidate(next, align) < next
  {
    MaskFits(align);
    var m := AlignMask(align);
    Wrap(next + m);
    assert Candidate(next, align) <= next + m - WORD by { AndBelow(next + m - WORD, Not(32, m)); }
  }

  /** c is the least multiple of a that is not below x. */
  ghost predicate IsRoundUp(c: nat, x: nat, a: nat)
    requires a > 0
  {
    c % a == 0 && x <= c < x + a
  }

  ghost predicate IsPower(a: nat) { exists k :: k < 32 && IsPow2(a, k) }

  ghost predicate IsPow2(a: nat, k: nat) { a == Pow2(k) }

  lemma CandidateIs(next: nat, align: nat)
    requires 0 < align < WORD && next + align - 1 < WORD
    ensures align - 1 < Pow2(32) == WORD && AlignMask(align) == align - 1
    ensures Candidate(next, align) == And(next + (align - 1), Not(32, align - 1))
  {
    MaskFits(align);
    assert AlignMask(align) == align - 1 by { Wrap(align - 1); }
    assert (next + (align - 1)) % WORD == next + (align - 1) by { Wrap(next + (align - 1)); }
  }

  lemma PowerRoundsUp(next: nat, align: nat)
    requires IsPower(align) == true && 0 < align < WORD && next + align - 1 < WORD
    ensures IsRoundUp(Candidate(next, align), next, align)
  {
    var k :| k < 32 && IsPow2(align, k);
    CandidateIs(next, align);
    RoundedDown(next + (align - 1), k, align, Candidate(next, align));
  }

  lemma RoundedDown(x: nat, k: nat, a: nat, c: nat)
    requires k < 32 && a == Pow2(k) && x < Pow2(32) && a - 1 < Pow2(32)
    requires c == And(x, Not(32, a - 1))
    ensures c % a == 0 && x - a < c <= x
  {
    RoundDown(32, x, k);
    DropRemainder(x, a);
  }

  lemma DropRemainder(x: nat, a: nat)
    requires a > 0
    ensures (x - x % a) % a == 0 && x - x % a > x - a
  {
    var q := x / a;
    assert x - x % a == a * q;
    DivModUnique(a * q, a, q, 0);
  }

  /** The mask trick rounds up from everywhere. */
  ghost predicate AlwaysRoundsUp(align: nat)
    requires 0 < align < WORD
  {
    forall next: nat | next + align - 1 < WORD :: IsRoundUp(Candidate(next, align), next, align)
  }

  lemma RoundsUpFromOne(align: nat)
    requires 0 < align < WORD && IsRoundUp(Candidate(1, align), 1, align)
    ensures IsPower(align)
  {
    CandidateIs(1, align);
    OneMultiple(Candidate(1, align), align);
    FixedByMask(align);
    var k := LowestBitOnly(32, align);
    assert IsPow2(align, k);
  }

  lemma FixedByMask(align: nat)
    requires 0 < align < Pow2(32) && And(align, Not(32, align - 1)) == align
    ensures And(align, align - 1) == 0
  {
    AndNot(32, align, align - 1);
  }

  /** The mask trick rounds up to multiples of the alignment if and only if the
      alignment is a power of two. */
  lemma MaskRoundsUpIff(align: nat)
    requires 0 < align < WORD
    ensures AlwaysRoundsUp(align) <==> IsPower(align)
  {
    if IsPower(align) == true {
      forall next: nat | next + align - 1 < WORD
        ensures IsRoundUp(Candidate(next, align), next, align)
      {
        PowerRoundsUp(next, align);
      }
    } else {
      if IsRoundUp(Candidate(1, align), 1, align) {
        RoundsUpFromOne(align);
        assert false;
      }
    }
  }

  /** For instance, from 1 with an alignment of 3 it stays at 1. */
  lemma OddAlignment(next: nat, align: nat)
    requires next == 1 && align == 3
    ensures Candidate(next, align) == 1
  {
    MaskFits(align);
    var m := AlignMask(align);
    Wrap(next + m);
    AndNot(32, next + m, m);
    assert And(3, 2) == 2;
  }

  lemma OneMultiple(c: nat, a: nat)
    requires a > 0 && IsRoundUp(c, 1, a)
    ensures c == a
  {
    if c < a { DivModUnique(c, a, 0, c); }
  }

  // ------------------------------------------------------------ one request

  predicate NoWrap(s: Arena, r: Request)
    requires ValidRequest(r)
  {
    s.next + AlignMask(r.align) < WORD && Candidate(s.next, r.align) + r.size < WORD
  }

  /** A granted block lies between next and the end of the heap if and only if
      neither addition wraps. */
  lemma GrantedInsideIff(s: Arena, r: Request)
    requires ValidArena(s) && ValidRequest(r) && AllocResult(s, r).Some?
    ensures s.next <= AllocResult(s, r).value && AllocResult(s, r).value + r.size <= s.end <==> NoWrap(s, r)
  {
    var c := Candidate(s.next, r.align);
    if s.next + AlignMask(r.align) < WORD {
      MaskPads(s.next, r.align);
      if c + r.size < WORD { Wrap(c + r.size); }
    } else {
      MaskWraps(s.next, r.align);
    }
  }

  /** Without wrapping, a request is refused exactly when the padded block does not fit. */
  lemma RefusedIff(s: Arena, r: Request)
    requires ValidArena(s) && ValidRequest(r) && NoWrap(s, r)
    ensures AllocResult(s, r) == None <==> Candidate(s.next, r.align) + r.size > s.end
    ensures AllocResult(s, r) == None ==> AllocArena(s, r) == s
  {
    var c := Candidate(s.next, r.align);
    Wrap(c + r.size);
  }

  /** An overlong request on a fresh heap is granted and moves next below the heap. */
  lemma WrapGrants(start: nat, size: nat)
    requires 0 < start && start + size < WORD
    ensures var s := Arena(start, start + size, start);
      var r := Request(WORD - 1, 1);
      AllocResult(s, r) == Some(start) && AllocArena(s, r).next < start
  {
    MaskPads(start, 1);
    Wrap(start + (WORD - 1));
  }

  // ------------------------------------------------------------------- runs

  /** A run in which no granted request wraps; refused ones change nothing. */
  ghost predicate IsRun(trace: seq<Arena>, requests: seq<Request>) {
    && |trace| == |requests| + 1
    && ValidArena(trace[0])
    && forall k | 0 <= k < |requests| ::
         && ValidRequest(requests[k])
         && (AllocResult(trace[k], requests[k]).Some? ==> NoWrap(trace[k], requests[k]))
         && trace[k + 1] == AllocArena(trace[k], requests[k])
  }

  lemma AllocStep(s: Arena, r: Request)
    requires ValidArena(s) && ValidRequest(r)
    requires AllocResult(s, r).Some? ==> NoWrap(s, r)
    ensures ValidArena(AllocArena(s, r)) && AllocArena(s, r).start == s.start && AllocArena(s, r).end == s.end
    ensures s.next <= AllocArena(s, r).next
    ensures AllocResult(s, r).Some? ==>
      && s.next <= AllocResult(s, r).value <= s.next + AlignMask(r.align)
      && AllocArena(s, r).next == AllocResult(s, r).value + r.size
  {
    if AllocResult(s, r).Some? {
      MaskPads(s.next, r.align);
      Wrap(Candidate(s.next, r.align) + r.size);
    }
  }

  lemma {:induction false} NextRises(trace: seq<Arena>, requests: seq<Request>, i: nat, j: nat)
    requires IsRun(trace, requests) && i <= j <= |requests|
    ensures ValidArena(trace[j]) && trace[j].start == trace[0].start && trace[j].end == trace[0].end
    ensures trace[i].next <= trace[j].next
    decreases j
  {
    if j > 0 {
      if i < j { NextRises(trace, requests, i, j - 1); } else { NextRises(trace, requests, j - 1, j - 1); }
      AllocStep(trace[j - 1], requests[j - 1]);
    }
  }

  /** Over every run without wrapping, every block returned is inside the heap, padded
      by at most the mask, and, for a power of two, the next multiple of its
      alignment. */
  lemma BlockSound(trace: seq<Arena>, requests: seq<Request>, j: nat)
    requires IsRun(trace, requests) && j < |requests| && AllocResult(trace[j], requests[j]).Some?
    ensures var b, r := AllocResult(trace[j], requests[j]).value, requests[j];
      && trace[0].start <= b && b + r.size <= trace[0].end
      && trace[j].next <= b <= trace[j].next + AlignMask(r.align)
      && (IsPower(r.align) && r.align > 0 ==> IsRoundUp(b, trace[j].next, r.align))
  {
    NextRises(trace, requests, 0, j);
    AllocStep(trace[j], requests[j]);
    var r := requests[j];
    if IsPower(r.align) && r.align > 0 {
      Wrap(r.align - 1);
      PowerRoundsUp(trace[j].next, r.align);
    }
  }

  /** ... and every block lies above all earlier ones. */
  lemma BlocksRise(trace: seq<Arena>, requests: seq<Request>, i: nat, j: nat)
    requires IsRun(trace, requests) && i < j < |requests|
    requires AllocResult(trace[i], requests[i]).Some? && AllocResult(trace[j], requests[j]).Some?
    ensures AllocResult(trace[i], requests[i]).value + requests[i].size <= AllocResult(trace[j], requests[j]).value
  {
    NextRises(trace, requests, i, i);
    NextRises(trace, requests, i + 1, j);
    AllocStep(trace[i], requests[i]);
    AllocStep(trace[j], requests[j]);
    assert trace[i + 1] == AllocArena(trace[i], requests[i]);
  }

  // -------------------------------------------------------------- the class

  class BumpAllocator {
    var heapStart: nat
    var heapEnd: nat
    var next: nat

    ghost function State(): Arena
      reads this
    {
      Arena(heapStart, heapEnd, next)
    }

    /** new and init; the end wraps like every sum. */
    constructor (start: nat, size: nat)
      requires start < WORD
      ensures State() == Arena(start, (start + size) % WORD, start)
      ensures start + size < WORD ==> ValidArena(State()) && heapEnd == start + size
    {
      heapStart, heapEnd, next := start, (start + size) % WORD, start;
    }

    /** alloc, for every alignment; None stands for null. */
    method Alloc(size: nat, align: nat) returns (r: Option<nat>)
      requires ValidRequest(Request(size, align))
      modifies this`next
      ensures r == old(AllocResult(State(), Request(size, align)))
      ensures State() == old(AllocArena(State(), Request(size, align)))
    {
      MaskFits(align);
      var alignMask := AlignMask(align);
      var current := And((next + alignMask) % WORD, Not(32, alignMask));
      assert current == Candidate(next, align);
      var end := (current + size) % WORD;
      if end > heapEnd {
        return None;
      }
      next := end;
      return Some(current);
    }
  }
}
