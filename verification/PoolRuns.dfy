/** Which frames kernel/mem/pmm.rs considers free, over every run of calls. */
module PoolRuns {
  import opened Bits
  import opened Options
  import opened Pmm

  /** Freeing the address of a page that is taken adds that page, counts up, and does
      nothing else. */
  lemma FreeTaken(s: Pool, page: nat)
    requires ValidPool(s) && page < s.tracked && page !in s.free
    ensures FreePool(s, (page * 4096 + 0x10_0000) % WORD) ==
            Pool(s.tracked, s.slack, s.free + {page}, (s.counter + 1) % WORD)
  {
    AddrRoundTrip(page);
  }

  /** An operation that decides whether a page is free: an alloc that returns its
      address, or a free of an address in it. */
  ghost predicate Decides(s: Pool, op: Op, page: nat) {
    match op
    case Alloc => AllocResult(s) == Some((page * 4096 + 0x10_0000) % WORD)
    case Free(a) => (a - 0x10_0000) % WORD / 4096 == page
  }

  ghost predicate IsTrace(trace: seq<Pool>, ops: seq<Op>) {
    && |trace| == |ops| + 1 && ValidPool(trace[0])
    && forall k | 0 <= k < |ops| :: StepsTo(trace, ops, k)
  }

  ghost predicate StepsTo(trace: seq<Pool>, ops: seq<Op>, k: nat)
    requires k < |ops| < |trace|
  {
    trace[k + 1] == PoolStep(trace[k], ops[k])
  }

  ghost predicate NoneDecides(trace: seq<Pool>, ops: seq<Op>, from: nat, n: nat, page: nat)
    requires n <= |ops| < |trace|
  {
    forall k | from <= k < n :: !Decides(trace[k], ops[k], page)
  }

  /** Operation k is the last of the first n that decides the page. */
  ghost predicate LastDecides(trace: seq<Pool>, ops: seq<Op>, k: nat, n: nat, page: nat)
    requires k < n <= |ops| < |trace|
  {
    Decides(trace[k], ops[k], page) && NoneDecides(trace, ops, k + 1, n, page)
  }

  ghost predicate FreeAsDecided(trace: seq<Pool>, ops: seq<Op>, n: nat, page: nat)
    requires n <= |ops| < |trace|
  {
    || (NoneDecides(trace, ops, 0, n, page) && (page in trace[n].free <==> page in trace[0].free))
    || exists k: nat :: k < n && LastDecides(trace, ops, k, n, page) && (page in trace[n].free <==> ops[k].Free?)
  }

  lemma OpOnPage(s: Pool, op: Op, page: nat)
    requires ValidPool(s) && page < s.tracked
    ensures page in PoolStep(s, op).free <==> if Decides(s, op, page) then op.Free? else page in s.free
    ensures ValidPool(PoolStep(s, op)) && PoolStep(s, op).tracked == s.tracked
  {
    AddrRoundTrip(page);
    if op == Alloc && s.free != {} { AddrRoundTrip(Min(s.free)); }
  }

  /** Over every run, after each operation, a tracked page is free if and only if the
      last operation that decided it was a free, or there was none and it was free. */
  lemma {:induction false} FreeByLast(trace: seq<Pool>, ops: seq<Op>, n: nat, page: nat)
    requires IsTrace(trace, ops) && n <= |ops| && page < trace[0].tracked
    ensures ValidPool(trace[n]) && trace[n].tracked == trace[0].tracked && FreeAsDecided(trace, ops, n, page)
  {
    if n > 0 {
      var i := n - 1;
      FreeByLast(trace, ops, i, page);
      assert StepsTo(trace, ops, i);
      OpOnPage(trace[i], ops[i], page);
      if Decides(trace[i], ops[i], page) {
        assert LastDecides(trace, ops, i, n, page);
      } else if !NoneDecides(trace, ops, 0, n, page) {
        var k: nat :| k < i && LastDecides(trace, ops, k, i, page) && (page in trace[i].free <==> ops[k].Free?);
        assert LastDecides(trace, ops, k, n, page);
      }
    }
  }

  /** After init the tracked pages are free that lie outside both reserved ranges, taking
      page numbers as init does, from address 0. */
  lemma BootByAddress(tracked: nat, page: nat)
    ensures page in BootFree(tracked) <==>
            page < tracked && !(page * 4096 < 0x9FC00) && !(0x10_0000 <= page * 4096 < 0x20_0000)
  {}
}
