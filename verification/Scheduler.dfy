/** The round-robin scheduler of kernel/sched/scheduler.rs: what one call of next
    picks, and what that means for waiting over whole runs. */
module Scheduler {
  import opened Options

  const CAPACITY: nat := 256

  datatype ProcessState = Ready | Running | Waiting | Terminated

  datatype Process = Process(pid: nat, state: ProcessState)

  predicate Runnable(p: Process) { p.state == Ready || p.state == Running }

  /** The filled slots and the slot last picked. */
  datatype Sched = Sched(slots: seq<Process>, current: nat)

  predicate ValidSched(s: Sched) {
    |s.slots| <= CAPACITY && if s.slots == [] then s.current == 0 else s.current < |s.slots|
  }

  // ------------------------------------------------------- what next returns

  /** The slot d places after c in a circle of n. */
  function After(c: nat, d: nat, n: nat): nat
    requires c < n && d <= n
  {
    if c + d < n then c + d else c + d - n
  }

  predicate RunnableAfter(s: Sched, d: nat)
    requires ValidSched(s) && s.slots != [] && d <= |s.slots|
  {
    Runnable(s.slots[After(s.current, d, |s.slots|)])
  }

  /** r is the first runnable slot in cyclic order after the current one, which
      itself comes last; None if no slot is runnable. */
  ghost predicate IsNext(s: Sched, r: Option<nat>)
    requires ValidSched(s)
  {
    match r
    case None => forall i | 0 <= i < |s.slots| :: !Runnable(s.slots[i])
    case Some(i) =>
      exists d | 1 <= d <= |s.slots| ::
        && i == After(s.current, d, |s.slots|)
        && RunnableAfter(s, d)
        && forall e | 1 <= e < d :: !RunnableAfter(s, e)
  }

  /** Distance to the next runnable slot, from d on; beyond the circle if none. */
  function Search(s: Sched, d: nat): (r: nat)
    requires ValidSched(s) && s.slots != [] && 1 <= d <= |s.slots| + 1
    ensures d <= r <= |s.slots| + 1
    ensures forall e | d <= e < r :: !RunnableAfter(s, e)
    ensures r <= |s.slots| ==> RunnableAfter(s, r)
    decreases |s.slots| + 1 - d
  {
    if d == |s.slots| + 1 || RunnableAfter(s, d) then d else Search(s, d + 1)
  }

  function Picked(s: Sched): Option<nat>
    requires ValidSched(s)
  {
    if s.slots == [] then None
    else
      var d := Search(s, 1);
      if d > |s.slots| then None else Some(After(s.current, d, |s.slots|))
  }

  /** next returns a process that is ready or running, and none if and only if there is
      no such process. */
  lemma PickedStates(s: Sched)
    requires ValidSched(s)
    ensures Picked(s) == None <==> forall i | 0 <= i < |s.slots| :: s.slots[i].state == Waiting || s.slots[i].state == Terminated
    ensures Picked(s).Some? ==>
      Picked(s).value < |s.slots| && var state := s.slots[Picked(s).value].state; state == Ready || state == Running
  {
    PickedIsNext(s);
  }

  /** Every slot is some distance behind the current one. */
  function Distance(c: nat, i: nat, n: nat): (d: nat)
    requires c < n && i < n
    ensures 1 <= d <= n && After(c, d, n) == i
  {
    if i > c then i - c else n - c + i
  }

  lemma PickedIsNext(s: Sched)
    requires ValidSched(s)
    ensures IsNext(s, Picked(s))
    ensures Picked(s).None? <==> forall i | 0 <= i < |s.slots| :: !Runnable(s.slots[i])
  {
    if s.slots != [] {
      var n, d := |s.slots|, Search(s, 1);
      if d > n {
        forall i | 0 <= i < n
          ensures !Runnable(s.slots[i])
        {
          assert !RunnableAfter(s, Distance(s.current, i, n));
        }
      } else {
        assert Runnable(s.slots[After(s.current, d, n)]);
      }
    }
  }

  /** There is only one answer. */
  lemma NextUnique(s: Sched, r: Option<nat>)
    requires ValidSched(s) && IsNext(s, r)
    ensures r == Picked(s)
  {
    PickedIsNext(s);
    if r.Some? {
      var d :| 1 <= d <= |s.slots| && r.value == After(s.current, d, |s.slots|) && RunnableAfter(s, d)
               && forall e | 1 <= e < d :: !RunnableAfter(s, e);
      assert Search(s, 1) == d;
    }
  }

  // ------------------------------------------------------------------- runs

  /** What can happen: a call of next, a new process, or a change of some
      process's state by the rest of the kernel. */
  datatype Event = Next | Add(p: Process) | SetState(slot: nat, state: ProcessState)

  function Step(s: Sched, e: Event): Sched
    requires ValidSched(s)
  {
    match e
    case Next => (match Picked(s) case None => s case Some(i) => s.(current := i))
    case Add(p) => if |s.slots| < CAPACITY then s.(slots := s.slots + [p]) else s
    case SetState(i, st) => if i < |s.slots| then s.(slots := s.slots[i := s.slots[i].(state := st)]) else s
  }

  lemma StepValid(s: Sched, e: Event)
    requires ValidSched(s)
    ensures ValidSched(Step(s, e)) && |Step(s, e).slots| >= |s.slots|
  {
  }

  ghost predicate IsRun(trace: seq<Sched>, events: seq<Event>) {
    && |trace| == |events| + 1
    && (forall k | 0 <= k < |trace| :: ValidSched(trace[k]))
    && (forall k | 0 <= k < |events| :: trace[k + 1] == Step(trace[k], events[k]))
  }

  /** The process in a slot is there and runnable in every state of a stretch. */
  ghost predicate StaysRunnable(trace: seq<Sched>, slot: nat, a: nat, b: nat)
    requires b < |trace|
  {
    forall k | a <= k <= b :: slot < |trace[k].slots| && Runnable(trace[k].slots[slot])
  }

  /** Step k is a call of next that returns this slot. */
  ghost predicate PickAt(trace: seq<Sched>, events: seq<Event>, slot: nat, k: nat)
    requires IsRun(trace, events)
  {
    k < |events| && events[k] == Next && Picked(trace[k]) == Some(slot)
  }

  function CallsOfNext(events: seq<Event>): nat {
    if events == [] then 0
    else CallsOfNext(events[..|events| - 1]) + if events[|events| - 1] == Next then 1 else 0
  }

  // ----------------------------------------------------------- no starvation

  /** Calls of next that can pass before the slot is reached, however many
      processes are added meanwhile. */
  function Patience(current: nat, slot: nat): int {
    if current < slot then slot - current else CAPACITY - current + slot
  }

  /** A pick never jumps over a runnable slot. */
  lemma PickStopsAt(s: Sched, slot: nat)
    requires ValidSched(s) && slot < |s.slots| && Runnable(s.slots[slot])
    ensures Picked(s).Some?
    ensures Distance(s.current, Picked(s).value, |s.slots|) <= Distance(s.current, slot, |s.slots|)
  {
    var n := |s.slots|;
    assert RunnableAfter(s, Distance(s.current, slot, n));
    var d := Search(s, 1);
    assert Distance(s.current, After(s.current, d, n), n) == d;
  }

  lemma PatienceStep(s: Sched, e: Event, slot: nat)
    requires ValidSched(s) && slot < |s.slots| && Runnable(s.slots[slot])
    requires e == Next ==> Picked(s) != Some(slot)
    ensures ValidSched(Step(s, e))
    ensures Patience(Step(s, e).current, slot) <= Patience(s.current, slot) - if e == Next then 1 else 0
  {
    StepValid(s, e);
    if e == Next { PickStopsAt(s, slot); }
  }

  lemma {:induction false} WaitingBound(trace: seq<Sched>, events: seq<Event>, slot: nat, m: nat)
    requires IsRun(trace, events) && m <= |events| && StaysRunnable(trace, slot, 0, m)
    requires forall k | 0 <= k < m :: !PickAt(trace, events, slot, k)
    ensures CallsOfNext(events[..m]) + Patience(trace[m].current, slot) <= Patience(trace[0].current, slot)
  {
    if m > 0 {
      WaitingBound(trace, events, slot, m - 1);
      assert events[..m][..m - 1] == events[..m - 1];
      assert trace[m] == Step(trace[m - 1], events[m - 1]);
      assert !PickAt(trace, events, slot, m - 1);
      PatienceStep(trace[m - 1], events[m - 1], slot);
    }
  }

  /** No starvation: a process that stays runnable is picked within 256 calls of
      next, whatever the others do and whatever is added. */
  lemma NoStarvation(trace: seq<Sched>, events: seq<Event>, slot: nat)
    requires IsRun(trace, events) && StaysRunnable(trace, slot, 0, |events|)
    requires CallsOfNext(events) >= CAPACITY
    ensures exists k | 0 <= k < |events| :: PickAt(trace, events, slot, k)
  {
    assert events[..|events|] == events;
    if forall k | 0 <= k < |events| :: !PickAt(trace, events, slot, k) {
      WaitingBound(trace, events, slot, |events|);
      assert false;
    }
  }

  // --------------------------------------------------------- one turn each

  /** How often next returns a slot during steps a..b. */
  ghost function Picks(trace: seq<Sched>, events: seq<Event>, slot: nat, a: nat, b: nat): nat
    requires IsRun(trace, events) && a <= b <= |events|
    decreases b
  {
    if a == b then 0
    else Picks(trace, events, slot, a, b - 1) + if PickAt(trace, events, slot, b - 1) then 1 else 0
  }

  /** How far the circle has turned since slot s was current. */
  function Turned(s: nat, current: nat, n: nat): nat
    requires s < n && current < n
  {
    if current >= s then current - s else n - s + current
  }

  ghost predicate NoAdditions(events: seq<Event>, a: nat, b: nat)
    requires b <= |events|
  {
    forall k | a <= k < b :: !events[k].Add?
  }

  /** Without additions, from a state where s was just picked and until it is
      picked again, t has been picked once if the circle has turned past it and
      not at all before. */
  lemma {:induction false} TurnCounts(trace: seq<Sched>, events: seq<Event>, s: nat, t: nat, a: nat, m: nat)
    requires IsRun(trace, events) && a <= m <= |events| && NoAdditions(events, a, m) && s != t
    requires StaysRunnable(trace, s, a, m) && StaysRunnable(trace, t, a, m) && trace[a].current == s
    requires forall k | a <= k < m :: !PickAt(trace, events, s, k)
    ensures |trace[m].slots| == |trace[a].slots|
    ensures Picks(trace, events, t, a, m) ==
            if Turned(s, trace[m].current, |trace[m].slots|) >= Turned(s, t, |trace[m].slots|) then 1 else 0
    decreases m - a
  {
    if a < m {
      TurnCounts(trace, events, s, t, a, m - 1);
      assert trace[m] == Step(trace[m - 1], events[m - 1]);
      assert !PickAt(trace, events, s, m - 1);
      assert !events[m - 1].Add?;
      TurnStep(trace[m - 1], events[m - 1], s, t);
    }
  }

  /** One step of the circle: it never turns back before s, and it passes t only
      by picking it. */
  lemma TurnStep(x: Sched, e: Event, s: nat, t: nat)
    requires ValidSched(x) && !e.Add? && s != t
    requires s < |x.slots| && Runnable(x.slots[s]) && t < |x.slots| && Runnable(x.slots[t])
    requires e == Next ==> Picked(x) != Some(s)
    ensures ValidSched(Step(x, e)) && |Step(x, e).slots| == |x.slots|
    ensures var n := |x.slots|;
      var before, now, goal := Turned(s, x.current, n), Turned(s, Step(x, e).current, n), Turned(s, t, n);
      && (now >= goal <==> before >= goal || (e == Next && Picked(x) == Some(t)))
      && (before >= goal ==> !(e == Next && Picked(x) == Some(t)))
  {
    StepValid(x, e);
    if e == Next {
      PickStopsAt(x, s);
      PickStopsAt(x, t);
    }
  }

  /** Fairness: with no additions, between two consecutive picks of a process that
      stays runnable every other process that stays runnable is picked exactly once. */
  lemma OneTurnEach(trace: seq<Sched>, events: seq<Event>, s: nat, t: nat, a: nat, b: nat)
    requires IsRun(trace, events) && a < b < |events| && NoAdditions(events, a, b) && s != t
    requires StaysRunnable(trace, s, a, b) && StaysRunnable(trace, t, a, b)
    requires PickAt(trace, events, s, a) && PickAt(trace, events, s, b)
    requires forall k | a < k < b :: !PickAt(trace, events, s, k)
    ensures Picks(trace, events, t, a + 1, b) == 1
  {
    assert trace[a + 1] == Step(trace[a], events[a]);
    TurnCounts(trace, events, s, t, a + 1, b);
    PickStopsAt(trace[b], t);
  }

  // -------------------------------------------------------------- the class

  function Values(slots: seq<Option<Process>>): (r: seq<Process>)
    requires forall i | 0 <= i < |slots| :: slots[i].Some?
    ensures |r| == |slots| && forall i | 0 <= i < |slots| :: r[i] == slots[i].value
  {
    if slots == [] then [] else [slots[0].value] + Values(slots[1..])
  }

  class RoundRobin {
    const processes: array<Option<Process>>
    var current: nat
    var count: nat

    ghost predicate Valid()
      reads this, processes
    {
      && processes.Length == CAPACITY && count <= CAPACITY
      && (forall i | 0 <= i < count :: processes[i].Some?)
      && (forall i | count <= i < CAPACITY :: processes[i].None?)
      && if count == 0 then current == 0 else current < count
    }

    ghost function State(): (s: Sched)
      reads this, processes
      requires Valid()
      ensures ValidSched(s) && |s.slots| == count
    {
      Sched(Values(processes[..count]), current)
    }

    constructor ()
      ensures Valid() && State() == Sched([], 0)
    {
      processes := new Option<Process>[CAPACITY](_ => None);
      current, count := 0, 0;
    }

    /** add_process */
    method AddProcess(p: Process)
      requires Valid()
      modifies this, processes
      ensures Valid()
      ensures State() == old(Step(State(), Add(p)))
      ensures old(count) < 256 ==> count == old(count) + 1 && processes[old(count)] == Some(p)
      ensures old(count) == 256 ==> count == 256
      ensures current == old(current)
      ensures forall i | 0 <= i < 256 && i != old(count) :: processes[i] == old(processes[i])
    {
      if count < CAPACITY {
        processes[count] := Some(p);
        count := count + 1;
      }
    }

    /** next; the result is the slot of the process returned. */
    method PickNext() returns (r: Option<nat>)
      requires Valid()
      modifies this`current
      ensures Valid()
      ensures r == old(Picked(State()))
      ensures State() == old(Step(State(), Next))
    {
      ghost var s := State();
      r := None;
      if count == 0 {
        return;
      }
      var start := current;
      ghost var d := 0;
      while true
        invariant Reached(s, d, current) == true
        decreases count - d
      {
        Probe(s, d, current);
        current := (current + 1) % count;
        d := d + 1;
        if processes[current].Some? {
          var state := processes[current].value.state;
          assert s.slots[current].state == state;
          if state == Ready || state == Running {
            r := Some(current);
            break;
          } else if current == start {
            break;
          }
        }
      }
    }
  }

  /** None of the d slots after the current one is runnable. */
  ghost predicate NoneUpTo(s: Sched, d: nat)
    requires ValidSched(s) && s.slots != [] && d <= |s.slots|
  {
    forall e | 1 <= e <= d :: !RunnableAfter(s, e)
  }

  /** The search stands at slot i, d places on, and nothing on the way was runnable. */
  ghost predicate Reached(s: Sched, d: nat, i: nat) {
    && ValidSched(s) && s.slots != [] && d < |s.slots|
    && i == After(s.current, d, |s.slots|) && NoneUpTo(s, d)
  }

  /** One round of the search loop: the next slot is runnable and the answer, or the
      last one, so that there is none, or the search goes on from it. */
  lemma Probe(s: Sched, d: nat, i: nat)
    requires Reached(s, d, i) == true
    ensures i < |s.slots| && var j := (i + 1) % |s.slots|;
      j < |s.slots| &&
      if Runnable(s.slots[j]) then Picked(s) == Some(j) && Step(s, Next) == Sched(s.slots, j)
      else if j == s.current then Picked(s) == None && Step(s, Next) == s
      else Reached(s, d + 1, j) == true
    ensures d < |s.slots|
  {
    NextInCircle(s.current, d, |s.slots|);
    if RunnableAfter(s, d + 1) {
      FoundAt(s, d + 1);
    } else {
      NoneFurther(s, d + 1);
      if d + 1 == |s.slots| { NoneFound(s); }
    }
  }

  lemma NoneFurther(s: Sched, d: nat)
    requires ValidSched(s) && s.slots != [] && 1 <= d <= |s.slots|
    requires NoneUpTo(s, d - 1) == true && !RunnableAfter(s, d)
    ensures NoneUpTo(s, d) == true
  {
  }

  lemma FoundAt(s: Sched, d: nat)
    requires ValidSched(s) && s.slots != [] && 1 <= d <= |s.slots| && RunnableAfter(s, d)
    requires NoneUpTo(s, d - 1) == true
    ensures Picked(s) == Some(After(s.current, d, |s.slots|))
    ensures Step(s, Next) == Sched(s.slots, After(s.current, d, |s.slots|))
  {
    assert Search(s, 1) == d;
  }

  lemma NoneFound(s: Sched)
    requires ValidSched(s) && s.slots != []
    requires NoneUpTo(s, |s.slots|) == true
    ensures Picked(s) == None && Step(s, Next) == s
  {
    assert Search(s, 1) == |s.slots| + 1;
  }

  lemma NextInCircle(start: nat, d: nat, n: nat)
    requires start < n && d < n
    ensures (After(start, d, n) + 1) % n == After(start, d + 1, n)
  {
    NextModulo(After(start, d, n), n);
  }

  lemma NextModulo(c: nat, n: nat)
    requires c < n
    ensures (c + 1) % n == if c + 1 < n then c + 1 else 0
  {}
}
