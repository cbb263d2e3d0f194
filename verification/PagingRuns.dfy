/** Runs of map_page of kernel/larch/paging.rs from empty tables: what every page is
    translated to, and how long the frames last. */
module PagingRuns {
  import opened Options
  import opened Bits
  import opened Paging

  // ------------------------------------------------- what every page becomes

  /** The last request for the page at path q. */
  function LastFor(requests: seq<Request>, q: Path): Option<Request> {
    if requests == [] then None
    else
      var r := requests[|requests| - 1];
      if r.path == q then Some(r) else LastFor(requests[..|requests| - 1], q)
  }

  /** Whether the first request through the table at path t asked for user access;
      None if there was none. */
  function FirstThrough(requests: seq<Request>, t: seq<nat>): Option<bool>
    requires |t| <= 4
  {
    if requests == [] then None
    else
      var r, before := requests[|requests| - 1], FirstThrough(requests[..|requests| - 1], t);
      if before.Some? then before else if r.path[..|t|] == t then Some(r.user) else None
  }

  /** The requests that made the three tables on the way to q asked for user access. */
  predicate UserAllTheWay(requests: seq<Request>, q: Path) {
    && FirstThrough(requests, q[..1]) == Some(true)
    && FirstThrough(requests, q[..2]) == Some(true)
    && FirstThrough(requests, q[..3]) == Some(true)
  }

  /** The page at q is translated as the last request for it says, with user access
      exactly if that request and those that made its tables asked for it. */
  predicate Answered(raw: Raw, requests: seq<Request>, q: Path) {
    Translate(raw, q) ==
    match LastFor(requests, q)
    case None => None
    case Some(r) => Some(Translation(r.frame, r.writable, r.user && UserAllTheWay(requests, q)))
  }

  ghost predicate AllAnswered(raw: Raw, requests: seq<Request>) {
    forall q: Path :: Answered(raw, requests, q)
  }

  ghost predicate TablesAnswered(raw: Raw, requests: seq<Request>) {
    forall q | 1 <= |q| <= 3 :: TableUser(raw, q) == FirstThrough(requests, q)
  }

  lemma FirstThroughSnoc(requests: seq<Request>, r: Request, t: seq<nat>)
    requires |t| <= 4
    ensures FirstThrough(requests + [r], t) ==
            if FirstThrough(requests, t).Some? then FirstThrough(requests, t)
            else if r.path[..|t|] == t then Some(r.user) else None
  {
    assert (requests + [r])[..|requests|] == requests;
  }

  lemma LastForSnoc(requests: seq<Request>, r: Request, q: Path)
    ensures LastFor(requests + [r], q) == if r.path == q then Some(r) else LastFor(requests, q)
  {
    assert (requests + [r])[..|requests|] == requests;
  }

  /** A page that has been asked for has had its tables made. */
  lemma {:induction false} LastHasFirst(requests: seq<Request>, q: Path, j: nat)
    requires j <= 4 && LastFor(requests, q).Some?
    ensures FirstThrough(requests, q[..j]).Some?
  {
    var n := |requests| - 1;
    if requests[n].path != q { LastHasFirst(requests[..n], q, j); }
  }

  lemma TablesStep(raw: Raw, raw': Raw, requests: seq<Request>, r: Request)
    requires TablesAnswered(raw, requests) == true && Maps(raw, raw', r) == true
    ensures TablesAnswered(raw', requests + [r]) == true
  {
    forall q | 1 <= |q| <= 3
      ensures TableUser(raw', q) == FirstThrough(requests + [r], q)
    {
      FirstThroughSnoc(requests, r, q);
      assert TableAfter(raw, raw', r.path, r.user, q);
    }
  }

  /** After a request the table at level j has been asked for: by an earlier request
      if it was there, by this one otherwise. */
  lemma LevelAsked(raw: Raw, requests: seq<Request>, r: Request, j: nat)
    requires TablesAnswered(raw, requests) && 1 <= j <= 3
    ensures FirstThrough(requests + [r], r.path[..j]) ==
            if TableUser(raw, r.path[..j]) == None then Some(r.user) else TableUser(raw, r.path[..j])
  {
    FirstThroughSnoc(requests, r, r.path[..j]);
  }

  lemma UserAgrees(raw: Raw, requests: seq<Request>, r: Request)
    requires TablesAnswered(raw, requests) == true
    ensures r.user && UserTables(raw, r.path) <==> r.user && UserAllTheWay(requests + [r], r.path)
  {
    LevelAsked(raw, requests, r, 1);
    LevelAsked(raw, requests, r, 2);
    LevelAsked(raw, requests, r, 3);
    UserByLevel(raw, r.path);
  }

  /** The page just asked for. */
  lemma MappedAnswered(raw: Raw, raw': Raw, requests: seq<Request>, r: Request)
    requires TablesAnswered(raw, requests) && Maps(raw, raw', r)
    ensures Answered(raw', requests + [r], r.path)
  {
    LastForSnoc(requests, r, r.path);
    UserAgrees(raw, requests, r);
  }

  lemma UserByLevel(raw: Raw, p: Path)
    ensures UserTables(raw, p) <==>
            TableUser(raw, p[..1]) != Some(false) && TableUser(raw, p[..2]) != Some(false) && TableUser(raw, p[..3]) != Some(false)
  {
    if !UserTables(raw, p) {
      var j :| 1 <= j <= 3 && TrailTo(raw, p[..j]).Some? && !TrailTo(raw, p[..j]).value[j - 1].rights.user;
      assert TableUser(raw, p[..j]) == Some(false);
    }
  }

  /** Every other page. */
  lemma OtherAnswered(raw: Raw, raw': Raw, requests: seq<Request>, r: Request, q: Path)
    requires Answered(raw, requests, q) && Maps(raw, raw', r) && q != r.path
    ensures Answered(raw', requests + [r], q)
  {
    LastForSnoc(requests, r, q);
    if LastFor(requests, q).Some? {
      LastHasFirst(requests, q, 1);
      LastHasFirst(requests, q, 2);
      LastHasFirst(requests, q, 3);
      FirstThroughSnoc(requests, r, q[..1]);
      FirstThroughSnoc(requests, r, q[..2]);
      FirstThroughSnoc(requests, r, q[..3]);
    }
  }

  lemma RunStep(raw: Raw, raw': Raw, requests: seq<Request>, r: Request)
    requires AllAnswered(raw, requests) && TablesAnswered(raw, requests) && Maps(raw, raw', r) == true
    ensures AllAnswered(raw', requests + [r]) && TablesAnswered(raw', requests + [r])
  {
    TablesStep(raw, raw', requests, r);
    var after := requests + [r];
    forall q: Path
      ensures Answered(raw', after, q)
    {
      if q == r.path {
        MappedAnswered(raw, raw', requests, r);
      } else {
        OtherAnswered(raw, raw', requests, r, q);
      }
    }
  }

  /** Any number of calls on tables that map nothing: every page is translated as
      the last request for it and the requests that made its tables say, and no other
      page is translated. */
  lemma MapRun(trace: seq<Raw>, requests: seq<Request>)
    requires |trace| == |requests| + 1 && NothingMapped(trace[0])
    requires forall k | 0 <= k < |requests| :: MapsAt(trace, requests, k)
    ensures AllAnswered(trace[|requests|], requests) && TablesAnswered(trace[|requests|], requests)
  {
    var n := |requests|;
    assert RunAnswered(trace[n], requests) by {
      MapRunTo(trace, requests, n);
      assert requests[..n] == requests;
    }
  }

  /** Call k leads from state k to state k + 1. */
  ghost predicate MapsAt(trace: seq<Raw>, requests: seq<Request>, k: nat)
    requires k < |requests| < |trace|
  {
    Maps(trace[k], trace[k + 1], requests[k]) == true
  }

  lemma {:induction false} MapRunTo(trace: seq<Raw>, requests: seq<Request>, n: nat)
    requires |trace| == |requests| + 1 && NothingMapped(trace[0]) && n <= |requests|
    requires forall k | 0 <= k < |requests| :: MapsAt(trace, requests, k)
    ensures RunAnswered(trace[n], requests[..n]) == true
  {
    if n == 0 {
      NoneAnswered(trace[0], requests[..0]);
    } else {
      var i := n - 1;
      MapRunTo(trace, requests, i);
      AnsweredStep(trace, requests, i);
    }
  }

  ghost predicate RunAnswered(raw: Raw, requests: seq<Request>) {
    AllAnswered(raw, requests) && TablesAnswered(raw, requests)
  }

  lemma NoneAnswered(raw: Raw, requests: seq<Request>)
    requires NothingMapped(raw) && requests == []
    ensures RunAnswered(raw, requests) == true
  {}

  lemma AnsweredStep(trace: seq<Raw>, requests: seq<Request>, i: nat)
    requires i < |requests| < |trace| && MapsAt(trace, requests, i) && RunAnswered(trace[i], requests[..i]) == true
    ensures RunAnswered(trace[i + 1], requests[..i + 1]) == true
  {
    RunStep(trace[i], trace[i + 1], requests[..i], requests[i]);
    TakeSnoc(requests, i);
  }

  /** For instance: page 1 mapped without user access, then page 2 with it.  They share
      their tables, and page 2 does not get the access asked for. */
  lemma UserWithheld(raw: Raw, raw1: Raw, raw2: Raw, r1: Request, r2: Request)
    requires NothingMapped(raw) && Maps(raw, raw1, r1) && Maps(raw1, raw2, r2)
    requires r1 == RequestOf(0x1000, 0x5000, 3) && r2 == RequestOf(0x2000, 0x6000, 7)
    ensures Translate(raw2, r2.path) == Some(Translation(6, true, false))
  {
    ExampleRequests(r1, r2);
    assert TableAfter(raw, raw1, r1.path, r1.user, r2.path[..3]);
    UserByLevel(raw1, r2.path);
  }

  lemma ExampleRequests(r1: Request, r2: Request)
    requires r1 == RequestOf(0x1000, 0x5000, 3) && r2 == RequestOf(0x2000, 0x6000, 7)
    ensures r1.path[..3] == r2.path[..3] && !r1.user && r2.user && r2.writable && r2.frame == 6
  {
    assert !Bit(3, 2) && Bit(7, 1) && Bit(7, 2);
  }

  // ------------------------------------------------- how long the frames last

  /** The tables that requests lead through. */
  function Prefixes(requests: seq<Request>): set<seq<nat>> {
    if requests == [] then {}
    else
      var p := requests[|requests| - 1].path;
      Prefixes(requests[..|requests| - 1]) + {p[..1], p[..2], p[..3]}
  }

  lemma {:induction false} PrefixesAsked(requests: seq<Request>, t: seq<nat>)
    requires 1 <= |t| <= 3
    ensures t in Prefixes(requests) <==> FirstThrough(requests, t).Some?
  {
    if requests != [] {
      PrefixesAsked(requests[..|requests| - 1], t);
      PrefixOf(requests[|requests| - 1].path, t);
    }
  }

  lemma PrefixOf(p: Path, t: seq<nat>)
    requires 1 <= |t| <= 3
    ensures t in {p[..1], p[..2], p[..3]} <==> p[..|t|] == t
  {
  }

  function One(b: bool): nat { if b then 1 else 0 }

  lemma AddOne(s: set<seq<nat>>, t: seq<nat>)
    ensures |s + {t}| == |s| + One(t !in s)
  {
    if t in s { assert s + {t} == s; }
  }

  lemma AddThree(s: set<seq<nat>>, p: Path)
    ensures |s + {p[..1], p[..2], p[..3]}| == |s| + One(p[..1] !in s) + One(p[..2] !in s) + One(p[..3] !in s)
  {
    var a, b, c := p[..1], p[..2], p[..3];
    assert |a| == 1 && |b| == 2 && |c| == 3;
    AddOne(s, a);
    AddOne(s + {a}, b);
    AddOne(s + {a} + {b}, c);
    assert s + {a, b, c} == s + {a} + {b} + {c};
  }

  lemma MissingByLevel(raw: Raw, requests: seq<Request>, p: Path)
    requires TablesAnswered(raw, requests) == true
    ensures var s := Prefixes(requests);
      Missing(raw, p) == One(p[..1] !in s) + One(p[..2] !in s) + One(p[..3] !in s)
  {
    PrefixesAsked(requests, p[..1]);
    PrefixesAsked(requests, p[..2]);
    PrefixesAsked(requests, p[..3]);
    assert TableUser(raw, p[..1]) == FirstThrough(requests, p[..1]);
    assert TableUser(raw, p[..2]) == FirstThrough(requests, p[..2]);
    assert TableUser(raw, p[..3]) == FirstThrough(requests, p[..3]);
  }

  /** One more request needs a frame for each table not asked for before. */
  lemma PrefixesGrow(raw: Raw, requests: seq<Request>, r: Request)
    requires TablesAnswered(raw, requests) == true
    ensures |Prefixes(requests + [r])| == |Prefixes(requests)| + Missing(raw, r.path)
  {
    assert (requests + [r])[..|requests|] == requests;
    AddThree(Prefixes(requests), r.path);
    MissingByLevel(raw, requests, r.path);
  }

  /** Request k succeeds and takes the frames of the tables it misses. */
  ghost predicate SucceedsAt(trace: seq<Raw>, free: seq<nat>, requests: seq<Request>, k: nat)
    requires k + 1 < |trace| == |free| && k < |requests|
  {
    && Maps(trace[k], trace[k + 1], requests[k]) == true
    && free[k] == free[k + 1] + Missing(trace[k], requests[k].path)
  }

  /** The first m requests succeed, with free counting the frames that are left; the
      next one, if any, panics. */
  ghost predicate Attempts(trace: seq<Raw>, free: seq<nat>, requests: seq<Request>, m: nat) {
    && m <= |requests| && |trace| == |free| == m + 1 && NothingMapped(trace[0])
    && (forall k: nat | k < m :: SucceedsAt(trace, free, requests, k))
    && (m < |requests| ==> free[m] < Missing(trace[m], requests[m].path))
  }

  lemma TakeSnoc<T>(s: seq<T>, n: nat)
    requires n < |s|
    ensures s[..n + 1] == s[..n] + [s[n]]
  {}

  lemma {:induction false} FramesTaken(trace: seq<Raw>, free: seq<nat>, requests: seq<Request>, m: nat, n: nat)
    requires Attempts(trace, free, requests, m) == true && n <= m
    ensures free[0] == free[n] + |Prefixes(requests[..n])|
    ensures TablesAnswered(trace[n], requests[..n]) == true
  {
    if n > 0 {
      var i := n - 1;
      FramesTaken(trace, free, requests, m, i);
      TakeSnoc(requests, i);
      assert SucceedsAt(trace, free, requests, i);
      TablesStep(trace[i], trace[i + 1], requests[..i], requests[i]);
      PrefixesGrow(trace[i], requests[..i], requests[i]);
    }
  }

  lemma {:induction false} PrefixesMonotone(requests: seq<Request>, n: nat)
    requires n <= |requests|
    ensures Prefixes(requests[..n]) <= Prefixes(requests)
  {
    if n < |requests| {
      var init := requests[..|requests| - 1];
      PrefixesMonotone(init, n);
      assert init[..n] == requests[..n];
    } else {
      assert requests[..n] == requests;
    }
  }

  lemma StuckNeedsMore(trace: seq<Raw>, free: seq<nat>, requests: seq<Request>, m: nat)
    requires Attempts(trace, free, requests, m) == true && m < |requests|
    ensures |Prefixes(requests[..m] + [requests[m]])| > free[0]
  {
    FramesTaken(trace, free, requests, m, m);
    PrefixesGrow(trace[m], requests[..m], requests[m]);
  }

  /** From empty tables all requests succeed if and only if the tables they lead
      through are no more than the frames that are free at the start. */
  lemma AllSucceedIff(trace: seq<Raw>, free: seq<nat>, requests: seq<Request>, m: nat)
    requires Attempts(trace, free, requests, m)
    ensures m == |requests| <==> |Prefixes(requests)| <= free[0]
  {
    if m == |requests| {
      FramesTaken(trace, free, requests, m, m);
      assert requests[..m] == requests;
    } else {
      StuckNeedsMore(trace, free, requests, m);
      TakeSnoc(requests, m);
      PrefixesMonotone(requests, m + 1);
      SubsetSize(Prefixes(requests[..m + 1]), Prefixes(requests));
    }
  }

  lemma SubsetSize(s: set<seq<nat>>, t: set<seq<nat>>)
    requires s <= t
    ensures |s| <= |t|
  {
    assert t == s + (t - s);
  }
}
