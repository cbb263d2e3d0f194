/** The four-level tables of kernel/larch/paging.rs, grown on demand from the
    frame allocator.  Starting from the zeroed static PML4 and zero-filled
    frames, map_page sets the translation of one page and of no other. */
module Paging {
  import opened Bits
  import opened Options
  import opened RadixTree
  import opened Pmm
  import opened PageEntry

  const SLOTS: nat := 512

  /** The static PML4 is not a frame of the allocator. */
  const ROOT: int := -1

  /** Tables as raw 64-bit values. */
  type Raw = (int, nat) -> nat

  function View(raw: Raw): Memory<Rights> {
    (t: int, i: nat) => Decode(raw(t, i))
  }

  function TrailTo(raw: Raw, p: seq<nat>): Option<seq<Slot<Rights>>> {
    Trail(View(raw), ROOT, p)
  }

  function TableOf(raw: Raw, p: seq<nat>): Option<int> {
    TableAt(View(raw), ROOT, p)
  }

  // ----------------------------------------------------------- translation

  datatype Translation = Translation(frame: int, writable: bool, user: bool)

  /** The four table indices of a virtual address: bits 47:39, 38:30, 29:21, 20:12. */
  function PathOf(virt: nat): (p: seq<nat>)
    ensures |p| == 4
  {
    [virt / 0x80_0000_0000 % SLOTS, virt / 0x4000_0000 % SLOTS, virt / 0x20_0000 % SLOTS, virt / PAGE % SLOTS]
  }

  /** What the processor makes of the four entries met by a walk: an access needs
      the right in every one of them, and a page-size bit ends the walk early. */
  function Translate(raw: Raw, p: seq<nat>): Option<Translation>
    requires |p| == 4
  {
    match TrailTo(raw, p)
    case None => None
    case Some(t) =>
      if t[1].rights.large || t[2].rights.large then None
      else Some(Translation(t[3].frame,
                            t[0].rights.writable && t[1].rights.writable && t[2].rights.writable && t[3].rights.writable,
                            t[0].rights.user && t[1].rights.user && t[2].rights.user && t[3].rights.user))
  }

  /** The user bit of the entry that leads to the table at path q, if it is there. */
  function TableUser(raw: Raw, q: seq<nat>): Option<bool>
    requires q != []
  {
    match TrailTo(raw, q)
    case None => None
    case Some(t) => Some(t[|q| - 1].rights.user)
  }

  /** The tables that already are on the way to p all admit user accesses. */
  ghost predicate UserTables(raw: Raw, p: seq<nat>)
    requires |p| == 4
  {
    forall j | 1 <= j <= 3 && TrailTo(raw, p[..j]).Some? :: TrailTo(raw, p[..j]).value[j - 1].rights.user
  }

  /** The tables that were missing on the way to p are there, with the user bit asked
      for; all others are as before. */
  ghost predicate TablesAfter(raw: Raw, raw': Raw, p: seq<nat>, user: bool)
    requires |p| == 4
  {
    forall q | 1 <= |q| <= 3 :: TableAfter(raw, raw', p, user, q)
  }

  predicate TableAfter(raw: Raw, raw': Raw, p: seq<nat>, user: bool, q: seq<nat>)
    requires |p| == 4 && 1 <= |q| <= 3
  {
    TableUser(raw', q) == if TableUser(raw, q) == None && q == p[..|q|] then Some(user) else TableUser(raw, q)
  }

  ghost predicate OthersTranslateSame(raw: Raw, raw': Raw, p: seq<nat>) {
    forall q | |q| == 4 && q != p :: Translate(raw', q) == Translate(raw, q)
  }

  /** What map_page leaves behind: the page at p, and no other, is translated anew,
      with user access exactly if it is asked for and the tables that were there
      before grant it. */
  ghost predicate Result(raw: Raw, raw': Raw, p: seq<nat>, frame: int, writable: bool, user: bool) {
    && |p| == 4
    && Translate(raw', p) == Some(Translation(frame, writable, user && UserTables(raw, p)))
    && OthersTranslateSame(raw, raw', p)
    && TablesAfter(raw, raw', p, user)
  }

  type Path = p: seq<nat> | |p| == 4 witness [0, 0, 0, 0]

  /** What a call of map_page asks for. */
  datatype Request = Request(path: Path, frame: nat, writable: bool, user: bool)

  function RequestOf(virt: nat, phys: nat, flags: nat): Request {
    Request(PathOf(virt), FrameNumber(phys), Bit(flags, 1), Bit(flags, 2))
  }

  /** Which bits of the arguments a request is made of. */
  lemma RequestFields(virt: nat, phys: nat, flags: nat)
    ensures var r := RequestOf(virt, phys, flags);
      && r.path == PathOf(virt) && r.frame == phys / 4096 % 0x100_0000_0000
      && (r.writable <==> flags / 2 % 2 == 1) && (r.user <==> flags / 4 % 2 == 1)
  {
    assert Bit(flags, 1) == Bit(flags / 2, 0);
    assert Bit(flags, 2) == Bit(flags / 2, 1) == Bit(flags / 2 / 2, 0);
    assert flags / 2 / 2 == flags / 4;
  }

  /** One successful call of map_page. */
  ghost predicate Maps(raw: Raw, raw': Raw, r: Request) {
    Result(raw, raw', r.path, r.frame, r.writable, r.user)
  }

  ghost predicate NothingMapped(raw: Raw) {
    forall q | 1 <= |q| <= 4 :: TrailTo(raw, q) == None
  }

  // ------------------------------------------------------------- the shape

  /** A table below the root is a frame of the allocator that is in use, and its
      entry is writable and not a large page. */
  ghost predicate TableOk(raw: Raw, free: set<nat>, all: set<nat>, p: seq<nat>)
    requires TrailTo(raw, p).Some?
  {
    && (p != [] ==>
          var s := TrailTo(raw, p).value[|p| - 1];
          s.frame in all && s.frame !in free && s.rights.writable && !s.rights.large)
    && NoLargePages(raw, TableOf(raw, p).value)
  }

  ghost predicate NoLargePages(raw: Raw, t: int) {
    forall i :: !PageSize(raw(t, i))
  }

  /** What every operation keeps: no frame is two tables, tables are frames in
      use, and the frames still free are zero-filled. */
  ghost predicate Shape(raw: Raw, free: set<nat>, all: set<nat>) {
    WellShaped(raw, free, all) == true
  }

  ghost predicate WellShaped(raw: Raw, free: set<nat>, all: set<nat>) {
    && free <= all && ROOT !in all
    && Separated(View(raw), ROOT, 4)
    && (forall t, i | i >= SLOTS :: raw(t, i) == 0)
    && (forall f, i | f in free :: raw(f, i) == 0)
    && (forall p | |p| < 4 && TrailTo(raw, p).Some? :: TableOk(raw, free, all, p))
  }

  ghost predicate RawAgreeExcept(raw: Raw, raw': Raw, t: int, i: nat) {
    forall t', i' :: t' != t || i' != i ==> raw'(t', i') == raw(t', i')
  }

  lemma ZeroDecodes()
    ensures Decode(0) == None && !PageSize(0)
  {
    BitOfZero(7);
  }

  lemma NoPageSize(raw: Raw, raw': Raw, t: int, i: nat, u: int)
    requires RawAgreeExcept(raw, raw', t, i) && !PageSize(raw'(t, i)) && NoLargePages(raw, u)
    ensures NoLargePages(raw', u)
  {
    forall j
      ensures !PageSize(raw'(u, j))
    {
      if u != t || j != i {
        assert raw'(u, j) == raw(u, j);
        assert !PageSize(raw(u, j));
      }
    }
  }

  /** Filling the empty slot i of the table at p with a frame from the pool. */
  ghost predicate Links(raw: Raw, raw': Raw, free: set<nat>, p: seq<nat>, i: nat, f: nat, user: bool) {
    && |p| < 3 && i < SLOTS && f in free
    && TableOf(raw, p).Some?
    && var t := TableOf(raw, p).value;
    && RawAgreeExcept(raw, raw', t, i)
    && Decode(raw(t, i)) == None
    && Decode(raw'(t, i)) == Some(Slot(f, Rights(true, user, false)))
    && !PageSize(raw'(t, i))
  }

  lemma LinkGrafts(raw: Raw, raw': Raw, free: set<nat>, all: set<nat>, p: seq<nat>, i: nat, f: nat, user: bool)
    requires Shape(raw, free, all) && Links(raw, raw', free, p, i, f, user)
    ensures Grafts(View(raw), View(raw'), ROOT, 4, p, i, Slot(f, Rights(true, user, false)))
  {
    ZeroDecodes();
    forall q: seq<nat> | |q| < 4
      ensures TableOf(raw, q) != Some(f)
    {
      if TrailTo(raw, q).Some? { assert TableOk(raw, free, all, q); }
    }
  }

  /** A new table appears where it was missing; no other trail changes. */
  lemma LinkTrail(raw: Raw, raw': Raw, free: set<nat>, all: set<nat>, p: seq<nat>, i: nat, f: nat, user: bool, q: seq<nat>)
    requires Shape(raw, free, all) && Links(raw, raw', free, p, i, f, user) && |q| <= 4
    ensures TrailTo(raw', q) ==
            if q == p + [i] then Some(TrailTo(raw, p).value + [Slot(f, Rights(true, user, false))]) else TrailTo(raw, q)
  {
    LinkGrafts(raw, raw', free, all, p, i, f, user);
    Graft(View(raw), View(raw'), ROOT, 4, p, i, Slot(f, Rights(true, user, false)), q);
  }

  lemma LinkTableOk(raw: Raw, raw': Raw, free: set<nat>, all: set<nat>, p: seq<nat>, i: nat, f: nat, user: bool, q: seq<nat>)
    requires Shape(raw, free, all) && Links(raw, raw', free, p, i, f, user)
    requires |q| < 4 && TrailTo(raw', q).Some?
    ensures TableOk(raw', free - {f}, all, q)
  {
    LinkTrail(raw, raw', free, all, p, i, f, user, q);
    if q == p + [i] {
      ZeroDecodes();
      assert TableOf(raw', q) == Some(f);
      assert TableOf(raw, p).value != f by { assert TableOk(raw, free, all, p); }
    } else {
      assert TableOk(raw, free, all, q);
      NoPageSize(raw, raw', TableOf(raw, p).value, i, TableOf(raw, q).value);
    }
  }

  lemma LinkShape(raw: Raw, raw': Raw, free: set<nat>, all: set<nat>, p: seq<nat>, i: nat, f: nat, user: bool)
    requires Shape(raw, free, all) && Links(raw, raw', free, p, i, f, user)
    ensures Shape(raw', free - {f}, all)
  {
    assert Separated(View(raw'), ROOT, 4) by {
      LinkGrafts(raw, raw', free, all, p, i, f, user);
      GraftSeparated(View(raw), View(raw'), ROOT, 4, p, i, Slot(f, Rights(true, user, false)));
    }
    assert TableOf(raw, p).value !in free by { assert TableOk(raw, free, all, p); }
    forall q: seq<nat> | |q| < 4 && TrailTo(raw', q).Some?
      ensures TableOk(raw', free - {f}, all, q)
    {
      LinkTableOk(raw, raw', free, all, p, i, f, user, q);
    }
  }

  /** Writing a last-level entry. */
  ghost predicate WritesLeaf(raw: Raw, raw': Raw, p: seq<nat>, i: nat) {
    && |p| == 3 && i < SLOTS && TableOf(raw, p).Some?
    && RawAgreeExcept(raw, raw', TableOf(raw, p).value, i)
    && !PageSize(raw'(TableOf(raw, p).value, i))
  }

  lemma LeafTrail(raw: Raw, raw': Raw, free: set<nat>, all: set<nat>, p: seq<nat>, i: nat, q: seq<nat>)
    requires Shape(raw, free, all) && WritesLeaf(raw, raw', p, i) && |q| <= 4
    ensures TrailTo(raw', q) ==
            if q == p + [i] then
              (match Decode(raw'(TableOf(raw, p).value, i))
               case None => None
               case Some(s) => Some(TrailTo(raw, p).value + [s]))
            else TrailTo(raw, q)
  {
    if q == p + [i] {
      TrailWritten(View(raw), View(raw'), ROOT, 4, p, i);
    } else {
      assert !(p + [i] <= q);
      TrailUnaffected(View(raw), View(raw'), ROOT, 4, p, i, q);
    }
  }

  lemma LeafTableOk(raw: Raw, raw': Raw, free: set<nat>, all: set<nat>, p: seq<nat>, i: nat, q: seq<nat>)
    requires Shape(raw, free, all) && WritesLeaf(raw, raw', p, i)
    requires |q| < 4 && TrailTo(raw', q).Some?
    ensures TableOk(raw', free, all, q)
  {
    LeafTrail(raw, raw', free, all, p, i, q);
    assert TableOk(raw, free, all, q);
    NoPageSize(raw, raw', TableOf(raw, p).value, i, TableOf(raw, q).value);
  }

  lemma LeafShape(raw: Raw, raw': Raw, free: set<nat>, all: set<nat>, p: seq<nat>, i: nat)
    requires Shape(raw, free, all) && WritesLeaf(raw, raw', p, i)
    ensures Shape(raw', free, all)
  {
    assert Separated(View(raw'), ROOT, 4) by {
      LeafSeparated(View(raw), View(raw'), ROOT, 4, p, i);
    }
    assert TableOf(raw, p).value !in free by { assert TableOk(raw, free, all, p); }
    forall q: seq<nat> | |q| < 4 && TrailTo(raw', q).Some?
      ensures TableOk(raw', free, all, q)
    {
      LeafTableOk(raw, raw', free, all, p, i, q);
    }
  }

  // ------------------------------------------------- one mapping as a whole

  /** The table at path q0 exists now: as before if it did, and otherwise with a
      writable entry carrying the requested user bit.  No other trail changed. */
  ghost predicate Extended(raw: Raw, raw': Raw, q0: seq<nat>, user: bool)
    requires q0 != []
  {
    && TrailTo(raw', q0).Some?
    && (if TrailTo(raw, q0).Some? then TrailTo(raw', q0) == TrailTo(raw, q0)
        else TrailTo(raw', q0).value[|q0| - 1].rights == Rights(true, user, false))
    && OthersSame(raw, raw', q0)
  }

  ghost predicate OthersSame(raw: Raw, raw': Raw, q0: seq<nat>) {
    forall q | |q| <= 4 && q != q0 :: TrailTo(raw', q) == TrailTo(raw, q)
  }

  /** No page is translated differently. */
  ghost predicate PagesSame(raw: Raw, raw': Raw) {
    forall q | |q| == 4 :: TrailTo(raw', q) == TrailTo(raw, q)
  }

  lemma ExtendedPages(raw: Raw, raw': Raw, p: seq<nat>, j: nat, user: bool)
    requires |p| == 4 && 1 <= j <= 3 && Extended(raw, raw', p[..j], user) == true
    ensures PagesSame(raw, raw') == true
    ensures forall k | 1 <= k <= 3 && k != j :: TrailTo(raw', p[..k]) == TrailTo(raw, p[..k])
  {
    forall q | |q| <= 4 && |q| != j
      ensures TrailTo(raw', q) == TrailTo(raw, q)
    {
      assert q != p[..j];
    }
    forall k | 1 <= k <= 3 && k != j
      ensures TrailTo(raw', p[..k]) == TrailTo(raw, p[..k])
    {
      assert |p[..k]| == k;
    }
  }

  lemma PagesSameTwice(raw: Raw, raw1: Raw, raw': Raw)
    requires PagesSame(raw, raw1) == true && PagesSame(raw1, raw') == true
    ensures PagesSame(raw, raw') == true
  {
  }

  /** Tables that have to be made before p can be mapped. */
  function Missing(raw: Raw, p: seq<nat>): nat
    requires |p| == 4
  {
    Lacks(raw, p[..1]) + Lacks(raw, p[..2]) + Lacks(raw, p[..3])
  }

  function Lacks(raw: Raw, q: seq<nat>): nat { if TrailTo(raw, q).Some? then 0 else 1 }

  lemma {:induction false} TrailPrefix(raw: Raw, p: seq<nat>, n: nat)
    requires n <= |p| && TrailTo(raw, p).Some?
    ensures TrailTo(raw, p[..n]) == Some(TrailTo(raw, p).value[..n])
  {
    if n < |p| {
      var q := p[..|p| - 1];
      TrailPrefix(raw, q, n);
      assert q[..n] == p[..n];
      var t := TrailTo(raw, p).value;
      assert TrailTo(raw, q).value == t[..|p| - 1];
      assert t[..|p| - 1][..n] == t[..n];
    } else {
      assert p[..n] == p;
      assert TrailTo(raw, p).value[..n] == TrailTo(raw, p).value;
    }
  }

  /** The rights of the entry that leads to the table at p[..j] once it is in place. */
  ghost function RightsOn(raw: Raw, p: seq<nat>, j: nat, user: bool): Rights
    requires 1 <= j <= |p|
  {
    if TrailTo(raw, p[..j]).Some? then TrailTo(raw, p[..j]).value[j - 1].rights else Rights(true, user, false)
  }

  lemma ExtendedTrail(raw: Raw, raw': Raw, q0: seq<nat>, user: bool, q: seq<nat>)
    requires q0 != [] && Extended(raw, raw', q0, user) && |q| <= 4
    ensures q != q0 ==> TrailTo(raw', q) == TrailTo(raw, q)
    ensures TrailTo(raw', q0).Some?
    ensures TrailTo(raw', q0).value[|q0| - 1].rights ==
            if TrailTo(raw, q0).Some? then TrailTo(raw, q0).value[|q0| - 1].rights else Rights(true, user, false)
  {
  }

  /** The slots of the three tables survive the later steps of map_page. */
  lemma LevelKept(raw: Raw, raw1: Raw, raw2: Raw, raw3: Raw, a: seq<nat>, b: seq<nat>, c: seq<nat>, user: bool, q: seq<nat>)
    requires |a| == 1 && |b| == 2 && |c| == 3 && (q == a || q == b || q == c)
    requires Extended(raw, raw1, a, user) == true && Extended(raw1, raw2, b, user) == true
    requires Extended(raw2, raw3, c, user) == true
    ensures TrailTo(raw3, q).Some?
    ensures TrailTo(raw3, q).value[|q| - 1].rights ==
            if TrailTo(raw, q).Some? then TrailTo(raw, q).value[|q| - 1].rights else Rights(true, user, false)
  {
    ExtendedTrail(raw, raw1, a, user, q);
    ExtendedTrail(raw1, raw2, b, user, q);
    ExtendedTrail(raw2, raw3, c, user, q);
  }

  lemma LevelRights(raw: Raw, raw1: Raw, raw2: Raw, raw3: Raw, p: seq<nat>, user: bool, j: nat)
    requires |p| == 4 && 1 <= j <= 3
    requires Extended(raw, raw1, p[..1], user) == true && Extended(raw1, raw2, p[..2], user) == true
    requires Extended(raw2, raw3, p[..3], user) == true
    ensures TrailTo(raw3, p[..3]).Some?
    ensures TrailTo(raw3, p[..3]).value[j - 1].rights == RightsOn(raw, p, j, user)
  {
    LevelKept(raw, raw1, raw2, raw3, p[..1], p[..2], p[..3], user, p[..3]);
    LevelKept(raw, raw1, raw2, raw3, p[..1], p[..2], p[..3], user, p[..j]);
    assert p[..3][..j] == p[..j];
    TrailPrefix(raw3, p[..3], j);
  }

  lemma TableRights(raw: Raw, free: set<nat>, all: set<nat>, p: seq<nat>, j: nat, user: bool)
    requires Shape(raw, free, all) && |p| == 4 && 1 <= j <= 3
    ensures RightsOn(raw, p, j, user).writable && !RightsOn(raw, p, j, user).large
  {
    if TrailTo(raw, p[..j]).Some? { assert TableOk(raw, free, all, p[..j]); }
  }

  lemma UserExactly(raw: Raw, p: seq<nat>, user: bool)
    requires |p| == 4
    ensures user && UserTables(raw, p) <==>
            user && RightsOn(raw, p, 1, user).user && RightsOn(raw, p, 2, user).user && RightsOn(raw, p, 3, user).user
  {
    if user && !UserTables(raw, p) {
      var j :| 1 <= j <= 3 && TrailTo(raw, p[..j]).Some? && !TrailTo(raw, p[..j]).value[j - 1].rights.user;
      assert !RightsOn(raw, p, j, user).user;
      assert j == 1 || j == 2 || j == 3;
    }
  }

  /** The tables above the last one are in place. */
  ghost predicate ThreeSteps(raw: Raw, raw1: Raw, raw2: Raw, raw3: Raw, p: seq<nat>, user: bool) {
    && |p| == 4
    && Extended(raw, raw1, p[..1], user) && Extended(raw1, raw2, p[..2], user) && Extended(raw2, raw3, p[..3], user)
    && PagesSame(raw, raw3)
  }

  /** The last entry has been stored. */
  ghost predicate LeafStep(raw: Raw, raw': Raw, p: seq<nat>, slot: Slot<Rights>) {
    && |p| == 4 && TrailTo(raw, p[..3]).Some?
    && TrailTo(raw', p) == Some(TrailTo(raw, p[..3]).value + [slot])
    && OthersSame(raw, raw', p)
  }

  /** What map_page does to the page it maps: it gets the frame and the writable
      bit asked for, and the user bit exactly if the tables already on the way
      allow it. */
  lemma MappedPage(raw: Raw, raw1: Raw, raw2: Raw, raw3: Raw, raw4: Raw, free: set<nat>, all: set<nat>,
                   p: seq<nat>, slot: Slot<Rights>)
    requires Shape(raw, free, all)
    requires ThreeSteps(raw, raw1, raw2, raw3, p, slot.rights.user) == true && LeafStep(raw3, raw4, p, slot) == true
    ensures Translate(raw4, p) ==
            Some(Translation(slot.frame, slot.rights.writable, slot.rights.user && UserTables(raw, p)))
  {
    var user := slot.rights.user;
    var t := TrailTo(raw3, p[..3]).value;
    assert t[0].rights == RightsOn(raw, p, 1, user) by { LevelRights(raw, raw1, raw2, raw3, p, user, 1); }
    assert t[1].rights == RightsOn(raw, p, 2, user) by { LevelRights(raw, raw1, raw2, raw3, p, user, 2); }
    assert t[2].rights == RightsOn(raw, p, 3, user) by { LevelRights(raw, raw1, raw2, raw3, p, user, 3); }
    assert t[0].rights.writable && !t[0].rights.large by { TableRights(raw, free, all, p, 1, user); }
    assert t[1].rights.writable && !t[1].rights.large by { TableRights(raw, free, all, p, 2, user); }
    assert t[2].rights.writable && !t[2].rights.large by { TableRights(raw, free, all, p, 3, user); }
    UserExactly(raw, p, user);
  }

  lemma MapResult(raw: Raw, raw1: Raw, raw2: Raw, raw3: Raw, raw4: Raw, free: set<nat>, all: set<nat>,
                  p: seq<nat>, slot: Slot<Rights>)
    requires Shape(raw, free, all)
    requires ThreeSteps(raw, raw1, raw2, raw3, p, slot.rights.user) == true && LeafStep(raw3, raw4, p, slot) == true
    ensures Result(raw, raw4, p, slot.frame, slot.rights.writable, slot.rights.user) == true
  {
    MappedPage(raw, raw1, raw2, raw3, raw4, free, all, p, slot);
    OtherPages(raw, raw3, raw4, p);
    forall q | 1 <= |q| <= 3
      ensures TableAfter(raw, raw4, p, slot.rights.user, q)
    {
      MadeTable(raw, raw1, raw2, raw3, raw4, p, slot, q);
    }
  }

  lemma OtherPages(raw: Raw, raw3: Raw, raw4: Raw, p: seq<nat>)
    requires PagesSame(raw, raw3) == true && OthersSame(raw3, raw4, p) == true
    ensures OthersTranslateSame(raw, raw4, p) == true
  {
    forall q | |q| == 4 && q != p
      ensures Translate(raw4, q) == Translate(raw, q)
    {
      OtherPage(raw, raw3, raw4, p, q);
    }
  }

  lemma OtherPage(raw: Raw, raw3: Raw, raw4: Raw, p: seq<nat>, q: seq<nat>)
    requires PagesSame(raw, raw3) && OthersSame(raw3, raw4, p) && |q| == 4 && q != p
    ensures Translate(raw4, q) == Translate(raw, q)
  {
    assert TrailTo(raw4, q) == TrailTo(raw3, q);
  }

  lemma ExtendedTable(raw: Raw, raw': Raw, q0: seq<nat>, user: bool, q: seq<nat>)
    requires 1 <= |q| <= 3 && 1 <= |q0| <= 3 && Extended(raw, raw', q0, user)
    ensures TableUser(raw', q) == if q == q0 && TableUser(raw, q) == None then Some(user) else TableUser(raw, q)
  {
  }

  lemma MadeTable(raw: Raw, raw1: Raw, raw2: Raw, raw3: Raw, raw4: Raw, p: seq<nat>, slot: Slot<Rights>, q: seq<nat>)
    requires ThreeSteps(raw, raw1, raw2, raw3, p, slot.rights.user) && LeafStep(raw3, raw4, p, slot) && 1 <= |q| <= 3
    ensures TableAfter(raw, raw4, p, slot.rights.user, q)
  {
    ExtendedTable(raw, raw1, p[..1], slot.rights.user, q);
    ExtendedTable(raw1, raw2, p[..2], slot.rights.user, q);
    ExtendedTable(raw2, raw3, p[..3], slot.rights.user, q);
    assert TrailTo(raw4, q) == TrailTo(raw3, q);
  }

  /** Two addresses share a translation slot exactly when bits 47:12 agree. */
  lemma SamePathIff(v: nat, w: nat)
    ensures PathOf(v) == PathOf(w) <==> v / PAGE % 0x10_0000_0000 == w / PAGE % 0x10_0000_0000
  {
    var p, q := PathOf(v), PathOf(w);
    PathNumber(v);
    PathNumber(w);
    SameDigit((p[0] * SLOTS + p[1]) * SLOTS + p[2], p[3], (q[0] * SLOTS + q[1]) * SLOTS + q[2], q[3]);
    SameDigit(p[0] * SLOTS + p[1], p[2], q[0] * SLOTS + q[1], q[2]);
    SameDigit(p[0], p[1], q[0], q[1]);
  }

  lemma SameDigit(x: nat, a: nat, y: nat, b: nat)
    requires a < SLOTS && b < SLOTS
    ensures x * SLOTS + a == y * SLOTS + b <==> x == y && a == b
  {}

  lemma PathNumber(v: nat)
    ensures var p := PathOf(v);
      v / PAGE % 0x10_0000_0000 == ((p[0] * SLOTS + p[1]) * SLOTS + p[2]) * SLOTS + p[3]
  {
    var n := v / PAGE;
    assert v / 0x20_0000 == n / SLOTS by { DivDiv(v, PAGE, SLOTS); }
    var n2 := n / SLOTS;
    assert v / 0x4000_0000 == n2 / SLOTS by { DivDiv(v, 0x20_0000, SLOTS); }
    var n3 := n2 / SLOTS;
    assert v / 0x80_0000_0000 == n3 / SLOTS by { DivDiv(v, 0x4000_0000, SLOTS); }
  }

  // -------------------------------------------------------------- the class

  type Table = s: seq<nat> | |s| == SLOTS witness seq(SLOTS, _ => 0)
  type Ram = s: seq<nat> | |s| == SLOTS * FRAMES witness seq(SLOTS * FRAMES, _ => 0)

  function WordAt(words: Ram, frame: nat, i: nat): nat
    requires frame < FRAMES && i < SLOTS
  {
    words[SLOTS * frame + i]
  }

  function RawOf(pml4: Table, words: Ram): Raw {
    (t: int, i: nat) =>
      if i >= SLOTS then 0
      else if t == ROOT then pml4[i]
      else if 0 <= t < FRAMES then WordAt(words, t, i)
      else 0
  }

  lemma StoreRoot(pml4: Table, words: Ram, i: nat, e: nat)
    requires i < SLOTS
    ensures RawAgreeExcept(RawOf(pml4, words), RawOf(pml4[i := e], words), ROOT, i)
    ensures RawOf(pml4[i := e], words)(ROOT, i) == e
  {
  }

  lemma StoreFrame(pml4: Table, words: Ram, t: nat, i: nat, e: nat)
    requires t < FRAMES && i < SLOTS
    ensures RawAgreeExcept(RawOf(pml4, words), RawOf(pml4, words[SLOTS * t + i := e]), t, i)
    ensures RawOf(pml4, words[SLOTS * t + i := e])(t, i) == e
  {
  }

  class PageTables {
    const pml4: array<nat>
    const ram: array<nat>
    const pmm: PhysicalMemoryManager
    /** The frames the allocator could hand out at the start. */
    ghost const all: set<nat>

    ghost predicate Sound()
      reads this, pml4, ram, pmm, pmm.bitmap
    {
      && pmm.Valid()
      && pml4.Length == SLOTS && ram.Length == SLOTS * FRAMES
      && pml4 != ram && pmm.bitmap != ram && pmm.bitmap != pml4
      && (forall f | f in all :: f < FRAMES)
    }

    ghost function Tables(): Raw
      reads this, pml4, ram, pmm, pmm.bitmap
      requires Sound()
    {
      RawOf(pml4[..], ram[..])
    }

    ghost function Free(): set<nat>
      reads this, pmm, pmm.bitmap
    {
      FramesOf(pmm.State().free)
    }

    ghost predicate Valid()
      reads this, pml4, ram, pmm, pmm.bitmap
    {
      Sound() && Shape(Tables(), Free(), all) == true
    }

    /** The zeroed statics over memory whose free frames are zero-filled. */
    constructor (ram: array<nat>, pmm: PhysicalMemoryManager)
      requires pmm.Valid() && ram.Length == SLOTS * FRAMES && pmm.bitmap != ram
      requires forall f, i: nat | f in FramesOf(pmm.State().free) && i < SLOTS :: WordAt(ram[..], f, i) == 0
      ensures Valid() && this.ram == ram && this.pmm == pmm && fresh(pml4)
      ensures all == FramesOf(pmm.State().free)
      ensures NothingMapped(Tables())
    {
      pml4 := new nat[SLOTS](_ => 0);
      this.ram, this.pmm := ram, pmm;
      all := FramesOf(pmm.State().free);
      new;
      EmptyShape(Tables(), Free());
    }

    /** One entry of a table, and a store to it: through the static for the root,
        through the physical address otherwise. */
    method Load(table: int, i: nat) returns (e: nat)
      requires Sound() && i < SLOTS && (table == ROOT || 0 <= table < FRAMES)
      ensures e == Tables()(table, i)
    {
      if table == ROOT { e := pml4[i]; } else { e := ram[table * PAGE / 8 + i]; }
    }

    method Store(table: int, i: nat, e: nat)
      requires Sound() && i < SLOTS && (table == ROOT || 0 <= table < FRAMES)
      modifies pml4, ram
      ensures Sound()
      ensures RawAgreeExcept(old(Tables()), Tables(), table, i)
      ensures Tables()(table, i) == e
    {
      ghost var top: Table, words: Ram := pml4[..], ram[..];
      if table == ROOT {
        StoreRoot(top, words, i, e);
        pml4[i] := e;
        assert pml4[..] == top[i := e] && ram[..] == words;
      } else {
        assert table * PAGE / 8 == SLOTS * table && table <= FRAMES - 1;
        StoreFrame(top, words, table, i, e);
        ram[table * PAGE / 8 + i] := e;
        assert ram[..] == words[SLOTS * table + i := e] && pml4[..] == top;
      }
    }

    /** One level of map_page: the entry is followed, after a new frame has been
        entered there if it was not present; ok is false where the source panics
        because the allocator is empty. */
    method Descend(ghost p: seq<nat>, table: int, i: nat, user: bool) returns (ok: bool, next: int)
      requires Valid() && |p| < 3 && i < SLOTS && TableOf(Tables(), p) == Some(table)
      modifies pml4, ram, pmm`freePages, pmm.bitmap
      ensures Valid()
      ensures ok <==> |old(Free())| >= Lacks(old(Tables()), p + [i])
      ensures ok ==> Extended(old(Tables()), Tables(), p + [i], user) == true
      ensures ok ==> TableOf(Tables(), p + [i]) == Some(next)
      ensures !ok ==> PagesSame(old(Tables()), Tables()) == true
      ensures |Free()| == if ok then |old(Free())| - Lacks(old(Tables()), p + [i]) else 0
    {
      ghost var raw, free := Tables(), Free();
      TableInRange(raw, free, all, p);
      TrailExtend(View(raw), ROOT, p, i);
      var e := Load(table, i);
      PresentBit(e);
      if IsPresent(e) {
        AddressField(e);
        FrameAddress(FrameNumber(e));
        return true, PhysicalAddress(e) / PAGE;
      }
      ok, next := Create(p, table, i, e, user);
    }

    /** The frame for a new table, not yet linked anywhere. */
    method TakeFrame() returns (frame: Option<nat>)
      requires Valid()
      modifies pmm`freePages, pmm.bitmap
      ensures Sound() && Tables() == old(Tables())
      ensures frame == None <==> old(Free()) == {}
      ensures frame == None ==> Free() == {}
      ensures frame.Some? ==>
        var f := frame.value / PAGE;
        f in old(Free()) && f < FRAMES && frame.value == f * PAGE && Free() == old(Free()) - {f}
    {
      ghost var pool := pmm.State();
      AllocFrame(pool);
      frame := pmm.AllocPage();
      if frame.Some? {
        FrameAddress(FrameOf(Min(pool.free)));
      }
    }

    method Create(ghost p: seq<nat>, table: int, i: nat, e: nat, user: bool) returns (ok: bool, next: int)
      requires Valid() && |p| < 3 && i < SLOTS && TableOf(Tables(), p) == Some(table)
      requires table == ROOT || 0 <= table < FRAMES
      requires e == Tables()(table, i) && Decode(e) == None
      modifies pml4, ram, pmm`freePages, pmm.bitmap
      ensures Valid()
      ensures ok <==> old(Free()) != {}
      ensures ok ==> Extended(old(Tables()), Tables(), p + [i], user) == true
      ensures ok ==> TableOf(Tables(), p + [i]) == Some(next)
      ensures !ok ==> PagesSame(old(Tables()), Tables()) == true
      ensures |Free()| == if ok then |old(Free())| - 1 else 0
    {
      ghost var raw, free := Tables(), Free();
      var frame := TakeFrame();
      if frame == None {
        return false, 0;
      }
      ghost var f := frame.value / PAGE;
      Store(table, i, Compose(e, frame.value, true, user));
      CreateLinks(raw, Tables(), free, all, p, i, f, user, e, frame.value);
      LinkShape(raw, Tables(), free, all, p, i, f, user);
      LinkExtended(raw, Tables(), free, all, p, i, f, user);
      return true, frame.value / PAGE;
    }

    /** The last store of map_page. */
    method SetLeaf(ghost p: seq<nat>, table: int, i: nat, phys: nat, writable: bool, user: bool)
      requires Valid() && |p| == 3 && i < SLOTS && TableOf(Tables(), p) == Some(table)
      modifies pml4, ram
      ensures Valid()
      ensures LeafStep(old(Tables()), Tables(), p + [i],
                       Slot(FrameNumber(phys), Rights(writable, user, false))) == true
    {
      ghost var raw, free := Tables(), Free();
      TableInRange(raw, free, all, p);
      var e := Load(table, i);
      Store(table, i, Compose(e, PhysicalAddress(phys), writable, user));
      LeafStored(raw, Tables(), free, all, p, i, e, phys, writable, user);
    }

    /** map_page: maps virt to the frame of phys; ok is false where the source panics. */
    method MapPage(virt: nat, phys: nat, flags: nat) returns (ok: bool)
      requires Valid()
      modifies pml4, ram, pmm`freePages, pmm.bitmap
      ensures Valid()
      ensures ok <==> |old(Free())| >= Missing(old(Tables()), PathOf(virt))
      ensures |Free()| == if ok then |old(Free())| - Missing(old(Tables()), PathOf(virt)) else 0
      ensures ok ==> Maps(old(Tables()), Tables(), RequestOf(virt, phys, flags)) == true
      ensures ok ==> Translate(Tables(), PathOf(virt)) ==
                     Some(Translation(phys / 4096 % 0x100_0000_0000, flags / 2 % 2 == 1,
                                      flags / 4 % 2 == 1 && old(UserTables(Tables(), PathOf(virt)))))
      ensures !ok ==> PagesSame(old(Tables()), Tables()) == true
    {
      var pml4Idx, pdptIdx := And(Shr(virt, 39), 0x1FF), And(Shr(virt, 30), 0x1FF);
      var pdIdx, ptIdx := And(Shr(virt, 21), 0x1FF), And(Shr(virt, 12), 0x1FF);
      Indices(virt);
      FlagBits(flags);
      RequestFields(virt, phys, flags);
      ok := MapAt(PathOf(virt), pml4Idx, pdptIdx, pdIdx, ptIdx, phys, And(flags, 2) != 0, And(flags, 4) != 0);
    }

    /** map_page once the address and the flags have been taken apart. */
    method MapAt(ghost p: seq<nat>, pml4Idx: nat, pdptIdx: nat, pdIdx: nat, ptIdx: nat,
                 phys: nat, writable: bool, user: bool) returns (ok: bool)
      requires Valid() && |p| == 4 && p[0] == pml4Idx && p[1] == pdptIdx && p[2] == pdIdx && p[3] == ptIdx
      requires pml4Idx < SLOTS && pdptIdx < SLOTS && pdIdx < SLOTS && ptIdx < SLOTS
      modifies pml4, ram, pmm`freePages, pmm.bitmap
      ensures Valid()
      ensures ok <==> |old(Free())| >= Missing(old(Tables()), p)
      ensures |Free()| == if ok then |old(Free())| - Missing(old(Tables()), p) else 0
      ensures ok ==> Result(old(Tables()), Tables(), p, FrameNumber(phys), writable, user) == true
      ensures !ok ==> PagesSame(old(Tables()), Tables()) == true
    {
      ghost var raw, free, above := Tables(), Free(), p[..3];
      assert p == above + [ptIdx];
      var table;
      ghost var raw1, raw2;
      ok, table, raw1, raw2 := ReachTable(p, pml4Idx, pdptIdx, pdIdx, user);
      if ok {
        Finish(raw, raw1, raw2, free, above, table, ptIdx, phys, writable, user);
      }
    }

    /** The last level of map_page, the tables on the way being in place. */
    method Finish(ghost raw: Raw, ghost raw1: Raw, ghost raw2: Raw, ghost free: set<nat>, ghost p: seq<nat>,
                  table: int, i: nat, phys: nat, writable: bool, user: bool)
      requires Valid() && i < SLOTS && |p| == 3 && TableOf(Tables(), p) == Some(table)
      requires Shape(raw, free, all) && ThreeSteps(raw, raw1, raw2, Tables(), p + [i], user) == true
      modifies pml4, ram
      ensures Valid()
      ensures Result(raw, Tables(), p + [i], FrameNumber(phys), writable, user) == true
    {
      ghost var raw3 := Tables();
      SetLeaf(p, table, i, phys, writable, user);
      MapResult(raw, raw1, raw2, raw3, Tables(), free, all, p + [i], Slot(FrameNumber(phys), Rights(writable, user, false)));
    }

    /** The three levels of map_page above the last table. */
    method ReachTable(ghost p: seq<nat>, pml4Idx: nat, pdptIdx: nat, pdIdx: nat, user: bool)
      returns (ok: bool, table: int, ghost raw1: Raw, ghost raw2: Raw)
      requires Valid() && |p| == 4 && p[0] == pml4Idx && p[1] == pdptIdx && p[2] == pdIdx
      requires pml4Idx < SLOTS && pdptIdx < SLOTS && pdIdx < SLOTS
      modifies pml4, ram, pmm`freePages, pmm.bitmap
      ensures Valid()
      ensures ok <==> |old(Free())| >= Missing(old(Tables()), p)
      ensures |Free()| == if ok then |old(Free())| - Missing(old(Tables()), p) else 0
      ensures ok ==> ThreeSteps(old(Tables()), raw1, raw2, Tables(), p, user) == true
      ensures ok ==> TableOf(Tables(), p[..3]) == Some(table)
      ensures !ok ==> PagesSame(old(Tables()), Tables()) == true
    {
      ghost var raw := Tables();
      assert p[..3] == p[..2] + [pdIdx];
      ok, table, raw1 := ReachSecond(p, pml4Idx, pdptIdx, user);
      raw2 := Tables();
      if ok {
        ok, table := Descend(p[..2], table, pdIdx, user);
        if ok { ExtendedPages(raw2, Tables(), p, 3, user); }
        PagesSameTwice(raw, raw2, Tables());
      }
    }

    /** The first two of them. */
    method ReachSecond(ghost p: seq<nat>, pml4Idx: nat, pdptIdx: nat, user: bool)
      returns (ok: bool, table: int, ghost raw1: Raw)
      requires Valid() && |p| == 4 && p[0] == pml4Idx && p[1] == pdptIdx
      requires pml4Idx < SLOTS && pdptIdx < SLOTS
      modifies pml4, ram, pmm`freePages, pmm.bitmap
      ensures Valid()
      ensures ok <==> |old(Free())| >= Lacks(old(Tables()), p[..1]) + Lacks(old(Tables()), p[..2])
      ensures |Free()| == if ok then |old(Free())| - Lacks(old(Tables()), p[..1]) - Lacks(old(Tables()), p[..2]) else 0
      ensures ok ==> Extended(old(Tables()), raw1, p[..1], user) == true && Extended(raw1, Tables(), p[..2], user) == true
      ensures ok ==> TableOf(Tables(), p[..2]) == Some(table) && TrailTo(Tables(), p[..3]) == old(TrailTo(Tables(), p[..3]))
      ensures PagesSame(old(Tables()), Tables()) == true
    {
      ghost var raw := Tables();
      assert p[..1] == [] + [pml4Idx] && p[..2] == p[..1] + [pdptIdx];
      ok, table := Descend([], ROOT, pml4Idx, user);
      raw1 := Tables();
      if ok {
        ExtendedPages(raw, raw1, p, 1, user);
        ok, table := Descend(p[..1], table, pdptIdx, user);
        if ok { ExtendedPages(raw1, Tables(), p, 2, user); }
        PagesSameTwice(raw, raw1, Tables());
      }
    }
  }

  lemma Indices(virt: nat)
    ensures PathOf(virt) ==
            [And(Shr(virt, 39), 0x1FF), And(Shr(virt, 30), 0x1FF), And(Shr(virt, 21), 0x1FF), And(Shr(virt, 12), 0x1FF)]
  {
    assert Pow2(9) == SLOTS && Pow2(12) == PAGE && Pow2(21) == 0x20_0000 && Pow2(30) == 0x4000_0000 by { Pow2Values(); }
    assert Pow2(39) == 0x80_0000_0000 by { Pow2Wide(); }
    FieldAt(virt, 39, 9, 0x1FF);
    FieldAt(virt, 30, 9, 0x1FF);
    FieldAt(virt, 21, 9, 0x1FF);
    FieldAt(virt, 12, 9, 0x1FF);
  }

  lemma FlagBits(flags: nat)
    ensures And(flags, 2) != 0 <==> Bit(flags, 1)
    ensures And(flags, 4) != 0 <==> Bit(flags, 2)
  {
    assert Pow2(1) == 2 && Pow2(2) == 4;
    TestBit(flags, 1);
    TestBit(flags, 2);
  }

  /** What the last store does to the tables. */
  lemma LeafStored(raw: Raw, raw': Raw, free: set<nat>, all: set<nat>, p: seq<nat>, i: nat, e: nat,
                   phys: nat, writable: bool, user: bool)
    requires Shape(raw, free, all) && |p| == 3 && i < SLOTS && TableOf(raw, p).Some?
    requires e == raw(TableOf(raw, p).value, i) && RawAgreeExcept(raw, raw', TableOf(raw, p).value, i)
    requires raw'(TableOf(raw, p).value, i) == Compose(e, PhysicalAddress(phys), writable, user)
    ensures Shape(raw', free, all)
    ensures LeafStep(raw, raw', p + [i], Slot(FrameNumber(phys), Rights(writable, user, false))) == true
  {
    assert TableOk(raw, free, all, p);
    assert !PageSize(e);
    ComposeDecodes(e, PhysicalAddress(phys), writable, user);
    MaskedFrame(phys);
    LeafShape(raw, raw', free, all, p, i);
    LeafOthers(raw, raw', free, all, p, i);
    assert (p + [i])[..3] == p;
  }

  lemma MaskedFrame(phys: nat)
    ensures FrameNumber(PhysicalAddress(phys)) == FrameNumber(phys)
  {
    AddressField(phys);
    FrameAddress(FrameNumber(phys));
  }

  lemma LeafOthers(raw: Raw, raw': Raw, free: set<nat>, all: set<nat>, p: seq<nat>, i: nat)
    requires Shape(raw, free, all) && WritesLeaf(raw, raw', p, i)
    requires Decode(raw'(TableOf(raw, p).value, i)).Some?
    ensures OthersSame(raw, raw', p + [i])
    ensures TrailTo(raw', p + [i]) == Some(TrailTo(raw, p).value + [Decode(raw'(TableOf(raw, p).value, i)).value])
  {
    forall q: seq<nat> | |q| <= 4 && q != p + [i]
      ensures TrailTo(raw', q) == TrailTo(raw, q)
    {
      LeafTrail(raw, raw', free, all, p, i, q);
    }
    LeafTrail(raw, raw', free, all, p, i, p + [i]);
  }

  lemma FrameAddress(f: nat)
    requires f < 0x100_0000_0000
    ensures f * PAGE / PAGE == f && FrameNumber(f * PAGE) == f
  {
  }

  lemma EmptyShape(raw: Raw, free: set<nat>)
    requires ROOT !in free && forall t, i: nat | i >= SLOTS || t == ROOT || t in free :: raw(t, i) == 0
    ensures Shape(raw, free, free) && NothingMapped(raw)
  {
    ZeroDecodes();
    EmptySeparated(View(raw), ROOT, 4);
    forall p: seq<nat> | p != []
      ensures TrailTo(raw, p) == None
    {
      assert TableAt(View(raw), ROOT, p) == None;
    }
    assert NoLargePages(raw, ROOT);
    assert TableOk(raw, free, free, []);
    assert WellShaped(raw, free, free);
  }

  lemma TableInRange(raw: Raw, free: set<nat>, all: set<nat>, p: seq<nat>)
    requires Shape(raw, free, all) && |p| < 4 && TableOf(raw, p).Some?
    requires forall f | f in all :: f < FRAMES
    ensures TableOf(raw, p).value == ROOT || 0 <= TableOf(raw, p).value < FRAMES
    ensures NoLargePages(raw, TableOf(raw, p).value)
  {
    assert TableOk(raw, free, all, p);
  }

  lemma CreateLinks(raw: Raw, raw': Raw, free: set<nat>, all: set<nat>, p: seq<nat>, i: nat, f: nat, user: bool, e: nat, addr: nat)
    requires Shape(raw, free, all) && |p| < 3 && i < SLOTS && TableOf(raw, p).Some?
    requires f in free && f < FRAMES && addr == f * PAGE
    requires e == raw(TableOf(raw, p).value, i) && Decode(e) == None
    requires RawAgreeExcept(raw, raw', TableOf(raw, p).value, i)
    requires raw'(TableOf(raw, p).value, i) == Compose(e, addr, true, user)
    ensures Links(raw, raw', free, p, i, f, user)
  {
    assert TableOk(raw, free, all, p);
    ComposeDecodes(e, addr, true, user);
    FrameAddress(f);
  }

  lemma LinkExtended(raw: Raw, raw': Raw, free: set<nat>, all: set<nat>, p: seq<nat>, i: nat, f: nat, user: bool)
    requires Shape(raw, free, all) && Links(raw, raw', free, p, i, f, user)
    ensures Extended(raw, raw', p + [i], user)
    ensures TableOf(raw', p + [i]) == Some(f)
  {
    TrailExtend(View(raw), ROOT, p, i);
    forall q: seq<nat> | |q| <= 4
      ensures q != p + [i] ==> TrailTo(raw', q) == TrailTo(raw, q)
      ensures q == p + [i] ==> TrailTo(raw', q) == Some(TrailTo(raw, p).value + [Slot(f, Rights(true, user, false))])
    {
      LinkTrail(raw, raw', free, all, p, i, f, user, q);
    }
  }
}
