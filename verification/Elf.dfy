/** elf_load of kernel/userspace/elf_loader.c: the memory image it leaves behind. */
module Elf {
  import opened Bits
  import opened Text

  /** A loadable segment as its program header describes it. */
  datatype Segment = Segment(offset: nat, vaddr: nat, filesz: nat, memsz: nat)

  // --------------------------------------------------------- virtual memory

  type Page = p: seq<Byte> | |p| == PAGE witness seq(PAGE, _ => 0)

  /** The mapped pages and their contents. */
  type Memory = map<nat, Page>

  function At(m: Memory, a: nat): Byte
    requires a / PAGE in m
  {
    m[a / PAGE][a % PAGE]
  }

  function Store(m: Memory, a: nat, b: Byte): Memory
    requires a / PAGE in m
  {
    m[a / PAGE := m[a / PAGE][a % PAGE := b]]
  }

  lemma StoreAt(m: Memory, a: nat, b: Byte, x: nat)
    requires a / PAGE in m && x / PAGE in m
    ensures At(Store(m, a, b), x) == if x == a then b else At(m, x)
  {
    if x / PAGE == a / PAGE && x != a {
      assert x % PAGE != a % PAGE;
    }
  }

  /** The n bytes from address a on are mapped. */
  ghost predicate Mapped(m: Memory, a: nat, n: nat) {
    forall x | a <= x < a + n :: x / PAGE in m
  }

  /** Storing bytes one after the other from address a on. */
  function Fill(m: Memory, a: nat, data: seq<Byte>): (r: Memory)
    requires Mapped(m, a, |data|)
    ensures r.Keys == m.Keys
  {
    if data == [] then m
    else
      var n := |data| - 1;
      Store(Fill(m, a, data[..n]), a + n, data[n])
  }

  /** Memory after the bytes data have been written from address a on. */
  ghost predicate Filled(m: Memory, m': Memory, a: nat, data: seq<Byte>) {
    m'.Keys == m.Keys && forall x: nat :: FilledAt(m, m', a, data, x)
  }

  ghost predicate FilledAt(m: Memory, m': Memory, a: nat, data: seq<Byte>, x: nat)
    requires m'.Keys == m.Keys
  {
    x / PAGE in m ==> At(m', x) == if a <= x < a + |data| then data[x - a] else At(m, x)
  }

  lemma FilledStep(m: Memory, m': Memory, a: nat, data: seq<Byte>, j: nat)
    requires j < |data| && (a + j) / PAGE in m && Filled(m, m', a, data[..j])
    ensures Filled(m, Store(m', a + j, data[j]), a, data[..j + 1])
  {
    var m'', done := Store(m', a + j, data[j]), data[..j + 1];
    forall x: nat
      ensures FilledAt(m, m'', a, done, x)
    {
      assert FilledAt(m, m', a, data[..j], x);
      if x / PAGE in m { StoreAt(m', a + j, data[j], x); }
    }
  }

  lemma FilledConcat(m: Memory, m1: Memory, m2: Memory, a: nat, x: seq<Byte>, y: seq<Byte>)
    requires Filled(m, m1, a, x) && Filled(m1, m2, a + |x|, y)
    ensures Filled(m, m2, a, x + y)
  {
    forall z: nat
      ensures FilledAt(m, m2, a, x + y, z)
    {
      assert FilledAt(m, m1, a, x, z);
      assert FilledAt(m1, m2, a + |x|, y, z);
    }
  }

  lemma {:induction false} FillFills(m: Memory, a: nat, data: seq<Byte>)
    requires Mapped(m, a, |data|)
    ensures Filled(m, Fill(m, a, data), a, data)
  {
    if data != [] {
      var n := |data| - 1;
      FillFills(m, a, data[..n]);
      FilledStep(m, Fill(m, a, data[..n]), a, data, n);
      assert data[..n + 1] == data;
    }
  }

  /** Mapping n pages from page lo on to the frames taken, taken + 1, ...: each
      comes with whatever its frame holds. */
  function MapPages(m: Memory, frames: nat -> Page, taken: nat, lo: nat, n: nat): Memory {
    if n == 0 then m else MapPages(m, frames, taken, lo, n - 1)[lo + n - 1 := frames(taken + n - 1)]
  }

  /** now is m with n pages from lo on mapped to frames in order. */
  ghost predicate HasPages(m: Memory, now: Memory, frames: nat -> Page, taken: nat, lo: nat, n: nat) {
    now == MapPages(m, frames, taken, lo, n)
  }

  lemma HasNext(m: Memory, now: Memory, frames: nat -> Page, taken: nat, lo: nat, n: nat)
    requires HasPages(m, now, frames, taken, lo, n) == true
    ensures HasPages(m, now[lo + n := frames(taken + n)], frames, taken, lo, n + 1) == true
  {
  }

  lemma {:induction false} MapPagesKeys(m: Memory, frames: nat -> Page, taken: nat, lo: nat, n: nat, p: nat)
    ensures p in MapPages(m, frames, taken, lo, n) <==> p in m || lo <= p < lo + n
    ensures p in MapPages(m, frames, taken, lo, n) ==>
      MapPages(m, frames, taken, lo, n)[p] == if lo <= p < lo + n then frames(taken + (p - lo)) else m[p]
  {
    if n > 0 { MapPagesKeys(m, frames, taken, lo, n - 1, p); }
  }

  // --------------------------------------------------------------- a segment

  /** The additions of the loader do not wrap, the file part fits the memory part
      and lies in the file. */
  predicate ValidSegment(elf: seq<Byte>, s: Segment) {
    && 0 < s.memsz && s.vaddr + s.memsz + 0xFFF < WORD
    && s.filesz <= s.memsz && s.offset + s.filesz <= |elf|
  }

  function FirstPage(s: Segment): nat { s.vaddr / PAGE }

  function PageCount(s: Segment): nat { (s.vaddr + s.memsz + 0xFFF) / PAGE - s.vaddr / PAGE }

  /** A page contains an address of the segment. */
  ghost predicate Meets(p: nat, s: Segment) {
    exists a :: s.vaddr <= a < s.vaddr + s.memsz && a / PAGE == p
  }

  /** The pages mapped for a segment are exactly those that meet it. */
  lemma MappedMeets(s: Segment, p: nat)
    requires s.memsz > 0
    ensures FirstPage(s) <= p < FirstPage(s) + PageCount(s) <==> Meets(p, s)
  {
    var last := s.vaddr + s.memsz - 1;
    assert (s.vaddr + s.memsz + 0xFFF) / PAGE == last / PAGE + 1;
    if FirstPage(s) <= p <= last / PAGE {
      var a := if p == FirstPage(s) then s.vaddr else p * PAGE;
      assert a / PAGE == p && s.vaddr <= a <= last;
    }
    if Meets(p, s) {
      var a :| s.vaddr <= a < s.vaddr + s.memsz && a / PAGE == p;
      DivMonotone(s.vaddr, a);
      DivMonotone(a, last);
    }
  }

  lemma DivMonotone(a: nat, b: nat)
    requires a <= b
    ensures a / PAGE <= b / PAGE
  {}

  function Zeros(n: nat): (r: seq<Byte>)
    ensures |r| == n
  {
    seq(n, _ => 0)
  }

  /** What a segment should look like in memory: its file bytes, then zeros. */
  function Image(elf: seq<Byte>, s: Segment): (r: seq<Byte>)
    requires ValidSegment(elf, s)
    ensures |r| == s.memsz
  {
    elf[s.offset..s.offset + s.filesz] + Zeros(s.memsz - s.filesz)
  }

  lemma SegmentMapped(m: Memory, frames: nat -> Page, taken: nat, elf: seq<Byte>, s: Segment)
    requires ValidSegment(elf, s)
    ensures Mapped(MapPages(m, frames, taken, FirstPage(s), PageCount(s)), s.vaddr, s.memsz)
  {
    forall x | s.vaddr <= x < s.vaddr + s.memsz
      ensures x / PAGE in MapPages(m, frames, taken, FirstPage(s), PageCount(s))
    {
      assert Meets(x / PAGE, s);
      MappedMeets(s, x / PAGE);
      MapPagesKeys(m, frames, taken, FirstPage(s), PageCount(s), x / PAGE);
    }
  }

  function LoadSegment(m: Memory, frames: nat -> Page, taken: nat, elf: seq<Byte>, s: Segment): Memory
    requires ValidSegment(elf, s)
  {
    SegmentMapped(m, frames, taken, elf, s);
    Fill(MapPages(m, frames, taken, FirstPage(s), PageCount(s)), s.vaddr, Image(elf, s))
  }

  ghost predicate InSegment(a: nat, s: Segment) { s.vaddr <= a < s.vaddr + s.memsz }

  /** Memory after loading one segment, at address a: the segment, the rest of its
      pages with what their frames held, and everything else as before. */
  ghost predicate AfterLoadAt(m: Memory, m': Memory, elf: seq<Byte>, s: Segment, held: nat -> Page, a: nat)
    requires ValidSegment(elf, s)
  {
    && (a / PAGE in m' <==> a / PAGE in m || Meets(a / PAGE, s))
    && (a / PAGE in m' ==>
          At(m', a) == if InSegment(a, s) then Image(elf, s)[a - s.vaddr]
                       else if Meets(a / PAGE, s) then held(a / PAGE)[a % PAGE]
                       else At(m, a))
  }

  ghost predicate AfterLoad(m: Memory, m': Memory, elf: seq<Byte>, s: Segment, held: nat -> Page) {
    ValidSegment(elf, s) && forall a: nat :: AfterLoadAt(m, m', elf, s, held, a)
  }

  /** The contents of the frames as seen from the pages of a segment. */
  function Held(frames: nat -> Page, taken: nat, s: Segment): nat -> Page {
    (p: nat) => if p < FirstPage(s) then frames(taken) else frames(taken + (p - FirstPage(s)))
  }

  lemma LoadedAt(m: Memory, m': Memory, frames: nat -> Page, taken: nat, elf: seq<Byte>, s: Segment, a: nat)
    requires ValidSegment(elf, s)
    requires Filled(MapPages(m, frames, taken, FirstPage(s), PageCount(s)), m', s.vaddr, Image(elf, s))
    ensures AfterLoadAt(m, m', elf, s, Held(frames, taken, s), a)
  {
    var mid := MapPages(m, frames, taken, FirstPage(s), PageCount(s));
    MappedMeets(s, a / PAGE);
    MapPagesKeys(m, frames, taken, FirstPage(s), PageCount(s), a / PAGE);
    assert FilledAt(mid, m', s.vaddr, Image(elf, s), a);
  }

  /** Mapping the pages and writing the image amounts to AfterLoad. */
  lemma FilledLoads(m: Memory, m': Memory, frames: nat -> Page, taken: nat, elf: seq<Byte>, s: Segment)
    requires ValidSegment(elf, s)
    requires Filled(MapPages(m, frames, taken, FirstPage(s), PageCount(s)), m', s.vaddr, Image(elf, s))
    ensures AfterLoad(m, m', elf, s, Held(frames, taken, s))
  {
    forall a: nat
      ensures AfterLoadAt(m, m', elf, s, Held(frames, taken, s), a)
    {
      LoadedAt(m, m', frames, taken, elf, s, a);
    }
  }

  lemma LoadSegmentLoads(m: Memory, frames: nat -> Page, taken: nat, elf: seq<Byte>, s: Segment)
    requires ValidSegment(elf, s)
    ensures AfterLoad(m, LoadSegment(m, frames, taken, elf, s), elf, s, Held(frames, taken, s))
  {
    SegmentMapped(m, frames, taken, elf, s);
    FillFills(MapPages(m, frames, taken, FirstPage(s), PageCount(s)), s.vaddr, Image(elf, s));
    FilledLoads(m, LoadSegment(m, frames, taken, elf, s), frames, taken, elf, s);
  }

  // ------------------------------------------------------------ all segments

  /** The memories between the segments of a load; held says what the frames of
      each segment's pages contained. */
  ghost predicate IsLoad(trace: seq<Memory>, elf: seq<Byte>, segs: seq<Segment>, held: seq<nat -> Page>) {
    && |trace| == |segs| + 1 && |held| == |segs|
    && forall i | 0 <= i < |segs| :: AfterLoad(trace[i], trace[i + 1], elf, segs[i], held[i]) == true
  }

  lemma LoadSnoc(trace: seq<Memory>, elf: seq<Byte>, segs: seq<Segment>, held: seq<nat -> Page>,
                 m: Memory, s: Segment, h: nat -> Page)
    requires IsLoad(trace, elf, segs, held) == true && AfterLoad(trace[|segs|], m, elf, s, h) == true
    ensures IsLoad(trace + [m], elf, segs + [s], held + [h]) == true
  {
    var trace', segs', held' := trace + [m], segs + [s], held + [h];
    forall i | 0 <= i < |segs'|
      ensures AfterLoad(trace'[i], trace'[i + 1], elf, segs'[i], held'[i]) == true
    {
      if i < |segs| { assert AfterLoad(trace[i], trace[i + 1], elf, segs[i], held[i]) == true; }
    }
  }

  /** Exactly the pages that meet some segment have been mapped. */
  lemma {:induction false} MappedExactly(trace: seq<Memory>, elf: seq<Byte>, segs: seq<Segment>, held: seq<nat -> Page>,
                                         n: nat, p: nat)
    requires IsLoad(trace, elf, segs, held) && n <= |segs|
    ensures p in trace[n] <==> p in trace[0] || exists i | 0 <= i < n :: Meets(p, segs[i])
  {
    if n > 0 {
      MappedExactly(trace, elf, segs, held, n - 1, p);
      assert AfterLoad(trace[n - 1], trace[n], elf, segs[n - 1], held[n - 1]);
      assert AfterLoadAt(trace[n - 1], trace[n], elf, segs[n - 1], held[n - 1], p * PAGE);
      assert p * PAGE / PAGE == p;
    }
  }

  /** The segment is in memory as its header describes it. */
  ghost predicate Loaded(m: Memory, elf: seq<Byte>, s: Segment)
    requires ValidSegment(elf, s)
  {
    forall a: nat | InSegment(a, s) :: a / PAGE in m && At(m, a) == Image(elf, s)[a - s.vaddr]
  }

  ghost predicate SharePage(s: Segment, t: Segment) {
    exists p :: Meets(p, s) && Meets(p, t)
  }

  lemma LoadedNow(m: Memory, m': Memory, elf: seq<Byte>, s: Segment, held: nat -> Page)
    requires AfterLoad(m, m', elf, s, held)
    ensures Loaded(m', elf, s)
  {
    forall a: nat | InSegment(a, s)
      ensures a / PAGE in m' && At(m', a) == Image(elf, s)[a - s.vaddr]
    {
      assert AfterLoadAt(m, m', elf, s, held, a);
      assert Meets(a / PAGE, s);
    }
  }

  /** Loading another segment leaves one alone that it shares no page with. */
  lemma LoadedStays(m: Memory, m': Memory, elf: seq<Byte>, s: Segment, t: Segment, held: nat -> Page)
    requires ValidSegment(elf, s) && Loaded(m, elf, s) && AfterLoad(m, m', elf, t, held) && !SharePage(s, t)
    ensures Loaded(m', elf, s)
  {
    forall a: nat | InSegment(a, s)
      ensures a / PAGE in m' && At(m', a) == Image(elf, s)[a - s.vaddr]
    {
      assert AfterLoadAt(m, m', elf, t, held, a);
      assert Meets(a / PAGE, s);
    }
  }

  /** A segment that shares no page with a later one is in memory at the end:
      file bytes, then zeros. */
  lemma {:induction false} ImageCorrect(trace: seq<Memory>, elf: seq<Byte>, segs: seq<Segment>, held: seq<nat -> Page>,
                                        i: nat, n: nat)
    requires IsLoad(trace, elf, segs, held) && i < n <= |segs|
    requires forall k | i < k < n :: !SharePage(segs[i], segs[k])
    ensures ValidSegment(elf, segs[i]) && Loaded(trace[n], elf, segs[i])
    decreases n
  {
    assert AfterLoad(trace[n - 1], trace[n], elf, segs[n - 1], held[n - 1]);
    if i == n - 1 {
      LoadedNow(trace[n - 1], trace[n], elf, segs[n - 1], held[n - 1]);
    } else {
      ImageCorrect(trace, elf, segs, held, i, n - 1);
      LoadedStays(trace[n - 1], trace[n], elf, segs[i], segs[n - 1], held[n - 1]);
    }
  }

  ghost predicate ValidSegments(elf: seq<Byte>, segs: seq<Segment>) {
    forall i | 0 <= i < |segs| :: ValidSegment(elf, segs[i])
  }

  // ---------------------------------------------------------- the whole image

  /** Segment k is the last of the first n whose pages cover address a. */
  ghost predicate Decides(segs: seq<Segment>, n: nat, a: nat, k: nat)
    requires n <= |segs|
  {
    k < n && Meets(a / PAGE, segs[k]) && forall j | k < j < n :: !Meets(a / PAGE, segs[j])
  }

  ghost predicate Untouched(segs: seq<Segment>, n: nat, a: nat)
    requires n <= |segs|
  {
    forall j | 0 <= j < n :: !Meets(a / PAGE, segs[j])
  }

  lemma {:induction false} SomeDecides(segs: seq<Segment>, n: nat, a: nat) returns (k: nat)
    requires n <= |segs| && !Untouched(segs, n, a)
    ensures Decides(segs, n, a, k)
  {
    if Meets(a / PAGE, segs[n - 1]) { k := n - 1; } else { k := SomeDecides(segs, n - 1, a); }
  }

  /** What a segment leaves at an address of its pages. */
  ghost function ByteOf(elf: seq<Byte>, s: Segment, held: nat -> Page, a: nat): Byte
    requires ValidSegment(elf, s)
  {
    if InSegment(a, s) then Image(elf, s)[a - s.vaddr] else held(a / PAGE)[a % PAGE]
  }

  /** Memory after the first n segments at address a: what the last segment covering
      it left there, or what was there before. */
  ghost predicate FinalAt(before: Memory, after: Memory, elf: seq<Byte>, segs: seq<Segment>, held: seq<nat -> Page>,
                          n: nat, a: nat)
    requires ValidSegments(elf, segs) && n <= |segs| == |held|
  {
    && (Untouched(segs, n, a) ==>
          && (a / PAGE in after <==> a / PAGE in before)
          && (a / PAGE in before ==> At(after, a) == At(before, a)))
    && (forall k: nat | k < |segs| && Decides(segs, n, a, k) ::
          a / PAGE in after && At(after, a) == ByteOf(elf, segs[k], held[k], a))
  }

  /** One more segment, when it covers the address and when it does not. */
  lemma FinalCovered(before: Memory, mid: Memory, after: Memory, elf: seq<Byte>, segs: seq<Segment>,
                     held: seq<nat -> Page>, n: nat, a: nat)
    requires ValidSegments(elf, segs) && n < |segs| == |held| && Meets(a / PAGE, segs[n]) == true
    requires AfterLoadAt(mid, after, elf, segs[n], held[n], a) == true
    ensures FinalAt(before, after, elf, segs, held, n + 1, a) == true
  {
    assert !Untouched(segs, n + 1, a);
    forall k: nat | k < |segs| && Decides(segs, n + 1, a, k)
      ensures a / PAGE in after && At(after, a) == ByteOf(elf, segs[k], held[k], a)
    {
      assert k == n;
    }
  }

  lemma FinalElsewhere(before: Memory, mid: Memory, after: Memory, elf: seq<Byte>, segs: seq<Segment>,
                       held: seq<nat -> Page>, n: nat, a: nat)
    requires ValidSegments(elf, segs) && n < |segs| == |held| && Meets(a / PAGE, segs[n]) == false
    requires AfterLoadAt(mid, after, elf, segs[n], held[n], a) == true
    requires FinalAt(before, mid, elf, segs, held, n, a) == true
    ensures FinalAt(before, after, elf, segs, held, n + 1, a) == true
  {
    assert (a / PAGE in after <==> a / PAGE in mid) && (a / PAGE in mid ==> At(after, a) == At(mid, a));
    assert Untouched(segs, n + 1, a) ==> Untouched(segs, n, a);
    forall k: nat | k < |segs| && Decides(segs, n + 1, a, k)
      ensures a / PAGE in after && At(after, a) == ByteOf(elf, segs[k], held[k], a)
    {
      assert Decides(segs, n, a, k);
    }
  }

  lemma FinalNext(before: Memory, mid: Memory, after: Memory, elf: seq<Byte>, segs: seq<Segment>,
                  held: seq<nat -> Page>, n: nat, a: nat)
    requires ValidSegments(elf, segs) && n < |segs| == |held|
    requires AfterLoad(mid, after, elf, segs[n], held[n]) == true
    requires FinalAt(before, mid, elf, segs, held, n, a) == true
    ensures FinalAt(before, after, elf, segs, held, n + 1, a) == true
  {
    assert AfterLoadAt(mid, after, elf, segs[n], held[n], a) == true;
    if Meets(a / PAGE, segs[n]) == true {
      FinalCovered(before, mid, after, elf, segs, held, n, a);
    } else {
      FinalElsewhere(before, mid, after, elf, segs, held, n, a);
    }
  }

  lemma {:induction false} FinalImage(trace: seq<Memory>, elf: seq<Byte>, segs: seq<Segment>, held: seq<nat -> Page>,
                                      n: nat, a: nat)
    requires IsLoad(trace, elf, segs, held) == true && ValidSegments(elf, segs) && n <= |segs|
    ensures FinalAt(trace[0], trace[n], elf, segs, held, n, a) == true
  {
    if n > 0 {
      var i := n - 1;
      FinalImage(trace, elf, segs, held, i, a);
      assert AfterLoad(trace[i], trace[i + 1], elf, segs[i], held[i]) == true;
      FinalNext(trace[0], trace[i], trace[i + 1], elf, segs, held, i, a);
    }
  }

  // ------------------------------------------------- when the image is right

  function Uniform(b: Byte): Page { seq(PAGE, _ => b) }

  function Same(page: Page): nat -> Page { (n: nat) => page }

  /** The memories of a load in which every frame held the byte b throughout. */
  ghost function UniformLoad(m: Memory, elf: seq<Byte>, segs: seq<Segment>, b: Byte): (trace: seq<Memory>)
    requires ValidSegments(elf, segs)
    ensures |trace| == |segs| + 1 && trace[0] == m
  {
    if segs == [] then [m]
    else
      var n := |segs| - 1;
      var trace := UniformLoad(m, elf, segs[..n], b);
      trace + [LoadSegment(trace[n], Same(Uniform(b)), 0, elf, segs[n])]
  }

  ghost function UniformHeld(segs: seq<Segment>, b: Byte): (held: seq<nat -> Page>)
    ensures |held| == |segs| && forall k | 0 <= k < |segs| :: held[k] == Held(Same(Uniform(b)), 0, segs[k])
  {
    seq(|segs|, k requires 0 <= k < |segs| => Held(Same(Uniform(b)), 0, segs[k]))
  }

  lemma {:induction false} UniformIsLoad(m: Memory, elf: seq<Byte>, segs: seq<Segment>, b: Byte)
    requires ValidSegments(elf, segs)
    ensures IsLoad(UniformLoad(m, elf, segs, b), elf, segs, UniformHeld(segs, b)) == true
  {
    if segs != [] {
      var n := |segs| - 1;
      var init, s, held := segs[..n], segs[n], UniformHeld(segs[..n], b);
      var before := UniformLoad(m, elf, init, b);
      var last, h := LoadSegment(before[n], Same(Uniform(b)), 0, elf, s), Held(Same(Uniform(b)), 0, s);
      UniformIsLoad(m, elf, init, b);
      LoadSegmentLoads(before[n], Same(Uniform(b)), 0, elf, s);
      LoadSnoc(before, elf, init, held, last, s, h);
      assert UniformLoad(m, elf, segs, b) == before + [last];
      UniformHeldSnoc(segs, b);
    }
  }

  lemma UniformHeldSnoc(segs: seq<Segment>, b: Byte)
    requires segs != []
    ensures var n := |segs| - 1;
      segs == segs[..n] + [segs[n]] && UniformHeld(segs, b) == UniformHeld(segs[..n], b) + [Held(Same(Uniform(b)), 0, segs[n])]
  {
    var n := |segs| - 1;
    var init, last := segs[..n], segs[n];
    assert segs == init + [last];
    assert forall k | 0 <= k < n :: UniformHeld(segs, b)[k] == UniformHeld(init, b)[k];
  }

  ghost predicate PageDisjoint(segs: seq<Segment>) {
    forall i, k | 0 <= i < k < |segs| :: !SharePage(segs[i], segs[k])
  }

  ghost predicate ByteDisjoint(segs: seq<Segment>) {
    forall i, k, a: nat | 0 <= i < k < |segs| && InSegment(a, segs[i]) :: !InSegment(a, segs[k])
  }

  /** Whatever the frames held, every segment ends up in memory. */
  ghost predicate AlwaysLoads(m: Memory, elf: seq<Byte>, segs: seq<Segment>)
    requires ValidSegments(elf, segs)
  {
    forall trace, held | IsLoad(trace, elf, segs, held) && trace[0] == m :: AllLoaded(trace[|segs|], elf, segs)
  }

  ghost predicate AllLoaded(m: Memory, elf: seq<Byte>, segs: seq<Segment>)
    requires ValidSegments(elf, segs)
  {
    forall i | 0 <= i < |segs| :: Loaded(m, elf, segs[i])
  }

  /** Every byte of a segment is left alone by the last segment covering it, or is the
      same in that one. */
  ghost predicate Undisturbed(elf: seq<Byte>, segs: seq<Segment>)
    requires ValidSegments(elf, segs)
  {
    forall i, k, a: nat | 0 <= i < |segs| && 0 <= k < |segs| && InSegment(a, segs[i]) && Decides(segs, |segs|, a, k) ::
      InSegment(a, segs[k]) && Image(elf, segs[k])[a - segs[k].vaddr] == Image(elf, segs[i])[a - segs[i].vaddr]
  }

  /** The image is right whatever the frames held if and only if the segments are
      undisturbed, which the headers and the file alone decide. */
  lemma AlwaysLoadsIff(m: Memory, elf: seq<Byte>, segs: seq<Segment>)
    requires ValidSegments(elf, segs)
    ensures AlwaysLoads(m, elf, segs) <==> Undisturbed(elf, segs)
  {
    if Undisturbed(elf, segs) {
      forall trace, held | IsLoad(trace, elf, segs, held) && trace[0] == m
        ensures AllLoaded(trace[|segs|], elf, segs)
      {
        forall i | 0 <= i < |segs|
          ensures Loaded(trace[|segs|], elf, segs[i])
        {
          UndisturbedLoads(trace, elf, segs, held, i);
        }
      }
    } else {
      var i, k, a: nat :| 0 <= i < |segs| && 0 <= k < |segs| && InSegment(a, segs[i]) && Decides(segs, |segs|, a, k)
        && !(InSegment(a, segs[k]) && Image(elf, segs[k])[a - segs[k].vaddr] == Image(elf, segs[i])[a - segs[i].vaddr]);
      var b := DisturbedBreaks(m, elf, segs, i, k, a);
      UniformIsLoad(m, elf, segs, b);
      assert !AllLoaded(UniformLoad(m, elf, segs, b)[|segs|], elf, segs);
    }
  }

  lemma DecidedAt(before: Memory, after: Memory, elf: seq<Byte>, segs: seq<Segment>, held: seq<nat -> Page>, a: nat, k: nat)
    requires ValidSegments(elf, segs) && |segs| == |held| && k < |segs|
    requires FinalAt(before, after, elf, segs, held, |segs|, a) == true && Decides(segs, |segs|, a, k) == true
    ensures a / PAGE in after && At(after, a) == ByteOf(elf, segs[k], held[k], a)
  {
  }

  lemma UndisturbedByte(elf: seq<Byte>, segs: seq<Segment>, held: nat -> Page, i: nat, k: nat, a: nat)
    requires ValidSegments(elf, segs) && Undisturbed(elf, segs) == true && i < |segs| && k < |segs|
    requires InSegment(a, segs[i]) && Decides(segs, |segs|, a, k) == true
    ensures ByteOf(elf, segs[k], held, a) == Image(elf, segs[i])[a - segs[i].vaddr]
  {
  }

  lemma UndisturbedAt(trace: seq<Memory>, elf: seq<Byte>, segs: seq<Segment>, held: seq<nat -> Page>, i: nat, a: nat)
    requires IsLoad(trace, elf, segs, held) == true && ValidSegments(elf, segs) && Undisturbed(elf, segs) == true
    requires i < |segs| && InSegment(a, segs[i])
    ensures a / PAGE in trace[|segs|] && At(trace[|segs|], a) == Image(elf, segs[i])[a - segs[i].vaddr]
  {
    assert Meets(a / PAGE, segs[i]) == true;
    var k := SomeDecides(segs, |segs|, a);
    FinalImage(trace, elf, segs, held, |segs|, a);
    DecidedAt(trace[0], trace[|segs|], elf, segs, held, a, k);
    UndisturbedByte(elf, segs, held[k], i, k, a);
  }

  lemma UndisturbedLoads(trace: seq<Memory>, elf: seq<Byte>, segs: seq<Segment>, held: seq<nat -> Page>, i: nat)
    requires IsLoad(trace, elf, segs, held) == true && ValidSegments(elf, segs) && Undisturbed(elf, segs) == true && i < |segs|
    ensures Loaded(trace[|segs|], elf, segs[i])
  {
    forall a: nat | InSegment(a, segs[i])
      ensures a / PAGE in trace[|segs|] && At(trace[|segs|], a) == Image(elf, segs[i])[a - segs[i].vaddr]
    {
      UndisturbedAt(trace, elf, segs, held, i, a);
    }
  }

  /** Where a later segment disturbs a byte there are frame contents that spoil it. */
  lemma DisturbedBreaks(m: Memory, elf: seq<Byte>, segs: seq<Segment>, i: nat, k: nat, a: nat) returns (b: Byte)
    requires ValidSegments(elf, segs) && i < |segs| && k < |segs| && InSegment(a, segs[i])
    requires Decides(segs, |segs|, a, k) == true
    requires !(InSegment(a, segs[k]) && Image(elf, segs[k])[a - segs[k].vaddr] == Image(elf, segs[i])[a - segs[i].vaddr])
    ensures !Loaded(UniformLoad(m, elf, segs, b)[|segs|], elf, segs[i])
  {
    b := if Image(elf, segs[i])[a - segs[i].vaddr] == 0 then 1 else 0;
    var trace, held := UniformLoad(m, elf, segs, b), UniformHeld(segs, b);
    assert FinalAt(m, trace[|segs|], elf, segs, held, |segs|, a) == true by {
      UniformIsLoad(m, elf, segs, b);
      FinalImage(trace, elf, segs, held, |segs|, a);
    }
    DecidedAt(m, trace[|segs|], elf, segs, held, a, k);
    UniformByte(segs[k], b, a);
  }

  lemma UniformByte(s: Segment, b: Byte, a: nat)
    ensures Held(Same(Uniform(b)), 0, s)(a / PAGE)[a % PAGE] == b
  {
  }

  /** For segments that do not overlap byte by byte this means that no two of them
      share a page. */
  lemma UndisturbedIff(elf: seq<Byte>, segs: seq<Segment>)
    requires ValidSegments(elf, segs) && ByteDisjoint(segs)
    ensures Undisturbed(elf, segs) <==> PageDisjoint(segs)
  {
    if PageDisjoint(segs) {
      forall i, k, a: nat | 0 <= i < |segs| && 0 <= k < |segs| && InSegment(a, segs[i]) && Decides(segs, |segs|, a, k)
        ensures k == i
      {
        assert Meets(a / PAGE, segs[i]);
        assert SharePage(segs[i], segs[k]) && SharePage(segs[k], segs[i]);
      }
    } else {
      var i, k :| 0 <= i < k < |segs| && SharePage(segs[i], segs[k]);
      var p :| Meets(p, segs[i]) && Meets(p, segs[k]);
      var a :| segs[i].vaddr <= a < segs[i].vaddr + segs[i].memsz && a / PAGE == p;
      var last := SomeDecides(segs, |segs|, a);
      assert InSegment(a, segs[i]) && last >= k && !InSegment(a, segs[last]);
    }
  }

  /** For instance two segments of one byte each on the same page. */
  lemma SharedPageDisturbs(elf: seq<Byte>, segs: seq<Segment>)
    requires |elf| >= 2 && segs == [Segment(0, 0x1000, 1, 1), Segment(1, 0x1001, 1, 1)]
    ensures ValidSegments(elf, segs) && ByteDisjoint(segs) && !Undisturbed(elf, segs)
  {
    assert 0x1000 / PAGE == 1 && 0x1001 / PAGE == 1;
    assert Meets(1, segs[1]);
    assert Decides(segs, |segs|, 0x1000, 1);
    assert InSegment(0x1000, segs[0]) && !InSegment(0x1000, segs[1]);
  }

  // ------------------------------------------------------------- the headers

  /** Little-endian fields of the file. */
  function Half(elf: seq<Byte>, o: nat): nat
    requires o + 2 <= |elf|
  {
    (elf[o] as int) + 256 * (elf[o + 1] as int)
  }

  function Word(elf: seq<Byte>, o: nat): nat
    requires o + 4 <= |elf|
  {
    Half(elf, o) + 0x1_0000 * Half(elf, o + 2)
  }

  const HEADER_SIZE: nat := 52
  const PHDR_SIZE: nat := 32

  predicate IsExecutable(elf: seq<Byte>)
    requires HEADER_SIZE <= |elf|
  {
    elf[0] == 0x7F && elf[1] == 69 && elf[2] == 76 && elf[3] == 70 && Half(elf, 16) == 2
  }

  function Entry(elf: seq<Byte>): nat
    requires HEADER_SIZE <= |elf|
  {
    Word(elf, 24)
  }

  function HeaderCount(elf: seq<Byte>): nat
    requires HEADER_SIZE <= |elf|
  {
    Half(elf, 44)
  }

  /** Offset of program header i. */
  function HeaderAt(elf: seq<Byte>, i: nat): nat
    requires HEADER_SIZE <= |elf|
  {
    Word(elf, 28) + i * Half(elf, 42)
  }

  predicate HeaderPresent(elf: seq<Byte>, i: nat)
    requires HEADER_SIZE <= |elf|
  {
    HeaderAt(elf, i) + PHDR_SIZE <= |elf|
  }

  predicate IsLoadable(elf: seq<Byte>, i: nat)
    requires HEADER_SIZE <= |elf| && HeaderPresent(elf, i)
  {
    Word(elf, HeaderAt(elf, i)) == 1 && Word(elf, HeaderAt(elf, i) + 20) > 0
  }

  function SegmentAt(elf: seq<Byte>, i: nat): Segment
    requires HEADER_SIZE <= |elf| && HeaderPresent(elf, i)
  {
    var h := HeaderAt(elf, i);
    Segment(Word(elf, h + 4), Word(elf, h + 8), Word(elf, h + 16), Word(elf, h + 20))
  }

  /** The file is complete: all its headers and the file part of its segments are
      there, and the segments are as the loader's arithmetic needs them. */
  ghost predicate Complete(elf: seq<Byte>) {
    && HEADER_SIZE <= |elf|
    && forall i: nat | i < HeaderCount(elf) ::
         HeaderPresent(elf, i) && (IsLoadable(elf, i) ==> ValidSegment(elf, SegmentAt(elf, i)))
  }

  /** The loadable segments among the first n program headers. */
  ghost function Segments(elf: seq<Byte>, n: nat): (segs: seq<Segment>)
    requires Complete(elf) && n <= HeaderCount(elf)
    ensures ValidSegments(elf, segs)
  {
    if n == 0 then []
    else if IsLoadable(elf, n - 1) then Segments(elf, n - 1) + [SegmentAt(elf, n - 1)]
    else Segments(elf, n - 1)
  }

  function PagesNeeded(segs: seq<Segment>): nat {
    if segs == [] then 0 else PagesNeeded(segs[..|segs| - 1]) + PageCount(segs[|segs| - 1])
  }

  /** What the frames held that the pages of segment k were given. */
  ghost function HeldAt(frames: nat -> Page, taken: nat, segs: seq<Segment>, k: nat): nat -> Page
    requires k < |segs|
  {
    Held(frames, taken + PagesNeeded(segs[..k]), segs[k])
  }

  ghost function HeldBy(frames: nat -> Page, taken: nat, segs: seq<Segment>): (held: seq<nat -> Page>)
    ensures |held| == |segs| && forall k | 0 <= k < |segs| :: held[k] == HeldAt(frames, taken, segs, k)
  {
    seq(|segs|, k requires 0 <= k < |segs| => HeldAt(frames, taken, segs, k))
  }

  lemma HeldSnoc(frames: nat -> Page, taken: nat, segs: seq<Segment>, s: Segment)
    ensures HeldBy(frames, taken, segs + [s]) ==
            HeldBy(frames, taken, segs) + [Held(frames, taken + PagesNeeded(segs), s)]
  {
    var segs' := segs + [s];
    var l, r := HeldBy(frames, taken, segs'), HeldBy(frames, taken, segs) + [Held(frames, taken + PagesNeeded(segs), s)];
    forall k | 0 <= k < |segs'|
      ensures l[k] == r[k]
    {
      assert segs'[..k] == segs[..k];
      assert l[k] == HeldAt(frames, taken, segs', k);
      if k == |segs| { assert segs[..k] == segs; } else { assert r[k] == HeldAt(frames, taken, segs, k); }
    }
  }

  /** The memory after a load: at every address what the last segment covering it
      left there or what was there before.  In particular every segment that shares no
      page with a later one is there, and exactly the pages that meet a segment have
      been mapped. */
  ghost predicate RightImage(before: Memory, after: Memory, elf: seq<Byte>, segs: seq<Segment>, held: seq<nat -> Page>) {
    && ValidSegments(elf, segs) && |held| == |segs|
    && (forall a: nat :: FinalAt(before, after, elf, segs, held, |segs|, a))
    && (forall i | 0 <= i < |segs| && (forall k | i < k < |segs| :: !SharePage(segs[i], segs[k])) ::
          Loaded(after, elf, segs[i]))
    && (forall p :: p in after <==> p in before || exists i | 0 <= i < |segs| :: Meets(p, segs[i]))
  }

  lemma LoadIsRight(trace: seq<Memory>, elf: seq<Byte>, segs: seq<Segment>, held: seq<nat -> Page>)
    requires IsLoad(trace, elf, segs, held) && ValidSegments(elf, segs)
    ensures RightImage(trace[0], trace[|segs|], elf, segs, held) == true
  {
    forall a: nat
      ensures FinalAt(trace[0], trace[|segs|], elf, segs, held, |segs|, a)
    {
      FinalImage(trace, elf, segs, held, |segs|, a);
    }
    forall i | 0 <= i < |segs| && (forall k | i < k < |segs| :: !SharePage(segs[i], segs[k]))
      ensures Loaded(trace[|segs|], elf, segs[i])
    {
      ImageCorrect(trace, elf, segs, held, i, |segs|);
    }
    forall p: nat
      ensures p in trace[|segs|] <==> p in trace[0] || exists i | 0 <= i < |segs| :: Meets(p, segs[i])
    {
      MappedExactly(trace, elf, segs, held, |segs|, p);
    }
  }

  /** Loading these segments one after the other leads from one memory to the other. */
  ghost predicate Reached(before: Memory, now: Memory, elf: seq<Byte>, segs: seq<Segment>, frames: nat -> Page, taken: nat) {
    exists trace ::
      IsLoad(trace, elf, segs, HeldBy(frames, taken, segs)) && trace[0] == before && trace[|segs|] == now
  }

  lemma ReachedStart(m: Memory, elf: seq<Byte>, frames: nat -> Page, taken: nat)
    ensures Reached(m, m, elf, [], frames, taken) == true
  {
    assert IsLoad([m], elf, [], HeldBy(frames, taken, []));
  }

  lemma ReachedSnoc(before: Memory, now: Memory, m: Memory, elf: seq<Byte>, segs: seq<Segment>, frames: nat -> Page,
                    taken: nat, s: Segment)
    requires Reached(before, now, elf, segs, frames, taken) == true
    requires AfterLoad(now, m, elf, s, Held(frames, taken + PagesNeeded(segs), s)) == true
    ensures Reached(before, m, elf, segs + [s], frames, taken) == true
  {
    var held, h := HeldBy(frames, taken, segs), Held(frames, taken + PagesNeeded(segs), s);
    var trace :| IsLoad(trace, elf, segs, held) && trace[0] == before && trace[|segs|] == now;
    LoadSnoc(trace, elf, segs, held, m, s, h);
    var trace', segs' := trace + [m], segs + [s];
    assert HeldBy(frames, taken, segs') == held + [h] by { HeldSnoc(frames, taken, segs, s); }
    assert IsLoad(trace', elf, segs', HeldBy(frames, taken, segs')) == true;
    assert trace'[0] == before && trace'[|segs'|] == m;
  }

  lemma ReachedRight(before: Memory, now: Memory, elf: seq<Byte>, segs: seq<Segment>, frames: nat -> Page, taken: nat)
    requires Reached(before, now, elf, segs, frames, taken) == true && ValidSegments(elf, segs)
    ensures RightImage(before, now, elf, segs, HeldBy(frames, taken, segs)) == true
  {
    var trace :| IsLoad(trace, elf, segs, HeldBy(frames, taken, segs)) && trace[0] == before && trace[|segs|] == now;
    LoadIsRight(trace, elf, segs, HeldBy(frames, taken, segs));
  }

  /** The frames run out at segment k: those before it are loaded, and its first pages
      are mapped to the frames that were left. */
  ghost predicate RanOutAt(before: Memory, now: Memory, elf: seq<Byte>, segs: seq<Segment>, frames: nat -> Page,
                           taken: nat, available: nat, k: nat, m: Memory)
    requires k < |segs|
  {
    var used := taken + PagesNeeded(segs[..k]);
    && used <= available < used + PageCount(segs[k])
    && Reached(before, m, elf, segs[..k], frames, taken) == true
    && now == MapPages(m, frames, used, FirstPage(segs[k]), available - used)
  }

  ghost predicate RanOut(before: Memory, now: Memory, elf: seq<Byte>, segs: seq<Segment>, frames: nat -> Page,
                         taken: nat, available: nat) {
    exists k: nat, m :: k < |segs| && RanOutAt(before, now, elf, segs, frames, taken, available, k, m)
  }

  /** Running out on the first segments is running out on all. */
  lemma RanOutEarly(before: Memory, now: Memory, elf: seq<Byte>, segs: seq<Segment>, frames: nat -> Page,
                    taken: nat, available: nat, k: nat, m: Memory, all: seq<Segment>)
    requires k < |segs| <= |all| && segs == all[..|segs|]
    requires RanOutAt(before, now, elf, segs, frames, taken, available, k, m) == true
    ensures RanOut(before, now, elf, all, frames, taken, available) == true
  {
    assert all[..k] == segs[..k];
    assert RanOutAt(before, now, elf, all, frames, taken, available, k, m);
  }

  lemma {:induction false} SegmentsPrefix(elf: seq<Byte>, i: nat, n: nat)
    requires Complete(elf) && i <= n <= HeaderCount(elf)
    ensures |Segments(elf, i)| <= |Segments(elf, n)| && Segments(elf, i) == Segments(elf, n)[..|Segments(elf, i)|]
    decreases n
  {
    if i < n { SegmentsPrefix(elf, i, n - 1); }
  }

  lemma {:induction false} NeededGrows(elf: seq<Byte>, i: nat, n: nat)
    requires Complete(elf) && i <= n <= HeaderCount(elf)
    ensures PagesNeeded(Segments(elf, i)) <= PagesNeeded(Segments(elf, n))
    decreases n
  {
    if i < n {
      NeededGrows(elf, i, n - 1);
      if IsLoadable(elf, n - 1) { NeededSnoc(Segments(elf, n - 1), SegmentAt(elf, n - 1)); }
    }
  }

  lemma NeededSnoc(segs: seq<Segment>, s: Segment)
    ensures PagesNeeded(segs + [s]) == PagesNeeded(segs) + PageCount(s)
  {
    assert (segs + [s])[..|segs|] == segs;
  }

  lemma NextSegments(elf: seq<Byte>, i: nat)
    requires Complete(elf) && i < HeaderCount(elf)
    ensures Segments(elf, i + 1) == if IsLoadable(elf, i) then Segments(elf, i) + [SegmentAt(elf, i)] else Segments(elf, i)
    ensures PagesNeeded(Segments(elf, i + 1)) ==
            PagesNeeded(Segments(elf, i)) + if IsLoadable(elf, i) then PageCount(SegmentAt(elf, i)) else 0
  {
    NeededSnoc(Segments(elf, i), SegmentAt(elf, i));
  }

  lemma HeaderLoaded(before: Memory, now: Memory, m: Memory, elf: seq<Byte>, i: nat, frames: nat -> Page, taken: nat)
    requires Complete(elf) && i < HeaderCount(elf) && IsLoadable(elf, i)
    requires Reached(before, now, elf, Segments(elf, i), frames, taken) == true
    requires AfterLoad(now, m, elf, SegmentAt(elf, i),
                       Held(frames, taken + PagesNeeded(Segments(elf, i)), SegmentAt(elf, i))) == true
    ensures Reached(before, m, elf, Segments(elf, i + 1), frames, taken) == true
  {
    var segs, s := Segments(elf, i), SegmentAt(elf, i);
    assert Segments(elf, i + 1) == segs + [s] by { NextSegments(elf, i); }
    ReachedSnoc(before, now, m, elf, segs, frames, taken, s);
  }

  lemma HeaderFailed(before: Memory, now: Memory, m: Memory, elf: seq<Byte>, i: nat, frames: nat -> Page, taken: nat,
                     available: nat)
    requires Complete(elf) && i < HeaderCount(elf) && IsLoadable(elf, i)
    requires Reached(before, now, elf, Segments(elf, i), frames, taken) == true
    requires var used := taken + PagesNeeded(Segments(elf, i));
      && used <= available < used + PageCount(SegmentAt(elf, i))
      && m == MapPages(now, frames, used, FirstPage(SegmentAt(elf, i)), available - used)
    ensures |Segments(elf, i + 1)| == |Segments(elf, i)| + 1
    ensures RanOutAt(before, m, elf, Segments(elf, i + 1), frames, taken, available, |Segments(elf, i)|, now) == true
  {
    NextSegments(elf, i);
    RanOutNext(before, now, m, elf, Segments(elf, i), SegmentAt(elf, i), frames, taken, available);
  }

  lemma RanOutNext(before: Memory, now: Memory, m: Memory, elf: seq<Byte>, segs: seq<Segment>, s: Segment,
                   frames: nat -> Page, taken: nat, available: nat)
    requires Reached(before, now, elf, segs, frames, taken) == true
    requires var used := taken + PagesNeeded(segs);
      && used <= available < used + PageCount(s)
      && m == MapPages(now, frames, used, FirstPage(s), available - used)
    ensures RanOutAt(before, m, elf, segs + [s], frames, taken, available, |segs|, now) == true
  {
    assert (segs + [s])[..|segs|] == segs;
  }

  lemma Failed(before: Memory, now: Memory, elf: seq<Byte>, frames: nat -> Page, taken: nat, available: nat, i: nat, m: Memory)
    requires Complete(elf) && i < HeaderCount(elf) && |Segments(elf, i + 1)| == |Segments(elf, i)| + 1
    requires taken + PagesNeeded(Segments(elf, i + 1)) > available
    requires RanOutAt(before, now, elf, Segments(elf, i + 1), frames, taken, available, |Segments(elf, i)|, m) == true
    ensures RanOut(before, now, elf, Segments(elf, HeaderCount(elf)), frames, taken, available) == true
    ensures taken + PagesNeeded(Segments(elf, HeaderCount(elf))) > available
  {
    NeededGrows(elf, i + 1, HeaderCount(elf));
    SegmentsPrefix(elf, i + 1, HeaderCount(elf));
    RanOutEarly(before, now, elf, Segments(elf, i + 1), frames, taken, available, |Segments(elf, i)|, m,
                Segments(elf, HeaderCount(elf)));
  }

  // -------------------------------------------------------------- the loader

  class Loader {
    var pages: Memory
    var taken: nat
    /** The supply of frames, and what they hold. */
    const available: nat
    const frames: nat -> Page

    constructor (available: nat, frames: nat -> Page)
      ensures pages == map[] && taken == 0 && this.available == available && this.frames == frames
    {
      pages, taken := map[], 0;
      this.available, this.frames := available, frames;
    }

    /** alloc_page_at: a frame is taken and mapped at the page of vaddr. */
    method AllocPageAt(vaddr: nat) returns (ok: bool)
      modifies this
      ensures ok <==> old(taken) < available
      ensures ok ==> pages == old(pages)[vaddr / PAGE := frames(old(taken))] && taken == old(taken) + 1
      ensures !ok ==> pages == old(pages) && taken == old(taken)
    {
      if taken >= available {
        return false;
      }
      pages, taken := pages[vaddr / PAGE := frames(taken)], taken + 1;
      return true;
    }

    /** The next page from lo on. */
    method MapNext(page: nat, ghost start: Memory, ghost first: nat, ghost lo: nat) returns (ok: bool)
      requires first <= taken && page == (lo + (taken - first)) * PAGE
      requires HasPages(start, pages, frames, first, lo, taken - first) == true
      modifies this
      ensures ok <==> old(taken) < available
      ensures taken == if ok then old(taken) + 1 else old(taken)
      ensures HasPages(start, pages, frames, first, lo, taken - first) == true
    {
      HasNext(start, pages, frames, first, lo, taken - first);
      assert page / PAGE == lo + (taken - first);
      ok := AllocPageAt(page);
    }

    /** The pages of a segment are mapped. */
    method MapSegment(elf: seq<Byte>, s: Segment) returns (ok: bool)
      requires ValidSegment(elf, s) && taken <= available
      modifies this
      ensures taken <= available
      ensures ok <==> old(taken) + PageCount(s) <= available
      ensures taken == if ok then old(taken) + PageCount(s) else available
      ensures HasPages(old(pages), pages, frames, old(taken), FirstPage(s), taken - old(taken)) == true
    {
      PageBounds(s);
      var startPage := And(s.vaddr, Not(32, 0xFFF));
      var endPage := And((s.vaddr + s.memsz + 0xFFF) % WORD, Not(32, 0xFFF));
      ok := MapRange(startPage, endPage, FirstPage(s), PageCount(s));
    }

    /** The loop over the n pages from lo on. */
    method MapRange(startPage: nat, endPage: nat, ghost lo: nat, ghost n: nat) returns (ok: bool)
      requires startPage == lo * PAGE && endPage == (lo + n) * PAGE && taken <= available
      modifies this
      ensures ok <==> old(taken) + n <= available
      ensures taken == if ok then old(taken) + n else available
      ensures HasPages(old(pages), pages, frames, old(taken), lo, taken - old(taken)) == true
    {
      var page := startPage;
      while page < endPage
        invariant old(taken) <= taken <= available && taken - old(taken) <= n
        invariant page == (lo + (taken - old(taken))) * PAGE
        invariant HasPages(old(pages), pages, frames, old(taken), lo, taken - old(taken)) == true
        decreases n - (taken - old(taken))
      {
        ok := MapNext(page, old(pages), old(taken), lo);
        if !ok {
          return;
        }
        page := page + 4096;
      }
      ok := true;
    }

    /** memcpy to vaddr. */
    method Copy(vaddr: nat, data: seq<Byte>)
      requires Mapped(pages, vaddr, |data|)
      modifies this`pages
      ensures Filled(old(pages), pages, vaddr, data)
    {
      for j := 0 to |data|
        invariant Filled(old(pages), pages, vaddr, data[..j])
      {
        FilledStep(old(pages), pages, vaddr, data, j);
        pages := Store(pages, vaddr + j, data[j]);
      }
      assert data[..|data|] == data;
    }

    /** The loop that zeroes the part of a segment the file does not fill. */
    method Zero(vaddr: nat, n: nat)
      requires Mapped(pages, vaddr, n)
      modifies this`pages
      ensures Filled(old(pages), pages, vaddr, Zeros(n))
    {
      ghost var data := Zeros(n);
      for j := 0 to n
        invariant Filled(old(pages), pages, vaddr, data[..j])
      {
        FilledStep(old(pages), pages, vaddr, data, j);
        pages := Store(pages, vaddr + j, 0);
      }
      assert data[..n] == data;
    }

    /** The file part of a segment, then zeros. */
    method WriteSegment(elf: seq<Byte>, s: Segment)
      requires ValidSegment(elf, s) && Mapped(pages, s.vaddr, s.memsz)
      modifies this`pages
      ensures Filled(old(pages), pages, s.vaddr, Image(elf, s))
    {
      var file := elf[s.offset..s.offset + s.filesz];
      if s.filesz > 0 {
        Copy(s.vaddr, file);
      }
      ghost var mid := pages;
      if s.memsz > s.filesz {
        Zero(s.vaddr + s.filesz, s.memsz - s.filesz);
      }
      FilledConcat(old(pages), mid, pages, s.vaddr, file, Zeros(s.memsz - s.filesz));
    }

    /** Mapping and writing one segment. */
    method LoadOne(elf: seq<Byte>, s: Segment) returns (ok: bool)
      requires ValidSegment(elf, s) && taken <= available
      modifies this
      ensures taken <= available
      ensures ok <==> old(taken) + PageCount(s) <= available
      ensures taken == if ok then old(taken) + PageCount(s) else available
      ensures ok ==> AfterLoad(old(pages), pages, elf, s, Held(frames, old(taken), s)) == true
      ensures !ok ==> pages == MapPages(old(pages), frames, old(taken), FirstPage(s), available - old(taken))
    {
      ghost var m, t := pages, taken;
      ok := MapSegment(elf, s);
      if ok {
        SegmentMapped(m, frames, t, elf, s);
        WriteSegment(elf, s);
        FilledLoads(m, pages, frames, t, elf, s);
      }
    }

    /** elf_load; the entry point, or 0 for a file that is refused or when the
        frames run out. */
    method ElfLoad(elf: seq<Byte>) returns (entry: nat, ghost ok: bool)
      requires Complete(elf) && taken <= available
      modifies this
      ensures ok <==> IsExecutable(elf) && old(taken) + PagesNeeded(Segments(elf, HeaderCount(elf))) <= available
      ensures entry == if ok then Entry(elf) else 0
      ensures !IsExecutable(elf) ==> pages == old(pages) && taken == old(taken)
      ensures ok ==> var segs := Segments(elf, HeaderCount(elf));
                     RightImage(old(pages), pages, elf, segs, HeldBy(frames, old(taken), segs)) == true
      ensures IsExecutable(elf) && !ok ==>
                RanOut(old(pages), pages, elf, Segments(elf, HeaderCount(elf)), frames, old(taken), available) == true
    {
      if elf[0] != 0x7F || elf[1] != 69 || elf[2] != 76 || elf[3] != 70 {
        return 0, false;
      }
      if Half(elf, 16) != 2 {
        return 0, false;
      }
      var loaded := LoadAll(elf);
      return if loaded then Word(elf, 24) else 0, loaded;
    }

    /** The loop over the program headers. */
    method LoadAll(elf: seq<Byte>) returns (ok: bool)
      requires Complete(elf) && taken <= available
      modifies this
      ensures ok <==> old(taken) + PagesNeeded(Segments(elf, HeaderCount(elf))) <= available
      ensures ok ==> var segs := Segments(elf, HeaderCount(elf));
                     RightImage(old(pages), pages, elf, segs, HeldBy(frames, old(taken), segs)) == true
      ensures !ok ==> RanOut(old(pages), pages, elf, Segments(elf, HeaderCount(elf)), frames, old(taken), available) == true
    {
      ReachedStart(pages, elf, frames, taken);
      for i := 0 to Half(elf, 44)
        invariant Reached(old(pages), pages, elf, Segments(elf, i), frames, old(taken)) == true
        invariant taken == old(taken) + PagesNeeded(Segments(elf, i)) && taken <= available
      {
        ghost var now := pages;
        ok := LoadHeader(elf, i, old(pages), old(taken));
        if !ok {
          Failed(old(pages), pages, elf, frames, old(taken), available, i, now);
          return;
        }
      }
      ReachedRight(old(pages), pages, elf, Segments(elf, HeaderCount(elf)), frames, old(taken));
      ok := true;
    }

    /** One turn of the loop over the program headers. */
    method LoadHeader(elf: seq<Byte>, i: nat, ghost before: Memory, ghost start: nat) returns (ok: bool)
      requires Complete(elf) && i < HeaderCount(elf) && taken == start + PagesNeeded(Segments(elf, i)) <= available
      requires Reached(before, pages, elf, Segments(elf, i), frames, start) == true
      modifies this
      ensures taken <= available
      ensures ok <==> start + PagesNeeded(Segments(elf, i + 1)) <= available
      ensures ok ==> taken == start + PagesNeeded(Segments(elf, i + 1))
      ensures ok ==> Reached(before, pages, elf, Segments(elf, i + 1), frames, start) == true
      ensures !ok ==> |Segments(elf, i + 1)| == |Segments(elf, i)| + 1
                      && RanOutAt(before, pages, elf, Segments(elf, i + 1), frames, start, available,
                                  |Segments(elf, i)|, old(pages)) == true
    {
      ok := true;
      NextSegments(elf, i);
      if IsLoadable(elf, i) {
        ghost var now := pages;
        ok := LoadOne(elf, SegmentAt(elf, i));
        if ok {
          HeaderLoaded(before, now, pages, elf, i, frames, start);
        } else {
          HeaderFailed(before, now, pages, elf, i, frames, start, available);
        }
      }
    }
  }

  lemma PageBounds(s: Segment)
    requires 0 < s.memsz && s.vaddr + s.memsz + 0xFFF < WORD
    ensures Pow2(32) == WORD
    ensures And(s.vaddr, Not(32, 0xFFF)) == FirstPage(s) * PAGE
    ensures And((s.vaddr + s.memsz + 0xFFF) % WORD, Not(32, 0xFFF)) == (FirstPage(s) + PageCount(s)) * PAGE
  {
    var end := s.vaddr + s.memsz + 0xFFF;
    PageStart(s.vaddr);
    LastBound(s, end);
  }

  lemma LastBound(s: Segment, end: nat)
    requires 0 < s.memsz && end == s.vaddr + s.memsz + 0xFFF < WORD && Pow2(32) == WORD
    ensures And(end % WORD, Not(32, 0xFFF)) == (FirstPage(s) + PageCount(s)) * PAGE
  {
    assert end % WORD == end by { Wrap(end); }
    assert FirstPage(s) + PageCount(s) == end / PAGE by { DivMonotone(s.vaddr, end); }
    PageStart(end);
  }
}
