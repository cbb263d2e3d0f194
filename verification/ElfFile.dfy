/** The file format that kernel/userspace/elf_loader.c reads: an encoder of the two
    header structs, field by field, and what the loader makes of an encoded file. */
module ElfFile {
  import opened Bits
  import opened Text
  import opened Elf

  type U16 = x: nat | x < 0x1_0000
  type U32 = x: nat | x < 0x1_0000_0000

  /** elf32_header_t */
  datatype FileHeader = FileHeader(
    magic: seq<Byte>, bits: Byte, endian: Byte, version: Byte, osabi: Byte, abiversion: Byte, pad: seq<Byte>,
    kind: U16, machine: U16,
    version2: U32, entry: U32, phoff: U32, shoff: U32, flags: U32,
    ehsize: U16, phentsize: U16, phnum: U16, shentsize: U16, shnum: U16, shstrndx: U16)

  /** elf32_phdr_t */
  datatype ProgramHeader = ProgramHeader(
    kind: U32, offset: U32, vaddr: U32, paddr: U32, filesz: U32, memsz: U32, flags: U32, align: U32)

  // ---------------------------------------------------------------- encoding

  function Put16(x: U16): (s: seq<Byte>)
    ensures |s| == 2
  {
    [x % 256, x / 256]
  }

  function Put32(x: U32): (s: seq<Byte>)
    ensures |s| == 4
  {
    [x % 256, x / 0x100 % 256, x / 0x1_0000 % 256, x / 0x100_0000]
  }

  function Put16s(xs: seq<U16>): (s: seq<Byte>)
    ensures |s| == 2 * |xs|
  {
    if xs == [] then [] else Put16(xs[0]) + Put16s(xs[1..])
  }

  function Put32s(xs: seq<U32>): (s: seq<Byte>)
    ensures |s| == 4 * |xs|
  {
    if xs == [] then [] else Put32(xs[0]) + Put32s(xs[1..])
  }

  predicate ValidHeader(h: FileHeader) { |h.magic| == 4 && |h.pad| == 7 }

  function EncodeHeader(h: FileHeader): (s: seq<Byte>)
    requires ValidHeader(h)
    ensures |s| == 52
  {
    h.magic + [h.bits, h.endian, h.version, h.osabi, h.abiversion] + h.pad
    + Put16s([h.kind, h.machine])
    + Put32s([h.version2, h.entry, h.phoff, h.shoff, h.flags])
    + Put16s([h.ehsize, h.phentsize, h.phnum, h.shentsize, h.shnum, h.shstrndx])
  }

  function EncodeProgram(p: ProgramHeader): (s: seq<Byte>)
    ensures |s| == 32
  {
    Put32s([p.kind, p.offset, p.vaddr, p.paddr, p.filesz, p.memsz, p.flags, p.align])
  }

  /** The bytes part stand in the file at an offset. */
  predicate Holds(elf: seq<Byte>, at: nat, part: seq<Byte>) {
    at + |part| <= |elf| && elf[at..at + |part|] == part
  }

  // ---------------------------------------------------------------- decoding

  lemma HoldsPart(elf: seq<Byte>, at: nat, a: seq<Byte>, b: seq<Byte>, c: seq<Byte>)
    requires Holds(elf, at, a + b + c)
    ensures Holds(elf, at + |a|, b)
  {
    var all := a + b + c;
    forall i | 0 <= i < |b|
      ensures elf[at + |a| + i] == b[i]
    {
      assert elf[at..at + |all|][|a| + i] == all[|a| + i];
    }
  }

  lemma {:induction false} Holds16s(elf: seq<Byte>, at: nat, xs: seq<U16>, k: nat)
    requires Holds(elf, at, Put16s(xs)) && k < |xs|
    ensures at + 2 * k + 2 <= |elf| && Half(elf, at + 2 * k) == xs[k]
    decreases k
  {
    var first, rest := Put16(xs[0]), Put16s(xs[1..]);
    assert first + rest + [] == Put16s(xs) && [] + first + rest == Put16s(xs);
    if k == 0 {
      HoldsPart(elf, at, [], first, rest);
      assert elf[at..at + 2] == first;
      assert elf[at] == elf[at..at + 2][0] && elf[at + 1] == elf[at..at + 2][1];
    } else {
      HoldsPart(elf, at, first, rest, []);
      Holds16s(elf, at + 2, xs[1..], k - 1);
    }
  }

  lemma {:induction false} Holds32s(elf: seq<Byte>, at: nat, xs: seq<U32>, k: nat)
    requires Holds(elf, at, Put32s(xs)) && k < |xs|
    ensures at + 4 * k + 4 <= |elf| && Word(elf, at + 4 * k) == xs[k]
    decreases k
  {
    var first, rest := Put32(xs[0]), Put32s(xs[1..]);
    assert first + rest + [] == Put32s(xs) && [] + first + rest == Put32s(xs);
    if k == 0 {
      HoldsPart(elf, at, [], first, rest);
      HoldsWord(elf, at, xs[0]);
    } else {
      HoldsPart(elf, at, first, rest, []);
      Holds32s(elf, at + 4, xs[1..], k - 1);
    }
  }

  lemma HoldsWord(elf: seq<Byte>, at: nat, x: U32)
    requires Holds(elf, at, Put32(x))
    ensures Word(elf, at) == x
  {
    var s := elf[at..at + 4];
    assert elf[at] == s[0] && elf[at + 1] == s[1] && elf[at + 2] == s[2] && elf[at + 3] == s[3];
    Digits(x);
  }

  lemma Digits(x: U32)
    ensures x == x % 256 + 256 * (x / 0x100 % 256) + 0x1_0000 * (x / 0x1_0000 % 256 + 256 * (x / 0x100_0000))
  {
    DivDiv(x, 256, 256);
    DivDiv(x, 0x1_0000, 256);
  }

  /** The fields of the file header that the loader reads are those of the struct. */
  lemma HeaderDecodes(elf: seq<Byte>, h: FileHeader)
    requires ValidHeader(h) && Holds(elf, 0, EncodeHeader(h))
    ensures Entry(elf) == h.entry && HeaderCount(elf) == h.phnum
    ensures forall i: nat :: HeaderAt(elf, i) == h.phoff + i * h.phentsize
    ensures IsExecutable(elf) <==> h.magic == [0x7F, 'E' as int, 'L' as int, 'F' as int] && h.kind == 2
  {
    var ident := h.magic + [h.bits, h.endian, h.version, h.osabi, h.abiversion] + h.pad;
    var kinds, words := [h.kind, h.machine], [h.version2, h.entry, h.phoff, h.shoff, h.flags];
    var halves := [h.ehsize, h.phentsize, h.phnum, h.shentsize, h.shnum, h.shstrndx];
    assert EncodeHeader(h) == ident + Put16s(kinds) + (Put32s(words) + Put16s(halves));
    assert EncodeHeader(h) == (ident + Put16s(kinds)) + Put32s(words) + Put16s(halves);
    assert EncodeHeader(h) == (ident + Put16s(kinds) + Put32s(words)) + Put16s(halves) + [];
    HoldsPart(elf, 0, ident, Put16s(kinds), Put32s(words) + Put16s(halves));
    HoldsPart(elf, 0, ident + Put16s(kinds), Put32s(words), Put16s(halves));
    HoldsPart(elf, 0, ident + Put16s(kinds) + Put32s(words), Put16s(halves), []);
    Holds16s(elf, 16, kinds, 0);
    Holds32s(elf, 20, words, 1);
    Holds32s(elf, 20, words, 2);
    Holds16s(elf, 40, halves, 1);
    Holds16s(elf, 40, halves, 2);
    MagicDecodes(elf, h);
  }

  lemma MagicDecodes(elf: seq<Byte>, h: FileHeader)
    requires ValidHeader(h) && Holds(elf, 0, EncodeHeader(h))
    ensures h.magic == [0x7F, 69, 76, 70] <==> elf[0] == 0x7F && elf[1] == 69 && elf[2] == 76 && elf[3] == 70
  {
    assert forall i | 0 <= i < 4 :: elf[0..52][i] == h.magic[i];
    assert forall i | 0 <= i < 4 :: elf[i] == elf[0..52][i];
  }

  /** So are those of a program header. */
  lemma ProgramDecodes(elf: seq<Byte>, i: nat, p: ProgramHeader)
    requires HEADER_SIZE <= |elf| && Holds(elf, HeaderAt(elf, i), EncodeProgram(p))
    ensures HeaderPresent(elf, i)
    ensures SegmentAt(elf, i) == Segment(p.offset, p.vaddr, p.filesz, p.memsz)
    ensures IsLoadable(elf, i) <==> p.kind == 1 && p.memsz > 0
  {
    var at, fields := HeaderAt(elf, i), [p.kind, p.offset, p.vaddr, p.paddr, p.filesz, p.memsz, p.flags, p.align];
    Holds32s(elf, at, fields, 0);
    Holds32s(elf, at, fields, 1);
    Holds32s(elf, at, fields, 2);
    Holds32s(elf, at, fields, 4);
    Holds32s(elf, at, fields, 5);
  }

  // ------------------------------------------------------- a file is loaded

  /** The file has this header and, where it says, these program headers. */
  ghost predicate Encoded(elf: seq<Byte>, h: FileHeader, ps: seq<ProgramHeader>) {
    && ValidHeader(h) && Holds(elf, 0, EncodeHeader(h)) && |ps| == h.phnum
    && forall i | 0 <= i < |ps| :: Holds(elf, h.phoff + i * h.phentsize, EncodeProgram(ps[i]))
  }

  predicate Loadable(p: ProgramHeader) { p.kind == 1 && p.memsz > 0 }

  function SegmentOf(p: ProgramHeader): Segment { Segment(p.offset, p.vaddr, p.filesz, p.memsz) }

  /** The segments that are to be loaded, in order. */
  function LoadList(ps: seq<ProgramHeader>): seq<Segment> {
    if ps == [] then []
    else LoadList(ps[..|ps| - 1]) + if Loadable(ps[|ps| - 1]) then [SegmentOf(ps[|ps| - 1])] else []
  }

  lemma {:induction false} SegmentsDecode(elf: seq<Byte>, h: FileHeader, ps: seq<ProgramHeader>, n: nat)
    requires Encoded(elf, h, ps) && Complete(elf) && n <= |ps|
    ensures n <= HeaderCount(elf) && Segments(elf, n) == LoadList(ps[..n])
  {
    HeaderDecodes(elf, h);
    if n > 0 {
      SegmentsDecode(elf, h, ps, n - 1);
      assert HeaderAt(elf, n - 1) == h.phoff + (n - 1) * h.phentsize;
      ProgramDecodes(elf, n - 1, ps[n - 1]);
      assert ps[..n][..n - 1] == ps[..n - 1];
    }
  }

  /** For every file made of the two structs: the segments loaded are those its program
      headers of type 1 describe, and the entry point is the one of its header. */
  lemma FileDecodes(elf: seq<Byte>, h: FileHeader, ps: seq<ProgramHeader>)
    requires Encoded(elf, h, ps) && Complete(elf)
    ensures Entry(elf) == h.entry && Segments(elf, HeaderCount(elf)) == LoadList(ps)
    ensures IsExecutable(elf) <==> h.magic == [0x7F, 'E' as int, 'L' as int, 'F' as int] && h.kind == 2
  {
    HeaderDecodes(elf, h);
    SegmentsDecode(elf, h, ps, |ps|);
    assert ps[..|ps|] == ps;
  }

  /** Byte x of a segment in memory: from the file, and zero behind its file part. */
  ghost predicate ByteLoaded(m: Memory, elf: seq<Byte>, s: Segment, x: nat)
    requires s.offset + s.filesz <= |elf|
  {
    && (s.vaddr + x) / 4096 in m
    && At(m, s.vaddr + x) == if x < s.filesz then elf[s.offset + x] else 0
  }

  /** The memory that ElfLoad promises for such a file holds, byte by byte, every
      segment that shares no page with a later one. */
  lemma BytesLoaded(elf: seq<Byte>, h: FileHeader, ps: seq<ProgramHeader>, before: Memory, after: Memory,
                    held: seq<nat -> Page>, i: nat, x: nat)
    requires Encoded(elf, h, ps) && Complete(elf)
    requires RightImage(before, after, elf, Segments(elf, HeaderCount(elf)), held) == true
    requires i < |LoadList(ps)| && x < LoadList(ps)[i].memsz
    requires forall k | i < k < |LoadList(ps)| :: !SharePage(LoadList(ps)[i], LoadList(ps)[k])
    ensures LoadList(ps)[i].offset + LoadList(ps)[i].filesz <= |elf|
    ensures ByteLoaded(after, elf, LoadList(ps)[i], x)
  {
    FileDecodes(elf, h, ps);
    SegmentLoaded(elf, LoadList(ps), before, after, held, i, x);
  }

  lemma SegmentLoaded(elf: seq<Byte>, segs: seq<Segment>, before: Memory, after: Memory, held: seq<nat -> Page>, i: nat, x: nat)
    requires RightImage(before, after, elf, segs, held) == true && i < |segs| && x < segs[i].memsz
    requires forall k | i < k < |segs| :: !SharePage(segs[i], segs[k])
    ensures segs[i].offset + segs[i].filesz <= |elf| && ByteLoaded(after, elf, segs[i], x) == true
  {
    assert ValidSegment(elf, segs[i]) && Loaded(after, elf, segs[i]) == true;
    ByteOf(after, elf, segs[i], x);
  }

  lemma ByteOf(m: Memory, elf: seq<Byte>, s: Segment, x: nat)
    requires ValidSegment(elf, s) && Loaded(m, elf, s) == true && x < s.memsz
    ensures ByteLoaded(m, elf, s, x) == true
  {
    assert InSegment(s.vaddr + x, s);
    assert Image(elf, s)[x] == if x < s.filesz then elf[s.offset + x] else 0;
  }
}
