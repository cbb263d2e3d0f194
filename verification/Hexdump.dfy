/** cmd_hexdump of kernel/shell/builtin_commands.c over the files of
    kernel/fs/initramfs.c: what it prints determines the file. */
module Hexdump {
  import opened Bits
  import opened Text

  datatype File = File(name: Str, data: seq<Byte>)

  const CHUNK: nat := 16
  const MAX_FILES: nat := 32

  // ------------------------------------------------------------------ output

  function HexDigit(n: nat): nat
    requires n < 16
  {
    if n < 10 then 48 + n else 55 + n
  }

  /** Columns i to e of the hex part: two digits and a blank for every byte,
      blanks where the chunk has ended. */
  function Columns(chunk: seq<Byte>, i: nat, e: nat): (s: Str)
    requires i <= e
    ensures |s| == 3 * (e - i) && 10 !in s
    decreases e - i, chunk
  {
    if i == e then []
    else
      (if i < |chunk| then [HexDigit(chunk[i] / 16), HexDigit(chunk[i] % 16)] else [32, 32]) + [32]
      + Columns(chunk, i + 1, e)
  }

  /** The bytes as characters, dots for what is not printable. */
  function AsText(chunk: seq<Byte>): (s: Str)
    ensures |s| == |chunk| && 10 !in s
  {
    if chunk == [] then [] else [if 32 <= chunk[0] <= 126 then chunk[0] else 46] + AsText(chunk[1..])
  }

  /** One line of the dump, without its newline. */
  function DumpLine(chunk: seq<Byte>): (s: Str)
    ensures 10 !in s
  {
    Columns(chunk, 0, 8) + [32] + Columns(chunk, 8, 16) + [124] + AsText(chunk) + [124]
  }

  function ChunkAt(data: seq<Byte>, offset: nat): (c: seq<Byte>)
    requires offset < |data|
    ensures 0 < |c| <= CHUNK
  {
    if offset + CHUNK <= |data| then data[offset..offset + CHUNK] else data[offset..]
  }

  function DumpFrom(data: seq<Byte>, offset: nat): Str
    decreases |data| - offset
  {
    if offset >= |data| then []
    else DumpLine(ChunkAt(data, offset)) + [10] + DumpFrom(data, offset + |ChunkAt(data, offset)|)
  }

  /** Everything cmd_hexdump prints for a file. */
  function DumpOf(data: seq<Byte>): Str { [10] + DumpFrom(data, 0) }

  // ---------------------------------------------------------------- decoding

  function HexValue(c: nat): nat {
    if 48 <= c < 58 then c - 48 else if 65 <= c < 71 then c - 55 else 0
  }

  /** Where the digits of byte i stand in a line. */
  function ColumnOf(i: nat): nat { if i < 8 then 3 * i else 3 * i + 1 }

  /** Reading the hex columns of a line from byte i on, up to the first empty one. */
  function ReadLine(line: Str, i: nat): seq<nat>
    decreases CHUNK - i
  {
    if i >= CHUNK || ColumnOf(i) + 1 >= |line| || line[ColumnOf(i)] == 32 then []
    else [16 * HexValue(line[ColumnOf(i)]) + HexValue(line[ColumnOf(i) + 1])] + ReadLine(line, i + 1)
  }

  function LineLength(t: Str): (n: nat)
    ensures n <= |t| && 10 !in t[..n] && (n < |t| ==> t[n] == 10)
  {
    if t == [] || t[0] == 10 then 0 else 1 + LineLength(t[1..])
  }

  /** Reading a dump line by line. */
  function ReadDump(t: Str): seq<nat>
    decreases |t|
  {
    if t == [] then []
    else
      var n := LineLength(t);
      ReadLine(t[..n], 0) + if n < |t| then ReadDump(t[n + 1..]) else []
  }

  // ---------------------------------------------------------------- inversion

  lemma {:induction false} ColumnAt(chunk: seq<Byte>, i: nat, e: nat, k: nat)
    requires i <= k < e
    ensures 3 * (k - i) + 2 < |Columns(chunk, i, e)|
    ensures k < |chunk| ==> Columns(chunk, i, e)[3 * (k - i)] == HexDigit(chunk[k] / 16)
                            && Columns(chunk, i, e)[3 * (k - i) + 1] == HexDigit(chunk[k] % 16)
    ensures k >= |chunk| ==> Columns(chunk, i, e)[3 * (k - i)] == 32 && Columns(chunk, i, e)[3 * (k - i) + 1] == 32
    ensures Columns(chunk, i, e)[3 * (k - i) + 2] == 32
    decreases e - i
  {
    if i < k { ColumnAt(chunk, i + 1, e, k); }
  }

  /** Byte k of the chunk, or its absence, can be read off the line. */
  ghost predicate Encodes(line: Str, chunk: seq<Byte>, k: nat) {
    && ColumnOf(k) + 1 < |line|
    && if k < |chunk|
       then line[ColumnOf(k)] != 32 && chunk[k] == 16 * HexValue(line[ColumnOf(k)]) + HexValue(line[ColumnOf(k) + 1])
       else line[ColumnOf(k)] == 32
  }

  lemma HexRoundTrip(b: Byte)
    ensures HexDigit(b / 16) != 32
    ensures 16 * HexValue(HexDigit(b / 16)) + HexValue(HexDigit(b % 16)) == b
  {
  }

  lemma LineEncodes(chunk: seq<Byte>, k: nat)
    requires k < CHUNK
    ensures Encodes(DumpLine(chunk), chunk, k)
  {
    ColumnChars(chunk, k);
    if k < |chunk| { HexRoundTrip(chunk[k]); }
  }

  /** The hex digits in order. */
  const DIGITS: Str := [48, 49, 50, 51, 52, 53, 54, 55, 56, 57, 65, 66, 67, 68, 69, 70]

  /** A line, character by character: byte k in two digits and a blank from column 3 k on,
      one column further right from byte 8 on, blanks for the bytes that are missing; then
      between bars every byte as it is if it is printable, and otherwise as a dot. */
  ghost predicate LineReads(line: Str, chunk: seq<Byte>) {
    && |line| == 51 + |chunk| && line[24] == 32 && line[49] == 124 && line[50 + |chunk|] == 124
    && (forall k | 0 <= k < 16 :: ColumnReads(line, chunk, k))
    && (forall k | 0 <= k < |chunk| :: TextReads(line, chunk, k))
  }

  predicate ColumnReads(line: Str, chunk: seq<Byte>, k: nat)
    requires |line| >= 51 && k < 16
  {
    var c := if k < 8 then 3 * k else 3 * k + 1;
    if k < |chunk| then line[c] == DIGITS[chunk[k] / 16] && line[c + 1] == DIGITS[chunk[k] % 16] && line[c + 2] == 32
    else line[c] == 32 && line[c + 1] == 32 && line[c + 2] == 32
  }

  predicate TextReads(line: Str, chunk: seq<Byte>, k: nat)
    requires |line| == 51 + |chunk| && k < |chunk|
  {
    line[50 + k] == if 32 <= chunk[k] <= 126 then chunk[k] else 46
  }

  lemma {:induction false} TextIs(chunk: seq<Byte>, k: nat)
    requires k < |chunk|
    ensures AsText(chunk)[k] == if 32 <= chunk[k] <= 126 then chunk[k] else 46
  {
    if k > 0 { TextIs(chunk[1..], k - 1); }
  }

  lemma InLeft(chunk: seq<Byte>, j: nat)
    requires j < 24
    ensures j < |DumpLine(chunk)| && DumpLine(chunk)[j] == Columns(chunk, 0, 8)[j]
  {
  }

  lemma InRight(chunk: seq<Byte>, j: nat)
    requires j < 24
    ensures 25 + j < |DumpLine(chunk)| && DumpLine(chunk)[25 + j] == Columns(chunk, 8, 16)[j]
  {
  }

  lemma ColumnLayout(chunk: seq<Byte>, k: nat)
    requires k < 16
    ensures |DumpLine(chunk)| >= 51 && ColumnReads(DumpLine(chunk), chunk, k)
  {
    ColumnChars(chunk, k);
    if k < |chunk| {
      DigitIs(chunk[k] / 16);
      DigitIs(chunk[k] % 16);
    }
  }

  /** The three characters of column k of a line. */
  lemma ColumnChars(chunk: seq<Byte>, k: nat)
    requires k < 16
    ensures |DumpLine(chunk)| >= 51
    ensures var line, c := DumpLine(chunk), if k < 8 then 3 * k else 3 * k + 1;
      && line[c + 2] == 32
      && (k < |chunk| ==> line[c] == HexDigit(chunk[k] / 16) && line[c + 1] == HexDigit(chunk[k] % 16))
      && (k >= |chunk| ==> line[c] == 32 && line[c + 1] == 32)
  {
    if k < 8 {
      ColumnAt(chunk, 0, 8, k);
      InLeft(chunk, 3 * k);
      InLeft(chunk, 3 * k + 1);
      InLeft(chunk, 3 * k + 2);
    } else {
      ColumnAt(chunk, 8, 16, k);
      InRight(chunk, 3 * (k - 8));
      InRight(chunk, 3 * (k - 8) + 1);
      InRight(chunk, 3 * (k - 8) + 2);
    }
  }

  lemma DigitIs(n: nat)
    requires n < 16
    ensures HexDigit(n) == DIGITS[n]
  {}

  lemma InText(chunk: seq<Byte>, k: nat)
    requires k < |chunk|
    ensures 50 + k < |DumpLine(chunk)| && DumpLine(chunk)[50 + k] == AsText(chunk)[k]
  {}

  lemma Bars(chunk: seq<Byte>)
    ensures var line := DumpLine(chunk);
      |line| == 51 + |chunk| && line[24] == 32 && line[49] == 124 && line[50 + |chunk|] == 124
  {}

  /** So reads every line of the dump. */
  lemma LineLayout(chunk: seq<Byte>)
    ensures LineReads(DumpLine(chunk), chunk)
  {
    Bars(chunk);
    forall k | 0 <= k < 16
      ensures ColumnReads(DumpLine(chunk), chunk, k)
    {
      ColumnLayout(chunk, k);
    }
    forall k | 0 <= k < |chunk|
      ensures TextReads(DumpLine(chunk), chunk, k)
    {
      InText(chunk, k);
      TextIs(chunk, k);
    }
  }

  /** Lines with a newline behind each. */
  function Unlines(lines: seq<Str>): Str {
    if lines == [] then [] else lines[0] + [10] + Unlines(lines[1..])
  }

  /** The bytes of line j. */
  function Piece(data: seq<Byte>, j: nat): seq<Byte>
    requires 16 * j < |data|
  {
    if 16 * j + 16 <= |data| then data[16 * j..16 * j + 16] else data[16 * j..]
  }

  ghost predicate LinesRead(lines: seq<Str>, data: seq<Byte>, first: nat) {
    forall j: nat | j < |lines| :: ReadsPiece(lines[j], data, first + j)
  }

  ghost predicate ReadsPiece(line: Str, data: seq<Byte>, j: nat) {
    16 * j < |data| && LineReads(line, Piece(data, j)) == true
  }

  lemma LinesCons(line: Str, rest: seq<Str>, data: seq<Byte>, first: nat)
    requires ReadsPiece(line, data, first) == true && LinesRead(rest, data, first + 1) == true
    ensures LinesRead([line] + rest, data, first) == true
    ensures Unlines([line] + rest) == line + [10] + Unlines(rest)
  {
    var lines := [line] + rest;
    assert lines[1..] == rest;
    forall j: nat | j < |lines|
      ensures ReadsPiece(lines[j], data, first + j)
    {
      if j > 0 { assert ReadsPiece(rest[j - 1], data, first + 1 + (j - 1)); }
    }
  }

  lemma FirstLine(data: seq<Byte>, first: nat)
    requires 16 * first < |data|
    ensures DumpFrom(data, 16 * first) == DumpLine(Piece(data, first)) + [10] + DumpFrom(data, 16 * (first + 1))
    ensures ReadsPiece(DumpLine(Piece(data, first)), data, first) == true
  {
    var chunk := Piece(data, first);
    LineLayout(chunk);
    assert chunk == ChunkAt(data, 16 * first);
    assert DumpFrom(data, 16 * first + |chunk|) == DumpFrom(data, 16 * (first + 1));
  }

  /** The lines are those of the data from piece first on. */
  ghost predicate IsLayout(t: Str, lines: seq<Str>, data: seq<Byte>, first: nat) {
    t == Unlines(lines) && LinesRead(lines, data, first) == true && 16 * (first + |lines|) >= |data|
  }

  lemma LayoutCons(t: Str, t': Str, line: Str, rest: seq<Str>, data: seq<Byte>, first: nat)
    requires t == line + [10] + t' && ReadsPiece(line, data, first) == true
    requires IsLayout(t', rest, data, first + 1) == true
    ensures IsLayout(t, [line] + rest, data, first) == true
  {
    LinesCons(line, rest, data, first);
  }

  lemma {:induction false} LayoutFrom(data: seq<Byte>, first: nat, t: Str) returns (lines: seq<Str>)
    requires t == DumpFrom(data, 16 * first)
    ensures IsLayout(t, lines, data, first) == true
    decreases |data| - 16 * first
  {
    if 16 * first >= |data| {
      lines := [];
    } else {
      var t', line := DumpFrom(data, 16 * (first + 1)), DumpLine(Piece(data, first));
      assert t == line + [10] + t' && ReadsPiece(line, data, first) == true by { FirstLine(data, first); }
      var rest := LayoutFrom(data, first + 1, t');
      LayoutCons(t, t', line, rest, data, first);
      lines := [line] + rest;
    }
  }

  /** The whole dump: an empty line, then one line for every 16 bytes. */
  lemma DumpLayout(data: seq<Byte>) returns (lines: seq<Str>)
    ensures DumpOf(data) == [10] + Unlines(lines) && |lines| == (|data| + 15) / 16
    ensures LinesRead(lines, data, 0)
  {
    lines := LayoutFrom(data, 0, DumpFrom(data, 0));
    if lines != [] { assert ReadsPiece(lines[|lines| - 1], data, 0 + (|lines| - 1)); }
  }

  lemma {:induction false} ReadLineInverts(line: Str, chunk: seq<Byte>, i: nat)
    requires i <= |chunk| <= CHUNK
    requires forall k | 0 <= k < CHUNK :: Encodes(line, chunk, k)
    ensures ReadLine(line, i) == chunk[i..]
    decreases CHUNK - i
  {
    if i < CHUNK {
      assert Encodes(line, chunk, i);
      if i < |chunk| {
        ReadLineInverts(line, chunk, i + 1);
        assert chunk[i..] == [chunk[i]] + chunk[i + 1..];
      }
    }
  }

  lemma ReadDumpLine(chunk: seq<Byte>)
    requires |chunk| <= CHUNK
    ensures ReadLine(DumpLine(chunk), 0) == chunk
  {
    forall k | 0 <= k < CHUNK
      ensures Encodes(DumpLine(chunk), chunk, k)
    {
      LineEncodes(chunk, k);
    }
    ReadLineInverts(DumpLine(chunk), chunk, 0);
    assert chunk[0..] == chunk;
  }

  lemma {:induction false} LineEndsAt(line: Str, rest: Str)
    requires 10 !in line
    ensures LineLength(line + [10] + rest) == |line|
  {
    var t := line + [10] + rest;
    if line != [] {
      LineEndsAt(line[1..], rest);
      assert t[1..] == line[1..] + [10] + rest;
      assert t[0] == line[0] && line[0] in line;
    }
  }

  lemma ReadFirstLine(line: Str, rest: Str)
    requires 10 !in line
    ensures ReadDump(line + [10] + rest) == ReadLine(line, 0) + ReadDump(rest)
  {
    var t := line + [10] + rest;
    LineEndsAt(line, rest);
    assert t[..|line|] == line && t[|line| + 1..] == rest;
  }

  lemma ChunkSplits(data: seq<Byte>, offset: nat)
    requires offset < |data|
    ensures offset + |ChunkAt(data, offset)| <= |data|
    ensures data[offset..] == ChunkAt(data, offset) + data[offset + |ChunkAt(data, offset)|..]
  {
  }

  /** The dump is invertible: reading its hex columns gives back the bytes. */
  lemma {:induction false} DumpInverts(data: seq<Byte>, offset: nat)
    requires offset <= |data|
    ensures ReadDump(DumpFrom(data, offset)) == data[offset..]
    decreases |data| - offset
  {
    if offset < |data| {
      var chunk := ChunkAt(data, offset);
      var next := offset + |chunk|;
      ChunkSplits(data, offset);
      DumpInverts(data, next);
      ReadDumpLine(chunk);
      ReadStep(DumpFrom(data, offset), DumpLine(chunk), DumpFrom(data, next), chunk, data[next..]);
    }
  }

  lemma ReadStep(t: Str, line: Str, rest: Str, chunk: seq<nat>, tail: seq<nat>)
    requires t == line + [10] + rest && 10 !in line && ReadLine(line, 0) == chunk && ReadDump(rest) == tail
    ensures ReadDump(t) == chunk + tail
  {
    ReadFirstLine(line, rest);
  }

  /** For every file: skipping the leading newline and reading the hex columns of
      what is printed gives back exactly the bytes of the file. */
  lemma HexdumpInvertible(data: seq<Byte>)
    ensures DumpOf(data) != [] && ReadDump(DumpOf(data)[1..]) == data
  {
    assert DumpOf(data)[1..] == DumpFrom(data, 0);
    DumpInverts(data, 0);
    assert data[0..] == data;
  }

  // ----------------------------------------------------------------- fs_read

  /** Number of bytes fs_read reports, with its wrapping 32-bit comparison. */
  function ReadCount(size: nat, offset: nat, len: nat): nat {
    if offset >= size then 0
    else if (offset + len) % WORD > size then size - offset
    else len
  }

  /** A read stays inside the file if and only if its end does not wrap. */
  lemma ReadInsideIff(size: nat, offset: nat, len: nat)
    requires offset < size < WORD && len < WORD
    ensures offset + ReadCount(size, offset, len) <= size <==> offset + len < WORD
  {
    Wrap(offset + len);
  }

  /** For instance the last 16 bytes of a file of 2^32 - 1: the read ends one byte
      behind it. */
  lemma ReadBehindFile(size: nat, offset: nat)
    requires size == 0xFFFF_FFFF && offset == 0xFFFF_FFF0
    ensures ReadCount(size, offset, 16) == 16 && offset + 16 == size + 1
  {
  }

  /** The offset of cmd_hexdump after n reads of 16 bytes. */
  function OffsetAfter(size: nat, n: nat): nat {
    if n == 0 then 0
    else (OffsetAfter(size, n - 1) + ReadCount(size, OffsetAfter(size, n - 1), CHUNK)) % WORD
  }

  lemma {:induction false} OffsetRises(size: nat, n: nat)
    requires size < WORD && CHUNK * n < size
    ensures OffsetAfter(size, n) == CHUNK * n
  {
    if n > 0 {
      OffsetRises(size, n - 1);
      Wrap(CHUNK * (n - 1) + CHUNK);
    }
  }

  /** Some read comes back empty, so that the loop ends ... */
  ghost predicate Ends(size: nat) {
    exists n: nat :: ReadCount(size, OffsetAfter(size, n), CHUNK) == 0
  }

  /** ... if and only if the file is at most 2^32 - 16 bytes long: beyond that the
      offset wraps around to zero and the dump starts over. */
  lemma EndsIff(size: nat)
    requires size < WORD
    ensures Ends(size) <==> size <= WORD - CHUNK
  {
    if size <= WORD - CHUNK {
      ShortFileEnds(size);
    } else {
      forall n: nat
        ensures ReadCount(size, OffsetAfter(size, n), CHUNK) != 0
      {
        LongFileWraps(size, n);
      }
    }
  }

  lemma ShortFileEnds(size: nat)
    requires size <= WORD - CHUNK
    ensures Ends(size)
  {
    if size == 0 {
      assert ReadCount(size, OffsetAfter(size, 0), CHUNK) == 0;
    } else {
      var n := (size - 1) / CHUNK;
      OffsetRises(size, n);
      Wrap(CHUNK * n + CHUNK);
      Wrap(size);
      assert OffsetAfter(size, n + 1) == size;
      assert ReadCount(size, OffsetAfter(size, n + 1), CHUNK) == 0;
    }
  }

  lemma {:induction false} LongFileWraps(size: nat, n: nat)
    requires WORD - CHUNK < size < WORD
    ensures OffsetAfter(size, n) % CHUNK == 0 && OffsetAfter(size, n) <= WORD - CHUNK
    ensures ReadCount(size, OffsetAfter(size, n), CHUNK) == CHUNK
  {
    if n > 0 {
      LongFileWraps(size, n - 1);
      LongFileStep(size, OffsetAfter(size, n - 1));
    }
    LongFileStep(size, OffsetAfter(size, n));
  }

  lemma LongFileStep(size: nat, o: nat)
    requires WORD - CHUNK < size < WORD && o % CHUNK == 0 && o <= WORD - CHUNK
    ensures ReadCount(size, o, CHUNK) == CHUNK
    ensures (o + CHUNK) % WORD % CHUNK == 0 && (o + CHUNK) % WORD <= WORD - CHUNK
  {
    Wrap(o + CHUNK);
  }

  // -------------------------------------------------------------- the methods

  /** Position of the first file with a name, or the number of files. */
  function Lookup(files: seq<File>, name: Str): (i: nat)
    ensures i <= |files| && (i < |files| ==> files[i].name == name)
    ensures forall k | 0 <= k < i :: files[k].name != name
  {
    if files == [] || files[0].name == name then 0 else 1 + Lookup(files[1..], name)
  }

  /** fs_open: the handle is one more than the position of the first file with
      the name, or 0. */
  method FsOpen(files: seq<File>, name: Str) returns (handle: nat)
    ensures handle == if Lookup(files, name) == |files| then 0 else Lookup(files, name) + 1
  {
    for i := 0 to |files|
      invariant forall k | 0 <= k < i :: files[k].name != name
    {
      var there := files[i].name;
      var j := 0;
      while j < |there| && j < |name| && there[j] == name[j]
        invariant j <= |there| && j <= |name| && there[..j] == name[..j]
      {
        j := j + 1;
      }
      if j == |there| && j == |name| {
        assert there[..j] == there && name[..j] == name;
        assert Lookup(files, name) == i;
        return i + 1;
      }
      assert there != name by { SameThenSame(there, name, j); }
    }
    return 0;
  }

  lemma SameThenSame(a: Str, b: Str, j: nat)
    requires j <= |a| && j <= |b| && a[..j] == b[..j]
    requires !(j == |a| && j == |b|) && !(j < |a| && j < |b| && a[j] == b[j])
    ensures a != b
  {
  }

  /** fs_read into the caller's buffer. */
  method FsRead(files: seq<File>, handle: nat, offset: nat, buf: array<Byte>, len: nat) returns (n: nat)
    requires len <= buf.Length && handle < WORD && |files| <= MAX_FILES
    requires 1 <= handle <= |files| && offset < |files[handle - 1].data| ==> offset + len < WORD
    modifies buf
    ensures n == if 1 <= handle <= |files| then ReadCount(|files[handle - 1].data|, offset, len) else 0
    ensures n <= len
    ensures 1 <= handle <= |files| ==>
      var size := |files[handle - 1].data|; n == if offset >= size then 0 else if len <= size - offset then len else size - offset
    ensures n > 0 ==> offset + n <= |files[handle - 1].data| && buf[..n] == files[handle - 1].data[offset..offset + n]
  {
    var idx := (handle - 1) % WORD;
    if idx >= |files| {
      return 0;
    }
    var f := files[idx];
    if offset >= |f.data| {
      return 0;
    }
    var toRead := len;
    Wrap(offset + toRead);
    if (offset + toRead) % WORD > |f.data| {
      toRead := |f.data| - offset;
    }
    for i := 0 to toRead
      invariant buf[..i] == f.data[offset..offset + i]
    {
      buf[i] := f.data[offset + i];
    }
    return toRead;
  }

  lemma Nibbles(b: Byte)
    ensures And(Shr(b, 4), 0xF) == b / 16 && And(b, 0xF) == b % 16
  {
    assert Pow2(4) == 16 by { Pow2Values(); }
    AndLow(Shr(b, 4), 4);
    ShrIsDivide(b, 4);
    AndLow(b, 4);
  }

  lemma {:induction false} ColumnsSnoc(chunk: seq<Byte>, i: nat, e: nat)
    requires i <= e
    ensures Columns(chunk, i, e + 1) == Columns(chunk, i, e) + Columns(chunk, e, e + 1)
    decreases e - i
  {
    if i < e {
      ColumnsSnoc(chunk, i + 1, e);
    } else {
      assert [] + Columns(chunk, e, e + 1) == Columns(chunk, e, e + 1);
    }
  }

  /** One of the two loops that print eight hex columns. */
  method PrintColumns(buf: array<Byte>, bytes: nat, first: nat, last: nat) returns (out: Str)
    requires buf.Length == CHUNK && bytes <= CHUNK && first <= last <= CHUNK
    ensures out == Columns(buf[..bytes], first, last)
  {
    out := [];
    for i := first to last
      invariant out == Columns(buf[..bytes], first, i)
    {
      ColumnsSnoc(buf[..bytes], first, i);
      if i < bytes {
        Nibbles(buf[i]);
        out := out + [HexDigit(And(Shr(buf[i], 4), 0xF)), HexDigit(And(buf[i], 0xF))];
      } else {
        out := out + [32, 32];
      }
      out := out + [32];
    }
  }

  /** The body of the loop of cmd_hexdump. */
  method PrintLine(buf: array<Byte>, bytes: nat) returns (out: Str)
    requires buf.Length == CHUNK && bytes <= CHUNK
    ensures out == DumpLine(buf[..bytes]) + [10]
  {
    var left := PrintColumns(buf, bytes, 0, 8);
    var right := PrintColumns(buf, bytes, 8, 16);
    var text: Str := [];
    for i := 0 to bytes
      invariant text == AsText(buf[..i])
    {
      TextSnoc(buf[..i], buf[i]);
      assert buf[..i + 1] == buf[..i] + [buf[i]];
      text := text + [if 32 <= buf[i] <= 126 then buf[i] else 46];
    }
    out := left + [32] + right + [124] + text + [124, 10];
    assert [124, 10] == [124] + [10];
  }

  lemma {:induction false} TextSnoc(chunk: seq<Byte>, b: Byte)
    ensures AsText(chunk + [b]) == AsText(chunk) + [if 32 <= b <= 126 then b else 46]
  {
    if chunk != [] {
      TextSnoc(chunk[1..], b);
      assert (chunk + [b])[1..] == chunk[1..] + [b];
    }
  }

  /** "File not found" and a newline */
  const NOT_FOUND: Str := [70, 105, 108, 101, 32, 110, 111, 116, 32, 102, 111, 117, 110, 100, 10]

  /** cmd_hexdump, returning the characters it prints. */
  method CmdHexdump(files: seq<File>, name: Str) returns (out: Str)
    requires |files| <= MAX_FILES
    requires forall i | 0 <= i < |files| :: |files[i].data| <= WORD - CHUNK
    ensures Lookup(files, name) == |files| ==> out == NOT_FOUND
    ensures Lookup(files, name) < |files| ==> out == DumpOf(files[Lookup(files, name)].data)
  {
    var file := FsOpen(files, name);
    if file == 0 {
      return NOT_FOUND;
    }
    out := PrintFile(files, file);
  }

  /** One read of the loop. */
  method ReadChunk(files: seq<File>, file: nat, offset: nat, buf: array<Byte>) returns (bytes: nat)
    requires 1 <= file <= |files| <= MAX_FILES && |files[file - 1].data| <= WORD - CHUNK
    requires buf.Length == CHUNK
    modifies buf
    ensures HasChunk(buf[..], bytes, files[file - 1].data, offset) == true
  {
    bytes := FsRead(files, file, offset, buf, CHUNK);
    Wrap(if offset < WORD then offset + CHUNK else 0);
  }

  method PrintFile(files: seq<File>, file: nat) returns (out: Str)
    requires 1 <= file <= |files| <= MAX_FILES && |files[file - 1].data| <= WORD - CHUNK
    ensures out == DumpOf(files[file - 1].data)
  {
    ghost var data := files[file - 1].data;
    var buf := new Byte[CHUNK];
    var offset := 0;
    out := [10];
    ghost var whole := DumpOf(data);
    var bytes := ReadChunk(files, file, offset, buf);
    while bytes > 0
      invariant offset <= |data| && HasChunk(buf[..], bytes, data, offset) == true
      invariant Remains(out, whole, data, offset) == true
      decreases |data| - offset
    {
      out := AppendLine(data, offset, buf, bytes, out, whole);
      offset := Advance(offset, bytes);
      bytes := ReadChunk(files, file, offset, buf);
    }
    assert DumpFrom(data, offset) == [];
  }

  /** The buffer holds the next chunk of the file, of no bytes at its end. */
  ghost predicate HasChunk(buf: seq<Byte>, bytes: nat, data: seq<Byte>, offset: nat) {
    && bytes <= |buf| && bytes == (if offset < |data| then |ChunkAt(data, offset)| else 0)
    && (bytes > 0 ==> buf[..bytes] == ChunkAt(data, offset))
  }

  /** What has been printed lacks the dump from an offset on. */
  ghost predicate Remains(out: Str, whole: Str, data: seq<Byte>, offset: nat) {
    out + DumpFrom(data, offset) == whole
  }

  method AppendLine(ghost data: seq<Byte>, ghost offset: nat, buf: array<Byte>, bytes: nat, out: Str, ghost whole: Str)
      returns (r: Str)
    requires buf.Length == CHUNK && bytes > 0 && HasChunk(buf[..], bytes, data, offset) == true
    requires Remains(out, whole, data, offset) == true
    ensures offset + bytes <= |data|
    ensures Remains(r, whole, data, offset + bytes) == true
  {
    var line := PrintLine(buf, bytes);
    DumpStep(data, offset, out, line);
    r := out + line;
  }

  /** The 32-bit addition that moves the offset. */
  method Advance(offset: nat, bytes: nat) returns (r: nat)
    requires offset + bytes < WORD
    ensures r == offset + bytes
  {
    Wrap(offset + bytes);
    r := (offset + bytes) % WORD;
  }

  lemma DumpStep(data: seq<Byte>, offset: nat, out: Str, line: Str)
    requires offset < |data| && line == DumpLine(ChunkAt(data, offset)) + [10]
    ensures offset + |ChunkAt(data, offset)| <= |data|
    ensures (out + line) + DumpFrom(data, offset + |ChunkAt(data, offset)|) == out + DumpFrom(data, offset)
  {
    var next := DumpFrom(data, offset + |ChunkAt(data, offset)|);
    assert DumpFrom(data, offset) == line + next;
    assert out + (line + next) == (out + line) + next;
  }
}
