/** The 80x25 text screen of kernel/drivers/vga_scroll.c with its in-place scroll:
    at all times it is the last screenful of an unbounded sheet of paper. */
module Vga {
  import opened Bits
  import opened Paper
  import opened Text

  /** Row r of the character buffer. */
  function RowOf(cells: seq<nat>, r: nat): Row
    requires |cells| == WIDTH * HEIGHT && r < HEIGHT
  {
    cells[WIDTH * r..WIDTH * r + WIDTH]
  }

  /** The buffer is the last screenful of the sheet. */
  ghost predicate Shows(cells: seq<nat>, rows: seq<Row>)
    requires |cells| == WIDTH * HEIGHT && HEIGHT <= |rows|
  {
    forall r: nat | r < HEIGHT :: RowOf(cells, r) == rows[|rows| - HEIGHT + r]
  }

  /** Storing one cell. */
  lemma ShowsWrite(cells: seq<nat>, rows: seq<Row>, y: nat, x: nat, cell: nat)
    requires |cells| == WIDTH * HEIGHT && HEIGHT <= |rows| && Shows(cells, rows)
    requires y < HEIGHT && x < WIDTH
    ensures var t := |rows| - HEIGHT + y;
      Shows(cells[WIDTH * y + x := cell], rows[t := rows[t][x := cell]])
  {
    var cells', t := cells[WIDTH * y + x := cell], |rows| - HEIGHT + y;
    forall r: nat | r < HEIGHT
      ensures RowOf(cells', r) == rows[t := rows[t][x := cell]][|rows| - HEIGHT + r]
    {
      assert RowOf(cells, r) == rows[|rows| - HEIGHT + r];
      if r == y {
        assert RowOf(cells', r) == RowOf(cells, r)[x := cell];
      } else {
        assert RowOf(cells', r) == RowOf(cells, r);
      }
    }
  }

  /** Moving every row up by one and blanking the last. */
  lemma ShowsScroll(cells: seq<nat>, cells': seq<nat>, rows: seq<Row>, blank: Row)
    requires |cells| == |cells'| == WIDTH * HEIGHT && HEIGHT <= |rows| && Shows(cells, rows)
    requires forall i | 0 <= i < WIDTH * (HEIGHT - 1) :: cells'[i] == cells[i + WIDTH]
    requires forall i | 0 <= i < WIDTH :: cells'[WIDTH * (HEIGHT - 1) + i] == blank[i]
    ensures Shows(cells', rows + [blank])
  {
    forall r: nat | r < HEIGHT
      ensures RowOf(cells', r) == (rows + [blank])[|rows| + 1 - HEIGHT + r]
    {
      if r < HEIGHT - 1 {
        assert RowOf(cells, r + 1) == rows[|rows| - HEIGHT + r + 1];
        assert RowOf(cells', r) == RowOf(cells, r + 1);
      } else {
        assert RowOf(cells', r) == blank;
      }
    }
  }

  /** The row of the screen the cursor of a sheet is on. */
  function CursorRow(p: Sheet): nat
    requires ValidSheet(p)
  {
    p.y - (|p.rows| - HEIGHT)
  }

  /** Between two screens the rows above the cursor only shifted, and the rows below
      the cursor are blank. */
  ghost predicate Shifted(cells: seq<nat>, cells': seq<nat>, p: Sheet, q: Sheet) {
    && |cells| == |cells'| == WIDTH * HEIGHT && ValidSheet(p) && ValidSheet(q) && |p.rows| <= |q.rows|
    && var scrolled := |q.rows| - |p.rows|;
    && (forall r | scrolled <= r < CursorRow(p) :: RowOf(cells', r - scrolled) == RowOf(cells, r))
    && (forall r | CursorRow(q) < r < HEIGHT :: IsBlank(RowOf(cells', r)))
  }

  lemma WindowShifts(cells: seq<nat>, cells': seq<nat>, p: Sheet, q: Sheet)
    requires |cells| == |cells'| == WIDTH * HEIGHT && ValidSheet(p) && ValidSheet(q)
    requires Shows(cells, p.rows) && Shows(cells', q.rows) && Continues(p, q) && BlankBelow(q)
    ensures Shifted(cells, cells', p, q) == true
  {
    var scrolled := |q.rows| - |p.rows|;
    forall r | scrolled <= r < CursorRow(p)
      ensures RowOf(cells', r - scrolled) == RowOf(cells, r)
    {
      assert RowOf(cells, r) == p.rows[|p.rows| - HEIGHT + r];
    }
  }

  /** Over every stream of characters and colour changes. */
  lemma RowsOnlyShift(cells: seq<nat>, cells': seq<nat>, p: Sheet, ops: seq<Op>)
    requires |cells| == |cells'| == WIDTH * HEIGHT && ValidSheet(p) && BlankBelow(p) && Clear !in ops
    requires Shows(cells, p.rows) && Shows(cells', RunSheet(p, ops).rows)
    ensures Shifted(cells, cells', p, RunSheet(p, ops)) == true
  {
    RunContinues(p, ops);
    WindowShifts(cells, cells', p, RunSheet(p, ops));
  }

  /** A character as the compiler widens it, cut to 16 bits. */
  function Widened(c: Byte): nat { if c < 128 then c else 0xFF00 + c }

  lemma WidenedCell(c: Byte, color: nat)
    requires color < 256
    ensures Or(Widened(c), Shl(color, 8)) % 0x1_0000 == CharCell(c, color)
  {
    if c < 128 { LowCell(c, color); } else { HighCell(0xFF00 + c, c, color); }
  }

  lemma LowCell(c: Byte, color: nat)
    requires color < 256
    ensures Cell(c, color) < 0x1_0000
  {
    CellParts(c, color);
  }

  /** The colour disappears in the bits that are on already. */
  lemma HighCell(x: nat, c: Byte, color: nat)
    requires color < 256 && x == 0xFF00 + c
    ensures Or(x, Shl(color, 8)) == x
  {
    assert Pow2(8) == 256;
    var y := Shl(color, 8);
    var z := Or(x, y);
    assert y / 256 == color && y % 256 == 0 by { ShlIsTimes(color, 8); }
    assert z / 256 == Or(x / 256, y / 256) && z % 256 == Or(x % 256, y % 256) by { OrParts(x, y); }
    assert z / 256 == 255 by { OrOnes(8, color); }
  }

  lemma OrParts(x: nat, y: nat)
    ensures Or(x, y) / 256 == Or(x / 256, y / 256) && Or(x, y) % 256 == Or(x % 256, y % 256)
  {
    assert Pow2(8) == 256;
    OrSplits(x, y, 8);
    ShrIsDivide(x, 8);
    ShrIsDivide(y, 8);
    ShrIsDivide(Or(x, y), 8);
    LowIsMod(x, 8);
    LowIsMod(y, 8);
    LowIsMod(Or(x, y), 8);
  }

  class Screen {
    const buffer: array<nat>
    var cursorX: nat
    var cursorY: nat
    var color: nat
    /** The sheet of paper printed so far. */
    ghost var sheet: Sheet

    ghost predicate Valid()
      reads this, buffer
    {
      && buffer.Length == WIDTH * HEIGHT
      && ValidSheet(sheet)
      && cursorX == sheet.x && cursorY == sheet.y - (|sheet.rows| - HEIGHT) && color == sheet.color < 256
      && Shows(buffer[..], sheet.rows) == true
    }

    /** vga_init, whatever the buffer held before. */
    constructor ()
      ensures Valid() && fresh(buffer) && sheet == OpSheet(ClearSheet(0x0F), Op.SetColor(0x0F, 0x00))
    {
      buffer := new nat[WIDTH * HEIGHT];
      cursorX, cursorY, color := 0, 0, 0x0F;
      sheet := ClearSheet(0x0F);
      new;
      ClearBuffer();
      SetColor(0x0F, 0x00);
    }

    /** vga_set_color */
    method SetColor(fg: nat, bg: nat)
      requires Valid()
      modifies this`color, this`sheet
      ensures Valid() && sheet == OpSheet(old(sheet), Op.SetColor(fg, bg))
    {
      color := Or(Shl(bg, 4), fg) % 256;
      sheet := OpSheet(sheet, Op.SetColor(fg, bg));
    }

    /** vga_scroll, when the cursor has left the last row: the sheet gets a new row. */
    method Scroll()
      requires buffer.Length == WIDTH * HEIGHT && HEIGHT <= |sheet.rows|
      requires Shows(buffer[..], sheet.rows) && color == sheet.color
      modifies this`cursorY, buffer
      ensures cursorY == HEIGHT - 1
      ensures Shows(buffer[..], sheet.rows + [BlankRow(color)])
    {
      ghost var was := buffer[..];
      for y := 1 to HEIGHT
        invariant forall i | 0 <= i < WIDTH * (y - 1) :: buffer[i] == was[i + WIDTH]
        invariant forall i | WIDTH * (y - 1) <= i < WIDTH * HEIGHT :: buffer[i] == was[i]
      {
        for x := 0 to WIDTH
          invariant forall i | 0 <= i < WIDTH * (y - 1) + x :: buffer[i] == was[i + WIDTH]
          invariant forall i | WIDTH * (y - 1) + x <= i < WIDTH * HEIGHT :: buffer[i] == was[i]
        {
          buffer[(y - 1) * WIDTH + x] := buffer[y * WIDTH + x];
        }
      }
      for x := 0 to WIDTH
        invariant forall i | 0 <= i < WIDTH * (HEIGHT - 1) :: buffer[i] == was[i + WIDTH]
        invariant forall i | WIDTH * (HEIGHT - 1) <= i < WIDTH * (HEIGHT - 1) + x :: buffer[i] == Cell(32, color)
      {
        buffer[(HEIGHT - 1) * WIDTH + x] := Cell(32, color);
      }
      cursorY := HEIGHT - 1;
      ShowsScroll(was, buffer[..], sheet.rows, BlankRow(color));
    }

    /** The loop of vga_clear. */
    method ClearBuffer()
      requires buffer.Length == WIDTH * HEIGHT
      modifies buffer
      ensures Shows(buffer[..], ClearSheet(color).rows)
    {
      for i := 0 to WIDTH * HEIGHT
        invariant forall j | 0 <= j < i :: buffer[j] == Cell(32, color)
      {
        buffer[i] := Cell(32, color);
      }
      forall r: nat | r < HEIGHT
        ensures RowOf(buffer[..], r) == BlankRow(color)
      {
      }
    }

    /** vga_clear */
    method Clear()
      requires Valid()
      modifies this, buffer
      ensures Valid() && sheet == OpSheet(old(sheet), Op.Clear)
    {
      ClearBuffer();
      cursorX, cursorY := 0, 0;
      sheet := ClearSheet(color);
    }

    /** Storing a cell in the row of the cursor. */
    method Store(x: nat, cell: nat)
      requires Valid() && x < WIDTH
      modifies this`sheet, buffer
      ensures Valid() && sheet == WriteAt(old(sheet), x, cell)
    {
      ghost var was := buffer[..];
      ShowsWrite(was, sheet.rows, cursorY, x, cell);
      buffer[cursorY * WIDTH + x] := cell;
      assert buffer[..] == was[WIDTH * cursorY + x := cell];
      sheet := WriteAt(sheet, x, cell);
    }

    /** vga_putchar; the hardware cursor is left out. */
    method PutChar(c: Byte)
      requires Valid()
      modifies this, buffer
      ensures Valid() && sheet == PutSheet(old(sheet), c)
      ensures c == 10 ==> cursorX == 0 && cursorY == if old(cursorY) < 24 then old(cursorY) + 1 else 24
      ensures c == 13 ==> cursorX == 0 && cursorY == old(cursorY)
      ensures c == 8 ==> cursorX == (if old(cursorX) > 0 then old(cursorX) - 1 else 0) && cursorY == old(cursorY)
    {
      ghost var p := sheet;
      var x, y := cursorX, cursorY;
      if c == NEWLINE {
        x, y := 0, y + 1;
      } else if c == RETURN {
        x := 0;
      } else if c == BACKSPACE {
        if x > 0 {
          x := x - 1;
          Store(x, Cell(32, color));
        }
      } else {
        WidenedCell(c, color);
        Store(x, Or(Widened(c), Shl(color, 8)) % 0x1_0000);
        x := x + 1;
      }
      if x >= WIDTH {
        x, y := 0, y + 1;
      }
      MoveTo(x, y);
    }

    /** The end of vga_putchar: the cursor moves, with a scroll when it leaves the screen. */
    method MoveTo(x: nat, y: nat)
      requires Valid() && x < WIDTH && (y == cursorY || (y == cursorY + 1 && x == 0))
      modifies this, buffer
      ensures Valid()
      ensures sheet == if y == old(cursorY) then old(sheet).(x := x) else Feed(old(sheet))
    {
      ghost var p := sheet;
      ghost var feeds := y == cursorY + 1;
      cursorX, cursorY := x, y;
      if cursorY >= HEIGHT {
        Scroll();
      }
      sheet := if feeds then Feed(p) else p.(x := x);
    }

    /** vga_writestring */
    method WriteString(str: seq<nat>)
      requires Valid() && forall i | 0 <= i < |str| :: str[i] < 256
      modifies this, buffer
      ensures Valid() && sheet == RunSheet(old(sheet), Puts(str))
    {
      for i := 0 to |str|
        invariant Valid() && sheet == RunSheet(old(sheet), Puts(str[..i]))
      {
        PutsStep(old(sheet), str[..i], str[i]);
        assert str[..i + 1] == str[..i] + [str[i]];
        PutChar(str[i]);
      }
      assert str[..|str|] == str;
    }
  }

  /** Writing one more character at the end of a string. */
  lemma PutsStep(p: Sheet, str: seq<nat>, c: nat)
    requires ValidSheet(p)
    ensures RunSheet(p, Puts(str + [c])) == PutSheet(RunSheet(p, Puts(str)), c)
  {
    assert Puts(str + [c]) == Puts(str) + [Put(c)];
    RunConcat(p, Puts(str), [Put(c)]);
    var q := RunSheet(p, Puts(str));
    OpValid(q, Put(c));
    assert [Put(c)][1..] == [];
  }
}
