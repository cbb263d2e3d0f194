/** An unbounded paper terminal: what the text screen of
    kernel/drivers/vga_scroll.c would show if it never had to scroll. */
module Paper {
  import opened Bits

  const WIDTH: nat := 80
  const HEIGHT: nat := 25

  /** A character cell: glyph in the low byte, colour in the high byte. */
  function Cell(glyph: nat, color: nat): nat { Or(glyph, Shl(color, 8)) }

  function Glyph(cell: nat): nat { cell % 256 }

  function CellColor(cell: nat): nat { cell / 256 }

  lemma CellParts(glyph: nat, color: nat)
    requires glyph < 256
    ensures Glyph(Cell(glyph, color)) == glyph && CellColor(Cell(glyph, color)) == color
  {
    assert Pow2(8) == 256;
    OrCommutes(glyph, Shl(color, 8));
    OrDisjoint(color, glyph, 8);
    ShlIsTimes(color, 8);
    DivModUnique(256 * color + glyph, 256, color, glyph);
  }

  /** The cell of a character: char is signed and widened before the or, so that a
      character above 127 turns all colour bits on. */
  function CharCell(c: nat, color: nat): nat { if c < 128 then Cell(c, color) else 0xFF00 + c }

  type Row = r: seq<nat> | |r| == WIDTH witness seq(WIDTH, _ => 0)

  function BlankRow(color: nat): Row { seq(WIDTH, _ => Cell(32, color)) }

  ghost predicate IsBlank(r: Row) {
    forall i | 0 <= i < WIDTH :: Glyph(r[i]) == 32
  }

  datatype Sheet = Sheet(rows: seq<Row>, x: nat, y: nat, color: nat)

  /** The sheet is at least a screen long and the cursor is on its last screen. */
  predicate ValidSheet(p: Sheet) {
    HEIGHT <= |p.rows| && p.x < WIDTH && |p.rows| - HEIGHT <= p.y < |p.rows|
  }

  // -------------------------------------------------------------- operations

  datatype Op = Put(c: nat) | SetColor(fg: nat, bg: nat) | Clear

  const NEWLINE: nat := 10
  const RETURN: nat := 13
  const BACKSPACE: nat := 8

  function WriteAt(p: Sheet, x: nat, cell: nat): Sheet
    requires ValidSheet(p) && x < WIDTH
  {
    p.(rows := p.rows[p.y := p.rows[p.y][x := cell]])
  }

  /** To the start of the next line, taking a new one if there is none. */
  function Feed(p: Sheet): Sheet
    requires ValidSheet(p)
  {
    var q := p.(x := 0, y := p.y + 1);
    if q.y == |p.rows| then q.(rows := p.rows + [BlankRow(p.color)]) else q
  }

  function PutSheet(p: Sheet, c: nat): Sheet
    requires ValidSheet(p)
  {
    if c == NEWLINE then Feed(p)
    else if c == RETURN then p.(x := 0)
    else if c == BACKSPACE then
      if p.x > 0 then WriteAt(p, p.x - 1, Cell(32, p.color)).(x := p.x - 1) else p
    else
      var q := WriteAt(p, p.x, CharCell(c, p.color));
      if p.x + 1 == WIDTH then Feed(q) else q.(x := p.x + 1)
  }

  function ColorOf(fg: nat, bg: nat): nat { Or(Shl(bg, 4), fg) % 256 }

  function ClearSheet(color: nat): Sheet {
    Sheet(seq(HEIGHT, _ => BlankRow(color)), 0, 0, color)
  }

  function OpSheet(p: Sheet, op: Op): Sheet
    requires ValidSheet(p)
  {
    match op
    case Put(c) => PutSheet(p, c)
    case SetColor(fg, bg) => p.(color := ColorOf(fg, bg))
    case Clear => ClearSheet(p.color)
  }

  lemma OpValid(p: Sheet, op: Op)
    requires ValidSheet(p)
    ensures ValidSheet(OpSheet(p, op))
  {
  }

  function RunSheet(p: Sheet, ops: seq<Op>): (q: Sheet)
    requires ValidSheet(p)
    ensures ValidSheet(q)
    decreases ops
  {
    if ops == [] then p
    else
      OpValid(p, ops[0]);
      RunSheet(OpSheet(p, ops[0]), ops[1..])
  }

  /** A string as a stream of operations. */
  function Puts(str: seq<nat>): (ops: seq<Op>)
    ensures |ops| == |str| && forall i | 0 <= i < |str| :: ops[i] == Put(str[i])
  {
    seq(|str|, i requires 0 <= i < |str| => Put(str[i]))
  }

  // ------------------------------------------------------------- properties

  /** Rows below the cursor are blank. */
  ghost predicate BlankBelow(p: Sheet) {
    forall i | p.y < i < |p.rows| :: IsBlank(p.rows[i])
  }

  lemma BlankRowIsBlank(color: nat)
    ensures IsBlank(BlankRow(color))
  {
    CellParts(32, color);
  }

  lemma OpBlankBelow(p: Sheet, op: Op)
    requires ValidSheet(p) && BlankBelow(p)
    ensures BlankBelow(OpSheet(p, op))
  {
    BlankRowIsBlank(p.color);
  }

  /** Nothing that was printed above the cursor is ever touched again, and the
      sheet only grows: the cursor never goes back up. */
  ghost predicate Continues(p: Sheet, q: Sheet) {
    && p.y <= q.y < |q.rows| && |p.rows| <= |q.rows|
    && p.y < |p.rows|
    && forall i | 0 <= i < p.y :: q.rows[i] == p.rows[i]
  }

  lemma OpContinues(p: Sheet, op: Op)
    requires ValidSheet(p) && op != Clear
    ensures Continues(p, OpSheet(p, op))
  {
  }

  /** Over every stream of characters and colour changes. */
  lemma {:induction false} RunContinues(p: Sheet, ops: seq<Op>)
    requires ValidSheet(p) && BlankBelow(p) && Clear !in ops
    ensures Continues(p, RunSheet(p, ops)) && BlankBelow(RunSheet(p, ops))
    decreases ops
  {
    if ops != [] {
      var q := OpSheet(p, ops[0]);
      OpValid(p, ops[0]);
      OpContinues(p, ops[0]);
      OpBlankBelow(p, ops[0]);
      RunContinues(q, ops[1..]);
    }
  }

  lemma {:induction false} RunConcat(p: Sheet, a: seq<Op>, b: seq<Op>)
    requires ValidSheet(p)
    ensures RunSheet(p, a + b) == RunSheet(RunSheet(p, a), b)
    decreases a
  {
    if a == [] {
      assert a + b == b;
    } else {
      OpValid(p, a[0]);
      RunConcat(OpSheet(p, a[0]), a[1..], b);
      assert (a + b)[0] == a[0] && (a + b)[1..] == a[1..] + b;
    }
  }

  lemma RunSingle(p: Sheet, op: Op)
    requires ValidSheet(p)
    ensures RunSheet(p, [op]) == OpSheet(p, op)
  {
    OpValid(p, op);
    assert [op][1..] == [];
  }

  lemma RunOne(p: Sheet, ops: seq<Op>, op: Op)
    requires ValidSheet(p)
    ensures RunSheet(p, ops + [op]) == OpSheet(RunSheet(p, ops), op)
  {
    RunConcat(p, ops, [op]);
    RunSingle(RunSheet(p, ops), op);
  }

  // --------------------------------------------------------- where text goes

  predicate IsPlain(c: nat) { c != NEWLINE && c != RETURN && c != BACKSPACE }

  /** Cells are counted along the rows. */
  function Place(row: nat, column: nat): nat { WIDTH * row + column }

  /** A cell of q when text has been printed from the cursor of p on: a character of
      the text, and otherwise as it was, or blank on a new row. */
  predicate CellAfter(p: Sheet, text: seq<nat>, q: Sheet, row: nat, column: nat)
    requires row < |q.rows| && column < WIDTH
  {
    var start, here := Place(p.y, p.x), Place(row, column);
    q.rows[row][column] ==
    if start <= here < start + |text| then CharCell(text[here - start], p.color)
    else if row < |p.rows| then p.rows[row][column]
    else Cell(32, p.color)
  }

  /** The text is on the paper from the cursor of p on, wrapped at the right edge, the
      cursor is behind it, and every other cell is as it was. */
  ghost predicate LaidOut(p: Sheet, text: seq<nat>, q: Sheet) {
    && Place(q.y, q.x) == Place(p.y, p.x) + |text| && q.x < WIDTH && q.color == p.color
    && |p.rows| <= |q.rows|
    && forall row: nat, column: nat | row < |q.rows| && column < WIDTH :: CellAfter(p, text, q, row, column)
  }

  lemma SamePlace(row: nat, column: nat, row': nat, column': nat)
    requires column < WIDTH && column' < WIDTH
    ensures Place(row, column) == Place(row', column') <==> row == row' && column == column'
  {}

  lemma LayoutStep(p: Sheet, text: seq<nat>, q: Sheet, c: nat)
    requires ValidSheet(q) && LaidOut(p, text, q) && IsPlain(c)
    ensures LaidOut(p, text + [c], PutSheet(q, c))
  {
    var q', text' := PutSheet(q, c), text + [c];
    forall row: nat, column: nat | row < |q'.rows| && column < WIDTH
      ensures CellAfter(p, text', q', row, column)
    {
      SamePlace(row, column, q.y, q.x);
      if row < |q.rows| { assert CellAfter(p, text, q, row, column); }
    }
  }

  /** Printing text without control characters. */
  lemma {:induction false} TextLayout(p: Sheet, text: seq<nat>)
    requires ValidSheet(p) && forall k | 0 <= k < |text| :: IsPlain(text[k])
    ensures LaidOut(p, text, RunSheet(p, Puts(text)))
  {
    if text != [] {
      var n := |text| - 1;
      var init, q := text[..n], RunSheet(p, Puts(text[..n]));
      TextLayout(p, init);
      LayoutStep(p, init, q, text[n]);
      assert text == init + [text[n]];
      assert Puts(text) == Puts(init) + [Put(text[n])];
      RunOne(p, Puts(init), Put(text[n]));
    }
  }
}
