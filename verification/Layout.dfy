/** Where every stream of screen operations puts its characters, cell by cell: a
    description of the terminal by pen position and single cells that does not
    mention sheets. */
module Layout {
  import opened Bits
  import opened Paper

  /** Where the next character goes and in which colour, and how many rows there are. */
  datatype Pen = Pen(row: nat, column: nat, color: nat, rows: nat)

  function PenOf(p: Sheet): Pen { Pen(p.y, p.x, p.color, |p.rows|) }

  function MoveTo(pen: Pen, row: nat, column: nat): Pen {
    pen.(row := row, column := column, rows := if row < pen.rows then pen.rows else row + 1)
  }

  /** A newline goes to the start of the next row, a return to the start of this one, a
      backspace one column back but not over the left edge; any other character takes
      one column and goes on in the next row behind the right edge. */
  function PenAfter(pen: Pen, op: Op): Pen {
    match op
    case Put(c) =>
      if c == 10 then MoveTo(pen, pen.row + 1, 0)
      else if c == 13 then MoveTo(pen, pen.row, 0)
      else if c == 8 then MoveTo(pen, pen.row, if pen.column > 0 then pen.column - 1 else 0)
      else if pen.column == 79 then MoveTo(pen, pen.row + 1, 0)
      else MoveTo(pen, pen.row, pen.column + 1)
    case SetColor(fg, bg) => pen.(color := ColorOf(fg, bg))
    case Clear => Pen(0, 0, pen.color, 25)
  }

  /** What an operation leaves in a cell that held was: only a backspace and an ordinary
      character write, each into one cell, and a new row starts blank. */
  function CellAfterOp(pen: Pen, op: Op, row: nat, column: nat, was: nat): nat {
    match op
    case Put(c) =>
      if row >= pen.rows then Cell(32, pen.color)
      else if row != pen.row || c == 10 || c == 13 then was
      else if c == 8 then (if column + 1 == pen.column then Cell(32, pen.color) else was)
      else if column == pen.column then CharCell(c, pen.color)
      else was
    case SetColor(_, _) => was
    case Clear => Cell(32, pen.color)
  }

  function PenIn(p: Sheet, ops: seq<Op>): Pen {
    if ops == [] then PenOf(p) else PenAfter(PenIn(p, ops[..|ops| - 1]), ops[|ops| - 1])
  }

  function CellIn(p: Sheet, ops: seq<Op>, row: nat, column: nat): nat
    requires column < WIDTH
  {
    if ops == [] then (if row < |p.rows| then p.rows[row][column] else 0)
    else
      var n := |ops| - 1;
      CellAfterOp(PenIn(p, ops[..n]), ops[n], row, column, CellIn(p, ops[..n], row, column))
  }

  /** The sheet has exactly these cells. */
  ghost predicate HasCells(q: Sheet, p: Sheet, ops: seq<Op>) {
    forall row: nat, column: nat | row < |q.rows| && column < WIDTH :: q.rows[row][column] == CellIn(p, ops, row, column)
  }

  lemma OpPen(p: Sheet, op: Op)
    requires ValidSheet(p)
    ensures PenOf(OpSheet(p, op)) == PenAfter(PenOf(p), op)
  {}

  lemma OpCell(p: Sheet, op: Op, row: nat, column: nat)
    requires ValidSheet(p) && row < |OpSheet(p, op).rows| && column < WIDTH
    ensures OpSheet(p, op).rows[row][column] ==
            CellAfterOp(PenOf(p), op, row, column, if row < |p.rows| then p.rows[row][column] else 0)
  {}

  /** After every stream of operations the cursor, the colour and every single cell are
      as the description says. */
  lemma {:induction false} StreamLayout(p: Sheet, ops: seq<Op>)
    requires ValidSheet(p)
    ensures PenOf(RunSheet(p, ops)) == PenIn(p, ops) && HasCells(RunSheet(p, ops), p, ops)
  {
    if ops != [] {
      var n := |ops| - 1;
      var init, op := ops[..n], ops[n];
      var q := RunSheet(p, init);
      StreamLayout(p, init);
      assert ops == init + [op];
      RunOne(p, init, op);
      OpPen(q, op);
      forall row: nat, column: nat | row < |OpSheet(q, op).rows| && column < WIDTH
        ensures OpSheet(q, op).rows[row][column] == CellIn(p, ops, row, column)
      {
        OpCell(q, op, row, column);
      }
    }
  }

  /** What is printed after a colour has been set shows the foreground in the low and
      the background in the high half of the colour byte. */
  lemma PrintedColor(p: Sheet, fg: nat, bg: nat, c: nat)
    requires ValidSheet(p) && fg < 16 && bg < 16 && 32 <= c < 127
    ensures var q := PutSheet(OpSheet(p, SetColor(fg, bg)), c);
      p.y < |q.rows| && var cell := q.rows[p.y][p.x];
      Glyph(cell) == c && CellColor(cell) % 16 == fg && CellColor(cell) / 16 == bg
  {
    ColoredCell(fg, bg, c);
    PrintedCell(OpSheet(p, SetColor(fg, bg)), c);
  }

  lemma PrintedCell(p: Sheet, c: nat)
    requires ValidSheet(p) && 32 <= c < 127
    ensures p.y < |PutSheet(p, c).rows| && PutSheet(p, c).rows[p.y][p.x] == CharCell(c, p.color)
  {}

  lemma ColoredCell(fg: nat, bg: nat, c: nat)
    requires fg < 16 && bg < 16 && c < 128
    ensures var cell := CharCell(c, ColorOf(fg, bg));
      Glyph(cell) == c && CellColor(cell) % 16 == fg && CellColor(cell) / 16 == bg
  {
    var color := ColorOf(fg, bg);
    assert color == 16 * bg + fg by { Nibbles(fg, bg); }
    assert Glyph(Cell(c, color)) == c && CellColor(Cell(c, color)) == color by { CellParts(c, color); }
    DivModUnique(color, 16, bg, fg);
  }

  lemma Nibbles(fg: nat, bg: nat)
    requires fg < 16 && bg < 16
    ensures ColorOf(fg, bg) == 16 * bg + fg
  {
    assert Pow2(4) == 16;
    OrDisjoint(bg, fg, 4);
    ShlIsTimes(bg, 4);
  }
}
