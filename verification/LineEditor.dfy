/** The line editor of kernel/shell/shell_main.c between keyboard and screen: as
    long as the line fits, the screen shows the line buffer. */
module LineEditor {
  import opened Text
  import opened Paper
  import History
  import Tokenizer

  // ----------------------------------------------------------- lines of text

  predicate Printable(c: nat) { 32 <= c <= 126 }

  predicate PrintableText(s: Str) { forall i | 0 <= i < |s| :: Printable(s[i]) }

  function Blanks(n: nat): Str { seq(n, _ => 32) }

  /** The characters of a row. */
  function Glyphs(r: Row): (s: Str)
    ensures |s| == WIDTH
  {
    seq(WIDTH, i requires 0 <= i < WIDTH => Glyph(r[i]))
  }

  /** The cursor row reads text and then blanks, with the cursor behind the text
      and nothing but blank rows below. */
  ghost predicate Line(p: Sheet, text: Str)
  {
    && ValidSheet(p) && BlankBelow(p)
    && |text| < WIDTH && p.x == |text|
    && Glyphs(p.rows[p.y]) == text + Blanks(WIDTH - |text|)
  }

  lemma GlyphsWrite(r: Row, x: nat, glyph: nat, color: nat)
    requires x < WIDTH && glyph < 256
    ensures Glyphs(r[x := Cell(glyph, color)]) == Glyphs(r)[x := glyph]
  {
    CellParts(glyph, color);
  }

  /** Typing a character at the end of the line. */
  lemma TypeOne(p: Sheet, text: Str, c: nat)
    requires Line(p, text) && Printable(c) && |text| + 1 < WIDTH
    ensures Line(PutSheet(p, c), text + [c]) && PutSheet(p, c).y == p.y
  {
    var q := PutSheet(p, c);
    GlyphsWrite(p.rows[p.y], p.x, c, p.color);
    OpBlankBelow(p, Put(c));
    assert (text + Blanks(WIDTH - |text|))[|text| := c] == (text + [c]) + Blanks(WIDTH - |text| - 1);
  }

  /** Taking the last character back. */
  lemma EraseOne(p: Sheet, text: Str, c: nat)
    requires Line(p, text + [c])
    ensures Line(PutSheet(p, BACKSPACE), text) && PutSheet(p, BACKSPACE).y == p.y
  {
    var n := |text|;
    GlyphsWrite(p.rows[p.y], n, 32, p.color);
    OpBlankBelow(p, Put(BACKSPACE));
    assert (text + [c] + Blanks(WIDTH - n - 1))[n := 32] == text + Blanks(WIDTH - n);
  }

  lemma {:induction false} TypeText(p: Sheet, text: Str, s: Str)
    requires Line(p, text) && PrintableText(s) && |text| + |s| < WIDTH
    ensures Line(RunSheet(p, Puts(s)), text + s) && RunSheet(p, Puts(s)).y == p.y
    decreases s
  {
    if s == [] {
      assert text + s == text;
    } else {
      TypeOne(p, text, s[0]);
      assert Puts(s)[1..] == Puts(s[1..]);
      TypeText(PutSheet(p, s[0]), text + [s[0]], s[1..]);
      assert text + [s[0]] + s[1..] == text + s;
    }
  }

  /** The erase sequence of the history keys: back, blank, back for every character. */
  function Erase(n: nat): seq<Op> {
    if n == 0 then [] else [Put(BACKSPACE), Put(32), Put(BACKSPACE)] + Erase(n - 1)
  }

  lemma {:induction false} EraseText(p: Sheet, text: Str, s: Str)
    requires Line(p, text + s)
    ensures Line(RunSheet(p, Erase(|s|)), text) && RunSheet(p, Erase(|s|)).y == p.y
    decreases s
  {
    if s == [] {
      assert text + s == text;
    } else {
      var n := |s| - 1;
      var c, t := s[n], text + s[..n];
      assert text + s == t + [c];
      EraseOne(p, t, c);
      var p1 := PutSheet(p, BACKSPACE);
      TypeOne(p1, t, 32);
      var p2 := PutSheet(p1, 32);
      EraseOne(p2, t, 32);
      var p3 := PutSheet(p2, BACKSPACE);
      EraseText(p3, text, s[..n]);
      EraseUnfold(p, |s|);
    }
  }

  lemma EraseUnfold(p: Sheet, n: nat)
    requires n > 0 && ValidSheet(p)
    ensures ValidSheet(PutSheet(p, BACKSPACE))
    ensures ValidSheet(PutSheet(PutSheet(p, BACKSPACE), 32))
    ensures ValidSheet(PutSheet(PutSheet(PutSheet(p, BACKSPACE), 32), BACKSPACE))
    ensures RunSheet(p, Erase(n)) == RunSheet(PutSheet(PutSheet(PutSheet(p, BACKSPACE), 32), BACKSPACE), Erase(n - 1))
  {
    OpValid(p, Put(BACKSPACE));
    var p1 := PutSheet(p, BACKSPACE);
    OpValid(p1, Put(32));
    var p2 := PutSheet(p1, 32);
    OpValid(p2, Put(BACKSPACE));
    var ops := Erase(n);
    assert ops[1..] == [Put(32), Put(BACKSPACE)] + Erase(n - 1);
    assert ops[1..][1..] == [Put(BACKSPACE)] + Erase(n - 1);
    assert ops[1..][1..][1..] == Erase(n - 1);
    assert RunSheet(p, ops) == RunSheet(p1, ops[1..]);
    assert RunSheet(p1, ops[1..]) == RunSheet(p2, ops[1..][1..]);
  }

  // --------------------------------------------------------------- the prompt

  /** "[larch] $> " */
  const PROMPT: Str := [91, 108, 97, 114, 99, 104, 93, 32, 36, 62, 32]

  /** Pieces of text, each in a foreground colour on black. */
  function ColoredOps(parts: seq<(nat, Str)>): seq<Op> {
    if parts == [] then [] else [SetColor(parts[0].0, 0)] + Puts(parts[0].1) + ColoredOps(parts[1..])
  }

  function Joined(parts: seq<(nat, Str)>): Str {
    if parts == [] then [] else parts[0].1 + Joined(parts[1..])
  }

  const PROMPT_PARTS: seq<(nat, Str)> :=
    [(0x0C, [91]), (0x0B, [108, 97, 114, 99, 104]), (0x0C, [93]), (0x0A, [32, 36, 62, 32])]

  /** shell_prompt */
  function PromptOps(): seq<Op> { ColoredOps(PROMPT_PARTS) + [SetColor(0x0F, 0)] }

  /** A colour change does not move or change the line. */
  lemma Recolor(p: Sheet, text: Str, fg: nat, bg: nat)
    requires Line(p, text)
    ensures Line(RunSheet(p, [SetColor(fg, bg)]), text)
  {
    var op := SetColor(fg, bg);
    OpValid(p, op);
    assert [op][1..] == [];
    assert RunSheet(p, [op]) == OpSheet(p, op);
  }

  lemma PrintColored(p: Sheet, text: Str, fg: nat, s: Str)
    requires Line(p, text) && PrintableText(s) && |text| + |s| < WIDTH
    ensures Line(RunSheet(p, [SetColor(fg, 0)] + Puts(s)), text + s)
  {
    Recolor(p, text, fg, 0);
    RunConcat(p, [SetColor(fg, 0)], Puts(s));
    TypeText(RunSheet(p, [SetColor(fg, 0)]), text, s);
  }

  lemma {:induction false} PrintParts(p: Sheet, text: Str, parts: seq<(nat, Str)>)
    requires Line(p, text) && |text| + |Joined(parts)| < WIDTH
    requires forall i | 0 <= i < |parts| :: PrintableText(parts[i].1)
    ensures Line(RunSheet(p, ColoredOps(parts)), text + Joined(parts))
    decreases parts
  {
    if parts == [] {
      assert text + Joined(parts) == text;
    } else {
      var first := [SetColor(parts[0].0, 0)] + Puts(parts[0].1);
      PrintColored(p, text, parts[0].0, parts[0].1);
      RunConcat(p, first, ColoredOps(parts[1..]));
      PrintParts(RunSheet(p, first), text + parts[0].1, parts[1..]);
      assert text + parts[0].1 + Joined(parts[1..]) == text + Joined(parts);
    }
  }

  lemma PromptText()
    ensures Joined(PROMPT_PARTS) == PROMPT
    ensures forall i | 0 <= i < |PROMPT_PARTS| :: PrintableText(PROMPT_PARTS[i].1)
  {
    var parts: seq<(nat, Str)> := PROMPT_PARTS;
    assert parts[3..][1..] == [] && Joined(parts[3..]) == parts[3].1;
    assert parts[2..][1..] == parts[3..] && Joined(parts[2..]) == parts[2].1 + parts[3].1;
    assert parts[1..][1..] == parts[2..] && Joined(parts[1..]) == parts[1].1 + parts[2].1 + parts[3].1;
  }

  /** On an empty line the prompt comes out as the prompt. */
  lemma PromptPrints(p: Sheet)
    requires Line(p, [])
    ensures Line(RunSheet(p, PromptOps()), PROMPT)
  {
    PromptText();
    PrintParts(p, [], PROMPT_PARTS);
    assert [] + PROMPT == PROMPT;
    RunConcat(p, ColoredOps(PROMPT_PARTS), [SetColor(0x0F, 0)]);
    Recolor(RunSheet(p, ColoredOps(PROMPT_PARTS)), PROMPT, 0x0F, 0);
  }

  // ------------------------------------------------------------- the output

  /** Output of a command that ends at the start of a fresh line: its last
      character is a newline or it clears the screen; colours may change after. */
  predicate EndsLine(out: seq<Op>) {
    out == [] ||
    var last := out[|out| - 1];
    last == Put(NEWLINE) || last == Clear || (last.SetColor? && EndsLine(out[..|out| - 1]))
  }

  lemma NewLine(p: Sheet)
    requires ValidSheet(p) && BlankBelow(p)
    ensures Line(PutSheet(p, NEWLINE), [])
  {
    OpBlankBelow(p, Put(NEWLINE));
    BlankRowIsBlank(p.color);
    var q := PutSheet(p, NEWLINE);
    assert IsBlank(q.rows[q.y]);
    BlankGlyphs(q.rows[q.y]);
  }

  lemma BlankGlyphs(r: Row)
    requires IsBlank(r)
    ensures Glyphs(r) == [] + Blanks(WIDTH)
  {
    forall i | 0 <= i < WIDTH
      ensures Glyphs(r)[i] == 32
    {
      assert Glyph(r[i]) == 32;
    }
  }

  lemma ClearedLine(color: nat)
    ensures Line(ClearSheet(color), [])
  {
    BlankRowIsBlank(color);
    BlankGlyphs(BlankRow(color));
  }

  lemma {:induction false} RunBlankBelow(p: Sheet, ops: seq<Op>)
    requires ValidSheet(p) && BlankBelow(p)
    ensures BlankBelow(RunSheet(p, ops))
    decreases ops
  {
    if ops != [] {
      OpValid(p, ops[0]);
      OpBlankBelow(p, ops[0]);
      RunBlankBelow(OpSheet(p, ops[0]), ops[1..]);
    }
  }

  lemma {:induction false} OutputEndsLine(p: Sheet, out: seq<Op>)
    requires Line(p, []) && EndsLine(out)
    ensures Line(RunSheet(p, out), [])
    decreases out
  {
    if out != [] {
      var n := |out| - 1;
      var last := out[n];
      assert out == out[..n] + [last];
      RunConcat(p, out[..n], [last]);
      RunBlankBelow(p, out[..n]);
      var q := RunSheet(p, out[..n]);
      assert RunSheet(q, [last]) == OpSheet(q, last) by {
        OpValid(q, last);
        assert [last][1..] == [];
      }
      if last == Put(NEWLINE) {
        NewLine(q);
      } else if last == Clear {
        ClearedLine(q.color);
      } else {
        OutputEndsLine(p, out[..n]);
        Recolor(q, [], last.fg, last.bg);
      }
    }
  }

  // --------------------------------------------------------------- the editor

  const MAX_COMMAND: nat := 256
  const ESCAPE: nat := 27
  const BRACKET: nat := 91
  const UP: nat := 65
  const DOWN: nat := 66

  /** The screen, the history, the line typed so far (input_buf up to cmd_pos) and
      the state of the escape-key machine. */
  datatype Editor = Editor(sheet: Sheet, log: History.Log, line: Str, escape: nat)

  predicate ValidEditor(e: Editor) { ValidSheet(e.sheet) }

  /** Replacing the line on screen and in the buffer. */
  function Recall(e: Editor, log: History.Log, text: Str): Editor
    requires ValidEditor(e)
  {
    e.(sheet := RunSheet(e.sheet, Erase(|e.line|) + Puts(text)), log := log, line := text)
  }

  /** The third key of an escape sequence: 'A' for up, 'B' for down. */
  function ArrowKey(e: Editor, key: nat): Editor
    requires ValidEditor(e)
  {
    if key == UP then
      var log := History.PrevLog(e.log);
      if History.Shown(log) == [] then e.(log := log) else Recall(e, log, History.Shown(log))
    else if key == DOWN then
      var log := History.NextLog(e.log);
      Recall(e, log, History.Shown(log))
    else e
  }

  function Printed(line: Str, out: seq<Op>): seq<Op> { if Tokenizer.Words(line) == [] then [] else out }

  /** Enter: a line is put into the history and, if there is a word in it, run;
      then a new prompt is printed.  out is what the command prints. */
  function Enter(e: Editor, out: seq<Op>): Editor
    requires ValidEditor(e)
  {
    OpValid(e.sheet, Put(NEWLINE));
    var below := PutSheet(e.sheet, NEWLINE);
    if e.line == [] then Editor(RunSheet(below, PromptOps()), e.log, [], 0)
    else Editor(RunSheet(RunSheet(below, Printed(e.line, out)), PromptOps()), History.AddLog(e.log, e.line), [], 0)
  }

  function PlainKey(e: Editor, key: nat, out: seq<Op>): Editor
    requires ValidEditor(e)
  {
    if key == ESCAPE then e.(escape := 1)
    else if key == NEWLINE then Enter(e, out)
    else if key == BACKSPACE then
      if e.line == [] then e else e.(sheet := PutSheet(e.sheet, BACKSPACE), line := e.line[..|e.line| - 1])
    else if Printable(key) && |e.line| < MAX_COMMAND - 1 then e.(sheet := PutSheet(e.sheet, key), line := e.line + [key])
    else e
  }

  /** shell_handle_key */
  function HandleKey(e: Editor, key: nat, out: seq<Op>): Editor
    requires ValidEditor(e)
  {
    if e.escape == 1 && key == BRACKET then e.(escape := 2)
    else if e.escape == 2 then ArrowKey(e.(escape := 0), key)
    else PlainKey(e.(escape := 0), key, out)
  }

  // -------------------------------------------------- the screen shows the line

  /** Stored commands are printable and not empty. */
  ghost predicate GoodLog(log: History.Log) {
    History.ValidLog(log) && forall i | 0 <= i < |log.entries| :: PrintableText(log.entries[i]) && log.entries[i] != []
  }

  /** The cursor row reads the prompt, the line and then blanks. */
  ghost predicate Displays(e: Editor) {
    Line(e.sheet, PROMPT + e.line) == true && PrintableText(e.line) && GoodLog(e.log) == true
  }

  /** Longest line that fits behind the prompt. */
  const ROOM: nat := 68

  lemma DisplaysFits(e: Editor)
    requires Displays(e)
    ensures |e.line| <= ROOM
  {}

  lemma ShownGood(log: History.Log)
    requires GoodLog(log)
    ensures PrintableText(History.Shown(log))
  {}

  lemma RecallDisplays(e: Editor, log: History.Log, text: Str)
    requires Displays(e) && GoodLog(log) && PrintableText(text) && |text| <= ROOM
    ensures Displays(Recall(e, log, text))
  {
    EraseText(e.sheet, PROMPT, e.line);
    RunConcat(e.sheet, Erase(|e.line|), Puts(text));
    TypeText(RunSheet(e.sheet, Erase(|e.line|)), PROMPT, text);
  }

  lemma EnterDisplays(e: Editor, out: seq<Op>)
    requires Displays(e) && EndsLine(out)
    ensures Displays(Enter(e, out))
  {
    OpValid(e.sheet, Put(NEWLINE));
    var below := PutSheet(e.sheet, NEWLINE);
    assert Line(below, []) == true by { NewLine(e.sheet); }
    if e.line == [] {
      FreshPrompt(below);
    } else {
      assert Line(RunSheet(below, Printed(e.line, out)), []) == true by { OutputEndsLine(below, Printed(e.line, out)); }
      FreshPrompt(RunSheet(below, Printed(e.line, out)));
      AddGood(e.log, e.line);
    }
  }

  lemma AddGood(log: History.Log, line: Str)
    requires GoodLog(log) && PrintableText(line) && line != []
    ensures GoodLog(History.AddLog(log, line)) == true
  {
  }

  lemma FreshPrompt(p: Sheet)
    requires Line(p, []) == true
    ensures Line(RunSheet(p, PromptOps()), PROMPT + []) == true
  {
    PromptPrints(p);
    assert PROMPT + [] == PROMPT;
  }

  lemma PlainKeyDisplays(e: Editor, key: nat, out: seq<Op>)
    requires Displays(e) && (key == NEWLINE ==> EndsLine(out))
    requires Printable(key) ==> |e.line| < ROOM
    ensures Displays(PlainKey(e, key, out))
  {
    if key == NEWLINE {
      EnterDisplays(e, out);
    } else if key == BACKSPACE {
      if e.line != [] { BackspaceShows(e.sheet, e.line); }
    } else if key != ESCAPE && Printable(key) {
      CharacterShows(e.sheet, e.line, key);
    }
  }

  lemma BackspaceShows(p: Sheet, line: Str)
    requires line != [] && Line(p, PROMPT + line) == true
    ensures Line(PutSheet(p, BACKSPACE), PROMPT + line[..|line| - 1]) == true
  {
    var n := |line| - 1;
    assert PROMPT + line == PROMPT + line[..n] + [line[n]];
    EraseOne(p, PROMPT + line[..n], line[n]);
  }

  lemma CharacterShows(p: Sheet, line: Str, c: nat)
    requires Line(p, PROMPT + line) == true && Printable(c) && |line| < ROOM
    ensures Line(PutSheet(p, c), PROMPT + (line + [c])) == true
  {
    TypeOne(p, PROMPT + line, c);
    assert PROMPT + line + [c] == PROMPT + (line + [c]);
  }

  /** There is room for what the key puts on the line: a recalled command, or one
      more character. */
  predicate Fits(e: Editor, key: nat) {
    if e.escape == 1 && key == BRACKET then true
    else if e.escape == 2 then
      && (key == UP ==> |History.Shown(History.PrevLog(e.log))| <= ROOM)
      && (key == DOWN ==> |History.Shown(History.NextLog(e.log))| <= ROOM)
    else Printable(key) ==> |e.line| < ROOM
  }

  lemma ArrowDisplays(e: Editor, key: nat)
    requires Displays(e) == true
    requires key == UP ==> |History.Shown(History.PrevLog(e.log))| <= ROOM
    requires key == DOWN ==> |History.Shown(History.NextLog(e.log))| <= ROOM
    ensures Displays(ArrowKey(e, key)) == true
  {
    var log := if key == UP then History.PrevLog(e.log) else History.NextLog(e.log);
    ShownGood(log);
    if (key == UP && History.Shown(log) != []) || key == DOWN {
      RecallDisplays(e, log, History.Shown(log));
    }
  }

  /** Without room the line outgrows the row. */
  lemma NoRoom(e: Editor, key: nat, out: seq<Op>)
    requires Displays(e) && !Fits(e, key)
    ensures |HandleKey(e, key, out).line| > ROOM
  {
    DisplaysFits(e);
  }

  /** A key keeps screen and line together if and only if there is room for what it
      puts on the line. */
  lemma KeyDisplaysIff(e: Editor, key: nat, out: seq<Op>)
    requires Displays(e) && (key == NEWLINE ==> EndsLine(out))
    ensures Displays(HandleKey(e, key, out)) <==> Fits(e, key)
  {
    if !Fits(e, key) {
      NoRoom(e, key, out);
    } else if e.escape == 2 {
      ArrowDisplays(e.(escape := 0), key);
    } else if !(e.escape == 1 && key == BRACKET) {
      PlainKeyDisplays(e.(escape := 0), key, out);
    }
  }

  /** A session: keys pressed and what each command printed. */
  ghost predicate IsSession(trace: seq<Editor>, keys: seq<nat>, outs: seq<seq<Op>>) {
    && |trace| == |keys| + 1 && |outs| == |keys|
    && (forall k | 0 <= k < |trace| :: ValidEditor(trace[k]))
    && (forall k | 0 <= k < |keys| :: Pressed(trace, keys, outs, k))
  }

  /** Key k leads from state k to state k + 1. */
  ghost predicate Pressed(trace: seq<Editor>, keys: seq<nat>, outs: seq<seq<Op>>, k: nat)
    requires k < |keys| < |trace| && |outs| == |keys|
  {
    ValidEditor(trace[k]) && trace[k + 1] == HandleKey(trace[k], keys[k], outs[k])
  }

  /** Every key of a stretch of the session fits when it is pressed. */
  ghost predicate AllFit(trace: seq<Editor>, keys: seq<nat>, n: nat)
    requires n <= |keys| <= |trace|
  {
    forall k | 0 <= k < n :: Fits(trace[k], keys[k])
  }

  /** Over every session of typing, backspace, history recall and commands that end
      their last line, the screen shows the line buffer after each of the first n
      keys if and only if each of them fits when it is pressed. */
  lemma {:induction false} SessionDisplays(trace: seq<Editor>, keys: seq<nat>, outs: seq<seq<Op>>, n: nat)
    requires IsSession(trace, keys, outs) && Displays(trace[0]) && n <= |keys|
    requires forall k | 0 <= k < |outs| :: EndsLine(outs[k])
    ensures (forall k | 0 <= k <= n :: Displays(trace[k])) <==> AllFit(trace, keys, n)
  {
    if n > 0 {
      SessionDisplays(trace, keys, outs, n - 1);
      assert Pressed(trace, keys, outs, n - 1);
      if Displays(trace[n - 1]) { KeyDisplaysIff(trace[n - 1], keys[n - 1], outs[n - 1]); }
    }
  }

  /** The shell starts that way: a cleared screen, a banner that ends its line, a prompt. */
  lemma StartDisplays(color: nat, banner: seq<Op>)
    requires EndsLine(banner)
    ensures Displays(Editor(RunSheet(RunSheet(ClearSheet(color), banner), PromptOps()), History.EMPTY, [], 0))
  {
    ClearedLine(color);
    OutputEndsLine(ClearSheet(color), banner);
    PromptPrints(RunSheet(ClearSheet(color), banner));
    assert PROMPT + [] == PROMPT;
  }

  /** Enter submits what is shown: behind the prompt the row reads the line, and
      that line becomes the newest command of the history. */
  lemma EnterSubmitsShown(e: Editor, out: seq<Op>)
    requires Displays(e) && e.escape != 2 && e.line != []
    ensures ShownIsNewest(e, HandleKey(e, NEWLINE, out)) == true
  {
    DisplaysFits(e);
  }

  /** The row of the cursor reads the prompt, the newest command of the later history,
      and blanks. */
  ghost predicate ShownIsNewest(e: Editor, later: Editor) {
    var entries := later.log.entries;
    && ValidEditor(e) && entries != []
    && var newest := entries[|entries| - 1];
    |newest| <= ROOM && Glyphs(e.sheet.rows[e.sheet.y]) == PROMPT + newest + Blanks(WIDTH - |PROMPT| - |newest|)
  }

  /** So in a session whose keys fit, Enter outside an escape sequence submits exactly
      the text that the row shows behind the prompt. */
  lemma SessionSubmitsShown(trace: seq<Editor>, keys: seq<nat>, outs: seq<seq<Op>>, n: nat)
    requires IsSession(trace, keys, outs) && Displays(trace[0]) && n < |keys| && AllFit(trace, keys, n)
    requires forall k | 0 <= k < |outs| :: EndsLine(outs[k])
    requires keys[n] == NEWLINE && trace[n].escape != 2 && trace[n].line != []
    ensures ShownIsNewest(trace[n], trace[n + 1]) == true
  {
    SessionDisplays(trace, keys, outs, n);
    assert Displays(trace[n]);
    assert Pressed(trace, keys, outs, n);
    EnterSubmitsShown(trace[n], outs[n]);
  }

  // ------------------------------------------------------------- arrow keys

  lemma KeyValid(e: Editor, key: nat, out: seq<Op>)
    requires ValidEditor(e)
    ensures ValidEditor(HandleKey(e, key, out))
  {
    OpValid(e.sheet, Put(BACKSPACE));
    OpValid(e.sheet, Put(key));
  }

  /** The editor after a sequence of keys none of which is Enter. */
  function Typed(e: Editor, keys: seq<nat>): (r: Editor)
    requires ValidEditor(e)
    ensures ValidEditor(r)
  {
    if keys == [] then e
    else
      var n := |keys| - 1;
      KeyValid(Typed(e, keys[..n]), keys[n], []);
      HandleKey(Typed(e, keys[..n]), keys[n], [])
  }

  lemma TypedSnoc(e: Editor, keys: seq<nat>, key: nat)
    requires ValidEditor(e)
    ensures Typed(e, keys + [key]) == HandleKey(Typed(e, keys), key, [])
  {
    assert (keys + [key])[..|keys|] == keys;
  }

  /** The keys of k presses of an arrow key: escape, bracket and a letter each time. */
  function ArrowKeys(letter: nat, k: nat): seq<nat> {
    if k == 0 then [] else ArrowKeys(letter, k - 1) + [ESCAPE, BRACKET, letter]
  }

  /** Outside an escape sequence the three keys act as one. */
  lemma ArrowIsThreeKeys(e: Editor, keys: seq<nat>, letter: nat)
    requires ValidEditor(e) && Typed(e, keys).escape == 0
    ensures Typed(e, keys + [ESCAPE, BRACKET, letter]) == ArrowKey(Typed(e, keys), letter)
  {
    var r, k1 := Typed(e, keys), keys + [ESCAPE];
    var k2 := k1 + [BRACKET];
    assert Typed(e, k1) == r.(escape := 1) by { TypedSnoc(e, keys, ESCAPE); }
    assert Typed(e, k2) == r.(escape := 2) by { TypedSnoc(e, k1, BRACKET); }
    assert Typed(e, k2 + [letter]) == ArrowKey(r, letter) by {
      TypedSnoc(e, k2, letter);
      LetterKey(r, letter);
    }
    assert keys + [ESCAPE, BRACKET, letter] == k2 + [letter];
  }

  lemma LetterKey(r: Editor, letter: nat)
    requires ValidEditor(r) && r.escape == 0
    ensures HandleKey(r.(escape := 2), letter, []) == ArrowKey(r, letter)
  {
    assert r.(escape := 2).(escape := 0) == r;
  }

  /** The editor after k arrows taken as one step each. */
  function Arrows(e: Editor, letter: nat, k: nat): (r: Editor)
    requires ValidEditor(e)
    ensures ValidEditor(r)
  {
    if k == 0 then e else ArrowKey(Arrows(e, letter, k - 1), letter)
  }

  lemma ArrowsAreKeys(e: Editor, letter: nat, k: nat)
    requires ValidEditor(e) && e.escape == 0
    ensures Reaches(e, ArrowKeys(letter, k), Arrows(e, letter, k)) == true
  {
    ArrowsReach(e, letter, k, ArrowKeys(letter, k), Arrows(e, letter, k));
  }

  lemma {:induction false} ArrowsReach(e: Editor, letter: nat, k: nat, keys: seq<nat>, r: Editor)
    requires ValidEditor(e) && e.escape == 0
    requires keys == ArrowKeys(letter, k) && r == Arrows(e, letter, k)
    ensures Reaches(e, keys, r) == true
    decreases k
  {
    if k > 0 {
      var keys', r' := ArrowKeys(letter, k - 1), Arrows(e, letter, k - 1);
      ArrowsReach(e, letter, k - 1, keys', r');
      ReachesArrow(e, keys', r', letter);
    }
  }

  /** The keys lead to that editor, outside an escape sequence. */
  ghost predicate Reaches(e: Editor, keys: seq<nat>, r: Editor) {
    ValidEditor(e) && Typed(e, keys) == r && r.escape == 0
  }

  lemma ReachesArrow(e: Editor, keys: seq<nat>, r: Editor, letter: nat)
    requires ValidEditor(r) && Reaches(e, keys, r) == true
    ensures Reaches(e, keys + [ESCAPE, BRACKET, letter], ArrowKey(r, letter)) == true
  {
    ArrowIsThreeKeys(e, keys, letter);
  }

  /** Every stored command fits behind the prompt. */
  ghost predicate ShortLog(log: History.Log) {
    forall i | 0 <= i < |log.entries| :: |log.entries[i]| <= ROOM
  }

  /** The editor has this log and this line, and the screen shows it. */
  ghost predicate Has(e: Editor, log: History.Log, line: Str) {
    Displays(e) == true && e.log == log && e.line == line
  }

  lemma {:induction false} ArrowsDisplay(e: Editor, letter: nat, k: nat)
    requires Displays(e) == true && ShortLog(e.log) == true
    ensures Displays(Arrows(e, letter, k)) == true && Arrows(e, letter, k).log.entries == e.log.entries
  {
    if k > 0 {
      ArrowsDisplay(e, letter, k - 1);
      var before := Arrows(e, letter, k - 1);
      ShownShort(History.PrevLog(before.log));
      ShownShort(History.NextLog(before.log));
      ArrowDisplays(before, letter);
    }
  }

  lemma ShownShort(log: History.Log)
    requires ShortLog(log) == true
    ensures |History.Shown(log)| <= ROOM
  {}

  lemma {:induction false} UpRecalls(e: Editor, k: nat)
    requires ValidEditor(e) && e.log.entries != [] && e.log.index == |e.log.entries| && k > 0
    requires forall i | 0 <= i < |e.log.entries| :: e.log.entries[i] != []
    ensures var index, r := History.Max(|e.log.entries| - k, 0), Arrows(e, UP, k);
      r.log == e.log.(index := index) && r.line == e.log.entries[index]
  {
    if k > 1 { UpRecalls(e, k - 1); }
  }

  /** The position k commands nearer to the newest, at most the empty line behind it. */
  function Newer(log: History.Log, k: nat): nat
    requires 0 <= log.index
  {
    if log.index + k < |log.entries| then log.index + k else |log.entries|
  }

  lemma {:induction false} DownRecalls(e: Editor, k: nat)
    requires ValidEditor(e) && e.log.entries != [] && 0 <= e.log.index <= |e.log.entries| && 0 < k
    ensures var index, r := Newer(e.log, k), Arrows(e, DOWN, k);
      r.log == e.log.(index := index) && r.line == if index < |e.log.entries| then e.log.entries[index] else []
  {
    if k > 1 { DownRecalls(e, k - 1); }
  }

  /** From a fresh prompt, the keys of k presses of up put the k-th newest command into
      the line and on the screen, staying at the oldest. */
  lemma UpShowsKthNewest(e: Editor, k: nat)
    requires Displays(e) && e.escape == 0 && ShortLog(e.log) && k > 0
    requires e.log.entries != [] && e.log.index == |e.log.entries|
    ensures var index := History.Max(|e.log.entries| - k, 0);
      Has(Typed(e, ArrowKeys(UP, k)), e.log.(index := index), e.log.entries[index]) == true
  {
    ArrowsAreKeys(e, UP, k);
    ArrowsDisplay(e, UP, k);
    UpRecalls(e, k);
  }

  /** From any position, the keys of k presses of down put the command k places nearer to
      the newest on the screen, and beyond the newest the empty line, where they stay. */
  lemma DownShowsNewer(e: Editor, k: nat)
    requires Displays(e) && e.escape == 0 && ShortLog(e.log) && k > 0 && e.log.entries != []
    ensures 0 <= e.log.index
    ensures var index := Newer(e.log, k);
      Has(Typed(e, ArrowKeys(DOWN, k)), e.log.(index := index),
          if index < |e.log.entries| then e.log.entries[index] else []) == true
  {
    ArrowsAreKeys(e, DOWN, k);
    ArrowsDisplay(e, DOWN, k);
    DownRecalls(e, k);
  }

  /** Without stored commands up does nothing and down empties the line. */
  lemma NoHistory(e: Editor)
    requires Displays(e) && e.escape == 0 && e.log == History.EMPTY
    ensures Typed(e, ArrowKeys(UP, 1)) == e
    ensures Has(Typed(e, ArrowKeys(DOWN, 1)), e.log, []) == true
  {
    ArrowsAreKeys(e, UP, 1);
    ArrowsAreKeys(e, DOWN, 1);
    ArrowsDisplay(e, DOWN, 1);
    assert Arrows(e, UP, 0) == e && Arrows(e, DOWN, 0) == e;
  }

  /** The keys of k presses up and k down, for every k up to the number of stored
      commands, leave an empty line behind the prompt and the history as it was. */
  lemma UpThenDownClears(e: Editor, k: nat)
    requires Displays(e) && e.escape == 0 && ShortLog(e.log) && 0 < k <= |e.log.entries|
    requires e.log.index == |e.log.entries|
    ensures Has(Typed(Typed(e, ArrowKeys(UP, k)), ArrowKeys(DOWN, k)), e.log, []) == true
  {
    var up := Typed(e, ArrowKeys(UP, k));
    UpShowsKthNewest(e, k);
    ArrowsAreKeys(e, UP, k);
    DownShowsNewer(up, k);
  }

  /** One character too many: typing it and taking it back restores the line
      buffer but not the screen, which keeps the character and has moved the
      cursor to the next row. */
  lemma OverflowDesync(e: Editor, c: nat)
    requires Displays(e) && |e.line| == ROOM && e.escape == 0 && Printable(c)
    ensures var e' := HandleKey(HandleKey(e, c, []), BACKSPACE, []);
      && e'.line == e.line
      && e'.sheet.y == e.sheet.y + 1 && e'.sheet.x == 0
      && Glyphs(e'.sheet.rows[e.sheet.y]) == PROMPT + e.line + [c]
      && !Displays(e')
  {
    var e1 := HandleKey(e, c, []);
    GlyphsWrite(e.sheet.rows[e.sheet.y], e.sheet.x, c, e.sheet.color);
    assert (PROMPT + e.line + Blanks(1))[WIDTH - 1 := c] == PROMPT + e.line + [c];
    assert (e.line + [c])[..ROOM] == e.line;
  }
}
