/** kernel/shell/shell_main.c as written: the key handler working on the screen,
    the history and the static line buffer.  It carries out the steps of module
    LineEditor. */
module Shell {
  import opened Text
  import opened Paper
  import opened Vga
  import opened LineEditor
  import opened Typing
  import History
  import Tokenizer
  import opened Commands

  lemma {:induction false} EraseSnoc(n: nat)
    ensures Erase(n + 1) == Erase(n) + [Put(BACKSPACE), Put(32), Put(BACKSPACE)]
  {
    if n > 0 {
      EraseSnoc(n - 1);
      var t := [Put(BACKSPACE), Put(32), Put(BACKSPACE)];
      assert Erase(n + 1) == t + Erase(n);
      assert t + (Erase(n - 1) + t) == (t + Erase(n - 1)) + t;
    }
  }

  /** Three more characters at the end of a stream. */
  lemma RunTriple(p: Sheet, ops: seq<Op>, a: nat, b: nat, c: nat)
    requires ValidSheet(p)
    ensures ValidSheet(PutSheet(RunSheet(p, ops), a))
    ensures ValidSheet(PutSheet(PutSheet(RunSheet(p, ops), a), b))
    ensures RunSheet(p, ops + [Put(a), Put(b), Put(c)]) == PutSheet(PutSheet(PutSheet(RunSheet(p, ops), a), b), c)
  {
    var q := RunSheet(p, ops);
    var t := [Put(a), Put(b), Put(c)];
    RunConcat(p, ops, t);
    OpValid(q, Put(a));
    var q1 := PutSheet(q, a);
    OpValid(q1, Put(b));
    var q2 := PutSheet(q1, b);
    OpValid(q2, Put(c));
    assert t[1..] == [Put(b), Put(c)] && t[1..][1..] == [Put(c)] && t[1..][1..][1..] == [];
    assert RunSheet(q, t) == RunSheet(q1, t[1..]);
    assert RunSheet(q1, t[1..]) == RunSheet(q2, t[1..][1..]);
  }

  predicate InBytes(out: seq<Op>) {
    forall i | 0 <= i < |out| && out[i].Put? :: out[i].c < 256
  }

  /** What each command prints. */
  type Outputs = Command -> seq<Op>

  ghost predicate AllInBytes(outs: Outputs) { forall c :: InBytes(outs(c)) }

  /** What the line prints: nothing without a word, else what its command does. */
  function Output(line: Str, outs: Outputs): seq<Op> {
    if Tokenizer.Words(line) == [] then [] else outs(Dispatch(Tokenizer.Words(line)))
  }

  /** The answer to a line: nothing to one of blanks and tabs, and to any other the
      output of the command that its first word names. */
  function Reply(line: Str, outs: Outputs): seq<Op> {
    WordsIffInk(line);
    if HasInk(line) then outs(Dispatch(Tokenizer.Words(line))) else []
  }

  /** What Enter prints: a newline, the answer to the line, and a prompt. */
  lemma EnterReplies(e: Editor, outs: Outputs)
    requires ValidEditor(e) && e.escape != 2
    ensures HandleKey(e, 10, Output(e.line, outs)).sheet ==
            RunSheet(e.sheet, [Put(10)] + Reply(e.line, outs) + PromptOps())
  {
    EnterPrints(e, Output(e.line, outs));
    WordsIffInk(e.line);
  }

  /** Stored commands fit into the line buffer. */
  ghost predicate Stored(log: History.Log) {
    GoodLog(log) && forall i | 0 <= i < |log.entries| :: |log.entries[i]| < MAX_COMMAND
  }

  lemma StoredAdd(log: History.Log, line: Str)
    requires Stored(log) && PrintableText(line) && 0 < |line| < MAX_COMMAND
    ensures Stored(History.AddLog(log, line))
  {}

  class ShellMain {
    const screen: Screen
    const history: History.CommandHistory
    const inputBuf: array<nat>
    var cmdPos: nat
    var escape: nat

    ghost predicate Apart()
      reads this
    {
      && inputBuf.Length == MAX_COMMAND
      && inputBuf as object != screen.buffer && inputBuf as object != history.history
      && screen.buffer as object != history.history
    }

    ghost predicate Valid()
      reads this, screen, screen.buffer, history, history.history, inputBuf
    {
      && Apart() && screen.Valid() && history.Valid()
      && cmdPos < MAX_COMMAND && escape <= 2
      && PrintableText(inputBuf[..cmdPos])
      && Stored(history.State()) == true
    }

    ghost function State(): Editor
      reads this, screen, screen.buffer, history, history.history, inputBuf
      requires Valid()
    {
      Editor(screen.sheet, history.State(), inputBuf[..cmdPos], escape)
    }

    /** The statics at start-up and shell_init, which prints a greeting and a prompt. */
    constructor (screen: Screen, history: History.CommandHistory, greeting: seq<Op>)
      requires screen.Valid() && history.Valid() && history.State() == History.EMPTY
      requires screen.buffer as object != history.history && InBytes(greeting)
      modifies screen, screen.buffer
      ensures Valid() && this.screen == screen && this.history == history && fresh(inputBuf)
      ensures State() == Editor(RunSheet(RunSheet(old(screen.sheet), greeting), PromptOps()), History.EMPTY, [], 0)
    {
      this.screen, this.history := screen, history;
      inputBuf := new nat[MAX_COMMAND](_ => 0);
      cmdPos, escape := 0, 0;
      new;
      Greet(greeting);
    }

    method Greet(greeting: seq<Op>)
      requires screen.Valid() && InBytes(greeting)
      modifies screen, screen.buffer
      ensures screen.Valid() && screen.sheet == RunSheet(RunSheet(old(screen.sheet), greeting), PromptOps())
    {
      Perform(greeting);
      PromptInBytes();
      Perform(PromptOps());
    }

    /** The loop that rubs out the line on screen. */
    method EraseLine()
      requires screen.Valid()
      modifies screen, screen.buffer
      ensures screen.Valid() && screen.sheet == RunSheet(old(screen.sheet), Erase(cmdPos))
    {
      for i := 0 to cmdPos
        invariant screen.Valid() && screen.sheet == RunSheet(old(screen.sheet), Erase(i))
      {
        EraseSnoc(i);
        RunTriple(old(screen.sheet), Erase(i), BACKSPACE, 32, BACKSPACE);
        screen.PutChar(BACKSPACE);
        screen.PutChar(32);
        screen.PutChar(BACKSPACE);
      }
    }

    /** strcpy into the line buffer. */
    method CopyIn(text: Str)
      requires |text| < inputBuf.Length
      modifies inputBuf
      ensures inputBuf[..|text|] == text && inputBuf[|text|] == 0
    {
      for i := 0 to |text|
        invariant inputBuf[..i] == text[..i]
      {
        inputBuf[i] := text[i];
      }
      inputBuf[|text|] := 0;
    }

    /** shell_handle_key; outs is what the commands print. */
    method PressKey(key: nat, outs: Outputs)
      requires Valid() && key < 256 && AllInBytes(outs)
      modifies this, screen, screen.buffer, history, history.history, inputBuf
      ensures Valid() && State() == HandleKey(old(State()), key, Output(old(State()).line, outs))
    {
      if escape == 1 {
        if key == BRACKET {
          escape := 2;
          return;
        }
        escape := 0;
      }
      if escape == 2 {
        escape := 0;
        Arrow(key);
        return;
      }
      Plain(key, outs);
    }

    /** The keys outside an escape sequence. */
    method Plain(key: nat, outs: Outputs)
      requires Valid() && key < 256 && AllInBytes(outs)
      modifies this, screen, screen.buffer, history, history.history, inputBuf
      ensures Valid() && State() == PlainKey(old(State()), key, Output(old(State()).line, outs))
    {
      if key == ESCAPE {
        escape := 1;
      } else if key == NEWLINE {
        Submit(outs);
      } else if key == BACKSPACE {
        if cmdPos > 0 {
          cmdPos := cmdPos - 1;
          screen.PutChar(BACKSPACE);
          assert inputBuf[..cmdPos] == old(inputBuf[..cmdPos])[..cmdPos];
        }
      } else if 32 <= key <= 126 && cmdPos < MAX_COMMAND - 1 {
        inputBuf[cmdPos] := key;
        cmdPos := cmdPos + 1;
        screen.PutChar(key);
        assert inputBuf[..cmdPos] == old(inputBuf[..cmdPos]) + [key];
      }
    }

    /** The arrow keys. */
    method Arrow(key: nat)
      requires Valid() && key < 256
      modifies this`cmdPos, screen, screen.buffer, history, inputBuf
      ensures Valid() && State() == ArrowKey(old(State()), key)
    {
      if key == UP {
        var prev := history.Previous();
        if prev != [] {
          Replace(prev);
        }
      } else if key == DOWN {
        var next := history.Following();
        Replace(next);
      }
    }

    /** Rubbing out the line and putting another in its place. */
    method Replace(text: Str)
      requires Valid() && PrintableText(text) && |text| < MAX_COMMAND
      modifies this`cmdPos, screen, screen.buffer, inputBuf
      ensures Valid() && State() == Recall(old(State()), old(State()).log, text)
    {
      ghost var p := screen.sheet;
      EraseLine();
      RunConcat(p, Erase(cmdPos), Puts(text));
      CopyIn(text);
      cmdPos := |text|;
      screen.WriteString(inputBuf[..cmdPos]);
    }

    /** Enter. */
    method Submit(outs: Outputs)
      requires Valid() && AllInBytes(outs)
      modifies this, screen, screen.buffer, history, history.history, inputBuf
      ensures Valid() && State() == Enter(old(State()), Output(old(State()).line, outs))
    {
      ghost var line := inputBuf[..cmdPos];
      inputBuf[cmdPos] := 0;
      screen.PutChar(NEWLINE);
      ProcessCommand(line, outs);
      cmdPos, escape := 0, 0;
    }

    /** shell_process_command on the line buffer. */
    method ProcessCommand(ghost line: Str, outs: Outputs)
      requires Apart() && screen.Valid() && history.Valid() && Stored(history.State()) && AllInBytes(outs)
      requires PrintableText(line) && |line| < MAX_COMMAND && inputBuf[..|line|] == line && inputBuf[|line|] == 0
      modifies screen, screen.buffer, history, history.history, inputBuf
      ensures screen.Valid() && history.Valid() && Stored(history.State()) == true
      ensures line == [] ==>
                screen.sheet == RunSheet(old(screen.sheet), PromptOps()) && history.State() == old(history.State())
      ensures line != [] ==>
                && screen.sheet == RunSheet(RunSheet(old(screen.sheet), Output(line, outs)), PromptOps())
                && history.State() == History.AddLog(old(history.State()), line)
    {
      TrimmedPrintable(line);
      HoldsLine(inputBuf[..], line);
      Tokenizer.TrimNewline(inputBuf, line);
      if inputBuf[0] != 0 {
        RunLine(line, outs);
      }
      PromptInBytes();
      Perform(PromptOps());
    }

    /** Recording, parsing and running a line that is not empty. */
    method RunLine(ghost line: Str, outs: Outputs)
      requires Apart() && screen.Valid() && history.Valid() && Stored(history.State()) && AllInBytes(outs)
      requires PrintableText(line) && 0 < |line| < MAX_COMMAND && Tokenizer.Cut(inputBuf[..], line, 0)
      modifies screen, screen.buffer, history, history.history, inputBuf
      ensures screen.Valid() && history.Valid() && Stored(history.State()) == true
      ensures screen.sheet == RunSheet(old(screen.sheet), Output(line, outs))
      ensures history.State() == History.AddLog(old(history.State()), line)
    {
      LineInBuffer(inputBuf[..], line);
      StoredAdd(history.State(), line);
      history.Add(Tokenizer.CString(inputBuf[..], 0));
      var argv := Tokenizer.ParseCommand(inputBuf, line);
      if |argv| > 0 {
        var command := Choose(inputBuf[..], line, argv);
        Perform(outs(command));
      }
    }

    /** A command printing its output. */
    method Perform(out: seq<Op>)
      requires screen.Valid() && InBytes(out)
      modifies screen, screen.buffer
      ensures screen.Valid() && screen.sheet == RunSheet(old(screen.sheet), out)
    {
      for i := 0 to |out|
        invariant screen.Valid() && screen.sheet == RunSheet(old(screen.sheet), out[..i])
      {
        RunOne(old(screen.sheet), out[..i], out[i]);
        assert out[..i + 1] == out[..i] + [out[i]];
        match out[i] {
          case Put(c) => screen.PutChar(c);
          case SetColor(fg, bg) => screen.SetColor(fg, bg);
          case Clear => screen.Clear();
        }
      }
      assert out[..|out|] == out;
    }
  }

  lemma PromptInBytes()
    ensures InBytes(PromptOps())
  {
    PromptText();
    ColoredInBytes(PROMPT_PARTS);
  }

  lemma {:induction false} ColoredInBytes(parts: seq<(nat, Str)>)
    requires forall i | 0 <= i < |parts| :: PrintableText(parts[i].1)
    ensures InBytes(ColoredOps(parts))
  {
    if parts != [] { ColoredInBytes(parts[1..]); }
  }

  lemma {:induction false} TrimmedPrintable(line: Str)
    requires PrintableText(line)
    ensures Tokenizer.Trimmed(line) == line
  {
    if line != [] { assert Printable(line[|line| - 1]); }
  }

  lemma HoldsLine(buf: seq<nat>, line: Str)
    requires |line| < |buf| && buf[..|line|] == line && buf[|line|] == 0 && PrintableText(line)
    ensures Tokenizer.Cut(buf, line, 0)
  {
    assert forall k | 0 <= k < |line| :: buf[k] == buf[..|line|][k];
  }

  lemma LineInBuffer(buf: seq<nat>, line: Str)
    requires Tokenizer.Cut(buf, line, 0)
    ensures Tokenizer.CString(buf, 0) == line
  {
    Tokenizer.CStringIs(buf, 0, |line|);
    assert buf[0..|line|] == line;
  }
}
