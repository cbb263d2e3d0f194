/** What is typed at the shell of kernel/shell/shell_main.c is what is submitted: the
    line buffer and the history described by the keys alone. */
module Typing {
  import opened Text
  import opened Paper
  import opened LineEditor
  import History
  import Tokenizer

  /** Editing a line from left to right: a printable character is appended while there
      is room in the buffer, a backspace drops the last one, other keys do nothing. */
  function EditKey(line: Str, key: nat): Str {
    if key == 8 then (if line == [] then [] else line[..|line| - 1])
    else if 32 <= key <= 126 && |line| < 255 then line + [key]
    else line
  }

  /** The line being typed, and the lines submitted before it. */
  datatype Script = Script(line: Str, submitted: seq<Str>)

  /** The text after some keys: Enter submits a line that is not empty. */
  function ScriptOf(keys: seq<nat>): Script {
    if keys == [] then Script([], [])
    else
      var before, key := ScriptOf(keys[..|keys| - 1]), keys[|keys| - 1];
      if key != 10 then before.(line := EditKey(before.line, key))
      else Script([], before.submitted + if before.line == [] then [] else [before.line])
  }

  /** The editor holds that text: the line in its buffer, and of the lines submitted,
      behind those of before, the last 20 in its history. */
  ghost predicate HoldsScript(e: Editor, before: seq<Str>, text: Script) {
    && e.escape == 0 && e.line == text.line
    && e.log.entries == History.Last(before + text.submitted, 20)
  }

  lemma {:induction false} LastAppend(s: seq<Str>, x: Str, n: nat)
    requires n > 0
    ensures var t := History.Last(s, n);
      History.Last(s + [x], n) == if |t| < n then t + [x] else t[1..] + [x]
  {}

  lemma KeyTypes(e: Editor, before: seq<Str>, text: Script, key: nat, out: seq<Op>)
    requires ValidEditor(e) && HoldsScript(e, before, text) && key != 27
    ensures var line := if key == 10 then [] else EditKey(text.line, key);
      var submitted := if key == 10 && text.line != [] then text.submitted + [text.line] else text.submitted;
      HoldsScript(HandleKey(e, key, out), before, Script(line, submitted)) == true
  {
    if key == 10 && text.line != [] {
      LastAppend(before + text.submitted, text.line, 20);
      assert before + (text.submitted + [text.line]) == before + text.submitted + [text.line];
    }
  }

  /** Over every session without escape sequences, after each of its keys: the line
      buffer is the left-to-right edit of the keys since the last Enter, and the history
      is the lines so typed, in order, the last 20 of them. */
  lemma {:induction false} TypedIsSubmitted(trace: seq<Editor>, keys: seq<nat>, outs: seq<seq<Op>>, n: nat)
    requires IsSession(trace, keys, outs) && n <= |keys| && 27 !in keys
    requires trace[0].line == [] && trace[0].escape == 0 && |trace[0].log.entries| <= 20
    ensures HoldsScript(trace[n], trace[0].log.entries, ScriptOf(keys[..n])) == true
  {
    var before := trace[0].log.entries;
    if n == 0 {
      assert before + [] == before;
    } else {
      var i := n - 1;
      TypedIsSubmitted(trace, keys, outs, i);
      KeyTypes(trace[i], before, ScriptOf(keys[..i]), keys[i], outs[i]);
      assert Pressed(trace, keys, outs, i);
      assert keys[..n][..i] == keys[..i];
      assert ScriptOf(keys[..i]).submitted + [] == ScriptOf(keys[..i]).submitted;
    }
  }

  /** An escape that no bracket follows is as if it had not been pressed, and an escape
      sequence with another letter than those of up and down does nothing. */
  lemma EscapeElse(e: Editor, key: nat, out: seq<Op>)
    requires ValidEditor(e) && e.escape == 0
    ensures ValidEditor(HandleKey(e, 27, []))
    ensures key != 91 ==> HandleKey(HandleKey(e, 27, []), key, out) == HandleKey(e, key, out)
    ensures key != 65 && key != 66 ==> Typed(e, [27, 91, key]) == e
  {
    KeyValid(e, 27, []);
    assert e.(escape := 0) == e;
    if key != 65 && key != 66 {
      ArrowIsThreeKeys(e, [], key);
      assert [] + [27, 91, key] == [27, 91, key];
    }
  }

  /** A character that is not a blank, tab or newline. */
  predicate HasInk(line: Str) { exists i :: 0 <= i < |line| && line[i] != 32 && line[i] != 9 && line[i] != 10 }

  lemma {:induction false} WordsIffInk(line: Str)
    ensures Tokenizer.Words(line) != [] <==> HasInk(line)
  {
    if line != [] {
      if Tokenizer.Blank(line[0]) {
        WordsIffInk(line[1..]);
        if HasInk(line) {
          var i :| 0 <= i < |line| && line[i] != 32 && line[i] != 9 && line[i] != 10;
          assert line[1..][i - 1] == line[i];
        }
      } else {
        assert line[0] != 32;
      }
    }
  }

  /** What Enter puts on the screen: a newline, the output of the command if there is
      anything on the line, and a new prompt. */
  lemma EnterPrints(e: Editor, out: seq<Op>)
    requires ValidEditor(e)
    ensures e.escape != 2 ==>
      HandleKey(e, 10, out).sheet == RunSheet(e.sheet, [Put(10)] + (if HasInk(e.line) then out else []) + PromptOps())
  {
    var shown := if HasInk(e.line) then out else [];
    WordsIffInk(e.line);
    RunConcat(e.sheet, [Put(10)] + shown, PromptOps());
    RunConcat(e.sheet, [Put(10)], shown);
    RunSingle(e.sheet, Put(10));
  }
}
