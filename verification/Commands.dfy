/** The dispatch of shell_process_command in kernel/shell/shell_main.c: which
    command a line runs, and with which argument. */
module Commands {
  import opened Text
  import Tokenizer

  datatype Command =
    | Help | Clear | Reboot | Ls | Cat(file: Str) | Echo(text: Str) | Mem | Uptime | Uname
    | Hexdump(file: Str) | Date | Top | Unknown(word: Str)

  /** The characters of a literal. */
  function Name(s: string): Str { seq(|s|, i requires 0 <= i < |s| => s[i] as int) }

  /** The command for the words of a line; cat and hexdump need a second word. */
  function Dispatch(words: seq<Str>): Command
    requires words != []
  {
    var word, hasArg := words[0], |words| >= 2;
    if word == Name("help") then Help
    else if word == Name("clear") then Clear
    else if word == Name("reboot") then Reboot
    else if word == Name("ls") then Ls
    else if word == Name("cat") && hasArg then Cat(words[1])
    else if word == Name("echo") then Echo(if hasArg then words[1] else [])
    else if word == Name("mem") then Mem
    else if word == Name("uptime") then Uptime
    else if word == Name("uname") then Uname
    else if word == Name("hexdump") && hasArg then Hexdump(words[1])
    else if word == Name("date") then Date
    else if word == Name("top") then Top
    else Unknown(word)
  }

  /** The chain of comparisons on the arguments left in the buffer. */
  method Choose(buf: seq<nat>, ghost line: Str, argv: seq<nat>) returns (c: Command)
    requires Tokenizer.Parsed(buf, line, argv) && argv != []
    ensures Tokenizer.Words(line) != [] && c == Dispatch(Tokenizer.Words(line))
  {
    var word := Tokenizer.CString(buf, argv[0]);
    var arg := if |argv| >= 2 then Tokenizer.CString(buf, argv[1]) else [];
    if word == Name("help") { return Help; }
    if word == Name("clear") { return Clear; }
    if word == Name("reboot") { return Reboot; }
    if word == Name("ls") { return Ls; }
    if word == Name("cat") && |argv| >= 2 { return Cat(arg); }
    if word == Name("echo") { return Echo(arg); }
    if word == Name("mem") { return Mem; }
    if word == Name("uptime") { return Uptime; }
    if word == Name("uname") { return Uname; }
    if word == Name("hexdump") && |argv| >= 2 { return Hexdump(arg); }
    if word == Name("date") { return Date; }
    if word == Name("top") { return Top; }
    return Unknown(word);
  }

  /** The words that stand for a command on their own. */
  const PLAIN: seq<(string, Command)> := [
    ("help", Help), ("clear", Clear), ("reboot", Reboot), ("ls", Ls), ("mem", Mem),
    ("uptime", Uptime), ("uname", Uname), ("date", Date), ("top", Top)
  ]

  predicate IsPlain(word: Str) { exists i :: 0 <= i < |PLAIN| && word == Name(PLAIN[i].0) }

  /** All command words differ. */
  lemma NamesDiffer(a: string, b: string)
    requires a != b
    ensures Name(a) != Name(b)
  {
    if Name(a) == Name(b) {
      forall i | 0 <= i < |a|
        ensures a[i] == b[i]
      {
        assert Name(a)[i] == Name(b)[i];
      }
      assert false;
    }
  }

  /** A word of the table runs its command, whatever follows it. */
  lemma PlainDispatch(words: seq<Str>, i: nat)
    requires words != [] && i < |PLAIN| && words[0] == Name(PLAIN[i].0)
    ensures Dispatch(words) == PLAIN[i].1
  {
    forall other: string | other != PLAIN[i].0
      ensures words[0] != Name(other)
    {
      NamesDiffer(PLAIN[i].0, other);
    }
  }

  /** The other words: cat and hexdump run on their second word, echo with or without
      one; anything else is unknown. */
  lemma OtherDispatch(words: seq<Str>)
    requires words != [] && !IsPlain(words[0])
    ensures words[0] == Name("cat") && |words| >= 2 ==> Dispatch(words) == Cat(words[1])
    ensures words[0] == Name("hexdump") && |words| >= 2 ==> Dispatch(words) == Hexdump(words[1])
    ensures words[0] == Name("echo") ==> Dispatch(words) == Echo(if |words| >= 2 then words[1] else [])
    ensures words[0] == Name("cat") && |words| == 1 ==> Dispatch(words) == Unknown(words[0])
    ensures words[0] == Name("hexdump") && |words| == 1 ==> Dispatch(words) == Unknown(words[0])
    ensures words[0] != Name("cat") && words[0] != Name("hexdump") && words[0] != Name("echo") ==>
              Dispatch(words) == Unknown(words[0])
  {
    forall i | 0 <= i < |PLAIN|
      ensures words[0] != Name(PLAIN[i].0)
    {}
    NamesDiffer("cat", "echo");
    NamesDiffer("cat", "hexdump");
    NamesDiffer("echo", "hexdump");
    assert words[0] != Name(PLAIN[0].0) && words[0] != Name(PLAIN[1].0) && words[0] != Name(PLAIN[2].0);
    assert words[0] != Name(PLAIN[3].0) && words[0] != Name(PLAIN[4].0) && words[0] != Name(PLAIN[5].0);
    assert words[0] != Name(PLAIN[6].0) && words[0] != Name(PLAIN[7].0) && words[0] != Name(PLAIN[8].0);
  }
}
