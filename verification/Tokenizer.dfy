/** The command-line tokenizer of kernel/shell/shell_main.c, which cuts a
    NUL-terminated line into words in place. */
module Tokenizer {

  import opened Text

  const MAX_ARGS: nat := 16

  predicate Blank(c: nat) { c == 32 || c == 9 || c == 10 }

  // ---------------------------------------------------------- what words are

  /** Length of the word at the start of s. */
  function WordLength(s: Str): (n: nat)
    ensures n <= |s| && (forall i | 0 <= i < n :: !Blank(s[i])) && (n < |s| ==> Blank(s[n]))
  {
    if s == [] || Blank(s[0]) then 0 else 1 + WordLength(s[1..])
  }

  /** The maximal stretches without blanks, in order. */
  function Words(s: Str): seq<Str>
    decreases |s|
  {
    if s == [] then []
    else if Blank(s[0]) then Words(s[1..])
    else [s[..WordLength(s)]] + Words(s[WordLength(s)..])
  }

  /** The word that starts at position j. */
  function WordAt(s: Str, j: nat): Str
    requires j <= |s|
  {
    s[j..][..WordLength(s[j..])]
  }

  /** The characters of a line other than blank, tab and newline. */
  function Ink(s: Str): Str {
    if s == [] then [] else (if s[0] == 32 || s[0] == 9 || s[0] == 10 then [] else [s[0]]) + Ink(s[1..])
  }

  function Joined(words: seq<Str>): Str {
    if words == [] then [] else words[0] + Joined(words[1..])
  }

  lemma {:induction false} InkWord(s: Str, n: nat)
    requires n <= |s| && forall i | 0 <= i < n :: !Blank(s[i])
    ensures Ink(s) == s[..n] + Ink(s[n..])
  {
    if n == 0 {
      assert s[0..] == s;
    } else {
      InkWord(s[1..], n - 1);
      assert s[1..][n - 1..] == s[n..] && [s[0]] + s[1..][..n - 1] == s[..n];
    }
  }

  /** Splitting loses and adds nothing but blanks, tabs and newlines: put together, the
      words are the other characters of the line, in order. */
  lemma {:induction false} WordsKeepInk(s: Str)
    ensures Joined(Words(s)) == Ink(s)
    decreases |s|
  {
    if s != [] {
      if Blank(s[0]) {
        WordsKeepInk(s[1..]);
      } else {
        var n := WordLength(s);
        WordsKeepInk(s[n..]);
        InkWord(s, n);
        assert ([s[..n]] + Words(s[n..]))[1..] == Words(s[n..]);
      }
    }
  }

  predicate IsStart(s: Str, j: nat) {
    j < |s| && !Blank(s[j]) && (j == 0 || Blank(s[j - 1]))
  }

  /** The word starts before position n, and from position i on. */
  function StartsBefore(s: Str, n: nat): (r: seq<nat>)
    ensures forall k | 0 <= k < |r| :: r[k] < n && IsStart(s, r[k])
    ensures forall k, l | 0 <= k < l < |r| :: r[k] < r[l]
  {
    if n == 0 then []
    else StartsBefore(s, n - 1) + if IsStart(s, n - 1) then [n - 1] else []
  }

  function StartsFrom(s: Str, i: nat): (r: seq<nat>)
    requires i <= |s|
    ensures forall k | 0 <= k < |r| :: i <= r[k] < |s|
    decreases |s| - i
  {
    if i == |s| then []
    else (if IsStart(s, i) then [i] else []) + StartsFrom(s, i + 1)
  }

  lemma {:induction false} StartsSplit(s: Str, n: nat, zero: nat)
    requires n <= |s| && zero == 0
    ensures StartsBefore(s, n) + StartsFrom(s, n) == StartsFrom(s, zero)
  {
    if n > 0 {
      StartsSplit(s, n - 1, zero);
      var now := if IsStart(s, n - 1) then [n - 1] else [];
      Regroup(StartsBefore(s, n - 1), now, StartsFrom(s, n), StartsBefore(s, n), StartsFrom(s, n - 1));
    } else {
      assert [] + StartsFrom(s, n) == StartsFrom(s, n);
    }
  }

  lemma Regroup(a: seq<nat>, b: seq<nat>, c: seq<nat>, ab: seq<nat>, bc: seq<nat>)
    requires ab == a + b && bc == b + c
    ensures ab + c == a + bc
  {}

  lemma {:induction false} NoStartsInside(s: Str, i: nat, e: nat)
    requires i <= e <= |s| && forall k | i <= k < e :: !IsStart(s, k)
    ensures StartsFrom(s, i) == StartsFrom(s, e)
    decreases e - i
  {
    if i < e { NoStartsInside(s, i + 1, e); }
  }

  function WordsAt(s: Str, starts: seq<nat>): (r: seq<Str>)
    requires forall k | 0 <= k < |starts| :: starts[k] <= |s|
    ensures |r| == |starts| && forall k | 0 <= k < |r| :: r[k] == WordAt(s, starts[k])
  {
    if starts == [] then [] else [WordAt(s, starts[0])] + WordsAt(s, starts[1..])
  }

  /** From i on, the words are the words at the starts. */
  ghost predicate SplitFrom(s: Str, i: nat)
    requires i <= |s|
  {
    Words(s[i..]) == WordsAt(s, StartsFrom(s, i))
  }

  /** The words of a line are the words at its starts. */
  lemma {:induction false} WordsAtStarts(s: Str, i: nat)
    requires i <= |s| && (i == 0 || i == |s| || Blank(s[i - 1]) || Blank(s[i]))
    ensures SplitFrom(s, i) == true
    decreases |s| - i
  {
    if i == |s| {
      assert s[i..] == [];
    } else if Blank(s[i]) {
      WordsAtStarts(s, i + 1);
      BlankStep(s, i);
    } else {
      var e := WordEnd(s, i);
      WordsAtStarts(s, e);
      WordStep(s, i, e);
    }
  }

  lemma BlankStep(s: Str, i: nat)
    requires i < |s| && Blank(s[i]) && SplitFrom(s, i + 1) == true
    ensures SplitFrom(s, i) == true
  {
    var t := s[i..];
    assert t[1..] == s[i + 1..];
    assert StartsFrom(s, i) == StartsFrom(s, i + 1);
    assert Words(t) == Words(t[1..]);
  }

  /** Where the word at i ends. */
  function WordEnd(s: Str, i: nat): (e: nat)
    requires i < |s| && !Blank(s[i])
    ensures i < e <= |s| && e == i + WordLength(s[i..]) && (e < |s| ==> Blank(s[e]))
  {
    var t := s[i..];
    assert !Blank(t[0]) && forall k | 0 <= k < |t| :: t[k] == s[i + k];
    i + WordLength(t)
  }

  lemma WordStep(s: Str, i: nat, e: nat)
    requires IsStart(s, i) && e == i + WordLength(s[i..]) && SplitFrom(s, e) == true
    ensures SplitFrom(s, i) == true
  {
    WordsUnfold(s, i, e);
    StartsOfWord(s, i);
    WordsAtCons(s, i, StartsFrom(s, e));
  }

  lemma WordsUnfold(s: Str, i: nat, e: nat)
    requires i < |s| && !Blank(s[i]) && e == i + WordLength(s[i..])
    ensures Words(s[i..]) == [WordAt(s, i)] + Words(s[e..])
  {
    var t := s[i..];
    assert !Blank(t[0]) && t[e - i..] == s[e..];
  }

  lemma WordsAtCons(s: Str, i: nat, starts: seq<nat>)
    requires i <= |s| && forall k | 0 <= k < |starts| :: starts[k] <= |s|
    ensures WordsAt(s, [i] + starts) == [WordAt(s, i)] + WordsAt(s, starts)
  {
    assert ([i] + starts)[1..] == starts;
  }

  lemma StartsOfWord(s: Str, i: nat)
    requires IsStart(s, i)
    ensures StartsFrom(s, i) == [i] + StartsFrom(s, i + WordLength(s[i..]))
  {
    var n := WordLength(s[i..]);
    forall k | i <= k < i + n
      ensures !Blank(s[k])
    {
      assert s[i..][k - i] == s[k];
    }
    NoStartsInside(s, i + 1, i + n);
  }

  // ---------------------------------------------------------------- C strings

  /** The C string at position j of a buffer. */
  function CString(buf: seq<nat>, j: nat): Str
    decreases |buf| - j
  {
    if j >= |buf| || buf[j] == 0 then [] else [buf[j]] + CString(buf, j + 1)
  }

  /** A stretch without NUL that ends at a NUL is the C string there. */
  lemma {:induction false} CStringIs(buf: seq<nat>, j: nat, e: nat)
    requires j <= e < |buf| && buf[e] == 0 && forall k | j <= k < e :: buf[k] != 0
    ensures CString(buf, j) == buf[j..e]
    decreases e - j
  {
    if j < e { CStringIs(buf, j + 1, e); }
  }

  /** buf holds line and its NUL, with the blanks before position i overwritten by NUL. */
  ghost predicate Cut(buf: seq<nat>, line: Str, i: nat) {
    && i <= |line| < |buf| && buf[|line|] == 0
    && (forall k | 0 <= k < |line| :: line[k] != 0)
    && forall k | 0 <= k < |line| :: buf[k] == if k < i && Blank(line[k]) then 0 else line[k]
  }

  /** A word that is followed by a cut blank, or by the end of the line, is a C string. */
  lemma WordIsCString(buf: seq<nat>, line: Str, i: nat, j: nat)
    requires Cut(buf, line, i) && j < |line|
    requires i == |line| || j + WordLength(line[j..]) < i
    ensures CString(buf, j) == WordAt(line, j)
  {
    var e := j + WordLength(line[j..]);
    assert forall k | j <= k < e :: line[k] == line[j..][k - j];
    assert e < |line| ==> Blank(line[j..][e - j]);
    CStringIs(buf, j, e);
    assert buf[j..e] == line[j..e];
  }

  /** From position i on nothing has been cut. */
  lemma RestIsCString(buf: seq<nat>, line: Str, i: nat, j: nat)
    requires Cut(buf, line, i) && i <= j + 1 && j < |line| && !Blank(line[j])
    ensures CString(buf, j) == line[j..]
  {
    CStringIs(buf, j, |line|);
    assert buf[j..|line|] == line[j..];
  }

  /** A later start lies behind the end of an earlier word. */
  lemma WordEndsBefore(s: Str, j: nat, l: nat)
    requires j < l && IsStart(s, j) && IsStart(s, l)
    ensures j + WordLength(s[j..]) < l
  {
    var n := WordLength(s[j..]);
    assert s[j..][l - 1 - j] == s[l - 1];
  }

  // -------------------------------------------------------------- the methods

  /** What parse_command promises: the first 15 words come out exactly, each
      NUL-terminated; a sixteenth entry is the untouched rest of the line. */
  ghost predicate Parsed(buf: seq<nat>, line: Str, argv: seq<nat>) {
    var words := Words(line);
    && |argv| == (if |words| < 16 then |words| else 16)
    && (forall k | 0 <= k < |argv| :: IsStart(line, argv[k]) && WordAt(line, argv[k]) == words[k])
    && (forall k | 0 <= k < |argv| && k < 15 :: CString(buf, argv[k]) == words[k])
    && (|argv| == 16 ==> CString(buf, argv[15]) == line[argv[15]..])
  }

  /** The state of the loop of parse_command at position i. */
  ghost predicate Scanned(buf: seq<nat>, line: Str, i: nat, argv: seq<nat>, inWord: bool) {
    && Cut(buf, line, i) && argv == StartsBefore(line, i) && |argv| <= MAX_ARGS
    && inWord == (i > 0 && !Blank(line[i - 1]))
    && (|argv| == MAX_ARGS ==> argv[MAX_ARGS - 1] == i - 1)
  }

  lemma ScanStep(buf: seq<nat>, line: Str, i: nat, argv: seq<nat>, inWord: bool)
    requires Scanned(buf, line, i, argv, inWord) && i < |line| && |argv| < MAX_ARGS
    ensures buf[i] == line[i] != 0
    ensures Blank(line[i]) ==> Scanned(buf[i := 0], line, i + 1, argv, false) == true
    ensures !Blank(line[i]) ==> Scanned(buf, line, i + 1, if inWord then argv else argv + [i], true) == true
  {
  }

  lemma ParseDone(buf: seq<nat>, line: Str, i: nat, argv: seq<nat>, inWord: bool)
    requires Scanned(buf, line, i, argv, inWord) && (i == |line| || |argv| == MAX_ARGS)
    ensures Parsed(buf, line, argv) == true
  {
    ArgsAreWords(line, i, argv);
    forall k | 0 <= k < |argv| && k < MAX_ARGS - 1
      ensures CString(buf, argv[k]) == WordAt(line, argv[k])
    {
      ArgIsCString(buf, line, i, argv, k);
    }
    if |argv| == MAX_ARGS { RestIsCString(buf, line, i, i - 1); }
  }

  lemma ArgsAreWords(line: Str, i: nat, argv: seq<nat>)
    requires i <= |line| && argv == StartsBefore(line, i)
    ensures |argv| <= |Words(line)| && (i == |line| ==> |argv| == |Words(line)|)
    ensures forall k | 0 <= k < |argv| :: WordAt(line, argv[k]) == Words(line)[k]
  {
    var all := StartsFrom(line, 0);
    assert all == argv + StartsFrom(line, i) by { StartsSplit(line, i, 0); }
    assert Words(line) == WordsAt(line, all) by {
      WordsAtStarts(line, 0);
      assert line[0..] == line && SplitFrom(line, 0);
    }
  }

  lemma ArgIsCString(buf: seq<nat>, line: Str, i: nat, argv: seq<nat>, k: nat)
    requires Cut(buf, line, i) && argv == StartsBefore(line, i) && k < |argv|
    requires i == |line| || k + 1 < |argv|
    ensures CString(buf, argv[k]) == WordAt(line, argv[k])
  {
    if k + 1 < |argv| { WordEndsBefore(line, argv[k], argv[k + 1]); }
    WordIsCString(buf, line, i, argv[k]);
  }

  /** One character of the loop of parse_command. */
  method ScanOne(input: array<nat>, ghost line: Str, i: nat, before: seq<nat>, was: bool)
      returns (argv: seq<nat>, inWord: bool)
    requires i < |line| < input.Length && |before| < MAX_ARGS && Scanned(input[..], line, i, before, was) == true
    modifies input
    ensures Scanned(input[..], line, i + 1, argv, inWord) == true
    ensures input[|line|..] == old(input[|line|..])
  {
    argv, inWord := before, was;
    ghost var text := input[..];
    ScanStep(text, line, i, argv, inWord);
    if input[i] == 32 || input[i] == 9 || input[i] == 10 {
      input[i] := 0;
      inWord := false;
      assert input[..] == text[i := 0];
    } else if !inWord {
      argv := argv + [i];
      inWord := true;
    }
  }

  /** parse_command on a buffer that holds line and its NUL; argv are offsets. */
  method ParseCommand(input: array<nat>, ghost line: Str) returns (argv: seq<nat>)
    requires Cut(input[..], line, 0)
    modifies input
    ensures Parsed(input[..], line, argv) == true
    ensures |line| < input.Length && input[|line|..] == old(input[|line|..])
  {
    argv := [];
    var inWord := false;
    var i := 0;
    while input[i] != 0 && |argv| < MAX_ARGS
      invariant i <= |line| < input.Length && input[..][|line|] == 0
      invariant Scanned(input[..], line, i, argv, inWord) == true
      invariant input[|line|..] == old(input[|line|..])
      decreases |line| - i
    {
      argv, inWord := ScanOne(input, line, i, argv, inWord);
      i := i + 1;
    }
    assert input[..][i] == input[i];
    ParseDone(input[..], line, i, argv, inWord);
  }

  /** What trim_newline leaves: the line without trailing newlines and returns. */
  function Trimmed(line: Str): (r: Str)
    ensures r <= line
  {
    if line != [] && (line[|line| - 1] == 10 || line[|line| - 1] == 13) then Trimmed(line[..|line| - 1]) else line
  }

  /** All that is cut off are newlines and returns, and none is left at the end. */
  lemma {:induction false} TrimmedIs(line: Str)
    ensures var t := Trimmed(line);
      && t <= line && (t != [] ==> t[|t| - 1] != 10 && t[|t| - 1] != 13)
      && forall i | |t| <= i < |line| :: line[i] == 10 || line[i] == 13
  {
    if line != [] && (line[|line| - 1] == 10 || line[|line| - 1] == 13) {
      TrimmedIs(line[..|line| - 1]);
    }
  }

  /** trim_newline */
  method TrimNewline(str: array<nat>, ghost line: Str)
    requires Cut(str[..], line, 0)
    modifies str
    ensures Cut(str[..], Trimmed(line), 0)
  {
    var len := 0;
    while str[len] != 0
      invariant len <= |line|
      decreases |line| - len
    {
      len := len + 1;
    }
    assert len == |line| && line[..len] == line;
    while len > 0 && (str[len - 1] == 10 || str[len - 1] == 13)
      invariant len <= |line| && Cut(str[..], line[..len], 0)
      invariant Trimmed(line) == Trimmed(line[..len])
    {
      assert str[..][len - 1] == str[len - 1];
      assert line[..len][..len - 1] == line[..len - 1];
      str[len - 1] := 0;
      len := len - 1;
    }
    assert len > 0 ==> str[..][len - 1] == str[len - 1];
  }
}
