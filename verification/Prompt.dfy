/** The colours of the prompt that kernel/shell/colored_shell.c prints. */
module Prompt {
  import opened Bits
  import opened Text
  import opened Paper
  import opened Layout
  import opened LineEditor

  /** The colour of every character of the prompt: brackets, name, and the rest. */
  const COLORS: seq<nat> := [0x0C, 0x0B, 0x0B, 0x0B, 0x0B, 0x0B, 0x0C, 0x0A, 0x0A, 0x0A, 0x0A]

  function Shades(parts: seq<(nat, Str)>): seq<nat> {
    if parts == [] then [] else Flat(parts[0].0, |parts[0].1|) + Shades(parts[1..])
  }

  /** In the row of the cursor the cells from a column on have these foregrounds on black. */
  ghost predicate Shaded(p: Sheet, from: nat, shades: seq<nat>) {
    && ValidSheet(p) && from + |shades| <= WIDTH
    && forall i | 0 <= i < |shades| :: ShadedAt(p, from + i, shades[i])
  }

  predicate ShadedAt(p: Sheet, x: nat, shade: nat)
    requires ValidSheet(p) && x < WIDTH
  {
    CellColor(p.rows[p.y][x]) == shade
  }

  /** The row of the cursor starts with the same n cells. */
  ghost predicate Kept(p: Sheet, q: Sheet, n: nat) {
    ValidSheet(p) && ValidSheet(q) && n <= WIDTH && q.rows[q.y][..n] == p.rows[p.y][..n]
  }

  function Flat(shade: nat, n: nat): (r: seq<nat>)
    ensures |r| == n && forall i | 0 <= i < n :: r[i] == shade
  {
    seq(n, _ => shade)
  }

  lemma LaidOutShades(p: Sheet, n: nat, s: Str, q: Sheet)
    requires ValidSheet(p) && ValidSheet(q) && LaidOut(p, s, q) && q.y == p.y && p.x == n && n + |s| < WIDTH
    requires PrintableText(s)
    ensures Kept(p, q, n) == true && Shaded(q, n, Flat(p.color, |s|)) == true
  {
    var shades := Flat(p.color, |s|);
    forall i | 0 <= i < |shades|
      ensures ShadedAt(q, n + i, shades[i])
    {
      assert CellAfter(p, s, q, p.y, n + i);
      assert Printable(s[i]);
      CellParts(s[i], p.color);
    }
    forall i | 0 <= i < n
      ensures q.rows[q.y][i] == p.rows[p.y][i]
    {
      assert CellAfter(p, s, q, p.y, i);
    }
  }

  lemma PartShades(p: Sheet, text: Str, fg: nat, s: Str)
    requires Line(p, text) == true && PrintableText(s) && |text| + |s| < WIDTH && fg < 16
    ensures var q := RunSheet(p, [SetColor(fg, 0)] + Puts(s));
      Kept(p, q, |text|) == true && Shaded(q, |text|, Flat(fg, |s|)) == true
  {
    var p', q := OpSheet(p, SetColor(fg, 0)), RunSheet(p, [SetColor(fg, 0)] + Puts(s));
    assert p'.color == fg by { Nibbles(fg, 0); }
    assert q == RunSheet(p', Puts(s)) by {
      RunConcat(p, [SetColor(fg, 0)], Puts(s));
      RunSingle(p, SetColor(fg, 0));
    }
    assert q.y == p'.y by { TypeText(p', text, s); }
    assert LaidOut(p', s, q) by { PlainText(s); TextLayout(p', s); }
    LaidOutShades(p', |text|, s, q);
  }

  lemma PlainText(s: Str)
    requires PrintableText(s)
    ensures forall k | 0 <= k < |s| :: IsPlain(s[k])
  {
    assert forall k | 0 <= k < |s| :: Printable(s[k]);
  }

  lemma {:induction false} PartsShades(p: Sheet, text: Str, parts: seq<(nat, Str)>)
    requires Line(p, text) && |text| + |Joined(parts)| < WIDTH
    requires forall i | 0 <= i < |parts| :: PrintableText(parts[i].1) && parts[i].0 < 16
    ensures |Shades(parts)| == |Joined(parts)|
    ensures var q := RunSheet(p, ColoredOps(parts));
      Kept(p, q, |text|) == true && Shaded(q, |text|, Shades(parts)) == true
    decreases parts
  {
    if parts != [] {
      var fg, s, rest := parts[0].0, parts[0].1, parts[1..];
      var first := [SetColor(fg, 0)] + Puts(s);
      var p' := RunSheet(p, first);
      PrintColored(p, text, fg, s);
      PartShades(p, text, fg, s);
      assert ColoredOps(parts) == first + ColoredOps(rest);
      RunConcat(p, first, ColoredOps(rest));
      PartsShades(p', text + s, rest);
      var q := RunSheet(p', ColoredOps(rest));
      ShadesJoin(p', q, |text|, Flat(fg, |s|), Shades(rest));
      KeptTwice(p, p', q, |text|);
    }
  }

  lemma ShadesJoin(p: Sheet, q: Sheet, from: nat, a: seq<nat>, b: seq<nat>)
    requires Shaded(p, from, a) && Shaded(q, from + |a|, b) && Kept(p, q, from + |a|)
    ensures Shaded(q, from, a + b) == true && Kept(p, q, from) == true
  {
    forall i | 0 <= i < |a + b|
      ensures ShadedAt(q, from + i, (a + b)[i])
    {
      if i < |a| {
        assert ShadedAt(p, from + i, a[i]);
        assert q.rows[q.y][..from + |a|][from + i] == p.rows[p.y][..from + |a|][from + i];
      } else {
        assert ShadedAt(q, from + |a| + (i - |a|), b[i - |a|]);
      }
    }
    assert q.rows[q.y][..from] == q.rows[q.y][..from + |a|][..from];
    assert p.rows[p.y][..from] == p.rows[p.y][..from + |a|][..from];
  }

  lemma KeptTwice(p: Sheet, q: Sheet, r: Sheet, n: nat)
    requires Kept(p, q, n) && Kept(q, r, n)
    ensures Kept(p, r, n) == true
  {}

  /** On an empty line the prompt shows its text in these colours, and what is typed
      behind it is white on black. */
  lemma PromptShades(p: Sheet)
    requires Line(p, [])
    ensures var q := RunSheet(p, PromptOps());
      Line(q, PROMPT) && Shaded(q, 0, COLORS) && q.color == 0x0F
  {
    PromptPrints(p);
    PromptText();
    PartsShades(p, [], PROMPT_PARTS);
    var mid := RunSheet(p, ColoredOps(PROMPT_PARTS));
    RunOne(p, ColoredOps(PROMPT_PARTS), SetColor(0x0F, 0));
    Nibbles(0x0F, 0);
    assert Shades(PROMPT_PARTS) == COLORS by { ShadesAre(); }
    forall i | 0 <= i < |COLORS|
      ensures ShadedAt(RunSheet(p, PromptOps()), 0 + i, COLORS[i])
    {
      assert ShadedAt(mid, 0 + i, COLORS[i]);
    }
  }

  lemma ShadesAre()
    ensures Shades(PROMPT_PARTS) == COLORS
  {
    var parts: seq<(nat, Str)> := PROMPT_PARTS;
    assert parts[1..][1..] == parts[2..] && parts[2..][1..] == parts[3..] && parts[3..][1..] == [];
    assert Shades(parts[3..]) == [0x0A, 0x0A, 0x0A, 0x0A];
    assert Shades(parts[2..]) == [0x0C, 0x0A, 0x0A, 0x0A, 0x0A];
    assert Shades(parts[1..]) == [0x0B, 0x0B, 0x0B, 0x0B, 0x0B, 0x0C, 0x0A, 0x0A, 0x0A, 0x0A];
  }
}
