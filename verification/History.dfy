/** The command history of kernel/shell/command_history.c.  A C string is the
    sequence of its bytes without the terminating NUL. */
module History {
  import opened Text

  const MAX_HISTORY: nat := 20

  /** The stored commands, oldest first, and the position of the arrow keys. */
  datatype Log = Log(entries: seq<Str>, index: int)

  const EMPTY: Log := Log([], -1)

  predicate ValidLog(s: Log) {
    |s.entries| <= MAX_HISTORY && if s.entries == [] then s.index == -1 else 0 <= s.index <= |s.entries|
  }

  function AddLog(s: Log, cmd: Str): Log {
    var entries := if |s.entries| < MAX_HISTORY then s.entries + [cmd] else s.entries[1..] + [cmd];
    Log(entries, |entries|)
  }

  function PrevLog(s: Log): Log {
    if s.entries != [] && s.index > 0 then s.(index := s.index - 1) else s
  }

  function NextLog(s: Log): Log {
    if s.entries == [] then s
    else if s.index < |s.entries| - 1 then s.(index := s.index + 1)
    else s.(index := |s.entries|)
  }

  /** The command at the position of the arrow keys; below the newest, the empty line. */
  function Shown(s: Log): Str {
    if 0 <= s.index < |s.entries| then s.entries[s.index] else []
  }

  // ------------------------------------------------------------------- runs

  datatype Op = Add(cmd: Str) | Prev | Next

  function Step(s: Log, op: Op): Log {
    match op
    case Add(cmd) => AddLog(s, cmd)
    case Prev => PrevLog(s)
    case Next => NextLog(s)
  }

  function Run(s: Log, ops: seq<Op>): Log {
    if ops == [] then s else Step(Run(s, ops[..|ops| - 1]), ops[|ops| - 1])
  }

  /** The commands submitted, in order. */
  function Submitted(ops: seq<Op>): seq<Str> {
    if ops == [] then []
    else
      var op := ops[|ops| - 1];
      Submitted(ops[..|ops| - 1]) + if op.Add? then [op.cmd] else []
  }

  /** The last n elements. */
  function Last(s: seq<Str>, n: nat): seq<Str> {
    if |s| <= n then s else s[|s| - n..]
  }

  /** After any run the history is exactly the last 20 submissions in order, and
      the position is in range. */
  lemma {:induction false} HistoryIsLast20(ops: seq<Op>)
    ensures Run(EMPTY, ops).entries == Last(Submitted(ops), MAX_HISTORY)
    ensures ValidLog(Run(EMPTY, ops))
  {
    if ops != [] {
      HistoryIsLast20(ops[..|ops| - 1]);
      var op := ops[|ops| - 1];
      if op.Add? {
        var before := Submitted(ops[..|ops| - 1]);
        assert Submitted(ops) == before + [op.cmd];
      }
    }
  }

  function Presses(s: Log, op: Op, k: nat): Log {
    if k == 0 then s else Step(Presses(s, op, k - 1), op)
  }

  function Max(a: int, b: int): int { if a > b then a else b }

  /** From just below the newest command, k presses of the up key show the k-th
      newest command, and stay at the oldest. */
  lemma {:induction false} PrevShowsKthNewest(s: Log, k: nat)
    requires ValidLog(s) && s.entries != [] && s.index == |s.entries|
    ensures Presses(s, Prev, k) == s.(index := Max(|s.entries| - k, 0))
    ensures k > 0 ==> Shown(Presses(s, Prev, k)) == s.entries[Max(|s.entries| - k, 0)]
  {
    if k > 0 { PrevShowsKthNewest(s, k - 1); }
  }

  /** k presses of the down key go k commands towards the newest and then stay on the
      empty line below it. */
  lemma {:induction false} NextMovesDown(s: Log, k: nat)
    requires ValidLog(s) && s.entries != []
    ensures Presses(s, Next, k) == s.(index := if s.index + k < |s.entries| then s.index + k else |s.entries|)
    ensures s.index + k >= |s.entries| ==> Shown(Presses(s, Next, k)) == []
  {
    if k > 0 { NextMovesDown(s, k - 1); }
  }

  /** After any run that ends with a command, k presses of the up key show the k-th
      newest of all commands, up to 20. */
  lemma RecallAfterAdd(ops: seq<Op>, cmd: Str, k: nat)
    requires var all := Submitted(ops + [Add(cmd)]); 0 < k <= |all| && k <= 20
    ensures var all := Submitted(ops + [Add(cmd)]);
      Shown(Presses(Run(EMPTY, ops + [Add(cmd)]), Prev, k)) == all[|all| - k]
  {
    var ops' := ops + [Add(cmd)];
    assert ops'[..|ops|] == ops;
    HistoryIsLast20(ops');
    PrevShowsKthNewest(Run(EMPTY, ops'), k);
  }

  /** k presses up and then k presses down end on the empty line again, for every
      k up to the number of stored commands. */
  lemma UpThenDown(s: Log, k: nat)
    requires ValidLog(s) && s.entries != [] && s.index == |s.entries| && k <= |s.entries|
    ensures Presses(Presses(s, Prev, k), Next, k) == s
    ensures Shown(Presses(Presses(s, Prev, k), Next, k)) == []
  {
    PrevShowsKthNewest(s, k);
    NextMovesDown(Presses(s, Prev, k), k);
  }

  // -------------------------------------------------------------- the class

  class CommandHistory {
    const history: array<Str>
    var count: nat
    var index: int

    ghost predicate Valid()
      reads this, history
    {
      history.Length == MAX_HISTORY && count <= MAX_HISTORY && ValidLog(Log(history[..count], index))
    }

    ghost function State(): Log
      reads this, history
      requires Valid()
    {
      Log(history[..count], index)
    }

    constructor ()
      ensures Valid() && State() == EMPTY && fresh(history)
    {
      history := new Str[MAX_HISTORY](_ => []);
      count, index := 0, -1;
    }

    /** history_add */
    method Add(cmd: Str)
      requires Valid()
      modifies this, history
      ensures Valid() && State() == AddLog(old(State()), cmd)
    {
      if count < MAX_HISTORY {
        history[count] := cmd;
        count := count + 1;
      } else {
        ghost var was := history[..];
        for i := 1 to MAX_HISTORY
          invariant count == MAX_HISTORY
          invariant forall j | 0 <= j < i - 1 :: history[j] == was[j + 1]
          invariant forall j | i - 1 <= j < MAX_HISTORY :: history[j] == was[j]
        {
          history[i - 1] := history[i];
        }
        history[MAX_HISTORY - 1] := cmd;
        assert history[..count] == was[1..] + [cmd];
      }
      index := if count > MAX_HISTORY then MAX_HISTORY else count;
    }

    /** history_prev */
    method Previous() returns (cmd: Str)
      requires Valid()
      modifies this`index
      ensures Valid() && State() == PrevLog(old(State()))
      ensures cmd == Shown(State())
    {
      if count == 0 {
        return [];
      }
      if index > 0 {
        index := index - 1;
      }
      return history[index];
    }

    /** history_next */
    method Following() returns (cmd: Str)
      requires Valid()
      modifies this`index
      ensures Valid() && State() == NextLog(old(State()))
      ensures cmd == Shown(State())
    {
      if count == 0 {
        return [];
      }
      if index < count - 1 {
        index := index + 1;
      } else {
        index := count;
        return [];
      }
      return history[index];
    }
  }
}
