/** Page tables as a radix tree, for any depth and fan-out.  A table is a frame
    whose slots are empty or hold a frame number and access rights.  The lemmas
    say what writing one slot does to every walk from the root, given that no
    frame serves as two tables. */
module RadixTree {
  import opened Options

  datatype Slot<+R> = Slot(frame: int, rights: R)

  /** Contents of memory as seen by the walk: the slot at an index of a table frame. */
  type Memory<!R> = (int, nat) -> Option<Slot<R>>

  /** The slots met on the way from the root along path p. */
  function Trail<R>(m: Memory<R>, root: int, p: seq<nat>): (r: Option<seq<Slot<R>>>)
    ensures r.Some? ==> |r.value| == |p|
  {
    if p == [] then Some([])
    else
      match Trail(m, root, p[..|p| - 1])
      case None => None
      case Some(t) =>
        match m(Last(root, t), p[|p| - 1])
        case None => None
        case Some(s) => Some(t + [s])
  }

  /** The table reached by a trail. */
  function Last<R>(root: int, t: seq<Slot<R>>): int {
    if t == [] then root else t[|t| - 1].frame
  }

  function TableAt<R>(m: Memory<R>, root: int, p: seq<nat>): Option<int> {
    match Trail(m, root, p)
    case None => None
    case Some(t) => Some(Last(root, t))
  }

  /** No frame is the table of two different paths shorter than depth. */
  ghost predicate Separated<R>(m: Memory<R>, root: int, depth: nat) {
    forall p, q | |p| < depth && |q| < depth && TableAt(m, root, p).Some? && TableAt(m, root, p) == TableAt(m, root, q)
      :: p == q
  }

  /** The two memories differ at most in one slot. */
  ghost predicate AgreeExcept<R>(m: Memory<R>, m': Memory<R>, table: int, i: nat) {
    forall t, j :: t != table || j != i ==> m'(t, j) == m(t, j)
  }

  lemma TrailExtend<R>(m: Memory<R>, root: int, p: seq<nat>, i: nat)
    ensures Trail(m, root, p + [i]) ==
            match Trail(m, root, p)
            case None => None
            case Some(t) =>
              match m(Last(root, t), i)
              case None => None
              case Some(s) => Some(t + [s])
  {
    assert (p + [i])[..|p|] == p;
  }

  /** Writing a slot of the table at p leaves alone every trail that does not pass through it. */
  lemma {:induction false} TrailUnaffected<R>(m: Memory<R>, m': Memory<R>, root: int, depth: nat,
                                              p: seq<nat>, i: nat, q: seq<nat>)
    requires Separated(m, root, depth)
    requires |p| < depth && TableAt(m, root, p).Some?
    requires AgreeExcept(m, m', TableAt(m, root, p).value, i)
    requires |q| <= depth && !(p + [i] <= q)
    ensures Trail(m', root, q) == Trail(m, root, q)
  {
    if q != [] {
      var q' := q[..|q| - 1];
      assert p + [i] <= q' ==> p + [i] <= q;
      TrailUnaffected(m, m', root, depth, p, i, q');
      match Trail(m, root, q') {
        case None =>
        case Some(t) =>
          assert TableAt(m, root, q') == Some(Last(root, t));
          if Last(root, t) == TableAt(m, root, p).value {
            assert q' == p;
            assert q == p + [q[|q| - 1]];
          }
      }
    }
  }

  /** The trail through the written slot itself. */
  lemma TrailWritten<R>(m: Memory<R>, m': Memory<R>, root: int, depth: nat, p: seq<nat>, i: nat)
    requires Separated(m, root, depth)
    requires |p| < depth && TableAt(m, root, p).Some?
    requires AgreeExcept(m, m', TableAt(m, root, p).value, i)
    ensures Trail(m', root, p) == Trail(m, root, p)
    ensures Trail(m', root, p + [i]) ==
            match m'(TableAt(m, root, p).value, i)
            case None => None
            case Some(s) => Some(Trail(m, root, p).value + [s])
  {
    TrailUnaffected(m, m', root, depth, p, i, p);
    TrailExtend(m', root, p, i);
  }

  /** Below an empty slot, or below a slot holding an empty table, there is nothing. */
  lemma {:induction false} NothingBelow<R>(m: Memory<R>, root: int, p: seq<nat>, q: seq<nat>)
    requires p < q
    requires match TableAt(m, root, p)
             case None => true
             case Some(t) => forall i :: m(t, i) == None
    ensures Trail(m, root, q) == None
  {
    var q' := q[..|q| - 1];
    if p < q' {
      NothingBelow(m, root, p, q');
    } else {
      assert q' == p;
    }
  }

  lemma EmptySeparated<R>(m: Memory<R>, root: int, depth: nat)
    requires forall i :: m(root, i) == None
    ensures Separated(m, root, depth)
    ensures forall p | p != [] :: TableAt(m, root, p) == None
  {
    forall p: seq<nat> | p != []
      ensures TableAt(m, root, p) == None
    {
      NothingBelow(m, root, [], p);
    }
    forall p, q | |p| < depth && |q| < depth && TableAt(m, root, p).Some? && TableAt(m, root, p) == TableAt(m, root, q)
      ensures p == q
    {
      assert p == [] && q == [];
    }
  }

  /** Grafting an empty frame as a new table below p: the new table appears at
      p + [i] and no other trail changes. */
  lemma Graft<R>(m: Memory<R>, m': Memory<R>, root: int, depth: nat, p: seq<nat>, i: nat, slot: Slot<R>, q: seq<nat>)
    requires Grafts(m, m', root, depth, p, i, slot)
    requires |q| <= depth
    ensures Trail(m', root, q) ==
            if q == p + [i] then Some(Trail(m, root, p).value + [slot]) else Trail(m, root, q)
  {
    TrailWritten(m, m', root, depth, p, i);
    if p + [i] <= q {
      TrailExtend(m, root, p, i);
      if q != p + [i] {
        NothingBelow(m, root, p + [i], q);
        NothingBelow(m', root, p + [i], q);
      }
    } else {
      TrailUnaffected(m, m', root, depth, p, i, q);
    }
  }

  ghost predicate Grafts<R>(m: Memory<R>, m': Memory<R>, root: int, depth: nat, p: seq<nat>, i: nat, slot: Slot<R>) {
    && Separated(m, root, depth)
    && |p| + 1 < depth && TableAt(m, root, p).Some?
    && var t := TableAt(m, root, p).value;
    && AgreeExcept(m, m', t, i)
    && m(t, i) == None && m'(t, i) == Some(slot)
    && slot.frame != t
    && (forall j :: m(slot.frame, j) == None)
    && (forall q | |q| < depth :: TableAt(m, root, q) != Some(slot.frame))
  }

  lemma GraftSeparated<R>(m: Memory<R>, m': Memory<R>, root: int, depth: nat, p: seq<nat>, i: nat, slot: Slot<R>)
    requires Grafts(m, m', root, depth, p, i, slot)
    ensures Separated(m', root, depth)
  {
    forall q, r | |q| < depth && |r| < depth && TableAt(m', root, q).Some? && TableAt(m', root, q) == TableAt(m', root, r)
      ensures q == r
    {
      Graft(m, m', root, depth, p, i, slot, q);
      Graft(m, m', root, depth, p, i, slot, r);
    }
  }

  /** Writing a slot of a last-level table moves no table. */
  lemma LeafSeparated<R>(m: Memory<R>, m': Memory<R>, root: int, depth: nat, p: seq<nat>, i: nat)
    requires Separated(m, root, depth)
    requires |p| + 1 == depth && TableAt(m, root, p).Some?
    requires AgreeExcept(m, m', TableAt(m, root, p).value, i)
    ensures Separated(m', root, depth)
  {
    forall q, r | |q| < depth && |r| < depth && TableAt(m', root, q).Some? && TableAt(m', root, q) == TableAt(m', root, r)
      ensures q == r
    {
      TrailUnaffected(m, m', root, depth, p, i, q);
      TrailUnaffected(m, m', root, depth, p, i, r);
    }
  }
}
