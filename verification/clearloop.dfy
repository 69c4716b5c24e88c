/** clear_rows of tetris.py as the two loops it runs: delete the keys of
    every full row while scanning from the bottom, then move every entry
    above the topmost full row down, visiting keys from the largest row index down. */
module ClearLoop {
  import opened Shapes
  import opened Pieces
  import opened LineClear

  /** The locked map after the deletion loop has handled rows lo.. . */
  function DeletedFrom(g: seq<seq<Colour>>, locked: Locked, lo: int): Locked
  {
    map k | k in locked && !(Cleared(g, k) && k.1 >= lo) :: locked[k]
  }

  /** The deletion loop part way through row i: columns 0 .. j-1 removed. */
  function DeletedInRow(g: seq<seq<Colour>>, locked: Locked, i: int, j: int): Locked
  {
    map k | k in locked && !(Cleared(g, k) && (k.1 > i || (k.1 == i && k.0 < j))) :: locked[k]
  }

  /** Entries of m not yet moved: those not in done, or at or below ind. */
  function Unmoved(m: Locked, done: set<Cell>, ind: int): Locked
  {
    map k | k in m && !(k in done && k.1 < ind) :: m[k]
  }

  /** The entries of m whose keys are in s. */
  function Restrict(m: Locked, s: set<Cell>): Locked
  {
    map k | k in m && k in s :: m[k]
  }

  /** The shift loop's state after handling the keys in done. */
  function Partial(m: Locked, done: set<Cell>, ind: int, inc: nat): Locked
  {
    Unmoved(m, done, ind) + Shifted(Restrict(m, done), ind, inc)
  }

  /** Python's sorted(..., key=lambda x: x[1])[::-1] visits keys from the
      largest row down; any such order gives the same result. */
  lemma MaxRowExists(s: set<Cell>)
    requires s != {}
    ensures exists k :: MaxRow(k, s)
  {
    var k :| k in s;
    if s != {k} {
      MaxRowExists(s - {k});
      var m :| MaxRow(m, s - {k});
      if m.1 < k.1 {
        assert MaxRow(k, s);
      } else {
        assert MaxRow(m, s);
      }
    } else {
      assert MaxRow(k, s);
    }
  }

  // ---------------------------------------------------------------------
  // Deletion loop

  lemma RowStart(g: seq<seq<Colour>>, locked: Locked, i: int)
    ensures DeletedFrom(g, locked, i + 1) == DeletedInRow(g, locked, i, 0)
  {
  }

  lemma RowEnd(g: seq<seq<Colour>>, locked: Locked, i: int)
    requires 0 <= i < |g| && FullRow(g[i])
    ensures DeletedInRow(g, locked, i, |g[i]|) == DeletedFrom(g, locked, i)
  {
  }

  lemma RowSkipped(g: seq<seq<Colour>>, locked: Locked, i: int)
    requires 0 <= i < |g| && !FullRow(g[i])
    ensures DeletedFrom(g, locked, i + 1) == DeletedFrom(g, locked, i)
  {
  }

  lemma DeleteStep(g: seq<seq<Colour>>, locked: Locked, i: int, j: int)
    requires 0 <= i < |g| && FullRow(g[i]) && 0 <= j < |g[i]|
    ensures DeletedInRow(g, locked, i, j) - {(j, i)} == DeletedInRow(g, locked, i, j + 1)
  {
  }

  lemma DeletedAll(g: seq<seq<Colour>>, locked: Locked)
    ensures DeletedFrom(g, locked, 0) == RemoveFull(g, locked)
  {
  }

  /** The inner loop: del locked[(j, i)] for every column j of a full row,
      skipping keys that are not there. */
  method DeleteRow(g: seq<seq<Colour>>, locked: Locked, i: int, before: Locked) returns (after: Locked)
    requires 0 <= i < |g| && FullRow(g[i])
    requires before == DeletedFrom(g, locked, i + 1)
    ensures after == DeletedFrom(g, locked, i)
  {
    var row := g[i];
    var j := 0;
    after := before;
    RowStart(g, locked, i);
    while j < |row|
      invariant 0 <= j <= |row|
      invariant after == DeletedInRow(g, locked, i, j)
    {
      DeleteStep(g, locked, i, j);
      after := after - {(j, i)};
      j := j + 1;
    }
    RowEnd(g, locked, i);
  }

  /** The outer loop, from the bottom row up: counts the full rows, records
      the last (so topmost) full row seen, and deletes their keys. */
  method DeleteFullRows(g: seq<seq<Colour>>, locked: Locked) returns (increment: nat, ind: int, after: Locked)
    ensures increment == FullCountFrom(g, 0)
    ensures increment > 0 ==> ind == TopFullFrom(g, 0)
    ensures after == RemoveFull(g, locked)
  {
    increment := 0;
    ind := 0;
    after := locked;
    var i := |g| - 1;
    while i >= 0
      invariant -1 <= i < |g|
      invariant increment == FullCountFrom(g, i + 1)
      invariant increment > 0 ==> ind == TopFullFrom(g, i + 1)
      invariant after == DeletedFrom(g, locked, i + 1)
    {
      if Black !in g[i] {
        increment := increment + 1;
        ind := i;
        after := DeleteRow(g, locked, i, after);
      } else {
        RowSkipped(g, locked, i);
      }
      i := i - 1;
    }
    DeletedAll(g, locked);
  }

  // ---------------------------------------------------------------------
  // Shift loop

  /** What the shift loop's state p holds at key t after handling done. */
  predicate PartialSpecAt(p: Locked, m: Locked, done: set<Cell>, ind: int, inc: nat, t: Cell)
  {
    var src := (t.0, t.1 - inc);
    (t in p <==> (src in m && src in done && src.1 < ind) || (t in m && !(t in done && t.1 < ind)))
    && (src in m && src in done && src.1 < ind ==> p[t] == m[src])
    && (!(src in m && src in done && src.1 < ind) && t in m && !(t in done && t.1 < ind) ==> p[t] == m[t])
  }

  lemma PartialAt(m: Locked, done: set<Cell>, ind: int, inc: nat, t: Cell)
    ensures PartialSpecAt(Partial(m, done, ind, inc), m, done, ind, inc, t)
  {
    ShiftedMembers(Restrict(m, done), ind, inc, t);
  }

  /** Moving the key with the largest row among those left: no entry moved
      earlier sits on it, so the entry read is the original one. */
  lemma ShiftMove(m: Locked, done: set<Cell>, ind: int, inc: nat, key: Cell)
    requires inc > 0 && key in m && key !in done && key.1 < ind
    requires forall a :: a in done ==> key.1 <= a.1
    ensures key in Partial(m, done, ind, inc) && Partial(m, done, ind, inc)[key] == m[key]
    ensures (Partial(m, done, ind, inc) - {key})[(key.0, key.1 + inc) := m[key]]
            == Partial(m, done + {key}, ind, inc)
  {
    var before := Partial(m, done, ind, inc);
    var now := Partial(m, done + {key}, ind, inc);
    PartialSpec(m, done, ind, inc, before);
    PartialSpec(m, done + {key}, ind, inc, now);
    MoveKey(before, m, done, ind, inc, key);
    MoveAll(before, now, (before - {key})[(key.0, key.1 + inc) := m[key]], m, done, ind, inc, key);
  }

  lemma PartialSpec(m: Locked, done: set<Cell>, ind: int, inc: nat, p: Locked)
    requires p == Partial(m, done, ind, inc)
    ensures forall t :: PartialSpecAt(p, m, done, ind, inc, t)
  {
    forall t
      ensures PartialSpecAt(p, m, done, ind, inc, t)
    {
      PartialAt(m, done, ind, inc, t);
    }
  }

  lemma MoveAll(before: Locked, now: Locked, lhs: Locked, m: Locked, done: set<Cell>, ind: int, inc: nat, key: Cell)
    requires inc > 0 && key in m && key !in done && key.1 < ind
    requires forall a :: a in done ==> key.1 <= a.1
    requires forall t :: PartialSpecAt(before, m, done, ind, inc, t)
    requires forall t :: PartialSpecAt(now, m, done + {key}, ind, inc, t)
    requires lhs == (before - {key})[(key.0, key.1 + inc) := m[key]]
    ensures lhs == now
  {
    forall t
      ensures t in lhs <==> t in now
      ensures t in lhs ==> lhs[t] == now[t]
    {
      MoveAt(before, now, m, done, ind, inc, key, t);
    }
  }

  lemma MoveKey(before: Locked, m: Locked, done: set<Cell>, ind: int, inc: nat, key: Cell)
    requires inc > 0 && key in m && key !in done && key.1 < ind
    requires forall a :: a in done ==> key.1 <= a.1
    requires forall t :: PartialSpecAt(before, m, done, ind, inc, t)
    ensures key in before && before[key] == m[key]
  {
    assert PartialSpecAt(before, m, done, ind, inc, key);
  }

  lemma MoveAt(before: Locked, now: Locked, m: Locked, done: set<Cell>, ind: int, inc: nat, key: Cell, t: Cell)
    requires inc > 0 && key in m && key !in done && key.1 < ind
    requires forall a :: a in done ==> key.1 <= a.1
    requires PartialSpecAt(before, m, done, ind, inc, t)
    requires PartialSpecAt(now, m, done + {key}, ind, inc, t)
    ensures t in (before - {key})[(key.0, key.1 + inc) := m[key]] <==> t in now
    ensures t in now ==> (before - {key})[(key.0, key.1 + inc) := m[key]][t] == now[t]
  {
    if t == (key.0, key.1 + inc) {
      assert (t.0, t.1 - inc) == key;
    }
  }

  /** A key at or below the topmost full row stays put. */
  lemma ShiftSkip(m: Locked, done: set<Cell>, ind: int, inc: nat, key: Cell)
    requires key.1 >= ind
    ensures Partial(m, done, ind, inc) == Partial(m, done + {key}, ind, inc)
  {
    var before := Partial(m, done, ind, inc);
    var now := Partial(m, done + {key}, ind, inc);
    PartialSpec(m, done, ind, inc, before);
    PartialSpec(m, done + {key}, ind, inc, now);
    SkipAll(before, now, m, done, ind, inc, key);
  }

  lemma SkipAll(before: Locked, now: Locked, m: Locked, done: set<Cell>, ind: int, inc: nat, key: Cell)
    requires key.1 >= ind
    requires forall t :: PartialSpecAt(before, m, done, ind, inc, t)
    requires forall t :: PartialSpecAt(now, m, done + {key}, ind, inc, t)
    ensures before == now
  {
    forall t
      ensures t in before <==> t in now
      ensures t in before ==> before[t] == now[t]
    {
      SkipAt(before, now, m, done, ind, inc, key, t);
    }
  }

  lemma SkipAt(before: Locked, now: Locked, m: Locked, done: set<Cell>, ind: int, inc: nat, key: Cell, t: Cell)
    requires key.1 >= ind
    requires PartialSpecAt(before, m, done, ind, inc, t)
    requires PartialSpecAt(now, m, done + {key}, ind, inc, t)
    ensures t in before <==> t in now
    ensures t in now ==> before[t] == now[t]
  {
  }

  /** todo and done split the keys of the map being shifted. */
  predicate Partition(todo: set<Cell>, done: set<Cell>, all: set<Cell>)
  {
    todo !! done && todo + done == all
  }

  /** Every key visited so far has a row at least that of every key left. */
  predicate VisitedBelow(done: set<Cell>, todo: set<Cell>)
  {
    forall a, b :: a in done && b in todo ==> b.1 <= a.1
  }

  /** key has the largest row among the keys in s. */
  predicate MaxRow(key: Cell, s: set<Cell>)
  {
    key in s && forall b :: b in s ==> b.1 <= key.1
  }

  /** Moving the visited key from todo to done keeps the partition and the
      descending visiting order. */
  lemma VisitStep(todo: set<Cell>, done: set<Cell>, all: set<Cell>, key: Cell)
    requires Partition(todo, done, all) && VisitedBelow(done, todo) && MaxRow(key, todo)
    ensures Partition(todo - {key}, done + {key}, all)
    ensures VisitedBelow(done + {key}, todo - {key})
    ensures key !in done && forall a :: a in done ==> key.1 <= a.1
  {
  }

  lemma PartialNone(m: Locked, ind: int, inc: nat)
    ensures Partial(m, {}, ind, inc) == m
  {
    assert Shifted(Restrict(m, {}), ind, inc) == map[];
  }

  lemma PartialAll(m: Locked, done: set<Cell>, ind: int, inc: nat)
    requires Partition({}, done, m.Keys)
    ensures Partial(m, done, ind, inc) == Merge(m, ind, inc)
  {
    assert done == m.Keys;
    assert Restrict(m, done) == m;
    assert Unmoved(m, done, ind) == Kept(m, ind);
  }

  /** One turn of the shift loop: a key above ind is popped and written
      back inc rows lower; any other key is left alone. */
  method ShiftKey(l1: Locked, done: set<Cell>, ind: int, inc: nat, key: Cell, before: Locked)
    returns (after: Locked)
    requires inc > 0 && key in l1 && key !in done
    requires forall a :: a in done ==> key.1 <= a.1
    requires before == Partial(l1, done, ind, inc)
    ensures after == Partial(l1, done + {key}, ind, inc)
  {
    if key.1 < ind {
      ShiftMove(l1, done, ind, inc, key);
      var v := before[key];
      after := (before - {key})[(key.0, key.1 + inc) := v];
    } else {
      ShiftSkip(l1, done, ind, inc, key);
      after := before;
    }
  }

  /** One turn of the shift loop: take a key with the largest row among
      those left and handle it. */
  method VisitNext(l1: Locked, ind: int, inc: nat, todo: set<Cell>, done: set<Cell>, before: Locked)
    returns (todo': set<Cell>, done': set<Cell>, after: Locked)
    requires inc > 0 && todo != {}
    requires Partition(todo, done, l1.Keys) && VisitedBelow(done, todo)
    requires before == Partial(l1, done, ind, inc)
    ensures Partition(todo', done', l1.Keys) && VisitedBelow(done', todo')
    ensures after == Partial(l1, done', ind, inc)
    ensures |todo'| < |todo|
  {
    MaxRowExists(todo);
    var key :| MaxRow(key, todo);
    VisitStep(todo, done, l1.Keys, key);
    after := ShiftKey(l1, done, ind, inc, key, before);
    todo' := todo - {key};
    done' := done + {key};
  }

  /** The shift loop: keys visited from the largest row down; each key above
      ind is popped and written back inc rows lower. */
  method ShiftDown(l1: Locked, ind: int, inc: nat) returns (after: Locked)
    requires inc > 0
    ensures after == Merge(l1, ind, inc)
  {
    after := l1;
    var todo := l1.Keys;
    var done: set<Cell> := {};
    PartialNone(l1, ind, inc);
    assert Partition(todo, done, l1.Keys) && VisitedBelow(done, todo);
    while todo != {}
      invariant Partition(todo, done, l1.Keys) && VisitedBelow(done, todo)
      invariant after == Partial(l1, done, ind, inc)
      decreases |todo|
    {
      todo, done, after := VisitNext(l1, ind, inc, todo, done, after);
    }
    PartialAll(l1, done, ind, inc);
  }

  /** The loops compute exactly the closed form ClearRows. */
  method ClearRowsLoop(g: seq<seq<Colour>>, locked: Locked) returns (increment: nat, after: Locked)
    ensures ClearRows(g, locked) == Clear(increment, after)
  {
    var ind;
    increment, ind, after := DeleteFullRows(g, locked);
    if increment > 0 {
      after := ShiftDown(after, ind, increment);
    }
  }
}
