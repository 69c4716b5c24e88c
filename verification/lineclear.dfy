/** clear_rows of tetris.py. Full rows are read off the colour grid; the
    locked map loses the entries of those rows, and every entry above the
    topmost full row moves down by the number of full rows. */
module LineClear {
  import opened Shapes
  import opened Pieces

  type Locked = map<Cell, Colour>

  /** A row with no black cell. */
  predicate FullRow(row: seq<Colour>)
  {
    Black !in row
  }

  /** The number of full rows among rows i.. of the grid. */
  function FullCountFrom(g: seq<seq<Colour>>, i: nat): nat
    requires i <= |g|
    decreases |g| - i
  {
    if i == |g| then 0 else (if FullRow(g[i]) then 1 else 0) + FullCountFrom(g, i + 1)
  }

  /** The smallest full row index among rows i.., or |g| when there is none. */
  function TopFullFrom(g: seq<seq<Colour>>, i: nat): nat
    requires i <= |g|
    decreases |g| - i
  {
    if i == |g| then |g| else if FullRow(g[i]) then i else TopFullFrom(g, i + 1)
  }

  /** The set of full row indices. */
  function FullRows(g: seq<seq<Colour>>): set<int>
  {
    set i | 0 <= i < |g| && FullRow(g[i])
  }

  /** The key lies in a full row, at a column the row has: the deletion loop
      removes exactly these keys. */
  predicate Cleared(g: seq<seq<Colour>>, k: Cell)
  {
    0 <= k.1 < |g| && FullRow(g[k.1]) && 0 <= k.0 < |g[k.1]|
  }

  /** The locked map after the deletion loop. */
  function RemoveFull(g: seq<seq<Colour>>, locked: Locked): Locked
  {
    map k | k in locked && !Cleared(g, k) :: locked[k]
  }

  /** Entries at or below row ind stay where they are. */
  function Kept(m: Locked, ind: int): Locked
  {
    map k | k in m && k.1 >= ind :: m[k]
  }

  /** Entries above row ind, each moved down by inc rows. */
  function Shifted(m: Locked, ind: int, inc: nat): Locked
  {
    map k | k in m && k.1 < ind :: (k.0, k.1 + inc) := m[k]
  }

  /** The map after the shift loop: entries above row ind moved down by inc
      rows, overwriting whatever is already at the destination. */
  function Merge(m: Locked, ind: int, inc: nat): Locked
  {
    Kept(m, ind) + Shifted(m, ind, inc)
  }

  datatype Clear = Clear(count: nat, locked: Locked)

  /** clear_rows: the number of full rows, and the locked map after deletion
      and shifting. A moved entry that lands on a key still present replaces
      it (Python's locked[newKey] = ... overwrites). */
  function ClearRows(g: seq<seq<Colour>>, locked: Locked): (r: Clear)
    ensures r.count == FullCountFrom(g, 0)
  {
    Shift(FullCountFrom(g, 0), TopFullFrom(g, 0), RemoveFull(g, locked))
  }

  /** The shift phase, run only when some row was full. */
  function Shift(inc: nat, ind: int, l1: Locked): Clear
  {
    if inc > 0 then Clear(inc, Merge(l1, ind, inc)) else Clear(0, l1)
  }

  // ---------------------------------------------------------------------
  // Row bookkeeping

  lemma {:induction false} FullCountCardinality(g: seq<seq<Colour>>, i: nat)
    requires i <= |g|
    ensures FullCountFrom(g, i) == |set k | i <= k < |g| && FullRow(g[k])|
    decreases |g| - i
  {
    var s := set k | i <= k < |g| && FullRow(g[k]);
    if i == |g| {
      assert s == {};
    } else {
      FullCountCardinality(g, i + 1);
      var rest := set k | i + 1 <= k < |g| && FullRow(g[k]);
      if FullRow(g[i]) {
        assert s == {i} + rest;
      } else {
        assert s == rest;
      }
    }
  }

  /** The count clear_rows returns is the number of grid rows holding no
      black cell. */
  lemma ClearRowsCount(g: seq<seq<Colour>>, locked: Locked)
    ensures ClearRows(g, locked).count == |FullRows(g)|
  {
    FullCountCardinality(g, 0);
    assert FullRows(g) == set k | 0 <= k < |g| && FullRow(g[k]);
  }

  /** TopFullFrom finds the first full row at or after i; no full row lies
      before it, and all the full rows are counted from it on. */
  lemma {:induction false} TopFullFacts(g: seq<seq<Colour>>, i: nat)
    requires i <= |g|
    ensures i <= TopFullFrom(g, i) <= |g|
    ensures forall k :: i <= k < TopFullFrom(g, i) ==> !FullRow(g[k])
    ensures TopFullFrom(g, i) < |g| ==> FullRow(g[TopFullFrom(g, i)])
    ensures FullCountFrom(g, i) == FullCountFrom(g, TopFullFrom(g, i))
    ensures FullCountFrom(g, i) > 0 <==> TopFullFrom(g, i) < |g|
    decreases |g| - i
  {
    if i < |g| && !FullRow(g[i]) {
      TopFullFacts(g, i + 1);
    }
  }

  lemma {:induction false} NoFullRowsFrom(g: seq<seq<Colour>>, i: nat, k: int)
    requires i <= k < |g|
    requires FullCountFrom(g, i) == 0
    ensures !FullRow(g[k])
    decreases |g| - i
  {
    if i < k {
      NoFullRowsFrom(g, i + 1, k);
    }
  }

  // ---------------------------------------------------------------------
  // Map bookkeeping

  lemma ShiftedMembers(m: Locked, ind: int, inc: nat, t: Cell)
    ensures t in Shifted(m, ind, inc) <==> (t.0, t.1 - inc) in m && t.1 - inc < ind
    ensures t in Shifted(m, ind, inc) ==> Shifted(m, ind, inc)[t] == m[(t.0, t.1 - inc)]
  {
    var s := (t.0, t.1 - inc);
    if t in Shifted(m, ind, inc) {
      ShiftedOnly(m, ind, inc, t);
    }
    if s in m && s.1 < ind {
      ShiftedHas(m, ind, inc, s);
      assert (s.0, s.1 + inc) == t;
    }
  }

  /** An entry above ind appears inc rows lower with its colour. */
  lemma ShiftedHas(m: Locked, ind: int, inc: nat, k: Cell)
    requires k in m && k.1 < ind
    ensures (k.0, k.1 + inc) in Shifted(m, ind, inc)
    ensures Shifted(m, ind, inc)[(k.0, k.1 + inc)] == m[k]
  {
    var t := (k.0, k.1 + inc);
    assert k in m && k.1 < ind && t == (k.0, k.1 + inc);
  }

  /** A key of the shifted map comes from an entry above ind. */
  lemma ShiftedOnly(m: Locked, ind: int, inc: nat, t: Cell)
    requires t in Shifted(m, ind, inc)
    ensures (t.0, t.1 - inc) in m && t.1 - inc < ind
  {
    var k :| k in m && k.1 < ind && t == (k.0, k.1 + inc);
    assert k == (t.0, t.1 - inc);
  }

  /** One key of clear_rows' result, in terms of the map after deletion. */
  lemma ClearRowsKey(g: seq<seq<Colour>>, locked: Locked, t: Cell, inc: nat, ind: int, l1: Locked, r: Locked)
    requires inc == FullCountFrom(g, 0) > 0
    requires ind == TopFullFrom(g, 0) && l1 == RemoveFull(g, locked) && r == ClearRows(g, locked).locked
    ensures t in r <==> ((t.0, t.1 - inc) in l1 && t.1 - inc < ind) || (t in l1 && t.1 >= ind)
    ensures (t.0, t.1 - inc) in l1 && t.1 - inc < ind ==> r[t] == l1[(t.0, t.1 - inc)]
    ensures !((t.0, t.1 - inc) in l1 && t.1 - inc < ind) && t in l1 && t.1 >= ind ==> r[t] == l1[t]
  {
    MergeKey(l1, ind, inc, t);
  }

  /** One key of clear_rows' result, in terms of the original map. */
  lemma ClearRowsAt(g: seq<seq<Colour>>, locked: Locked, t: Cell, inc: nat, ind: int, r: Locked)
    requires inc == FullCountFrom(g, 0) > 0
    requires ind == TopFullFrom(g, 0) && r == ClearRows(g, locked).locked
    ensures t in r <==> ((t.0, t.1 - inc) in locked && !Cleared(g, (t.0, t.1 - inc)) && t.1 - inc < ind)
                        || (t in locked && !Cleared(g, t) && t.1 >= ind)
    ensures (t.0, t.1 - inc) in locked && !Cleared(g, (t.0, t.1 - inc)) && t.1 - inc < ind
            ==> r[t] == locked[(t.0, t.1 - inc)]
    ensures (!((t.0, t.1 - inc) in locked && !Cleared(g, (t.0, t.1 - inc)) && t.1 - inc < ind)
             && t in locked && !Cleared(g, t) && t.1 >= ind) ==> r[t] == locked[t]
  {
    var l1 := RemoveFull(g, locked);
    RemoveFullKey(g, locked, t);
    RemoveFullKey(g, locked, (t.0, t.1 - inc));
    ClearRowsKey(g, locked, t, inc, ind, l1, r);
  }

  lemma MergeKey(m: Locked, ind: int, inc: nat, t: Cell)
    ensures t in Merge(m, ind, inc) <==> ((t.0, t.1 - inc) in m && t.1 - inc < ind) || (t in m && t.1 >= ind)
    ensures (t.0, t.1 - inc) in m && t.1 - inc < ind ==> Merge(m, ind, inc)[t] == m[(t.0, t.1 - inc)]
    ensures !((t.0, t.1 - inc) in m && t.1 - inc < ind) && t in m && t.1 >= ind ==> Merge(m, ind, inc)[t] == m[t]
  {
    ShiftedMembers(m, ind, inc, t);
  }

  // ---------------------------------------------------------------------
  // Properties

  /** With no full row, clear_rows returns 0 and leaves the map unchanged. */
  lemma ClearRowsNoFullRows(g: seq<seq<Colour>>, locked: Locked, after: Locked)
    requires ClearRows(g, locked) == Clear(0, after)
    ensures after == locked
  {
    forall k | k in locked
      ensures !Cleared(g, k)
    {
      if 0 <= k.1 < |g| {
        NoFullRowsFrom(g, 0, k.1);
      }
    }
  }

  /** No original entry of a cleared row survives at its own key: a key there
      after clear_rows (result r) holds an entry moved down from above the
      topmost full row. */
  lemma ClearRowsDropsFullRows(g: seq<seq<Colour>>, locked: Locked, count: nat, after: Locked, k: Cell)
    requires ClearRows(g, locked) == Clear(count, after)
    requires Cleared(g, k) && k in after
    ensures (k.0, k.1 - count) in locked
    ensures k.1 - count < TopFullFrom(g, 0)
    ensures after[k] == locked[(k.0, k.1 - count)]
  {
    ClearedMeansFull(g, k);
    ClearRowsAt(g, locked, k, count, TopFullFrom(g, 0), after);
  }

  /** A cleared key lies in a full row, so the count is positive. */
  lemma ClearedMeansFull(g: seq<seq<Colour>>, k: Cell)
    requires Cleared(g, k)
    ensures FullCountFrom(g, 0) > 0
  {
    if FullCountFrom(g, 0) == 0 {
      NoFullRowsFrom(g, 0, k.1);
    }
  }

  /** Rows above the topmost full row are not full. */
  lemma AboveTopNotCleared(g: seq<seq<Colour>>, k: Cell)
    requires k.1 < TopFullFrom(g, 0)
    ensures !Cleared(g, k)
  {
    TopFullFacts(g, 0);
  }

  lemma RemoveFullKey(g: seq<seq<Colour>>, locked: Locked, k: Cell)
    ensures k in RemoveFull(g, locked) <==> k in locked && !Cleared(g, k)
    ensures k in RemoveFull(g, locked) ==> RemoveFull(g, locked)[k] == locked[k]
  {
  }

  /** Every entry above the topmost full row moves down by exactly the count,
      keeping its colour. */
  lemma ClearRowsShiftsAbove(g: seq<seq<Colour>>, locked: Locked, count: nat, after: Locked, k: Cell)
    requires ClearRows(g, locked) == Clear(count, after)
    requires k in locked && count > 0 && k.1 < TopFullFrom(g, 0)
    ensures (k.0, k.1 + count) in after
    ensures after[(k.0, k.1 + count)] == locked[k]
  {
    var dst := (k.0, k.1 + count);
    AboveTopNotCleared(g, k);
    ClearRowsAt(g, locked, dst, count, TopFullFrom(g, 0), after);
    assert (dst.0, dst.1 - count) == k;
  }

  /** An entry at or below the topmost full row, outside every full row,
      keeps its key and colour unless an entry from above lands on it. */
  lemma ClearRowsKeepsBelow(g: seq<seq<Colour>>, locked: Locked, count: nat, after: Locked, k: Cell)
    requires ClearRows(g, locked) == Clear(count, after)
    requires k in locked && !Cleared(g, k) && k.1 >= TopFullFrom(g, 0)
    requires !((k.0, k.1 - count) in locked && k.1 - count < TopFullFrom(g, 0))
    ensures k in after && after[k] == locked[k]
  {
    if count == 0 {
      ClearRowsNoFullRows(g, locked, after);
    } else {
      ClearRowsAt(g, locked, k, count, TopFullFrom(g, 0), after);
    }
  }

  // ---------------------------------------------------------------------
  // Contiguous and non-contiguous full rows

  /** The full rows form one band: no non-full row lies between two full ones. */
  predicate ContiguousFullRows(g: seq<seq<Colour>>)
  {
    forall i, k, j :: 0 <= i < k < j < |g| && FullRow(g[i]) && FullRow(g[j]) ==> FullRow(g[k])
  }

  /** Every locked key on a grid row has a column that row has. */
  predicate ColumnsFit(g: seq<seq<Colour>>, locked: Locked)
  {
    forall k :: k in locked && 0 <= k.1 < |g| ==> 0 <= k.0 < |g[k.1]|
  }

  lemma {:induction false} NoneFullCountsZero(g: seq<seq<Colour>>, i: nat)
    requires i <= |g|
    requires forall r :: i <= r < |g| ==> !FullRow(g[r])
    ensures FullCountFrom(g, i) == 0
    decreases |g| - i
  {
    if i < |g| {
      NoneFullCountsZero(g, i + 1);
    }
  }

  /** Below a non-full row that lies under a full one, no row is full. */
  lemma NoFullAfterGap(g: seq<seq<Colour>>, t: nat, i: nat)
    requires ContiguousFullRows(g)
    requires t < i < |g| && FullRow(g[t]) && !FullRow(g[i])
    ensures forall r :: i < r < |g| ==> !FullRow(g[r])
  {
  }

  /** Rows lo .. lo + n - 1 all exist and are full. */
  predicate FullBand(g: seq<seq<Colour>>, lo: int, n: nat)
  {
    forall r :: lo <= r < lo + n ==> 0 <= r < |g| && FullRow(g[r])
  }

  lemma {:induction false} BandFrom(g: seq<seq<Colour>>, t: nat, i: nat)
    requires ContiguousFullRows(g)
    requires t < i <= |g| && FullRow(g[t])
    ensures FullBand(g, i, FullCountFrom(g, i))
    decreases |g| - i
  {
    if i < |g| {
      if FullRow(g[i]) {
        BandFrom(g, t, i + 1);
        BandStep(g, i);
      } else {
        NoFullAfterGap(g, t, i);
        NoneFullCountsZero(g, i + 1);
      }
    }
  }

  /** A full row extends the band found below it by one row. */
  lemma BandStep(g: seq<seq<Colour>>, i: nat)
    requires i < |g| && FullRow(g[i])
    requires FullBand(g, i + 1, FullCountFrom(g, i + 1))
    ensures FullBand(g, i, FullCountFrom(g, i))
  {
    assert FullCountFrom(g, i) == 1 + FullCountFrom(g, i + 1);
  }

  /** With contiguous full rows, those rows are exactly
      [top, top + count). */
  lemma ContiguousBand(g: seq<seq<Colour>>, t: nat, count: nat)
    requires ContiguousFullRows(g)
    requires count == FullCountFrom(g, 0) > 0 && t == TopFullFrom(g, 0)
    ensures FullBand(g, t, count)
  {
    TopFullCounts(g, t);
    BandFrom(g, t, t + 1);
    BandStep(g, t);
  }

  /** A locked entry inside a band of full rows is one the deletion loop
      removes. */
  lemma InBandCleared(g: seq<seq<Colour>>, locked: Locked, t: int, count: nat, k: Cell)
    requires FullBand(g, t, count) && ColumnsFit(g, locked) && k in locked
    ensures t <= k.1 < t + count ==> Cleared(g, k)
  {
    if t <= k.1 < t + count {
      assert 0 <= k.1 < |g| && FullRow(g[k.1]);
    }
  }

  /** When some row is full, the topmost one is full and all the full rows
      are counted from it on. */
  lemma TopFullCounts(g: seq<seq<Colour>>, t: nat)
    requires FullCountFrom(g, 0) > 0 && t == TopFullFrom(g, 0)
    ensures t < |g| && FullRow(g[t]) && FullCountFrom(g, t) == FullCountFrom(g, 0)
  {
    TopFullFacts(g, 0);
  }

  /** When the full rows are contiguous (and locked keys on the grid use
      columns the grid has), no moved entry overwrites anything: every
      entry outside the full rows at or below the topmost full row keeps
      its key and colour, and every entry above it moves down by the count. */
  lemma ClearRowsContiguous(g: seq<seq<Colour>>, locked: Locked, count: nat, after: Locked, k: Cell)
    requires ClearRows(g, locked) == Clear(count, after)
    requires ContiguousFullRows(g) && ColumnsFit(g, locked)
    requires k in locked && !Cleared(g, k)
    ensures k.1 >= TopFullFrom(g, 0) ==> k in after && after[k] == locked[k]
    ensures k.1 < TopFullFrom(g, 0) && count > 0 ==>
      (k.0, k.1 + count) in after && after[(k.0, k.1 + count)] == locked[k]
  {
    var ind := TopFullFrom(g, 0);
    if k.1 >= ind {
      if count > 0 {
        ContiguousBand(g, ind, count);
        InBandCleared(g, locked, ind, count, k);
      }
      ClearRowsKeepsBelow(g, locked, count, after, k);
    } else if count > 0 {
      ClearRowsShiftsAbove(g, locked, count, after, k);
    }
  }

  lemma {:induction false} GapCountFrom(g: seq<seq<Colour>>, a: nat, i: nat)
    requires a + 2 < |g| && i <= |g|
    requires forall r :: 0 <= r < |g| ==> (FullRow(g[r]) <==> r == a || r == a + 2)
    ensures FullCountFrom(g, i) == (if i <= a then 2 else if i <= a + 2 then 1 else 0)
    ensures i <= a ==> TopFullFrom(g, i) == a
    decreases |g| - i
  {
    if i < |g| {
      GapCountFrom(g, a, i + 1);
    }
  }

  lemma GapCounts(g: seq<seq<Colour>>, a: nat)
    requires a + 2 < |g|
    requires forall r :: 0 <= r < |g| ==> (FullRow(g[r]) <==> r == a || r == a + 2)
    ensures FullCountFrom(g, 0) == 2 && TopFullFrom(g, 0) == a
  {
    GapCountFrom(g, a, 0);
  }

  /** With two full rows a and a + 2 around a non-full row a + 1, the entry
      moved down from row a - 1 lands on row a + 1 and replaces the entry
      that was there, and row a + 2 is left without an entry: row a + 1 is
      not moved down onto it. */
  lemma ClearRowsGapOverwrites(g: seq<seq<Colour>>, locked: Locked, count: nat, after: Locked, a: nat, x: int)
    requires ClearRows(g, locked) == Clear(count, after)
    requires a + 2 < |g| && 0 <= x < |g[a + 2]|
    requires forall i :: 0 <= i < |g| ==> (FullRow(g[i]) <==> i == a || i == a + 2)
    requires (x, a - 1) in locked && (x, a + 1) in locked
    ensures count == 2 && TopFullFrom(g, 0) == a
    ensures (x, a + 1) in after && after[(x, a + 1)] == locked[(x, a - 1)]
    ensures (x, a + 2) !in after
  {
    GapCounts(g, a);
    GapMoves(g, locked, count, after, a, x);
  }

  lemma GapMoves(g: seq<seq<Colour>>, locked: Locked, count: nat, after: Locked, a: nat, x: int)
    requires ClearRows(g, locked) == Clear(count, after)
    requires count == 2 && TopFullFrom(g, 0) == a && a + 2 < |g|
    requires FullRow(g[a + 2]) && 0 <= x < |g[a + 2]|
    requires (x, a - 1) in locked
    ensures (x, a + 1) in after && after[(x, a + 1)] == locked[(x, a - 1)]
    ensures (x, a + 2) !in after
  {
    ClearRowsShiftsAbove(g, locked, count, after, (x, a - 1));
    assert (x, a - 1 + 2) == (x, a + 1);
    ClearRowsAt(g, locked, (x, a + 2), count, a, after);
    assert (x, a + 2 - 2) == (x, a);
  }
}
