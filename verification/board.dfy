/** The colour grid and the queries over it: create_grid, valid_space and
    check_lost of tetris.py. */
module Board {
  import opened Shapes
  import opened Pieces

  const Rows := 20
  const Cols := 10

  /** A list of rows, each a list of colours; grid[row][column]. */
  type Grid = seq<seq<Colour>>

  /** The playfield shape: 20 rows of 10 cells. */
  predicate IsBoard(g: Grid)
  {
    |g| == Rows && forall i :: 0 <= i < |g| ==> |g[i]| == Cols
  }

  /** Every row as long as the first; valid_space reads the width from row 0. */
  predicate Rectangular(g: Grid)
  {
    forall i :: 0 <= i < |g| ==> |g[i]| == |g[0]|
  }

  function Width(g: Grid): nat
  {
    if g == [] then 0 else |g[0]|
  }

  /** A cell inside the 20x10 playfield. */
  predicate OnBoard(c: Cell)
  {
    0 <= c.0 < Cols && 0 <= c.1 < Rows
  }

  /** The colour create_grid puts at (column x, row y). */
  function LockedColour(locked: map<Cell, Colour>, x: int, y: int): Colour
  {
    if (x, y) in locked then locked[(x, y)] else Black
  }

  /** create_grid: a 20x10 grid showing the locked colour at each in-range
      key and black elsewhere. */
  function CreateGrid(locked: map<Cell, Colour>): (g: Grid)
    ensures IsBoard(g)
    ensures forall y, x :: 0 <= y < Rows && 0 <= x < Cols ==> g[y][x] == LockedColour(locked, x, y)
  {
    seq(Rows, y requires 0 <= y < Rows => seq(Cols, x requires 0 <= x < Cols => LockedColour(locked, x, y)))
  }

  /** Keys outside the 10x20 playfield never reach the grid: two maps that
      agree on the playfield give the same grid. */
  lemma CreateGridIgnoresOffBoard(a: map<Cell, Colour>, b: map<Cell, Colour>)
    requires forall c :: OnBoard(c) ==> (c in a <==> c in b)
    requires forall c :: OnBoard(c) && c in a ==> a[c] == b[c]
    ensures CreateGrid(a) == CreateGrid(b)
  {
    var ga, gb := CreateGrid(a), CreateGrid(b);
    forall y | 0 <= y < Rows
      ensures ga[y] == gb[y]
    {
      forall x | 0 <= x < Cols
        ensures ga[y][x] == gb[y][x]
      {
        assert OnBoard((x, y));
      }
    }
  }

  /** With no locked cells the grid is all black. */
  lemma CreateGridEmpty()
    ensures forall y, x :: 0 <= y < Rows && 0 <= x < Cols ==> CreateGrid(map[])[y][x] == Black
  {
  }

  /** The cell (column, row) is inside a rectangular grid and black there. */
  predicate EmptyAt(g: Grid, c: Cell)
    requires Rectangular(g)
  {
    0 <= c.1 < |g| && 0 <= c.0 < Width(g) && g[c.1][c.0] == Black
  }

  /** The black cells of row i from column j on, left to right. */
  function AcceptedInRow(g: Grid, i: nat, j: nat): (r: seq<Cell>)
    requires Rectangular(g) && i < |g| && j <= Width(g)
    ensures forall c :: c in r <==> c.1 == i && j <= c.0 && EmptyAt(g, c)
    decreases Width(g) - j
  {
    if j == Width(g) then []
    else (if g[i][j] == Black then [(j, i)] else []) + AcceptedInRow(g, i, j + 1)
  }

  /** The black cells of rows i.. of the grid, row by row. */
  function AcceptedFrom(g: Grid, i: nat): (r: seq<Cell>)
    requires Rectangular(g) && i <= |g|
    ensures forall c :: c in r <==> i <= c.1 && EmptyAt(g, c)
    decreases |g| - i
  {
    if i == |g| then [] else AcceptedInRow(g, i, 0) + AcceptedFrom(g, i + 1)
  }

  /** The flattened list of accepted (empty) positions valid_space builds. */
  function AcceptedPositions(g: Grid): seq<Cell>
    requires Rectangular(g)
  {
    AcceptedFrom(g, 0)
  }

  /** valid_space's loop over the decoded cells: a cell not among the
      accepted positions fails only when its row is 0 or below. */
  function AllAccepted(cells: seq<Cell>, accepted: seq<Cell>): bool
  {
    if cells == [] then true
    else if cells[0] !in accepted && cells[0].1 >= 0 then false
    else AllAccepted(cells[1..], accepted)
  }

  /** valid_space. The enumeration of empty slots amounts to an explicit
      bounds-and-colour check on every decoded cell at row 0 or below;
      cells above the playfield pass whatever their column. */
  function ValidSpace(p: Piece, g: Grid): (ok: bool)
    requires Rectangular(g)
    ensures ok <==> forall c :: c in Decode(p) && c.1 >= 0 ==> EmptyAt(g, c)
  {
    AllAcceptedMeaning(Decode(p), AcceptedPositions(g));
    AllAccepted(Decode(p), AcceptedPositions(g))
  }

  lemma {:induction false} AllAcceptedMeaning(cells: seq<Cell>, accepted: seq<Cell>)
    ensures AllAccepted(cells, accepted) <==> forall c :: c in cells && c.1 >= 0 ==> c in accepted
  {
    if cells != [] {
      AllAcceptedMeaning(cells[1..], accepted);
      assert forall c :: c in cells <==> c == cells[0] || c in cells[1..];
    }
  }

  /** On a 20x10 grid a valid piece has every cell at row 0 or below inside
      the playfield. */
  lemma ValidSpaceOnBoard(p: Piece, g: Grid)
    requires IsBoard(g)
    requires ValidSpace(p, g)
    ensures forall c :: c in Decode(p) && c.1 >= 0 ==> OnBoard(c)
  {
  }

  /** The loss predicate: some locked cell sits at row 0 or above it. */
  predicate IsLost(locked: map<Cell, Colour>)
  {
    exists k :: k in locked && k.1 < 1
  }

  /** check_lost: scan the locked keys and stop at the first with row < 1. */
  method CheckLost(locked: map<Cell, Colour>) returns (lost: bool)
    ensures lost <==> IsLost(locked)
    ensures locked == map[] ==> !lost
  {
    var todo := locked.Keys;
    while todo != {}
      invariant todo <= locked.Keys
      invariant forall k :: k in locked && k !in todo ==> k.1 >= 1
      decreases |todo|
    {
      var k :| k in todo;
      if k.1 < 1 {
        return true;
      }
      todo := todo - {k};
    }
    return false;
  }
}
