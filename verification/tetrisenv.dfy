/** TetrisEnv of TetrisEnv.py: reset and one step of the game. The clock,
    the random shape choice and the window are parameters or left out: a
    step takes whether the fall timer has run out (tick) and the catalog
    index get_shape would have drawn (spawn). */
module TetrisEnv {
  import opened Outcomes
  import opened Shapes
  import opened Pieces
  import opened Board
  import opened LineClear

  /** The environment's state. The grid is the one reset built, repainted in
      place by every step; it is never rebuilt from the locked map. */
  datatype Game = Game(
    locked: Locked,
    grid: Grid,
    current: Piece,
    next: Piece,
    score: int,
    changePiece: bool,
    running: bool)

  /** What step returns besides the grid (which is game.grid). */
  datatype Outcome = Outcome(game: Game, reward: int, terminated: bool, truncated: bool)

  /** reset: no locked cells, a black grid, two fresh pieces. */
  function Reset(first: ShapeId, second: ShapeId): (g: Game)
    ensures IsBoard(g.grid) && forall y, x :: 0 <= y < Rows && 0 <= x < Cols ==> g.grid[y][x] == Black
    ensures g.locked == map[] && g.score == 0 && !g.changePiece && g.running
    ensures g.current == Spawn(first) && g.next == Spawn(second)
  {
    Game(map[], CreateGrid(map[]), Spawn(first), Spawn(second), 0, false, true)
  }

  // ---------------------------------------------------------------------
  // The invariant step keeps

  /** Every cell of the piece at row 0 or below lies on the playfield. */
  predicate CellsOnBoard(p: Piece)
  {
    forall c :: c in Decode(p) && c.1 >= 0 ==> OnBoard(c)
  }

  /** A piece as get_shape makes it. */
  predicate IsSpawn(p: Piece)
  {
    exists id: ShapeId :: p == Spawn(id)
  }

  /** What holds between steps: a 20x10 grid; a catalog piece in play, at a
      row index of at least 0, with an in-range rotation and its visible cells
      on the playfield; a freshly spawned next piece; no pending lock. */
  predicate Inv(game: Game)
  {
    && IsBoard(game.grid)
    && FromCatalog(game.current)
    && game.current.y >= 0
    && 0 <= game.current.rotation < |game.current.shape|
    && CellsOnBoard(game.current)
    && IsSpawn(game.next)
    && !game.changePiece
  }

  // ---------------------------------------------------------------------
  // Moving the piece

  /** The piece after the fall timer's move and the change_piece flag. */
  datatype Fall = Fall(piece: Piece, change: bool)

  /** The fall: when the timer has run out the piece moves one row down; if
      that place is not free and the new row index is positive it moves back
      and change_piece is set. */
  function Gravity(p: Piece, g: Grid, change: bool, tick: bool): (f: Fall)
    requires Rectangular(g)
    ensures f.piece == p || f.piece == p.(y := p.y + 1)
    ensures tick ==> (f.piece == p <==> !ValidSpace(p.(y := p.y + 1), g) && p.y + 1 > 0)
    ensures f.change <==> change || (tick && f.piece == p)
    ensures !tick ==> f == Fall(p, change)
  {
    if !tick then Fall(p, change)
    else
      var q := p.(y := p.y + 1);
      if !ValidSpace(q, g) && q.y > 0 then Fall(p, true) else Fall(q, change)
  }

  /** Try a move; keep it only if the new place is free. */
  function TryMove(p: Piece, q: Piece, g: Grid): (r: Piece)
    requires Rectangular(g)
    ensures r == q <==> ValidSpace(q, g) || q == p
    ensures r == p || r == q
  {
    if ValidSpace(q, g) then q else p
  }

  /** The rotation after a turn: one step forward modulo the state count. */
  function Turned(p: Piece): Piece
  {
    p.(rotation := (p.rotation + 1) % |p.shape|)
  }

  /** The rotation after a rejected turn: one step back modulo the count. */
  function Unturned(p: Piece): Piece
  {
    p.(rotation := (p.rotation - 1) % |p.shape|)
  }

  /** The action: 0 left, 1 right, 2 rotate, 3 down; anything else does
      nothing. A move into a place that is not free is undone; a rejected
      turn is undone by turning one step back. */
  function ApplyAction(p: Piece, g: Grid, action: int): (r: Piece)
    requires Rectangular(g)
    ensures r.shape == p.shape && r.colour == p.colour
    ensures action == 0 ==> (r == p || r == p.(x := p.x - 1)) && (r != p <==> ValidSpace(p.(x := p.x - 1), g))
    ensures action == 1 ==> (r == p || r == p.(x := p.x + 1)) && (r != p <==> ValidSpace(p.(x := p.x + 1), g))
    ensures action == 3 ==> (r == p || r == p.(y := p.y + 1)) && (r != p <==> ValidSpace(p.(y := p.y + 1), g))
    ensures action == 2 && ValidSpace(Turned(p), g) ==> r == Turned(p)
    ensures action == 2 && !ValidSpace(Turned(p), g) ==> r == Unturned(Turned(p))
    ensures !(0 <= action <= 3) ==> r == p
  {
    if action == 0 then TryMove(p, p.(x := p.x - 1), g)
    else if action == 1 then TryMove(p, p.(x := p.x + 1), g)
    else if action == 2 then
      var q := Turned(p);
      if ValidSpace(q, g) then q else Unturned(q)
    else if action == 3 then TryMove(p, p.(y := p.y + 1), g)
    else p
  }

  /** Turning and turning back restores an in-range rotation. */
  lemma TurnRoundTrip(p: Piece)
    requires 0 <= p.rotation < |p.shape|
    ensures Unturned(Turned(p)) == p
    ensures 0 <= Turned(p).rotation < |p.shape|
  {
    var n := |p.shape|;
    if p.rotation + 1 < n {
      ModUnique(p.rotation + 1, n, 0, p.rotation + 1);
      ModUnique(p.rotation, n, 0, p.rotation);
    } else {
      ModUnique(n, n, 1, 0);
      ModUnique(-1, n, -1, n - 1);
    }
  }

  /** An action leaves an in-range rotation in range, and either keeps the
      piece or puts it on a free place. */
  lemma ActionOutcome(p: Piece, g: Grid, action: int)
    requires Rectangular(g) && 0 <= p.rotation < |p.shape|
    ensures var r := ApplyAction(p, g, action);
      0 <= r.rotation < |r.shape| && (r == p || ValidSpace(r, g))
  {
    TurnRoundTrip(p);
  }

  // ---------------------------------------------------------------------
  // Painting the grid

  /** Python's index check for a list of length n: 0..n-1 as is, -n..-1
      counted from the end, anything else an IndexError (None). */
  function PyIndex(i: int, n: int): (r: Option<int>)
    ensures r.Some? <==> -n <= i < n
    ensures r.Some? ==> 0 <= r.value < n && (r.value == i || r.value == i + n)
  {
    if 0 <= i < n then Some(i) else if -n <= i < 0 then Some(i + n) else None
  }

  /** grid[y][x] = colour for one cell, done only when y > -1. */
  function Paint(g: Grid, c: Cell, colour: Colour): Option<Grid>
  {
    if c.1 <= -1 then Some(g)
    else if c.1 >= |g| then None
    else match PyIndex(c.0, |g[c.1]|)
      case None => None
      case Some(x) => Some(g[c.1 := g[c.1][x := colour]])
  }

  /** The painting loop of step over the piece's cells, in order; None when
      a write would raise IndexError. */
  function Overlay(g: Grid, cells: seq<Cell>, colour: Colour): (r: Option<Grid>)
    ensures r.Some? ==> |r.value| == |g| && forall y :: 0 <= y < |g| ==> |r.value[y]| == |g[y]|
    ensures (forall i :: 0 <= i < |cells| ==> cells[i].1 <= -1) ==> r == Some(g)
    decreases |cells|
  {
    if cells == [] then Some(g)
    else match Paint(g, cells[0], colour)
      case None => None
      case Some(g1) => Overlay(g1, cells[1..], colour)
  }

  /** Cells at row 0 or below all lie on the playfield. */
  predicate VisibleOnBoard(cells: seq<Cell>)
  {
    forall c :: c in cells && c.1 >= 0 ==> OnBoard(c)
  }

  /** Painting on-board cells succeeds, keeps the 20x10 shape, paints exactly
      those cells and leaves every other cell as it was. */
  lemma {:induction false} OverlayOnBoard(g: Grid, cells: seq<Cell>, colour: Colour)
    requires IsBoard(g) && VisibleOnBoard(cells)
    ensures Overlay(g, cells, colour).Some?
    ensures IsBoard(Overlay(g, cells, colour).value)
    ensures forall y, x :: 0 <= y < Rows && 0 <= x < Cols ==>
      Overlay(g, cells, colour).value[y][x] == (if (x, y) in cells then colour else g[y][x])
    decreases |cells|
  {
    if cells != [] {
      var c := cells[0];
      var g1 := Paint(g, c, colour).value;
      assert IsBoard(g1);
      assert forall y, x :: 0 <= y < Rows && 0 <= x < Cols ==>
        g1[y][x] == (if (x, y) == c then colour else g[y][x]);
      assert VisibleOnBoard(cells[1..]);
      OverlayOnBoard(g1, cells[1..], colour);
      forall y, x | 0 <= y < Rows && 0 <= x < Cols
        ensures Overlay(g, cells, colour).value[y][x] == (if (x, y) in cells then colour else g[y][x])
      {
        assert (x, y) in cells <==> (x, y) == c || (x, y) in cells[1..];
      }
    }
  }

  // ---------------------------------------------------------------------
  // Locking and step

  /** locked_positions[p] = colour for every cell of the piece. */
  function Lock(locked: Locked, cells: seq<Cell>, colour: Colour): (r: Locked)
    ensures forall k :: k in r <==> k in locked || k in cells
    ensures forall k :: k in r ==> r[k] == (if k in cells then colour else locked[k])
  {
    locked + map c | c in cells :: colour
  }

  /** The loss check and the outcome record: a loss costs 50, ends the
      episode and stops the game; truncated is always false. */
  function Finish(game: Game, reward: int): (o: Outcome)
    ensures o.terminated <==> IsLost(game.locked)
    ensures o.game == game.(running := game.running && !o.terminated)
    ensures o.reward == reward - (if o.terminated then 50 else 0)
    ensures !o.truncated
  {
    if IsLost(game.locked) then Outcome(game.(running := false), reward - 50, true, false)
    else Outcome(game, reward, false, false)
  }

  /** The piece where the step leaves it before any lock: after the fall and
      the action. */
  function Moved(game: Game, action: int, tick: bool): Piece
    requires IsBoard(game.grid)
  {
    ApplyAction(Gravity(game.current, game.grid, game.changePiece, tick).piece, game.grid, action)
  }

  /** Whether the step locks the piece. */
  predicate Locks(game: Game, tick: bool)
    requires IsBoard(game.grid)
  {
    Gravity(game.current, game.grid, game.changePiece, tick).change
  }

  /** step: fall, act, paint the piece onto the grid; on a lock, add its
      cells to the locked map, clear rows (10 per row), bring in the next
      piece and draw a new one; then check for a loss. None when painting
      raises IndexError. */
  function Step(game: Game, action: int, tick: bool, spawn: ShapeId): (r: Option<Outcome>)
    requires IsBoard(game.grid)
    ensures r.Some? ==> !r.value.truncated && r.value.game.score == game.score && !r.value.game.changePiece
    ensures r.Some? ==> r.value.game.running == (game.running && !r.value.terminated)
  {
    var p := Moved(game, action, tick);
    var cells := Decode(p);
    match Overlay(game.grid, cells, p.colour)
    case None => None
    case Some(grid) =>
      if Locks(game, tick) then
        var c := ClearRows(grid, Lock(game.locked, cells, p.colour));
        Some(Finish(Game(c.locked, grid, game.next, Spawn(spawn), game.score, false, game.running), 10 * c.count))
      else
        Some(Finish(Game(game.locked, grid, p, game.next, game.score, false, game.running), 0))
  }

  // ---------------------------------------------------------------------
  // Properties

  /** reset establishes the invariant with nothing locked, an all-black
      grid, score 0 and the game running. */
  lemma ResetFacts(first: ShapeId, second: ShapeId)
    ensures Inv(Reset(first, second))
    ensures Reset(first, second).locked == map[] && Reset(first, second).running
    ensures Reset(first, second).score == 0
    ensures var r := Reset(first, second);
      r.current.x == 5 && r.current.y == 0 && r.current.rotation == 0
      && r.next.x == 5 && r.next.y == 0 && r.next.rotation == 0
    ensures forall y, x :: 0 <= y < Rows && 0 <= x < Cols ==> Reset(first, second).grid[y][x] == Black
  {
    SpawnFacts(first);
    CreateGridEmpty();
    assert IsSpawn(Spawn(second));
  }

  /** A spawned piece: from the catalog, at row 0, rotation 0, visible
      cells on the playfield. */
  lemma SpawnFacts(id: ShapeId)
    ensures FromCatalog(Spawn(id)) && Spawn(id).y == 0 && Spawn(id).rotation == 0
    ensures CellsOnBoard(Spawn(id))
  {
    var p := Spawn(id);
    assert p.shape == Catalog[id] && p.colour == ColourOf(id);
    CatalogFormat(p);
    DecodeShape(p);
  }

  /** A catalog piece is never black, so painting it never erases paint. */
  lemma CatalogColour(p: Piece)
    requires FromCatalog(p)
    ensures p.colour != Black
  {
  }

  /** The piece after the fall and the action keeps its shape and colour, an
      in-range rotation, a row index of at least 0 and its visible cells on
      the playfield. */
  lemma MovedFacts(game: Game, action: int, tick: bool)
    requires Inv(game)
    ensures Moved(game, action, tick).shape == game.current.shape
    ensures Moved(game, action, tick).colour == game.current.colour
    ensures 0 <= Moved(game, action, tick).rotation < |game.current.shape|
    ensures Moved(game, action, tick).y >= 0
    ensures CellsOnBoard(Moved(game, action, tick))
  {
    var f := Gravity(game.current, game.grid, game.changePiece, tick);
    if f.piece != game.current {
      ValidSpaceOnBoard(f.piece, game.grid);
    }
    ActionOutcome(f.piece, game.grid, action);
    var r := ApplyAction(f.piece, game.grid, action);
    if r != f.piece {
      ValidSpaceOnBoard(r, game.grid);
    }
  }

  /** Under the invariant, painting never fails: step always returns. */
  lemma StepDefined(game: Game, action: int, tick: bool, spawn: ShapeId)
    requires Inv(game)
    ensures Step(game, action, tick, spawn).Some?
  {
    MovedFacts(game, action, tick);
    var p := Moved(game, action, tick);
    OverlayOnBoard(game.grid, Decode(p), p.colour);
  }

  /** step keeps the invariant. */
  lemma StepPreservesInv(game: Game, action: int, tick: bool, spawn: ShapeId, o: Outcome)
    requires Inv(game) && Step(game, action, tick, spawn) == Some(o)
    ensures Inv(o.game)
  {
    MovedFacts(game, action, tick);
    var p := Moved(game, action, tick);
    OverlayOnBoard(game.grid, Decode(p), p.colour);
    if Locks(game, tick) {
      var id: ShapeId :| game.next == Spawn(id);
      SpawnFacts(id);
      assert IsSpawn(Spawn(spawn));
    } else {
      assert p.shape == game.current.shape && p.colour == game.current.colour;
    }
  }

  /** A step without a lock leaves the locked map alone, keeps the next
      piece, and rewards 0, or -50 when the locked map already loses. */
  lemma StepWithoutLock(game: Game, action: int, tick: bool, spawn: ShapeId, o: Outcome)
    requires IsBoard(game.grid) && !Locks(game, tick)
    requires Step(game, action, tick, spawn) == Some(o)
    ensures o.game.locked == game.locked
    ensures o.game.current == Moved(game, action, tick) && o.game.next == game.next
    ensures o.terminated <==> IsLost(game.locked)
    ensures o.reward == (if o.terminated then -50 else 0)
  {
  }

  /** A locking step adds the piece's cells to the locked map and clears
      rows: the reward is 10 per full row of the painted grid, less 50 on a
      loss; the next piece comes into play and a new one is drawn. */
  lemma StepWithLock(game: Game, action: int, tick: bool, spawn: ShapeId, o: Outcome,
                     grid: Grid, count: nat, after: Locked)
    requires IsBoard(game.grid) && Locks(game, tick)
    requires Step(game, action, tick, spawn) == Some(o)
    requires Overlay(game.grid, Decode(Moved(game, action, tick)), Moved(game, action, tick).colour) == Some(grid)
    requires ClearRows(grid, Lock(game.locked, Decode(Moved(game, action, tick)), Moved(game, action, tick).colour))
             == Clear(count, after)
    ensures o.game.grid == grid && o.game.locked == after
    ensures o.game.current == game.next && o.game.next == Spawn(spawn)
    ensures count == |FullRows(grid)|
    ensures o.terminated <==> IsLost(after)
    ensures o.reward == 10 * count - (if o.terminated then 50 else 0)
  {
    ClearRowsCount(grid, Lock(game.locked, Decode(Moved(game, action, tick)), Moved(game, action, tick).colour));
  }

  /** Every step reports truncated = false, keeps the score, and stops the
      game exactly when it reports terminated. */
  lemma StepBookkeeping(game: Game, action: int, tick: bool, spawn: ShapeId, o: Outcome)
    requires IsBoard(game.grid) && Step(game, action, tick, spawn) == Some(o)
    ensures !o.truncated && o.game.score == game.score && !o.game.changePiece
    ensures o.game.running == (game.running && !o.terminated)
  {
  }

  /** The grid is only ever painted: under the invariant a cell that is not
      black stays not black, and the piece's visible cells take its colour. */
  lemma StepPaints(game: Game, action: int, tick: bool, spawn: ShapeId, o: Outcome)
    requires Inv(game) && Step(game, action, tick, spawn) == Some(o)
    ensures IsBoard(o.game.grid)
    ensures forall y, x :: 0 <= y < Rows && 0 <= x < Cols && game.grid[y][x] != Black ==>
      o.game.grid[y][x] != Black
    ensures forall c :: c in Decode(Moved(game, action, tick)) && c.1 >= 0 ==>
      OnBoard(c) && o.game.grid[c.1][c.0] == game.current.colour
  {
    MovedFacts(game, action, tick);
    var p := Moved(game, action, tick);
    OverlayOnBoard(game.grid, Decode(p), p.colour);
    CatalogColour(game.current);
  }
}
