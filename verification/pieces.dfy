/** Pieces and the shape decoder (convert_shape_format in tetris.py). */
module Pieces {
  import opened Shapes

  /** A grid coordinate as the Python code keys it: (column, row). Rows grow
      downwards; negative rows lie above the visible playfield. */
  type Cell = (int, int)

  /** A falling tetromino, with the fields the Python object carries: its
      anchor (x, y), its list of rotation states, the colour looked up from
      the catalog when it was built, and its rotation index. */
  datatype Piece = Piece(x: int, y: int, shape: Shape, colour: Colour, rotation: int)

  /** A piece built from catalog entry id (Piece's constructor), at rotation 0. */
  function MakePiece(x: int, y: int, id: ShapeId): (p: Piece)
    ensures FromCatalog(p) && p.colour != Black
    ensures p.x == x && p.y == y && p.rotation == 0
  {
    Piece(x, y, Catalog[id], ColourOf(id), 0)
  }

  /** get_shape: a new piece at the spawn anchor (5, 0). The random choice of
      shape is the caller's argument. */
  function Spawn(id: ShapeId): (p: Piece)
    ensures FromCatalog(p) && p.shape == Catalog[id] && p.colour == ColourOf(id)
    ensures p.x == 5 && p.y == 0 && p.rotation == 0
  {
    MakePiece(5, 0, id)
  }

  /** The piece's shape and colour come from one catalog entry. */
  predicate FromCatalog(p: Piece)
  {
    exists id: ShapeId :: p.shape == Catalog[id] && p.colour == ColourOf(id)
  }

  /** The rotation state in use: rotation taken modulo the state count
      (Python's % and Dafny's % agree for a positive divisor). */
  function Format(p: Piece): State
  {
    p.shape[p.rotation % |p.shape|]
  }

  /** Cells of one pattern line, scanned left to right, the first character
      sitting at column x. */
  function ScanLine(line: string, x: int, y: int): seq<Cell>
  {
    if line == [] then []
    else (if line[0] == '0' then [(x, y)] else []) + ScanLine(line[1..], x + 1, y)
  }

  /** Cells of a pattern, scanned row by row, the first line sitting at row y. */
  function ScanRows(st: State, x: int, y: int): seq<Cell>
  {
    if st == [] then [] else ScanLine(st[0], x, y) + ScanRows(st[1..], x, y + 1)
  }

  /** Every cell moved by (dx, dy), order kept. */
  function Translate(cells: seq<Cell>, dx: int, dy: int): (r: seq<Cell>)
    ensures |r| == |cells|
  {
    seq(|cells|, k requires 0 <= k < |cells| => (cells[k].0 + dx, cells[k].1 + dy))
  }

  /** Row-major order: rows ascending, and columns ascending within a row. */
  predicate Before(a: Cell, b: Cell)
  {
    a.1 < b.1 || (a.1 == b.1 && a.0 < b.0)
  }

  predicate RowMajor(cells: seq<Cell>)
  {
    forall a, b :: 0 <= a < b < |cells| ==> Before(cells[a], cells[b])
  }

  /** The cells a pattern occupies when its box is anchored at (x, y): the
      scan, then the centring correction (-2, -4). One cell per mark. */
  function Place(st: State, x: int, y: int): (cells: seq<Cell>)
    ensures |cells| == MarksInState(st)
  {
    ScanRowsCount(st, x, y);
    Translate(ScanRows(st, x, y), -2, -4)
  }

  /** convert_shape_format: the absolute cells of a piece. */
  function Decode(p: Piece): (cells: seq<Cell>)
    ensures |cells| == MarksInState(Format(p))
  {
    Place(Format(p), p.x, p.y)
  }

  /** A catalog piece decodes to exactly four cells, whatever its rotation. */
  lemma DecodeFour(p: Piece)
    requires FromCatalog(p)
    ensures |Decode(p)| == 4
  {
    var id: ShapeId :| p.shape == Catalog[id] && p.colour == ColourOf(id);
    CatalogTetrominoes(id, p.rotation % |p.shape|);
  }

  // ---------------------------------------------------------------------
  // Counting

  lemma {:induction false} ScanLineCount(line: string, x: int, y: int)
    ensures |ScanLine(line, x, y)| == MarksInLine(line)
  {
    if line != [] {
      ScanLineCount(line[1..], x + 1, y);
    }
  }

  lemma {:induction false} ScanRowsCount(st: State, x: int, y: int)
    ensures |ScanRows(st, x, y)| == MarksInState(st)
  {
    if st != [] {
      ScanLineCount(st[0], x, y);
      ScanRowsCount(st[1..], x, y + 1);
    }
  }

  // ---------------------------------------------------------------------
  // Membership

  /** A line's scan holds exactly the marked columns, offset by x. */
  lemma ScanLineMembers(line: string, x: int, y: int, c: Cell)
    ensures c in ScanLine(line, x, y) <==>
      exists j :: 0 <= j < |line| && line[j] == '0' && c == (x + j, y)
  {
    if c in ScanLine(line, x, y) {
      ScanLineSound(line, x, y, c);
    }
    if exists j :: 0 <= j < |line| && line[j] == '0' && c == (x + j, y) {
      var j :| 0 <= j < |line| && line[j] == '0' && c == (x + j, y);
      ScanLineComplete(line, x, y, j);
    }
  }

  lemma {:induction false} ScanLineSound(line: string, x: int, y: int, c: Cell)
    requires c in ScanLine(line, x, y)
    ensures exists j :: 0 <= j < |line| && line[j] == '0' && c == (x + j, y)
  {
    var tail := line[1..];
    if line[0] == '0' && c == (x, y) {
      assert c == (x + 0, y);
    } else {
      assert c in ScanLine(tail, x + 1, y);
      ScanLineSound(tail, x + 1, y, c);
      var j :| 0 <= j < |tail| && tail[j] == '0' && c == (x + 1 + j, y);
      assert line[j + 1] == '0' && c == (x + (j + 1), y);
    }
  }

  lemma {:induction false} ScanLineComplete(line: string, x: int, y: int, j: int)
    requires 0 <= j < |line| && line[j] == '0'
    ensures (x + j, y) in ScanLine(line, x, y)
  {
    if j > 0 {
      ScanLineComplete(line[1..], x + 1, y, j - 1);
      assert x + 1 + (j - 1) == x + j;
    }
  }

  /** A pattern's scan holds exactly its marked cells, offset by (x, y). */
  lemma ScanRowsMembers(st: State, x: int, y: int, c: Cell)
    ensures c in ScanRows(st, x, y) <==>
      exists i, j :: 0 <= i < |st| && 0 <= j < |st[i]| && st[i][j] == '0' && c == (x + j, y + i)
  {
    if c in ScanRows(st, x, y) {
      ScanRowsSound(st, x, y, c);
    }
    if exists i, j :: 0 <= i < |st| && 0 <= j < |st[i]| && st[i][j] == '0' && c == (x + j, y + i) {
      var i, j :| 0 <= i < |st| && 0 <= j < |st[i]| && st[i][j] == '0' && c == (x + j, y + i);
      ScanRowsComplete(st, x, y, i, j);
    }
  }

  lemma {:induction false} ScanRowsSound(st: State, x: int, y: int, c: Cell)
    requires c in ScanRows(st, x, y)
    ensures exists i, j :: 0 <= i < |st| && 0 <= j < |st[i]| && st[i][j] == '0' && c == (x + j, y + i)
  {
    var tail := st[1..];
    if c in ScanLine(st[0], x, y) {
      ScanLineMembers(st[0], x, y, c);
      var j :| 0 <= j < |st[0]| && st[0][j] == '0' && c == (x + j, y);
      assert c == (x + j, y + 0);
    } else {
      ScanRowsSound(tail, x, y + 1, c);
      var i, j :| 0 <= i < |tail| && 0 <= j < |tail[i]| && tail[i][j] == '0' && c == (x + j, y + 1 + i);
      assert st[i + 1][j] == '0' && c == (x + j, y + (i + 1));
    }
  }

  lemma {:induction false} ScanRowsComplete(st: State, x: int, y: int, i: int, j: int)
    requires 0 <= i < |st| && 0 <= j < |st[i]| && st[i][j] == '0'
    ensures (x + j, y + i) in ScanRows(st, x, y)
  {
    if i == 0 {
      ScanLineMembers(st[0], x, y, (x + j, y));
    } else {
      ScanRowsComplete(st[1..], x, y + 1, i - 1, j);
      assert y + 1 + (i - 1) == y + i;
    }
  }

  // ---------------------------------------------------------------------
  // Order

  lemma {:induction false} ScanLineRowMajor(line: string, x: int, y: int)
    ensures RowMajor(ScanLine(line, x, y))
    ensures forall c :: c in ScanLine(line, x, y) ==> c.1 == y && x <= c.0
  {
    if line != [] {
      var head: seq<Cell> := if line[0] == '0' then [(x, y)] else [];
      var rest := ScanLine(line[1..], x + 1, y);
      ScanLineRowMajor(line[1..], x + 1, y);
      ConcatRowMajor(head, rest);
    }
  }

  lemma {:induction false} ScanRowsRowMajor(st: State, x: int, y: int)
    ensures RowMajor(ScanRows(st, x, y))
    ensures forall c :: c in ScanRows(st, x, y) ==> y <= c.1
  {
    if st != [] {
      ScanLineRowMajor(st[0], x, y);
      ScanRowsRowMajor(st[1..], x, y + 1);
      ConcatRowMajor(ScanLine(st[0], x, y), ScanRows(st[1..], x, y + 1));
    }
  }

  lemma ConcatRowMajor(a: seq<Cell>, b: seq<Cell>)
    requires RowMajor(a) && RowMajor(b)
    requires forall c, d :: c in a && d in b ==> Before(c, d)
    ensures RowMajor(a + b)
  {
    forall i, j | 0 <= i < j < |a + b|
      ensures Before((a + b)[i], (a + b)[j])
    {
      if j < |a| {
        assert Before(a[i], a[j]);
      } else if i < |a| {
        assert (a + b)[i] in a && (a + b)[j] in b;
      } else {
        assert Before(b[i - |a|], b[j - |a|]);
      }
    }
  }

  lemma TranslateRowMajor(cells: seq<Cell>, dx: int, dy: int)
    requires RowMajor(cells)
    ensures RowMajor(Translate(cells, dx, dy))
  {
    var r := Translate(cells, dx, dy);
    forall a, b | 0 <= a < b < |r|
      ensures Before(r[a], r[b])
    {
      assert Before(cells[a], cells[b]);
    }
  }

  // ---------------------------------------------------------------------
  // Translation

  lemma TranslateConcat(a: seq<Cell>, b: seq<Cell>, dx: int, dy: int)
    ensures Translate(a + b, dx, dy) == Translate(a, dx, dy) + Translate(b, dx, dy)
  {
  }

  lemma TranslateCompose(cells: seq<Cell>, a: int, b: int, c: int, d: int)
    ensures Translate(Translate(cells, a, b), c, d) == Translate(Translate(cells, c, d), a, b)
  {
  }

  lemma {:induction false} ScanLineShift(line: string, x: int, y: int, dx: int, dy: int)
    ensures ScanLine(line, x + dx, y + dy) == Translate(ScanLine(line, x, y), dx, dy)
  {
    if line != [] {
      var head: seq<Cell> := if line[0] == '0' then [(x, y)] else [];
      ScanLineShift(line[1..], x + 1, y, dx, dy);
      assert x + dx + 1 == x + 1 + dx;
      TranslateConcat(head, ScanLine(line[1..], x + 1, y), dx, dy);
    }
  }

  lemma {:induction false} ScanRowsShift(st: State, x: int, y: int, dx: int, dy: int)
    ensures ScanRows(st, x + dx, y + dy) == Translate(ScanRows(st, x, y), dx, dy)
  {
    if st != [] {
      ScanLineShift(st[0], x, y, dx, dy);
      ScanRowsShift(st[1..], x, y + 1, dx, dy);
      assert y + dy + 1 == y + 1 + dy;
      TranslateConcat(ScanLine(st[0], x, y), ScanRows(st[1..], x, y + 1), dx, dy);
    }
  }

  // ---------------------------------------------------------------------
  // Properties of Decode

  /** Placing a pattern emits, for every '0' at line i, column j, the cell
      (x + j - 2, y + i - 4), and nothing else. */
  lemma PlaceMembers(st: State, x: int, y: int, c: Cell)
    requires WellFormedState(st)
    ensures c in Place(st, x, y) <==>
      exists i, j :: 0 <= i < 5 && 0 <= j < 5 && st[i][j] == '0' && c == (x + j - 2, y + i - 4)
  {
    var raw := ScanRows(st, x, y);
    var d := (c.0 + 2, c.1 + 4);
    ScanRowsMembers(st, x, y, d);
    if c in Place(st, x, y) {
      var k :| 0 <= k < |raw| && Place(st, x, y)[k] == c;
      assert raw[k] == d;
    }
    if d in raw {
      var k :| 0 <= k < |raw| && raw[k] == d;
      assert Place(st, x, y)[k] == c;
    }
  }

  lemma PlaceShift(st: State, x: int, y: int, dx: int, dy: int)
    ensures Place(st, x + dx, y + dy) == Translate(Place(st, x, y), dx, dy)
  {
    ScanRowsShift(st, x, y, dx, dy);
    TranslateCompose(ScanRows(st, x, y), dx, dy, -2, -4);
  }

  /** A placed pattern lists its cells in row-major order, inside the 5x5
      box [x-2, x+2] x [y-4, y]. */
  lemma PlaceShape(st: State, x: int, y: int)
    requires WellFormedState(st)
    ensures RowMajor(Place(st, x, y))
    ensures forall c :: c in Place(st, x, y) ==> x - 2 <= c.0 <= x + 2 && y - 4 <= c.1 <= y
  {
    var raw := ScanRows(st, x, y);
    ScanRowsRowMajor(st, x, y);
    TranslateRowMajor(raw, -2, -4);
    forall c | c in Place(st, x, y)
      ensures x - 2 <= c.0 <= x + 2 && y - 4 <= c.1 <= y
    {
      var k :| 0 <= k < |raw| && Place(st, x, y)[k] == c;
      ScanRowsMembers(st, x, y, raw[k]);
    }
  }

  /** A decoded piece lists its cells in row-major order, inside the box
      [x-2, x+2] x [y-4, y] around the piece's anchor. */
  lemma DecodeShape(p: Piece)
    requires WellFormedState(Format(p))
    ensures RowMajor(Decode(p))
    ensures forall c :: c in Decode(p) ==> p.x - 2 <= c.0 <= p.x + 2 && p.y - 4 <= c.1 <= p.y
  {
    PlaceShape(Format(p), p.x, p.y);
  }

  /** Decoding emits, for every '0' at line i, column j of the rotation state
      in use, the cell (x + j - 2, y + i - 4), and nothing else. */
  lemma DecodeMembers(p: Piece, c: Cell)
    requires WellFormedState(Format(p))
    ensures c in Decode(p) <==>
      exists i, j :: 0 <= i < 5 && 0 <= j < 5 && Format(p)[i][j] == '0' && c == (p.x + j - 2, p.y + i - 4)
  {
    PlaceMembers(Format(p), p.x, p.y, c);
  }

  /** Moving a piece sideways moves every decoded cell by the same amount. */
  lemma DecodeShiftX(p: Piece, d: int)
    ensures Decode(p.(x := p.x + d)) == Translate(Decode(p), d, 0)
  {
    var q := p.(x := p.x + d);
    var st := Format(p);
    assert Format(q) == st;
    assert Decode(q) == Place(st, p.x + d, p.y);
    PlaceShift(st, p.x, p.y, d, 0);
  }

  /** Moving a piece down or up moves every decoded cell by the same amount. */
  lemma DecodeShiftY(p: Piece, d: int)
    ensures Decode(p.(y := p.y + d)) == Translate(Decode(p), 0, d)
  {
    var q := p.(y := p.y + d);
    var st := Format(p);
    assert Format(q) == st;
    assert Decode(q) == Place(st, p.x, p.y + d);
    PlaceShift(st, p.x, p.y, 0, d);
  }

  /** Decoding sees the rotation only modulo the state count. */
  lemma DecodeRotationPeriodic(p: Piece)
    ensures Decode(p.(rotation := p.rotation + |p.shape|)) == Decode(p)
  {
    var q := p.(rotation := p.rotation + |p.shape|);
    ModAddDivisor(p.rotation, |p.shape|);
    assert Format(q) == Format(p);
  }

  /** Every state of a catalog piece is a 5x5 pattern. */
  lemma CatalogFormat(p: Piece)
    requires FromCatalog(p)
    ensures WellFormedState(Format(p))
  {
    var id: ShapeId :| p.shape == Catalog[id] && p.colour == ColourOf(id);
    CatalogTetrominoes(id, p.rotation % |p.shape|);
  }

  lemma ModAddDivisor(a: int, n: int)
    requires n > 0
    ensures (a + n) % n == a % n
  {
    ModUnique(a + n, n, a / n + 1, a % n);
  }

  /** Euclidean division is unique: a quotient and remainder in [0, n) that
      rebuild x are x / n and x % n. */
  lemma ModUnique(x: int, n: int, q: int, r: int)
    requires n > 0 && 0 <= r < n && x == q * n + r
    ensures x % n == r && x / n == q
  {
    var q', r' := x / n, x % n;
    assert x == q' * n + r';
    if q' > q {
      MulMonotone(q + 1, q', n);
      assert false;
    } else if q' < q {
      MulMonotone(q' + 1, q, n);
      assert false;
    }
  }

  lemma MulMonotone(a: int, b: int, n: int)
    requires a <= b && n > 0
    ensures a * n <= b * n
  {
    assert (b - a) * n >= 0;
  }
}
