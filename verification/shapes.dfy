/** The tetromino catalog of tetris.py: seven shapes, each a list of rotation
    states drawn as 5x5 patterns of '.' (empty) and '0' (occupied), plus one
    RGB colour per shape. */
module Shapes {

  /** An RGB triple as the Python code stores it (a 3-tuple of ints). */
  datatype Colour = Rgb(r: int, g: int, b: int)

  /** The colour that marks an empty grid cell. */
  const Black := Rgb(0, 0, 0)

  /** One rotation state: a list of pattern lines. */
  type State = seq<string>

  /** A shape: its non-empty list of rotation states (the rotation index is
      taken modulo its length). */
  type Shape = s: seq<State> | |s| > 0 witness [[]]

  const S: Shape := [
    [".....", ".....", "..00.", ".00..", "....."],
    [".....", "..0..", "..00.", "...0.", "....."]]

  const Z: Shape := [
    [".....", ".....", ".00..", "..00.", "....."],
    [".....", "..0..", ".00..", ".0...", "....."]]

  const I: Shape := [
    [".....", "..0..", "..0..", "..0..", "..0.."],
    [".....", "0000.", ".....", ".....", "....."]]

  const O: Shape := [
    [".....", ".....", ".00..", ".00..", "....."]]

  const J: Shape := [
    [".....", ".0...", ".000.", ".....", "....."],
    [".....", "..00.", "..0..", "..0..", "....."],
    [".....", ".....", ".000.", "...0.", "....."],
    [".....", "..0..", "..0..", ".00..", "....."]]

  const L: Shape := [
    [".....", "...0.", ".000.", ".....", "....."],
    [".....", "..0..", "..0..", "..00.", "....."],
    [".....", ".....", ".000.", ".0...", "....."],
    [".....", ".00..", "..0..", "..0..", "....."]]

  const T: Shape := [
    [".....", "..0..", ".000.", ".....", "....."],
    [".....", "..0..", "..00.", "..0..", "....."],
    [".....", ".....", ".000.", "..0..", "....."],
    [".....", "..0..", ".00..", "..0..", "....."]]

  /** The shape list, in the order the colour list follows. */
  const Catalog: seq<Shape> := [S, Z, I, O, J, L, T]

  const Palette: seq<Colour> := [
    Rgb(0, 255, 0), Rgb(255, 0, 0), Rgb(0, 255, 255), Rgb(255, 255, 0),
    Rgb(255, 165, 0), Rgb(0, 0, 255), Rgb(128, 0, 128)]

  /** A shape is identified by its position in the catalog. */
  type ShapeId = i: int | 0 <= i < 7

  /** Number of '0' marks in a pattern line. */
  function MarksInLine(line: string): nat
  {
    if line == [] then 0
    else (if line[0] == '0' then 1 else 0) + MarksInLine(line[1..])
  }

  /** Number of '0' marks in a rotation state. */
  function MarksInState(st: State): nat
  {
    if st == [] then 0 else MarksInLine(st[0]) + MarksInState(st[1..])
  }

  /** A 5x5 pattern over the alphabet {'.', '0'}. */
  predicate WellFormedState(st: State)
  {
    && |st| == 5
    && (forall i :: 0 <= i < 5 ==> |st[i]| == 5)
    && forall i, j :: 0 <= i < 5 && 0 <= j < |st[i]| ==> st[i][j] in {'.', '0'}
  }

  /** A 5x5 pattern with exactly four marks: a tetromino. */
  predicate Tetromino(st: State)
  {
    WellFormedState(st) && MarksInState(st) == 4
  }

  /** The colour the catalog assigns to a shape: never black. */
  function ColourOf(id: ShapeId): (c: Colour)
    ensures c != Black
  {
    Palette[id]
  }

  /** Every shape has between one and four rotation states. */
  lemma CatalogStateCounts(id: ShapeId)
    ensures 1 <= |Catalog[id]| <= 4
  {
  }

  /** The mark counts of the pattern lines the catalog uses. */
  lemma LineMarks()
    ensures MarksInLine(".....") == 0
    ensures MarksInLine("..0..") == 1 && MarksInLine(".0...") == 1 && MarksInLine("...0.") == 1
    ensures MarksInLine("..00.") == 2 && MarksInLine(".00..") == 2
    ensures MarksInLine(".000.") == 3 && MarksInLine("0000.") == 4
  {
  }

  lemma STetrominoes() ensures forall r :: 0 <= r < |S| ==> Tetromino(S[r]) { LineMarks(); }
  lemma ZTetrominoes() ensures forall r :: 0 <= r < |Z| ==> Tetromino(Z[r]) { LineMarks(); }
  lemma ITetrominoes() ensures forall r :: 0 <= r < |I| ==> Tetromino(I[r]) { LineMarks(); }
  lemma OTetrominoes() ensures forall r :: 0 <= r < |O| ==> Tetromino(O[r]) { LineMarks(); }
  lemma JTetrominoes() ensures forall r :: 0 <= r < |J| ==> Tetromino(J[r]) { LineMarks(); }
  lemma LTetrominoes() ensures forall r :: 0 <= r < |L| ==> Tetromino(L[r]) { LineMarks(); }
  lemma TTetrominoes() ensures forall r :: 0 <= r < |T| ==> Tetromino(T[r]) { LineMarks(); }

  /** Every rotation state of every shape is a 5x5 '.'/'0' pattern with
      exactly four occupied cells. */
  lemma CatalogTetrominoes(id: ShapeId, r: int)
    requires 0 <= r < |Catalog[id]|
    ensures Tetromino(Catalog[id][r])
  {
    if id == 0 { STetrominoes(); }
    else if id == 1 { ZTetrominoes(); }
    else if id == 2 { ITetrominoes(); }
    else if id == 3 { OTetrominoes(); }
    else if id == 4 { JTetrominoes(); }
    else if id == 5 { LTetrominoes(); }
    else { TTetrominoes(); }
  }
}
