/** Playfield geometry: the grid of cell ids, piece layouts, the collision rule
    and the cell writes a landing performs. */
module Geometry {
  /** Playfield width and height, and the cell id that marks an empty cell. */
  const COLS: int := 10
  const ROWS: int := 20
  const WHITE: int := 7

  type Row = seq<int>
  /** The settled cells, row 0 at the top. */
  type Grid = seq<Row>
  /** One rotation state of a piece: a small block of cell ids, WHITE where the piece has no cell. */
  type Layout = seq<seq<int>>

  /** The grid has ROWS rows of COLS cells. */
  ghost predicate ValidGrid(g: Grid) {
    |g| == ROWS && forall R :: 0 <= R < |g| ==> |g[R]| == COLS
  }

  /** Every row of the layout is as wide as its first row. */
  ghost predicate IsRect(L: Layout) {
    forall i :: 0 <= i < |L| ==> |L[i]| == |L[0]|
  }

  /** Layout cell (i, j) belongs to the piece. */
  ghost predicate Occupied(L: Layout, i: int, j: int) {
    0 <= i < |L| && 0 <= j < |L[i]| && L[i][j] != WHITE
  }

  /** (R, C) lies on the playfield and holds the empty id. */
  ghost predicate Vacant(g: Grid, R: int, C: int)
    requires ValidGrid(g)
  {
    0 <= R < ROWS && 0 <= C < COLS && g[R][C] == WHITE
  }

  /** The collision test passes for layout L with origin (r, c): either the origin
      row is above the field (then nothing is checked, not even the columns), or
      every occupied cell lands on a vacant cell of the field. */
  ghost predicate Fits(g: Grid, r: int, c: int, L: Layout)
    requires ValidGrid(g)
  {
    r < 0 || forall i, j :: Occupied(L, i, j) ==> Vacant(g, r + i, c + j)
  }

  /** Grid cell (R, C) is covered by an occupied cell of L placed at origin (r, c). */
  ghost predicate Covers(L: Layout, r: int, c: int, R: int, C: int) {
    Occupied(L, R - r, C - c)
  }

  /** The grid after writing `id` into every cell covered by L at origin (r, c). */
  ghost function Stamp(g: Grid, L: Layout, r: int, c: int, id: int): (s: Grid)
    ensures |s| == |g| && forall R :: 0 <= R < |g| ==> |s[R]| == |g[R]|
  {
    seq(|g|, R requires 0 <= R < |g| =>
      seq(|g[R]|, C requires 0 <= C < |g[R]| => if Covers(L, r, c, R, C) then id else g[R][C]))
  }

  /** A grid that agrees with `g` except on the covered cells, which hold `id`, is the stamped grid. */
  lemma StampPointwise(s: Grid, g: Grid, L: Layout, r: int, c: int, id: int)
    requires ValidGrid(s) && ValidGrid(g)
    requires forall R, C :: 0 <= R < ROWS && 0 <= C < COLS ==>
      s[R][C] == if Covers(L, r, c, R, C) then id else g[R][C]
    ensures s == Stamp(g, L, r, c, id)
  {
    var t := Stamp(g, L, r, c, id);
    forall R | 0 <= R < ROWS
      ensures s[R] == t[R]
    {
      assert forall C :: 0 <= C < COLS ==> s[R][C] == t[R][C];
    }
  }

  /** Writing a fitting layout (origin row on the field) touches only in-bounds cells,
      every one of them empty before, turns exactly those into `id`, and leaves the
      rest of the grid alone. */
  lemma StampOntoVacant(g: Grid, L: Layout, r: int, c: int, id: int)
    requires ValidGrid(g) && r >= 0 && Fits(g, r, c, L)
    ensures ValidGrid(Stamp(g, L, r, c, id))
    ensures forall i, j :: Occupied(L, i, j) ==>
      Vacant(g, r + i, c + j) && Stamp(g, L, r, c, id)[r + i][c + j] == id
    ensures forall R, C :: 0 <= R < ROWS && 0 <= C < COLS && !Covers(L, r, c, R, C) ==>
      Stamp(g, L, r, c, id)[R][C] == g[R][C]
  {
    var s := Stamp(g, L, r, c, id);
    forall i, j | Occupied(L, i, j)
      ensures Vacant(g, r + i, c + j) && s[r + i][c + j] == id
    {
      assert Vacant(g, r + i, c + j);
      assert Covers(L, r, c, r + i, c + j);
    }
  }

  /** Because only the origin row is tested, a layout with an occupied cell that would
      fall outside the columns passes the test at origin row -1, and fails once the
      origin reaches row 0 in the same column. */
  lemma DriftAboveField(g: Grid, L: Layout, c: int, i: int, j: int)
    requires ValidGrid(g) && Occupied(L, i, j) && (c + j < 0 || c + j >= COLS)
    ensures Fits(g, -1, c, L)
    ensures !Fits(g, 0, c, L)
  {
    assert !Vacant(g, 0 + i, c + j);
  }
}
