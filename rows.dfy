/** Row clearing: a complete row has no empty cell; clearing drops every complete
    row and puts as many empty rows on top. */
module Rows {
  import opened Geometry

  /** A row of COLS empty cells. */
  function WhiteRow(): Row {
    seq(COLS, _ => WHITE)
  }

  /** `n` empty rows. */
  function WhiteRows(n: nat): Grid {
    seq(n, _ => WhiteRow())
  }

  /** A fresh playfield: ROWS empty rows. */
  function WhiteBoard(): Grid {
    WhiteRows(ROWS)
  }

  /** Every cell of a fresh playfield is on the field and empty. */
  lemma WhiteBoardVacant()
    ensures ValidGrid(WhiteBoard())
    ensures forall R, C :: 0 <= R < ROWS && 0 <= C < COLS ==> Vacant(WhiteBoard(), R, C)
  {
  }

  /** A row is complete when no cell in it is empty. */
  predicate IsComplete(row: Row) {
    WHITE !in row
  }

  /** The rows that are not complete, in their original order. */
  function Incomplete(g: Grid): (r: Grid)
    ensures |r| <= |g|
    ensures forall i :: 0 <= i < |r| ==> r[i] in g && !IsComplete(r[i])
  {
    if g == [] then []
    else if IsComplete(g[0]) then Incomplete(g[1..])
    else [g[0]] + Incomplete(g[1..])
  }

  /** The number of complete rows. */
  function FullCount(g: Grid): nat {
    if g == [] then 0
    else (if IsComplete(g[0]) then 1 else 0) + FullCount(g[1..])
  }

  /** The grid after clearing: one empty row per complete row, then the incomplete rows. */
  ghost function ClearRows(g: Grid): Grid
    requires ValidGrid(g)
  {
    WhiteRows(ROWS - |Incomplete(g)|) + Incomplete(g)
  }

  /** A row is kept by the filter exactly when it is a row of the grid that is not complete. */
  lemma {:induction false} IncompleteMembers(g: Grid, x: Row)
    ensures x in Incomplete(g) <==> x in g && !IsComplete(x)
  {
    if g != [] {
      IncompleteMembers(g[1..], x);
      assert g == [g[0]] + g[1..];
    }
  }

  /** Every row is either kept by the filter or counted as complete. */
  lemma {:induction false} CountPartition(g: Grid)
    ensures |Incomplete(g)| + FullCount(g) == |g|
  {
    if g != [] {
      CountPartition(g[1..]);
    }
  }

  /** The filter works row by row, so it keeps the relative order of the rows. */
  lemma {:induction false} IncompleteAppend(a: Grid, b: Grid)
    ensures Incomplete(a + b) == Incomplete(a) + Incomplete(b)
  {
    if a != [] {
      var ab := a + b;
      assert ab != [] && ab[0] == a[0] && ab[1..] == a[1..] + b;
      IncompleteAppend(a[1..], b);
      if IsComplete(a[0]) {
        assert Incomplete(ab) == Incomplete(a[1..] + b);
      } else {
        assert Incomplete(ab) == [a[0]] + Incomplete(a[1..] + b);
      }
    } else {
      assert a + b == b;
    }
  }

  /** Without a complete row the filter keeps every row. */
  lemma {:induction false} NoFullKept(g: Grid)
    requires FullCount(g) == 0
    ensures Incomplete(g) == g
  {
    if g != [] {
      NoFullKept(g[1..]);
      assert g == [g[0]] + g[1..];
    }
  }

  /** Empty rows are never complete. */
  lemma {:induction false} WhiteRowsNotFull(n: nat)
    ensures FullCount(WhiteRows(n)) == 0
  {
    if n > 0 {
      assert WhiteRow()[0] == WHITE;
      assert WhiteRows(n)[1..] == WhiteRows(n - 1);
      WhiteRowsNotFull(n - 1);
    }
  }

  /** Clearing gives a ROWS x COLS grid whose first k rows are empty, k being the
      number of complete rows, followed by the incomplete rows in order. */
  lemma ClearRowsShape(g: Grid)
    requires ValidGrid(g)
    ensures ValidGrid(ClearRows(g))
    ensures |Incomplete(g)| + FullCount(g) == ROWS
    ensures forall i :: 0 <= i < FullCount(g) ==> ClearRows(g)[i] == WhiteRow()
    ensures ClearRows(g)[FullCount(g)..] == Incomplete(g)
  {
    CountPartition(g);
    var r := ClearRows(g);
    var inc := Incomplete(g);
    forall i | 0 <= i < |inc|
      ensures |inc[i]| == COLS
    {
      var x := inc[i];
      assert x in g;
      var R :| 0 <= R < |g| && g[R] == x;
    }
    assert forall i :: 0 <= i < |r| ==> |r[i]| == COLS by {
      forall i | 0 <= i < |r|
        ensures |r[i]| == COLS
      {
        if i >= ROWS - |inc| {
          assert r[i] == inc[i - (ROWS - |inc|)];
        }
      }
    }
  }

  /** Clearing a grid without complete rows changes nothing. */
  lemma ClearRowsNoop(g: Grid)
    requires ValidGrid(g) && FullCount(g) == 0
    ensures ClearRows(g) == g
  {
    NoFullKept(g);
    assert WhiteRows(0) == [];
  }

  /** Clearing is idempotent: its result has no complete row left. */
  lemma ClearRowsIdempotent(g: Grid)
    requires ValidGrid(g)
    ensures ValidGrid(ClearRows(g))
    ensures FullCount(ClearRows(g)) == 0
    ensures ClearRows(ClearRows(g)) == ClearRows(g)
  {
    ClearRowsShape(g);
    var inc := Incomplete(g);
    var w := WhiteRows(ROWS - |inc|);
    WhiteRowsNotFull(ROWS - |inc|);
    NoFullKept(w);
    assert forall x :: x in inc ==> !IsComplete(x);
    IncompleteKeepsIncomplete(inc);
    IncompleteAppend(w, inc);
    CountPartition(w + inc);
    ClearRowsNoop(ClearRows(g));
  }

  /** A grid of incomplete rows passes the filter unchanged. */
  lemma {:induction false} IncompleteKeepsIncomplete(g: Grid)
    requires forall x :: x in g ==> !IsComplete(x)
    ensures Incomplete(g) == g
  {
    if g != [] {
      assert g[0] in g;
      assert forall x :: x in g[1..] ==> x in g;
      IncompleteKeepsIncomplete(g[1..]);
      assert g == [g[0]] + g[1..];
    }
  }
}
