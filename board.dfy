/** The board as a value: `g[x][y]` is the occupancy of column x, row y
    (row 0 at the top), the layout of the game's `map[x, y]`.  These
    functions specify what the game's in-place operations compute. */
module Board {
  import opened Coordinates

  type Grid = seq<seq<bool>>

  /** Every column has `height` cells. */
  predicate Rect(g: Grid, height: nat)
  {
    forall x :: 0 <= x < |g| ==> |g[x]| == height
  }

  predicate Inside(g: Grid, c: Coordinate)
  {
    0 <= c.x < |g| && 0 <= c.y < |g[c.x]|
  }

  // ---------------------------------------------------------------- locking

  /** Occupy cell `c`; a coordinate off the board is skipped. */
  function Mark(g: Grid, c: Coordinate): (r: Grid)
    ensures |r| == |g| && forall x :: 0 <= x < |g| ==> |r[x]| == |g[x]|
    ensures forall x, y :: 0 <= x < |g| && 0 <= y < |g[x]| ==>
              r[x][y] == (g[x][y] || c == Coordinate(x, y))
  {
    if Inside(g, c) then g[c.x := g[c.x][c.y := true]] else g
  }

  /** Occupy the cells of `cs` one after the other, as the lock loop does. */
  function Stamp(g: Grid, cs: seq<Coordinate>): (r: Grid)
    ensures |r| == |g| && forall x :: 0 <= x < |g| ==> |r[x]| == |g[x]|
    decreases |cs|
  {
    if cs == [] then g else Mark(Stamp(g, cs[..|cs| - 1]), cs[|cs| - 1])
  }

  /** Locking is a union: a cell is occupied afterwards iff it was before or
      it is one of the stamped coordinates.  Coordinates off the board leave
      no trace. */
  lemma {:induction false} StampIsUnion(g: Grid, cs: seq<Coordinate>)
    ensures forall x, y :: 0 <= x < |g| && 0 <= y < |g[x]| ==>
              Stamp(g, cs)[x][y] == (g[x][y] || Coordinate(x, y) in cs)
    decreases |cs|
  {
    if cs != [] {
      var front := cs[..|cs| - 1];
      StampIsUnion(g, front);
      assert cs == front + [cs[|cs| - 1]];
    }
  }

  /** Stamping never clears a cell, and stamping the same cells twice is the
      same as stamping them once. */
  lemma StampMonotoneIdempotent(g: Grid, cs: seq<Coordinate>)
    ensures forall x, y :: 0 <= x < |g| && 0 <= y < |g[x]| && g[x][y] ==> Stamp(g, cs)[x][y]
    ensures Stamp(Stamp(g, cs), cs) == Stamp(g, cs)
  {
    StampIsUnion(g, cs);
    var once := Stamp(g, cs);
    StampIsUnion(once, cs);
    var twice := Stamp(once, cs);
    forall x | 0 <= x < |g|
      ensures twice[x] == once[x]
    {
    }
  }

  // ----------------------------------------------------------- row clearing

  predicate HasRow(g: Grid, y: int)
  {
    0 <= y && forall x :: 0 <= x < |g| ==> y < |g[x]|
  }

  /** Every cell of row `y` is occupied. */
  predicate RowFull(g: Grid, y: int)
    requires HasRow(g, y)
  {
    forall x :: 0 <= x < |g| ==> g[x][y]
  }

  /** Clear row `y`: rows 0 .. y-1 move down one, row 0 becomes empty, rows
      below `y` keep their cells. */
  function RemoveRow(g: Grid, y: int): (r: Grid)
    requires HasRow(g, y)
    ensures |r| == |g| && forall x :: 0 <= x < |g| ==> |r[x]| == |g[x]|
    ensures forall x :: 0 <= x < |g| ==> !r[x][0]
    ensures forall x, j :: 0 <= x < |g| && 0 < j <= y ==> r[x][j] == g[x][j - 1]
    ensures forall x, j :: 0 <= x < |g| && y < j < |g[x]| ==> r[x][j] == g[x][j]
  {
    seq(|g|, x requires 0 <= x < |g| => [false] + g[x][..y] + g[x][y + 1..])
  }

  /** The scan from row `y` on: each row, top to bottom, is tested once and
      removed if it is full; the index then advances whether or not it was. */
  function ScanFrom(g: Grid, height: nat, y: nat): (r: Grid)
    requires Rect(g, height) && y <= height
    ensures |r| == |g| && Rect(r, height)
    decreases height - y
  {
    if y == height then g
    else ScanFrom(if RowFull(g, y) then RemoveRow(g, y) else g, height, y + 1)
  }

  /** One step of the pass: row y is tested, removed if full, and the pass
      goes on at y + 1. */
  lemma ScanFromStep(g: Grid, height: nat, y: nat)
    requires Rect(g, height) && y < height
    ensures ScanFrom(g, height, y) == ScanFrom(if RowFull(g, y) then RemoveRow(g, y) else g, height, y + 1)
  {
  }

  /** One full top-to-bottom pass. */
  function Scan(g: Grid, height: nat): (r: Grid)
    requires Rect(g, height)
    ensures |r| == |g| && Rect(r, height)
  {
    ScanFrom(g, height, 0)
  }

  /** The pass keeps its invariant: once rows 0 .. y-1 are not full, no row
      is full at the end.  A removed row is replaced by a row already found
      not full (or by the empty row 0, which is not full when there is a
      column). */
  lemma {:induction false} ScanFromLeavesNoFullRow(g: Grid, height: nat, y: nat)
    requires Rect(g, height) && y <= height && |g| > 0
    requires forall j :: 0 <= j < y ==> !RowFull(g, j)
    ensures forall j :: 0 <= j < height ==> !RowFull(ScanFrom(g, height, y), j)
    decreases height - y
  {
    if y < height {
      var next := if RowFull(g, y) then RemoveRow(g, y) else g;
      forall j | 0 <= j <= y
        ensures !RowFull(next, j)
      {
        if RowFull(g, y) {
          if j == 0 {
            assert !next[0][0];
          } else {
            assert !RowFull(g, j - 1);
            var x :| 0 <= x < |g| && !g[x][j - 1];
            assert !next[x][j];
          }
        }
      }
      ScanFromLeavesNoFullRow(next, height, y + 1);
    }
  }

  /** After a pass over a board with at least one column, no row is full. */
  lemma ScanLeavesNoFullRow(g: Grid, height: nat)
    requires Rect(g, height) && |g| > 0
    ensures forall j :: 0 <= j < height ==> !RowFull(Scan(g, height), j)
  {
    ScanFromLeavesNoFullRow(g, height, 0);
  }

  /** A pass over rows none of which is full changes nothing. */
  lemma {:induction false} ScanFromNoFullRowIsIdentity(g: Grid, height: nat, y: nat)
    requires Rect(g, height) && y <= height
    requires forall j :: y <= j < height ==> !RowFull(g, j)
    ensures ScanFrom(g, height, y) == g
    decreases height - y
  {
    if y < height {
      ScanFromNoFullRowIsIdentity(g, height, y + 1);
    }
  }

  /** Scanning is idempotent: a second pass finds nothing to clear. */
  lemma ScanIdempotent(g: Grid, height: nat)
    requires Rect(g, height) && |g| > 0
    ensures Scan(Scan(g, height), height) == Scan(g, height)
  {
    ScanLeavesNoFullRow(g, height);
    ScanFromNoFullRowIsIdentity(Scan(g, height), height, 0);
  }

  /** Rows above the first full one are skipped without change. */
  lemma {:induction false} ScanFromSkipsRowsNotFull(g: Grid, height: nat, y: nat, z: nat)
    requires Rect(g, height) && y <= z <= height
    requires forall j :: y <= j < z ==> !RowFull(g, j)
    ensures ScanFrom(g, height, y) == ScanFrom(g, height, z)
    decreases z - y
  {
    if y < z {
      ScanFromSkipsRowsNotFull(g, height, y + 1, z);
    }
  }

  /** Removing row y and then row y + 1 of the result drops the rows above y
      by two and blanks the top two. */
  lemma RemoveRowTwiceColumn(g: Grid, height: nat, y: nat, x: nat)
    requires Rect(g, height) && y + 1 < height && x < |g|
    ensures RemoveRow(RemoveRow(g, y), y + 1)[x] == [false, false] + g[x][..y] + g[x][y + 2..]
  {
    var g1 := RemoveRow(g, y);
    var g2 := RemoveRow(g1, y + 1);
    var want := [false, false] + g[x][..y] + g[x][y + 2..];
    assert |g2[x]| == |want|;
    forall j | 0 <= j < height
      ensures g2[x][j] == want[j]
    {
      if 2 <= j < y + 2 {
        assert g2[x][j] == g1[x][j - 1] == g[x][j - 2];
      }
    }
  }

  /** Rows below y + 1 that were not full stay not full once rows y and
      y + 1 are removed. */
  lemma RemoveRowTwiceKeepsLowerRows(g: Grid, height: nat, y: nat, g2: Grid)
    requires Rect(g, height) && y + 1 < height
    requires forall j :: y + 2 <= j < height ==> !RowFull(g, j)
    requires g2 == RemoveRow(RemoveRow(g, y), y + 1)
    ensures forall j :: y + 2 <= j < height ==> !RowFull(g2, j)
  {
    forall j | y + 2 <= j < height
      ensures !RowFull(g2, j)
    {
      assert !RowFull(g, j);
      var x :| 0 <= x < |g| && !g[x][j];
      assert !g2[x][j];
    }
  }

  /** Two adjacent full rows, and no other, are both removed by one pass: the
      rows above them drop by two and two empty rows appear at the top. */
  lemma AdjacentFullRowsClearTogether(g: Grid, height: nat, y: nat)
    requires Rect(g, height) && y + 1 < height
    requires RowFull(g, y) && RowFull(g, y + 1)
    requires forall j :: 0 <= j < height && j != y && j != y + 1 ==> !RowFull(g, j)
    ensures forall x :: 0 <= x < |g| ==> Scan(g, height)[x] == [false, false] + g[x][..y] + g[x][y + 2..]
  {
    ScanFromSkipsRowsNotFull(g, height, 0, y);
    var g1 := RemoveRow(g, y);
    assert RowFull(g1, y + 1);
    var g2 := RemoveRow(g1, y + 1);
    assert ScanFrom(g, height, y) == ScanFrom(g2, height, y + 2);
    RemoveRowTwiceKeepsLowerRows(g, height, y, g2);
    ScanFromNoFullRowIsIdentity(g2, height, y + 2);
    forall x | 0 <= x < |g|
      ensures g2[x] == [false, false] + g[x][..y] + g[x][y + 2..]
    {
      RemoveRowTwiceColumn(g, height, y, x);
    }
  }

  // ------------------------------------------- reference: remove, then pad

  /** Number of full rows among rows 0 .. y-1. */
  function FullCount(g: Grid, height: nat, y: nat): nat
    requires Rect(g, height) && y <= height
  {
    if y == 0 then 0 else FullCount(g, height, y - 1) + (if RowFull(g, y - 1) then 1 else 0)
  }

  /** Column x restricted to the rows among 0 .. y-1 that are not full. */
  function Kept(g: Grid, height: nat, x: nat, y: nat): seq<bool>
    requires Rect(g, height) && x < |g| && y <= height
  {
    if y == 0 then []
    else Kept(g, height, x, y - 1) + (if RowFull(g, y - 1) then [] else [g[x][y - 1]])
  }

  function Blank(n: nat): (r: seq<bool>)
  {
    seq(n, _ => false)
  }

  /** Line clearing by definition: delete every full row of the board at once
      and add as many empty rows at the top. */
  function Cleared(g: Grid, height: nat): Grid
    requires Rect(g, height)
  {
    seq(|g|, x requires 0 <= x < |g| => Blank(FullCount(g, height, height)) + Kept(g, height, x, height))
  }

  lemma {:induction false} KeptLength(g: Grid, height: nat, x: nat, y: nat)
    requires Rect(g, height) && x < |g| && y <= height
    ensures |Kept(g, height, x, y)| + FullCount(g, height, y) == y
  {
    if y > 0 {
      KeptLength(g, height, x, y - 1);
    }
  }

  /** The loop state's column before row y splits into the blanks and kept
      rows so far, the cell of row y, and the untouched rows below it. */
  lemma ScanColumnSplit(g: Grid, height: nat, x: nat, y: nat, col: seq<bool>)
    requires Rect(g, height) && x < |g| && y < height
    requires col == Blank(FullCount(g, height, y)) + Kept(g, height, x, y) + g[x][y..]
    ensures |Blank(FullCount(g, height, y)) + Kept(g, height, x, y)| == y
    ensures col == (Blank(FullCount(g, height, y)) + Kept(g, height, x, y)) + [g[x][y]] + g[x][y + 1..]
    ensures |col| == height && col[y] == g[x][y]
  {
    KeptLength(g, height, x, y);
    assert g[x][y..] == [g[x][y]] + g[x][y + 1..];
  }

  /** A full row y is dropped from the column and a blank added on top. */
  lemma ScanColumnDrop(g: Grid, height: nat, x: nat, y: nat, col: seq<bool>)
    requires Rect(g, height) && x < |g| && y < height && RowFull(g, y)
    requires |Blank(FullCount(g, height, y)) + Kept(g, height, x, y)| == y
    requires col == (Blank(FullCount(g, height, y)) + Kept(g, height, x, y)) + [g[x][y]] + g[x][y + 1..]
    ensures [false] + col[..y] + col[y + 1..] ==
            Blank(FullCount(g, height, y + 1)) + Kept(g, height, x, y + 1) + g[x][y + 1..]
  {
    var front := Blank(FullCount(g, height, y)) + Kept(g, height, x, y);
    assert col[..y] == front;
    assert col[y + 1..] == g[x][y + 1..];
    assert Kept(g, height, x, y + 1) == Kept(g, height, x, y);
    assert [false] + Blank(FullCount(g, height, y)) == Blank(FullCount(g, height, y + 1));
  }

  /** A row y that is not full stays in the column, now among the kept rows. */
  lemma ScanColumnKeep(g: Grid, height: nat, x: nat, y: nat, col: seq<bool>)
    requires Rect(g, height) && x < |g| && y < height && !RowFull(g, y)
    requires col == (Blank(FullCount(g, height, y)) + Kept(g, height, x, y)) + [g[x][y]] + g[x][y + 1..]
    ensures col == Blank(FullCount(g, height, y + 1)) + Kept(g, height, x, y + 1) + g[x][y + 1..]
  {
    assert FullCount(g, height, y + 1) == FullCount(g, height, y);
    assert Kept(g, height, x, y + 1) == Kept(g, height, x, y) + [g[x][y]];
  }

  /** One column across one step of the scan: the loop state's column before
      row y, with row y dropped (and a blank added on top) when the row is
      full or kept otherwise, is the loop state's column after row y. */
  lemma ScanColumnStep(g: Grid, height: nat, x: nat, y: nat, col: seq<bool>)
    requires Rect(g, height) && x < |g| && y < height
    requires col == Blank(FullCount(g, height, y)) + Kept(g, height, x, y) + g[x][y..]
    ensures |col| == height && col[y] == g[x][y]
    ensures RowFull(g, y) ==>
              [false] + col[..y] + col[y + 1..] ==
              Blank(FullCount(g, height, y + 1)) + Kept(g, height, x, y + 1) + g[x][y + 1..]
    ensures !RowFull(g, y) ==>
              col == Blank(FullCount(g, height, y + 1)) + Kept(g, height, x, y + 1) + g[x][y + 1..]
  {
    ScanColumnSplit(g, height, x, y, col);
    if RowFull(g, y) {
      ScanColumnDrop(g, height, x, y, col);
    } else {
      ScanColumnKeep(g, height, x, y, col);
    }
  }

  /** The scan's loop state after rows 0 .. y-1, relative to the board `g`
      it started from: every column holds blanks, then the kept rows, then
      the untouched rows y and below. */
  predicate LoopState(g: Grid, height: nat, c: Grid, y: nat)
    requires Rect(g, height) && y <= height
  {
    |c| == |g| &&
    forall x :: 0 <= x < |g| ==> c[x] == Blank(FullCount(g, height, y)) + Kept(g, height, x, y) + g[x][y..]
  }

  /** In the loop state, row y is still the original row y, so the pass
      finds it full exactly when it was full at the start. */
  lemma ScanStepMatchesRow(g: Grid, height: nat, c: Grid, y: nat)
    requires Rect(g, height) && Rect(c, height) && y < height && LoopState(g, height, c, y)
    ensures RowFull(c, y) == RowFull(g, y)
  {
    forall x | 0 <= x < |g|
      ensures c[x][y] == g[x][y]
    {
      ScanColumnStep(g, height, x, y, c[x]);
    }
  }

  /** One row of the pass takes the loop state for y to the loop state for
      y + 1, column by column. */
  lemma ScanStepKeepsLoopState(g: Grid, height: nat, c: Grid, y: nat, next: Grid)
    requires Rect(g, height) && Rect(c, height) && y < height && LoopState(g, height, c, y)
    requires RowFull(c, y) == RowFull(g, y)
    requires next == if RowFull(c, y) then RemoveRow(c, y) else c
    ensures Rect(next, height) && LoopState(g, height, next, y + 1)
  {
    forall x | 0 <= x < |g|
      ensures next[x] == Blank(FullCount(g, height, y + 1)) + Kept(g, height, x, y + 1) + g[x][y + 1..]
    {
      ScanColumnStep(g, height, x, y, c[x]);
      if RowFull(g, y) {
        assert next[x] == [false] + c[x][..y] + c[x][y + 1..];
      }
    }
  }

  /** Once every row has been passed, the loop state is the reference result. */
  lemma ScanEndIsCleared(g: Grid, height: nat, c: Grid)
    requires Rect(g, height) && LoopState(g, height, c, height)
    ensures c == Cleared(g, height)
  {
    forall x | 0 <= x < |g|
      ensures c[x] == Cleared(g, height)[x]
    {
      assert g[x][height..] == [];
    }
  }

  /** The pass run from any loop state reaches the reference result. */
  lemma {:induction false} ScanFromMatchesCleared(g: Grid, height: nat, c: Grid, y: nat)
    requires Rect(g, height) && Rect(c, height) && y <= height && LoopState(g, height, c, y)
    ensures ScanFrom(c, height, y) == Cleared(g, height)
    decreases height - y
  {
    if y == height {
      ScanEndIsCleared(g, height, c);
    } else {
      ScanStepMatchesRow(g, height, c, y);
      var next := if RowFull(c, y) then RemoveRow(c, y) else c;
      ScanStepKeepsLoopState(g, height, c, y, next);
      ScanFromMatchesCleared(g, height, next, y + 1);
    }
  }

  /** The single top-to-bottom pass, which advances past each row it clears,
      removes exactly the full rows: it agrees with the reference definition. */
  lemma ScanIsCleared(g: Grid, height: nat)
    requires Rect(g, height)
    ensures Scan(g, height) == Cleared(g, height)
  {
    forall x | 0 <= x < |g|
      ensures g[x] == Blank(FullCount(g, height, 0)) + Kept(g, height, x, 0) + g[x][0..]
    {
    }
    ScanFromMatchesCleared(g, height, g, 0);
  }
}
