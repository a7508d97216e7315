/** The S piece: four styles turning about the anchor. */
module ShapeS {
  import opened Coordinates
  import opened ShapeStyles

  function Styles(): (r: seq<ShapeStyle>)
    ensures |r| == 4 && WellFormedTable(r, -1, 1)
    ensures forall k :: 0 <= k < 4 ==> Coordinate(0, 0) in r[k]
    // style 0 occupies only the anchor's row and the one below it
    ensures RowsWithin(r[0], 0, 1)
  {
    [
      [Coordinate(-1, 1), Coordinate(0, 1), Coordinate(0, 0), Coordinate(1, 0)],
      [Coordinate(-1, -1), Coordinate(-1, 0), Coordinate(0, 0), Coordinate(0, 1)],
      [Coordinate(-1, 0), Coordinate(0, 0), Coordinate(0, -1), Coordinate(1, -1)],
      [Coordinate(0, -1), Coordinate(0, 0), Coordinate(1, 0), Coordinate(1, 1)]
    ]
  }
}
