/** The O piece: a single style, the 2 x 2 square right and below the anchor. */
module ShapeO {
  import opened Coordinates
  import opened ShapeStyles

  function Styles(): (r: seq<ShapeStyle>)
    ensures |r| == 1 && WellFormedTable(r, 0, 1)
    ensures Coordinate(0, 0) in r[0] && Coordinate(0, 1) in r[0] && Coordinate(1, 1) in r[0] && Coordinate(1, 0) in r[0]
  {
    [
      [Coordinate(0, 0), Coordinate(0, 1), Coordinate(1, 1), Coordinate(1, 0)]
    ]
  }
}
