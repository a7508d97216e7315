/** The I piece: four styles, alternately vertical and horizontal. */
module ShapeI {
  import opened Coordinates
  import opened ShapeStyles

  function Styles(): (r: seq<ShapeStyle>)
    ensures |r| == 4 && WellFormedTable(r, -1, 2)
    // style 0 is the vertical bar x = 0, rows -1 .. 2: a fresh I reaches above its anchor
    ensures forall i :: 0 <= i < 4 ==> r[0][i].x == 0
    ensures Coordinate(0, -1) in r[0] && Coordinate(0, 0) in r[0] && Coordinate(0, 1) in r[0] && Coordinate(0, 2) in r[0]
    // style 1 is the horizontal bar y = 0, columns -1 .. 2
    ensures forall i :: 0 <= i < 4 ==> r[1][i].y == 0
    ensures Coordinate(-1, 0) in r[1] && Coordinate(0, 0) in r[1] && Coordinate(1, 0) in r[1] && Coordinate(2, 0) in r[1]
  {
    [
      [Coordinate(0, -1), Coordinate(0, 0), Coordinate(0, 1), Coordinate(0, 2)],
      [Coordinate(-1, 0), Coordinate(0, 0), Coordinate(1, 0), Coordinate(2, 0)],
      [Coordinate(1, -1), Coordinate(1, 0), Coordinate(1, 1), Coordinate(1, 2)],
      [Coordinate(-1, 1), Coordinate(0, 1), Coordinate(1, 1), Coordinate(2, 1)]
    ]
  }
}
