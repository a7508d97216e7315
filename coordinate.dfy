/** Grid coordinates: an immutable pair of integers (a value type, so a copy
    of a piece's position can be edited freely without affecting the piece). */
module Coordinates {

  datatype Coordinate = Coordinate(x: int, y: int)
  {
    /** The same point moved by (dx, dy): the `coord.X += dx; coord.Y += dy`
        edits made on a copy of a coordinate. */
    function Offset(dx: int, dy: int): Coordinate
    {
      Coordinate(x + dx, y + dy)
    }
  }

  /** The absolute coordinate of an offset `relative` measured from `base`. */
  function GetAbstract(base: Coordinate, relative: Coordinate): Coordinate
  {
    Coordinate(base.x + relative.x, base.y + relative.y)
  }

  /** The zero offset is the anchor itself. */
  lemma AbstractOfZero(base: Coordinate)
    ensures GetAbstract(base, Coordinate(0, 0)) == base
  {
  }

  /** Moving the base by (dx, dy) moves every absolute coordinate by (dx, dy):
      offsetting after GetAbstract is the same as offsetting the anchor. */
  lemma AbstractOfOffsetBase(base: Coordinate, relative: Coordinate, dx: int, dy: int)
    ensures GetAbstract(base, relative).Offset(dx, dy) == GetAbstract(base.Offset(dx, dy), relative)
  {
  }

  /** Distinct offsets from one anchor give distinct absolute coordinates. */
  lemma AbstractInjective(base: Coordinate, r1: Coordinate, r2: Coordinate)
    ensures GetAbstract(base, r1) == GetAbstract(base, r2) <==> r1 == r2
  {
  }
}
