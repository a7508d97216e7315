/** A rotation state of a piece: the offsets of its blocks from the piece's
    anchor, in the order the table lists them. */
module ShapeStyles {
  import opened Coordinates

  type ShapeStyle = seq<Coordinate>

  /** Four blocks, no two at the same offset (the six pairs written out). */
  predicate Tetromino(s: ShapeStyle)
  {
    |s| == 4 &&
    s[0] != s[1] && s[0] != s[2] && s[0] != s[3] &&
    s[1] != s[2] && s[1] != s[3] &&
    s[2] != s[3]
  }

  /** Every offset, in both axes, lies in [lo, hi]. */
  predicate Within(s: ShapeStyle, lo: int, hi: int)
  {
    forall i :: 0 <= i < |s| ==> lo <= s[i].x <= hi && lo <= s[i].y <= hi
  }

  /** Every offset's y lies in [lo, hi]. */
  predicate RowsWithin(s: ShapeStyle, lo: int, hi: int)
  {
    forall i :: 0 <= i < |s| ==> lo <= s[i].y <= hi
  }

  /** The properties every table of the catalog has: at least one style, and
      every style a tetromino whose offsets lie in [lo, hi]. */
  predicate WellFormedTable(styles: seq<ShapeStyle>, lo: int, hi: int)
  {
    |styles| > 0 && forall k :: 0 <= k < |styles| ==> Tetromino(styles[k]) && Within(styles[k], lo, hi)
  }
}
