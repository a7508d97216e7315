/** The piece catalog and the active piece.  The seven subclasses of the
    source become one tag, `Kind`, and a table lookup. */
module Shapes {
  import opened Coordinates
  import opened ShapeStyles
  import ShapeI
  import ShapeJ
  import ShapeL
  import ShapeO
  import ShapeS
  import ShapeT
  import ShapeZ

  datatype Kind = I | J | L | O | S | T | Z

  /** The number of styles of a kind; `Styles` proves its table has exactly
      this length. */
  function StyleCount(k: Kind): nat
  {
    if k == O then 1 else 4
  }

  /** The rotation table of a kind.  O has one style, every other kind four;
      every style is a tetromino with offsets in [-1, 2]. */
  function Styles(k: Kind): (r: seq<ShapeStyle>)
    ensures |r| == StyleCount(k)
    ensures WellFormedTable(r, -1, 2)
  {
    match k
    case I => ShapeI.Styles()
    case J => ShapeJ.Styles()
    case L => ShapeL.Styles()
    case O => ShapeO.Styles()
    case S => ShapeS.Styles()
    case T => ShapeT.Styles()
    case Z => ShapeZ.Styles()
  }

  /** The style index after one rotation: the next one, cyclically. */
  function NextStyle(k: Kind, index: nat): (r: nat)
    ensures r < StyleCount(k)
    ensures index + 1 < StyleCount(k) ==> r == index + 1
    ensures index + 1 == StyleCount(k) ==> r == 0
  {
    if k == O then (index + 1) % 1 else (index + 1) % 4
  }

  /** The style index after `n` rotations starting from `index`. */
  function Rotated(k: Kind, index: nat, n: nat): nat
  {
    if n == 0 then index else NextStyle(k, Rotated(k, index, n - 1))
  }

  /** `n` rotations advance the index by `n`, cyclically. */
  lemma {:induction false} RotatedIsModular(k: Kind, index: nat, n: nat)
    requires index < StyleCount(k)
    ensures Rotated(k, index, n) == (index + n) % StyleCount(k)
  {
    if n > 0 {
      RotatedIsModular(k, index, n - 1);
      if k == O {
        assert Rotated(k, index, n) == 0;
      } else {
        ModuloStep(index + n - 1);
      }
    }
  }

  lemma ModuloStep(a: nat)
    ensures (a % 4 + 1) % 4 == (a + 1) % 4
  {
  }

  /** Rotating as many times as there are styles restores the style index;
      for O (one style) a single rotation already does. */
  lemma FullTurnRestoresStyle(k: Kind, index: nat)
    requires index < StyleCount(k)
    ensures Rotated(k, index, StyleCount(k)) == index
    ensures k == O ==> NextStyle(k, index) == index
  {
    RotatedIsModular(k, index, StyleCount(k));
  }

  /** The blocks of a style, placed at an anchor. */
  function Absolute(position: Coordinate, blocks: ShapeStyle): (r: seq<Coordinate>)
    ensures |r| == |blocks|
    ensures forall i :: 0 <= i < |blocks| ==> r[i] == GetAbstract(position, blocks[i])
  {
    seq(|blocks|, i requires 0 <= i < |blocks| => GetAbstract(position, blocks[i]))
  }

  /** Every style has a block on or below the anchor's row; `c` is one. */
  lemma StyleReachesAnchorRow(k: Kind, index: nat) returns (c: Coordinate)
    requires index < StyleCount(k)
    ensures c in Styles(k)[index] && c.y >= 0
  {
    match k
    case I =>
      var s := ShapeI.Styles()[index];
      c := s[1];
    case J => c := Coordinate(0, 0);
    case L => c := Coordinate(0, 0);
    case O => c := Coordinate(0, 0);
    case S => c := Coordinate(0, 0);
    case T => c := Coordinate(0, 0);
    case Z => c := Coordinate(0, 0);
  }

  /** A placed tetromino covers four distinct cells: the four blocks of a
      style, whatever the anchor, never land on the same cell twice. */
  lemma AbsoluteTetromino(position: Coordinate, blocks: ShapeStyle)
    requires Tetromino(blocks)
    ensures Tetromino(Absolute(position, blocks))
  {
    var r := Absolute(position, blocks);
    forall i, j | 0 <= i < j < 4
      ensures r[i] != r[j]
    {
      AbstractInjective(position, blocks[i], blocks[j]);
    }
  }

  /** A fresh I, J or L, whose style 0 is the one spawned, has a block one row
      above its anchor; a fresh O, S, T or Z has every block on or below the
      anchor's row. */
  lemma SpawnStyleRows(k: Kind)
    ensures k == I || k == J || k == L ==> Coordinate(0, -1) in Styles(k)[0]
    ensures k == O || k == S || k == T || k == Z ==> RowsWithin(Styles(k)[0], 0, 1)
  {
  }

  /** A vertical I at the left wall cannot turn: its next style, the
      horizontal bar, has a block one column to the left of the anchor. */
  lemma VerticalINextStyleReachesLeft()
    ensures NextStyle(I, 0) == 1 && Coordinate(-1, 0) in Styles(I)[1]
  {
  }

  /** A piece on the board: its kind, its anchor and its current style. */
  class Shape {
    const kind: Kind
    var position: Coordinate
    var styleIndex: nat

    ghost predicate Valid()
      reads this`styleIndex
    {
      styleIndex < StyleCount(kind)
    }

    /** A new shape at `position`, in style 0. */
    constructor (kind: Kind, position: Coordinate)
      ensures Valid()
      ensures this.kind == kind && this.position == position && styleIndex == 0
    {
      this.kind := kind;
      this.position := position;
      styleIndex := 0;
    }

    /** The relative blocks of the current style: a tetromino. */
    function GetBlocks(): (r: ShapeStyle)
      requires Valid()
      reads this`styleIndex
      ensures Tetromino(r) && Within(r, -1, 2)
    {
      Styles(kind)[styleIndex]
    }

    /** The relative blocks of the style one rotation on, without rotating. */
    function GetNextStyleBlocks(): (r: ShapeStyle)
      requires Valid()
      reads this`styleIndex
      ensures Tetromino(r) && Within(r, -1, 2)
    {
      Styles(kind)[NextStyle(kind, styleIndex)]
    }

    /** The absolute blocks of the current style at the current position. */
    function AbsoluteBlocks(): seq<Coordinate>
      requires Valid()
      reads this`position, this`styleIndex
    {
      Absolute(position, GetBlocks())
    }

    /** An O has a single style, so its next style is its current one. */
    lemma SquareNextStyleIsCurrent()
      requires Valid() && kind == O
      ensures styleIndex == 0 && GetNextStyleBlocks() == GetBlocks()
    {
    }

    /** Rotate once: afterwards the blocks are the ones GetNextStyleBlocks
        announced, and the position has not moved. */
    method ChangeStyle()
      requires Valid()
      modifies this
      ensures Valid()
      ensures styleIndex == NextStyle(kind, old(styleIndex))
      ensures GetBlocks() == old(GetNextStyleBlocks())
      ensures position == old(position)
    {
      styleIndex := NextStyle(kind, styleIndex);
    }
  }
}
