/** The game state and its turn controller.  Each operation is modelled as
    one atomic step; the source locks the game in every public operation
    except for the board copy and overlay of `Render`. */
module Game {
  import opened Coordinates
  import opened ShapeStyles
  import opened Shapes
  import opened Board

  /** The contents of a board array as a grid value. */
  ghost function Contents(a: array2<bool>): (g: Grid)
    reads a
    ensures |g| == a.Length0 && Rect(g, a.Length1)
    ensures forall x, y :: 0 <= x < a.Length0 && 0 <= y < a.Length1 ==> g[x][y] == a[x, y]
  {
    seq(a.Length0, x requires 0 <= x < a.Length0 reads a =>
      seq(a.Length1, y requires 0 <= y < a.Length1 reads a => a[x, y]))
  }

  /** An array holds a grid when they agree cell by cell. */
  lemma ContentsAre(a: array2<bool>, g: Grid)
    requires |g| == a.Length0 && Rect(g, a.Length1)
    requires forall x, y :: 0 <= x < a.Length0 && 0 <= y < a.Length1 ==> a[x, y] == g[x][y]
    ensures Contents(a) == g
  {
    var c := Contents(a);
    forall x | 0 <= x < |g|
      ensures c[x] == g[x]
    {
    }
  }

  /** Occupy, in `a`, the in-bounds cells of `cs`, one after the other; a
      coordinate off the board is skipped. */
  method StampInPlace(a: array2<bool>, cs: seq<Coordinate>)
    modifies a
    ensures Contents(a) == Stamp(old(Contents(a)), cs)
  {
    ghost var before := Contents(a);
    var i := 0;
    while i < |cs|
      invariant 0 <= i <= |cs|
      invariant forall x, y :: 0 <= x < a.Length0 && 0 <= y < a.Length1 ==>
                  a[x, y] == (before[x][y] || Coordinate(x, y) in cs[..i])
    {
      var coord := cs[i];
      if 0 <= coord.x < a.Length0 && 0 <= coord.y < a.Length1 {
        a[coord.x, coord.y] := true;
      }
      assert cs[..i + 1] == cs[..i] + [coord];
      i := i + 1;
    }
    assert cs[..i] == cs;
    StampIsUnion(before, cs);
    ContentsAre(a, Stamp(before, cs));
  }

  /** The kind chosen by the spawn's draw from [0, 7). */
  function KindOfDraw(draw: nat): Kind
    requires draw < 7
  {
    if draw == 0 then I
    else if draw == 1 then J
    else if draw == 2 then L
    else if draw == 3 then O
    else if draw == 4 then S
    else if draw == 5 then T
    else Z
  }

  /** The draw reaches every kind, and each through one value only. */
  lemma KindOfDrawIsBijective(k: Kind)
    ensures exists draw :: 0 <= draw < 7 && KindOfDraw(draw) == k
    ensures forall d1, d2 :: 0 <= d1 < 7 && 0 <= d2 < 7 && KindOfDraw(d1) == KindOfDraw(d2) ==> d1 == d2
  {
    var draw := match k
      case I => 0 case J => 1 case L => 2 case O => 3 case S => 4 case T => 5 case Z => 6;
    assert KindOfDraw(draw) == k;
  }

  class TetrisGame {
    const Width: nat
    const Height: nat
    /** Occupancy of locked blocks, indexed [x, y]; the active piece is not in it. */
    const board: array2<bool>
    var currentShape: Shape?

    /** The board has the game's dimensions. */
    predicate Dims()
    {
      board.Length0 == Width && board.Length1 == Height
    }

    ghost predicate Valid()
      reads this, currentShape
    {
      Dims() && (currentShape != null ==> currentShape.Valid())
    }

    ghost function Cells(): (g: Grid)
      reads board
    {
      Contents(board)
    }

    /** An empty board of the given size, with no piece. */
    constructor (width: nat, height: nat)
      ensures Valid() && fresh(board)
      ensures Width == width && Height == height && currentShape == null
      ensures forall x, y :: 0 <= x < width && 0 <= y < height ==> !board[x, y]
    {
      board := new bool[width, height]((x, y) => false);
      Width, Height := width, height;
      currentShape := null;
    }

    /** The cell is on the board and not occupied. */
    predicate Vacant(c: Coordinate)
      requires Dims()
      reads board
    {
      0 <= c.x < Width && 0 <= c.y < Height && !board[c.x, c.y]
    }

    /** The style `blocks`, anchored at `p`, lies on vacant cells only. */
    predicate Fits(blocks: ShapeStyle, p: Coordinate)
      requires Dims()
      reads board
    {
      forall i :: 0 <= i < |blocks| ==> Vacant(GetAbstract(p, blocks[i]))
    }

    /** There is an active piece, and every block of it, moved by (dx, dy),
        lands on a vacant cell of the board. */
    predicate CanMove(dx: int, dy: int)
      requires Valid()
      reads this, currentShape, board
    {
      currentShape != null &&
      var blocks := currentShape.GetBlocks();
      forall i :: 0 <= i < |blocks| ==>
        Vacant(GetAbstract(currentShape.position, blocks[i]).Offset(dx, dy))
    }

    /** Offsetting each block after placing it is the same as placing the
        piece at an offset anchor: CanMove(dx, dy) holds exactly when there is
        a piece and it fits with its anchor moved by (dx, dy). */
    lemma CanMoveIsFitAtOffset(dx: int, dy: int)
      requires Valid()
      ensures CanMove(dx, dy) <==> currentShape != null && Fits(currentShape.GetBlocks(), currentShape.position.Offset(dx, dy))
    {
      if currentShape != null {
        var p := currentShape.position;
        var blocks := currentShape.GetBlocks();
        var q := p.Offset(dx, dy);
        forall i | 0 <= i < |blocks|
          ensures Vacant(GetAbstract(p, blocks[i]).Offset(dx, dy)) == Vacant(GetAbstract(q, blocks[i]))
        {
          AbstractOfOffsetBase(p, blocks[i], dx, dy);
        }
        assert CanMove(dx, dy) == forall i :: 0 <= i < |blocks| ==> Vacant(GetAbstract(p, blocks[i]).Offset(dx, dy));
        assert Fits(blocks, q) == forall i :: 0 <= i < |blocks| ==> Vacant(GetAbstract(q, blocks[i]));
      }
    }

    /** There is an active piece and every block of its next style, at the
        current anchor, lands on a vacant cell of the board. */
    predicate CanChangeShape()
      requires Valid()
      reads this, currentShape, board
    {
      currentShape != null &&
      var blocks := currentShape.GetNextStyleBlocks();
      forall i :: 0 <= i < |blocks| ==> Vacant(GetAbstract(currentShape.position, blocks[i]))
    }

    /** The absolute blocks of the active piece (none without one). */
    function ActiveBlocks(): seq<Coordinate>
      requires Valid()
      reads this, currentShape
    {
      if currentShape == null then [] else currentShape.AbsoluteBlocks()
    }

    /** Lock the active piece: its in-bounds blocks become occupied, the rest
        are dropped, and there is no active piece any more. */
    method StorageShapeToMap()
      requires Valid()
      modifies this`currentShape, board
      ensures Valid() && currentShape == null
      ensures Cells() == Stamp(old(Cells()), old(ActiveBlocks()))
    {
      if currentShape == null {
        return;
      }
      ghost var before := Cells();
      ghost var blocks := ActiveBlocks();
      var cs := currentShape.AbsoluteBlocks();
      assert cs == blocks;
      StampInPlace(board, cs);
      ghost var stamped := Cells();
      assert stamped == Stamp(before, blocks);
      currentShape := null;
      assert Cells() == stamped;
    }

    /** Spawn a piece of the drawn kind at (Width / 2, 0) in style 0; the
        cells under it are not checked. */
    method GenerateShape(draw: nat)
      requires Valid() && draw < 7
      modifies this
      ensures Valid() && fresh(currentShape)
      ensures currentShape.kind == KindOfDraw(draw)
      ensures currentShape.position == Coordinate(Width / 2, 0) && currentShape.styleIndex == 0
    {
      var initCoord := Coordinate(Width / 2, 0);
      currentShape := new Shape(KindOfDraw(draw), initCoord);
    }

    /** Shift rows 0 .. y-1 down one and empty row 0, in place. */
    method ClearRow(y: nat)
      requires Valid() && y < Height
      modifies board
      ensures Cells() == RemoveRow(old(Cells()), y)
    {
      ghost var before := Cells();
      var k := y;
      while k > 0
        invariant 0 <= k <= y
        invariant forall i, j {:trigger board[i, j]} :: 0 <= i < Width && 0 <= j < Height ==>
                    board[i, j] == if k < j <= y then before[i][j - 1] else before[i][j]
      {
        var x := 0;
        while x < Width
          invariant 0 <= x <= Width
          invariant forall i, j {:trigger board[i, j]} :: 0 <= i < Width && 0 <= j < Height ==>
                      board[i, j] == if k < j <= y || (j == k && i < x) then before[i][j - 1] else before[i][j]
        {
          board[x, k] := board[x, k - 1];
          x := x + 1;
        }
        k := k - 1;
      }
      var x := 0;
      while x < Width
        invariant 0 <= x <= Width
        invariant forall i, j {:trigger board[i, j]} :: 0 <= i < Width && 0 <= j < Height ==>
                    board[i, j] == if j == 0 && i < x then false
                                   else if 0 < j <= y then before[i][j - 1] else before[i][j]
      {
        board[x, 0] := false;
        x := x + 1;
      }
      ContentsAre(board, RemoveRow(before, y));
    }

    /** Whether every cell of row `y` is occupied (the inner loop of the scan). */
    method RowIsFull(y: nat) returns (full: bool)
      requires Valid() && y < Height
      ensures full <==> RowFull(Cells(), y)
    {
      full := true;
      var x := 0;
      while x < Width
        invariant 0 <= x <= Width
        invariant full <==> forall i :: 0 <= i < x ==> board[i, y]
      {
        full := full && board[x, y];
        x := x + 1;
      }
    }

    /** One pass over the rows, top to bottom, clearing every full row; the
        index advances after a clear.  With at least one column no row is
        full afterwards. */
    method Scan()
      requires Valid()
      modifies board
      ensures Cells() == Board.Scan(old(Cells()), Height)
      ensures Width > 0 ==> forall j :: 0 <= j < Height ==> !RowFull(Cells(), j)
    {
      ghost var start := Cells();
      var y := 0;
      while y < Height
        invariant 0 <= y <= Height
        invariant ScanFrom(Cells(), Height, y) == Board.Scan(start, Height)
      {
        ghost var before := Cells();
        var full := RowIsFull(y);
        if full {
          ClearRow(y);
        }
        ghost var after := Cells();
        assert after == if RowFull(before, y) then RemoveRow(before, y) else before;
        ScanFromStep(before, Height, y);
        assert ScanFrom(after, Height, y + 1) == Board.Scan(start, Height);
        y := y + 1;
      }
      if Width > 0 {
        ScanLeavesNoFullRow(start, Height);
      }
    }

    /** Move the active piece by (dx, dy) when it fits there; otherwise, or
        without a piece, nothing changes.  The board and the style are never
        touched, and after a move the piece lies on vacant cells. */
    method Move(dx: int, dy: int)
      requires Valid()
      modifies currentShape
      ensures Valid() && currentShape == old(currentShape)
      ensures currentShape != null ==>
                currentShape.styleIndex == old(currentShape.styleIndex) &&
                currentShape.position == if old(CanMove(dx, dy)) then old(currentShape.position).Offset(dx, dy)
                                         else old(currentShape.position)
      ensures old(CanMove(dx, dy)) ==> Fits(currentShape.GetBlocks(), currentShape.position)
    {
      if currentShape == null {
        return;
      }
      CanMoveIsFitAtOffset(dx, dy);
      if CanMove(dx, dy) {
        var newCoord := currentShape.position;
        newCoord := newCoord.Offset(dx, dy);
        currentShape.position := newCoord;
      }
    }

    method MoveLeft()
      requires Valid()
      modifies currentShape
      ensures Valid() && currentShape == old(currentShape)
      ensures currentShape != null ==>
                currentShape.styleIndex == old(currentShape.styleIndex) &&
                currentShape.position == if old(CanMove(-1, 0)) then old(currentShape.position).Offset(-1, 0)
                                         else old(currentShape.position)
    {
      Move(-1, 0);
    }

    method MoveRight()
      requires Valid()
      modifies currentShape
      ensures Valid() && currentShape == old(currentShape)
      ensures currentShape != null ==>
                currentShape.styleIndex == old(currentShape.styleIndex) &&
                currentShape.position == if old(CanMove(1, 0)) then old(currentShape.position).Offset(1, 0)
                                         else old(currentShape.position)
    {
      Move(1, 0);
    }

    method MoveDown()
      requires Valid()
      modifies currentShape
      ensures Valid() && currentShape == old(currentShape)
      ensures currentShape != null ==>
                currentShape.styleIndex == old(currentShape.styleIndex) &&
                currentShape.position == if old(CanMove(0, 1)) then old(currentShape.position).Offset(0, 1)
                                         else old(currentShape.position)
    {
      Move(0, 1);
    }

    /** Rotate the active piece when its next style fits at the same anchor;
        otherwise nothing changes.  The anchor and the board never change. */
    method ChangeShapeStyle()
      requires Valid()
      modifies currentShape
      ensures Valid() && currentShape == old(currentShape)
      ensures currentShape != null ==>
                currentShape.position == old(currentShape.position) &&
                currentShape.styleIndex == if old(CanChangeShape()) then NextStyle(currentShape.kind, old(currentShape.styleIndex))
                                           else old(currentShape.styleIndex)
      ensures old(CanChangeShape()) ==> Fits(currentShape.GetBlocks(), currentShape.position)
    {
      if CanChangeShape() {
        Turn();
      }
    }

    /** The turn itself, once `CanChangeShape` has cleared the next style:
        the piece takes that style in place, and it still fits. */
    method Turn()
      requires Valid() && CanChangeShape()
      modifies currentShape
      ensures Valid() && currentShape == old(currentShape)
      ensures currentShape.position == old(currentShape.position)
      ensures currentShape.styleIndex == NextStyle(currentShape.kind, old(currentShape.styleIndex))
      ensures Fits(currentShape.GetBlocks(), currentShape.position)
    {
      ghost var next := currentShape.GetNextStyleBlocks();
      ghost var p := currentShape.position;
      assert Fits(next, p);
      currentShape.ChangeStyle();
      assert currentShape.GetBlocks() == next && currentShape.position == p;
    }

    /** A piece that can move down has its anchor above the floor (the
        bottom row, Height - 1): every style has a block on or below the
        anchor's row, and that block lands on the board one row lower. */
    lemma CanMoveDownIsAboveFloor()
      requires Valid() && CanMove(0, 1)
      ensures currentShape.position.y < Height - 1
    {
      var blocks := currentShape.GetBlocks();
      var c := StyleReachesAnchorRow(currentShape.kind, currentShape.styleIndex);
      var i :| 0 <= i < |blocks| && blocks[i] == c;
      assert Vacant(GetAbstract(currentShape.position, blocks[i]).Offset(0, 1));
    }

    /** One row of the hard drop: the piece, which fits one row lower, moves
        down one row, and the rows it has passed through since `start` keep
        fitting (the board does not change). */
    method StepDown(ghost blocks: ShapeStyle, ghost start: Coordinate)
      requires Valid() && CanMove(0, 1)
      requires currentShape.GetBlocks() == blocks && currentShape.position.x == start.x
      requires forall j :: start.y < j <= currentShape.position.y ==> Fits(blocks, Coordinate(start.x, j))
      modifies currentShape
      ensures Valid() && currentShape == old(currentShape)
      ensures currentShape.styleIndex == old(currentShape.styleIndex) && currentShape.GetBlocks() == blocks
      ensures currentShape.position == old(currentShape.position).Offset(0, 1)
      ensures forall j :: start.y < j <= currentShape.position.y ==> Fits(blocks, Coordinate(start.x, j))
    {
      ghost var y := currentShape.position.y;
      label Above:
      Move(0, 1);
      forall j | start.y < j <= y + 1
        ensures Fits(blocks, Coordinate(start.x, j))
      {
        if j <= y {
          assert old@Above(Fits(blocks, Coordinate(start.x, j)));
        } else {
          assert currentShape.position == Coordinate(start.x, j);
        }
      }
    }

    /** Hard drop: move down while the piece fits one row lower.  The piece
        ends resting (it cannot move down), in the same column and style, on
        a row it reached through fitting positions only; it is not locked. */
    method Fall()
      requires Valid()
      modifies currentShape
      ensures Valid() && currentShape == old(currentShape)
      ensures !CanMove(0, 1)
      ensures currentShape != null ==>
                currentShape.styleIndex == old(currentShape.styleIndex) &&
                currentShape.position.x == old(currentShape.position.x) &&
                old(currentShape.position.y) <= currentShape.position.y &&
                forall j :: old(currentShape.position.y) < j <= currentShape.position.y ==>
                  Fits(currentShape.GetBlocks(), Coordinate(currentShape.position.x, j))
    {
      if currentShape == null {
        return;
      }
      ghost var blocks := currentShape.GetBlocks();
      ghost var start := currentShape.position;
      while CanMove(0, 1)
        invariant Valid() && currentShape == old(currentShape) && currentShape != null
        invariant currentShape.styleIndex == old(currentShape.styleIndex)
        invariant currentShape.GetBlocks() == blocks
        invariant currentShape.position.x == start.x && start.y <= currentShape.position.y
        invariant forall j :: start.y < j <= currentShape.position.y ==> Fits(blocks, Coordinate(start.x, j))
        decreases Height - currentShape.position.y
      {
        CanMoveDownIsAboveFloor();
        StepDown(blocks, start);
      }
    }

    /** One tick.  Without a piece: spawn one and stop.  With one: move it
        down a row if it fits there, else lock it; then clear full rows. */
    method NextTurn(draw: nat)
      requires Valid() && draw < 7
      modifies this, board, currentShape
      ensures Valid()
      ensures old(currentShape) == null ==>
                fresh(currentShape) && currentShape.kind == KindOfDraw(draw) &&
                currentShape.position == Coordinate(Width / 2, 0) && currentShape.styleIndex == 0 &&
                Cells() == old(Cells())
      ensures old(currentShape) != null && old(CanMove(0, 1)) ==>
                currentShape == old(currentShape) &&
                currentShape.position == old(currentShape.position).Offset(0, 1) &&
                currentShape.styleIndex == old(currentShape.styleIndex) &&
                Cells() == Board.Scan(old(Cells()), Height)
      ensures old(currentShape) != null && !old(CanMove(0, 1)) ==>
                currentShape == null &&
                Cells() == Board.Scan(Stamp(old(Cells()), old(ActiveBlocks())), Height)
    {
      if currentShape == null {
        GenerateShape(draw);
        return;
      }
      if CanMove(0, 1) {
        var newCoord := currentShape.position;
        newCoord := newCoord.(y := newCoord.y + 1);
        currentShape.position := newCoord;
      } else {
        StorageShapeToMap();
      }
      Scan();
    }

    /** The frame to draw: a copy of the board with the in-bounds blocks of
        the active piece set.  The game is not changed. */
    method Render() returns (frame: array2<bool>)
      requires Valid()
      ensures fresh(frame) && frame.Length0 == Width && frame.Length1 == Height
      ensures Contents(frame) == Stamp(Cells(), ActiveBlocks())
    {
      frame := new bool[Width, Height];
      var x := 0;
      while x < Width
        invariant 0 <= x <= Width
        invariant forall i, j :: 0 <= i < x && 0 <= j < Height ==> frame[i, j] == board[i, j]
      {
        var y := 0;
        while y < Height
          invariant 0 <= y <= Height
          invariant forall i, j :: 0 <= j < Height && (i < x || (i == x && j < y)) && 0 <= i ==> frame[i, j] == board[i, j]
        {
          frame[x, y] := board[x, y];
          y := y + 1;
        }
        x := x + 1;
      }
      ContentsAre(frame, Cells());
      StampInPlace(frame, ActiveBlocks());
    }
  }

  /** Spawning does not keep the piece on the board: a fresh I, J or L has a
      block one row above the top, so it does not fit where it stands. */
  lemma FreshTallPieceSticksOut(game: TetrisGame)
    requires game.Valid() && game.currentShape != null
    requires game.currentShape.kind in {I, J, L}
    requires game.currentShape.styleIndex == 0 && game.currentShape.position.y == 0
    ensures !game.Fits(game.currentShape.GetBlocks(), game.currentShape.position)
  {
    SpawnStyleRows(game.currentShape.kind);
  }

  /** A vertical I whose anchor is in column 0 cannot turn: its horizontal
      style would put a block in column -1.  ChangeShapeStyle then leaves
      style and anchor as they were. */
  lemma VerticalIAtLeftWallCannotTurn(game: TetrisGame)
    requires game.Valid() && game.currentShape != null
    requires game.currentShape.kind == I && game.currentShape.styleIndex == 0
    requires game.currentShape.position.x == 0
    ensures !game.CanChangeShape()
  {
    VerticalINextStyleReachesLeft();
    var blocks := game.currentShape.GetNextStyleBlocks();
    var i :| 0 <= i < |blocks| && blocks[i] == Coordinate(-1, 0);
    assert !game.Vacant(GetAbstract(game.currentShape.position, blocks[i]));
  }
}
