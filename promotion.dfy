/** ChessLogic.Moves.PawnPromotion: the move that replaces a pawn reaching
    the last rank by a new Queen. A move is a value; Execute rewrites the
    board it is given in place. */
module Promotion {
  import opened Pieces
  import opened Layout
  import opened Boards

  /** The move kinds; only PawnPromotion is modelled here. */
  datatype MoveType = Normal | DoublePawnAdvance | EnPassant | Castle | PawnPromotion

  /** What Execute leaves on the board when the source holds a piece: the
      source cell cleared, then a moved Queen of the mover's colour written
      on the target. */
  function Promoted(g: Grid, from: Square, to: Square): Grid
    requires g[Index(from)].Some?
  {
    g[Index(from) := None][Index(to) := Some(Piece(Queen, g[Index(from)].value.color, true))]
  }

  /** After a promotion the target holds a moved Queen of the pawn's colour,
      the source is empty unless it is the target, and no other cell
      changes. */
  lemma PromotedCells(g: Grid, from: Square, to: Square)
    requires g[Index(from)].Some?
    ensures Promoted(g, from, to)[Index(to)] == Some(Piece(Queen, g[Index(from)].value.color, true))
    ensures from != to ==> Promoted(g, from, to)[Index(from)] == None
    ensures forall k :: 0 <= k < 64 && k != Index(from) && k != Index(to) ==> Promoted(g, from, to)[k] == g[k]
  {
    if from != to {
      SquareAtIndex(from);
      SquareAtIndex(to);
    }
  }

  /** The target's previous occupant, whatever its colour and kind, does not
      show in the result: it is captured. */
  lemma PromotionDiscardsTarget(g: Grid, from: Square, to: Square, previous: Option<Piece>)
    requires g[Index(from)].Some? && from != to
    ensures Promoted(g[Index(to) := previous], from, to) == Promoted(g, from, to)
  {
    SquareAtIndex(from);
    SquareAtIndex(to);
    assert Index(from) != Index(to);
  }

  /** A promotion keeps the number of pieces, less one when it captures. */
  lemma PromotionPieceCount(g: Grid, from: Square, to: Square)
    requires g[Index(from)].Some?
    ensures Count(Promoted(g, from, to), 0, 64, AnyPiece) ==
      Count(g, 0, 64, AnyPiece) - (if from != to && g[Index(to)].Some? then 1 else 0)
  {
    var q := Some(Piece(Queen, g[Index(from)].value.color, true));
    var cleared := g[Index(from) := None];
    CountUpdate(g, 0, 64, AnyPiece, Index(from), None);
    CountUpdate(cleared, 0, 64, AnyPiece, Index(to), q);
    if from != to {
      SquareAtIndex(from);
      SquareAtIndex(to);
      assert cleared[Index(to)] == g[Index(to)];
    }
  }

  datatype PawnPromotionMove = PawnPromotionMove(fromPos: Square, toPos: Square) {

    /** The kind of move this is, as every Move reports it. */
    function Type(): (t: MoveType)
      ensures t == MoveType.PawnPromotion
    {
      MoveType.PawnPromotion
    }

    /** Execute. When the source is empty the program dereferences null
        after clearing the (already empty) source cell: that failure is
        ok == false with the board unchanged. */
    method Execute(board: Board) returns (ok: bool)
      requires board.Valid()
      modifies board.pieces
      ensures board.Valid()
      ensures ok <==> old(board.Cells())[Index(fromPos)].Some?
      ensures !ok ==> board.Cells() == old(board.Cells())
      ensures ok ==> board.Cells() == Promoted(old(board.Cells()), fromPos, toPos)
      ensures ok ==> board.Cells()[Index(toPos)] == Some(Piece(Queen, old(board.Cells())[Index(fromPos)].value.color, true))
      ensures ok && fromPos != toPos ==> board.Cells()[Index(fromPos)] == None
      ensures forall k :: 0 <= k < 64 && k != Index(fromPos) && k != Index(toPos) ==>
        board.Cells()[k] == old(board.Cells())[k]
    {
      ghost var before := board.Cells();
      var pawn := board.Get(fromPos);
      board.PlacePiece(fromPos, None);
      if pawn == None {
        assert board.Cells() == before;
        return false;
      }
      var promotionPiece := Piece(Queen, pawn.value.color, true);
      board.PlacePiece(toPos, Some(promotionPiece));
      PromotedCells(before, fromPos, toPos);
      return true;
    }
  }
}
