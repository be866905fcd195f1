/** Value types shared by the board, the moves and the search: players,
    piece kinds, pieces and board coordinates. */
module Pieces {

  datatype Option<+T> = None | Some(value: T)

  datatype Player = White | Black

  /** The other side. */
  function Opponent(p: Player): (q: Player)
    ensures q != p
  {
    match p
    case White => Black
    case Black => White
  }

  datatype PieceType = Pawn | Knight | Bishop | Rook | Queen | King

  /** A piece as a value: its kind, its colour and whether it has moved.
      A deep copy of a piece is the same value. */
  datatype Piece = Piece(kind: PieceType, color: Player, hasMoved: bool)

  /** A board coordinate; it may lie outside the board. */
  datatype Position = Position(row: int, column: int)
}
