/** Colours and piece kinds shared by every chess and Go variant. */
module Pieces {
  datatype Color = White | Black {
    /** The other player (`color === 'white' ? 'black' : 'white'`). */
    function Opponent(): (c: Color)
      ensures c != this
    {
      if this == White then Black else White
    }
  }

  datatype Kind = King | Queen | Rook | Bishop | Knight | Pawn

  /** A chess piece `{ type, color }`. */
  datatype Piece = Piece(kind: Kind, color: Color)

  /** The back rank `['rook', 'knight', 'bishop', 'queen', 'king', 'bishop', 'knight', 'rook']`. */
  function BackRank(i: int): Kind
    requires 0 <= i < 8
  {
    [Rook, Knight, Bishop, Queen, King, Bishop, Knight, Rook][i]
  }
}
