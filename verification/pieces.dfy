/** The contents of a square: a side's piece, or E for an empty square. */
module Pieces {
  datatype Piece = E | X | O

  /** The other side. E has no other side and is its own opposite. */
  function Opposite(p: Piece): (r: Piece)
    ensures r == E <==> p == E
    ensures p != E ==> r != p
  {
    match p
    case X => O
    case O => X
    case E => E
  }

  /** Toggling twice gives back the piece. */
  lemma OppositeInvolution(p: Piece)
    ensures Opposite(Opposite(p)) == p
  {
  }
}
