/**
 * The standard chess piece kinds and their integer codes
 * (src/implementations/piece/standard_piece.rs; the same enum and conversions
 * are repeated in src/chess/standard/piece.rs).
 */
module Pieces {
  import opened Wrappers

  datatype StandardPiece = NoPiece | Pawn | Knight | Bishop | Rook | Queen | King

  /** Largest kind code. */
  const MAX_CODE: int := 6

  /** `From<StandardPiece> for isize`: None..King become 0..6. */
  function ToInt(k: StandardPiece): (i: int)
    ensures 0 <= i <= MAX_CODE
    ensures i == 0 <==> k == NoPiece
  {
    match k
    case NoPiece => 0
    case Pawn => 1
    case Knight => 2
    case Bishop => 3
    case Rook => 4
    case Queen => 5
    case King => 6
  }

  function Abs(i: int): (a: nat)
    ensures a == i || a == -i
  {
    if i < 0 then -i else i
  }

  /**
   * `From<isize> for StandardPiece`: the kind of |i|. `None` stands for the
   * panic the source raises for an unknown code.
   */
  function FromInt(i: int): (r: Option<StandardPiece>)
    ensures r.Some? <==> -MAX_CODE <= i <= MAX_CODE
    ensures r.Some? ==> ToInt(r.value) == Abs(i)
  {
    match Abs(i)
    case 0 => Some(NoPiece)
    case 1 => Some(Pawn)
    case 2 => Some(Knight)
    case 3 => Some(Bishop)
    case 4 => Some(Rook)
    case 5 => Some(Queen)
    case 6 => Some(King)
    case _ => None
  }

  /** The kind of a code known to be in range. */
  function KindOf(i: int): (k: StandardPiece)
    requires -MAX_CODE <= i <= MAX_CODE
    ensures ToInt(k) == Abs(i)
  {
    FromInt(i).value
  }

  /** `Piece::none()`. */
  function NoneKind(): (k: StandardPiece)
    ensures ToInt(k) == 0
  {
    NoPiece
  }

  /** Converting to a code is injective. */
  lemma ToIntInjective(a: StandardPiece, b: StandardPiece)
    ensures ToInt(a) == ToInt(b) ==> a == b
  {
  }

  /** Converting a kind to its code and back gives the kind. */
  lemma FromToInt(k: StandardPiece)
    ensures FromInt(ToInt(k)) == Some(k)
  {
    ToIntInjective(k, FromInt(ToInt(k)).value);
  }

  /** The sign of a code is discarded. */
  lemma FromIntIgnoresSign(i: int)
    ensures FromInt(i) == FromInt(-i)
  {
  }
}
