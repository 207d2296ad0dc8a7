/**
 * The board as its `get_id` query sees it, shared by both board
 * implementations: the identity on every square, and the dimensions.
 */
module BoardViews {
  import opened PieceIds

  /** The identities of squares 0 .. |occupants| - 1, on a rowSize × colSize grid. */
  datatype BoardView = BoardView(occupants: seq<PieceId>, rowSize: nat, colSize: nat) {

    /** Square u is on the board and holds a piece. */
    predicate Occupied(u: nat) {
      u < |occupants| && !occupants[u].IsNone()
    }
  }

  /** The number of occupied squares among `squares`. */
  function OccupiedCount(v: BoardView, squares: seq<nat>): (n: nat)
    ensures n <= |squares|
  {
    if |squares| == 0 then 0
    else (if v.Occupied(squares[0]) then 1 else 0) + OccupiedCount(v, squares[1..])
  }

  /** The count is none exactly when every square is empty, and all of them exactly when every square is occupied. */
  lemma {:induction false} OccupiedCountExtremes(v: BoardView, squares: seq<nat>)
    ensures OccupiedCount(v, squares) == 0 <==> forall j | 0 <= j < |squares| :: !v.Occupied(squares[j])
    ensures OccupiedCount(v, squares) == |squares| <==> forall j | 0 <= j < |squares| :: v.Occupied(squares[j])
  {
    if |squares| > 0 {
      OccupiedCountExtremes(v, squares[1..]);
      assert forall j | 1 <= j < |squares| :: squares[j] == squares[1..][j - 1];
    }
  }
}
