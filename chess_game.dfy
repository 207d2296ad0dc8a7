/**
 * The game of the newer tree (src/chess/game.rs): a board and a move
 * history that `move_piece`, `move_piece_relative` and `clear` update
 * together.
 */
module ChessGame {
  import opened Wrappers
  import opened Signs
  import opened PieceIds
  import opened Positions
  import opened ChessBoard
  import Pieces
  import ChessMovement
  import History
  import StandardPieceSet

  /** The move history: each piece's trail of destinations, by (code, version). */
  type Trails = map<(int, nat), seq<nat>>

  /** What a game holds, as a value: the board and every piece's trail. */
  datatype GameState = GameState(board: BoardState, past: Trails)

  /** The two `set_square` calls of a move from `from` to `square` do not panic. */
  predicate MoveFits(b: BoardState, from: nat, id: PieceId, square: nat) {
    b.CanSet(Default(), from) && b.SetSquare(Default(), from).CanSet(id, square)
  }

  /** `move_piece(id, square)` does not panic: `get_pos` can look the piece up, and both writes fit. */
  predicate CanMovePiece(g: GameState, id: PieceId, square: nat) {
    g.board.Locatable(id) &&
    (g.board.GetPos(id).Some? ==> MoveFits(g.board, g.board.GetPos(id).value, id, square))
  }

  /**
   * The game after `move_piece(id, square)`: unchanged when `get_pos` finds
   * no square; otherwise the destination is pushed to the piece's trail,
   * the empty identity is written on the old square and then the piece on
   * the destination.
   */
  function Moved(g: GameState, id: PieceId, square: nat): GameState
    requires CanMovePiece(g, id, square)
  {
    match g.board.GetPos(id)
    case None => g
    case Some(from) =>
      GameState(g.board.SetSquare(Default(), from).SetSquare(id, square),
                History.Pushed(g.past, History.Key(id), square))
  }

  /** `move_piece_relative(id, distance)` does not panic. */
  predicate CanMovePieceRelative(g: GameState, id: PieceId, distance: nat) {
    g.board.Locatable(id) &&
    (g.board.GetPos(id).Some? ==>
       var from := g.board.GetPos(id).value;
       MoveFits(g.board, from, id, Offset(from, id.sign, distance)))
  }

  /** The game after `move_piece_relative(id, distance)`: a move to `offset(sign, distance)` of the old square. */
  function MovedRelative(g: GameState, id: PieceId, distance: nat): GameState
    requires CanMovePieceRelative(g, id, distance)
  {
    match g.board.GetPos(id)
    case None => g
    case Some(from) => Moved(g, id, Offset(from, id.sign, distance))
  }

  /** `Game`: the board and the history (the piece set is only used for rendering). */
  class Game {
    const board: StandardBoard
    const history: History.BoardHistory

    function State(): GameState
      reads this, board, board.ids, history
    {
      GameState(board.Value(), history.past)
    }

    /** `new`: the board built from the layout, and an empty history. */
    constructor (rowSize: nat, colSize: nat, initial: seq<int>)
      requires forall c | c in initial :: -Pieces.MAX_CODE <= c <= Pieces.MAX_CODE
      ensures fresh(board) && fresh(board.ids) && fresh(history)
      ensures State() == GameState(Initial(rowSize, colSize, initial), map[])
    {
      board := new StandardBoard(rowSize, colSize, initial);
      history := new History.BoardHistory(None);
    }

    /** `move_piece`. */
    method MovePiece(id: PieceId, square: nat)
      requires CanMovePiece(State(), id, square)
      modifies board, board.ids, history
      ensures board.ids == old(board.ids)
      ensures State() == Moved(old(State()), id, square)
    {
      var existing := board.GetPos(id);
      if existing.Some? {
        var from := existing.value;
        history.Push(id, square);
        board.SetSquare(Default(), from);
        board.SetSquare(id, square);
      }
    }

    /** `move_piece_relative`. */
    method MovePieceRelative(id: PieceId, distance: nat)
      requires CanMovePieceRelative(State(), id, distance)
      modifies board, board.ids, history
      ensures board.ids == old(board.ids)
      ensures State() == MovedRelative(old(State()), id, distance)
    {
      var existing := board.GetPos(id);
      if existing.Some? {
        var from := existing.value;
        var target := Offset(from, id.sign, distance);
        history.Push(id, target);
        board.SetSquare(Default(), from);
        board.SetSquare(id, target);
      }
    }

    /** `clear`: the board and the history together. */
    method Clear()
      modifies board, board.ids, history
      ensures board.ids == old(board.ids)
      ensures State() == GameState(old(State()).board.Cleared(), map[])
    {
      board.Clear();
      history.Clear();
    }
  }

  /**
   * What a move does to the board. An absent piece changes nothing.
   * Otherwise the destination reads as the piece (so moving onto its own
   * square leaves it there), a vacated old square reads as empty, every
   * other square keeps its identity and `get_pos` finds the piece on the
   * destination.
   */
  lemma MovePieceBoard(g: GameState, id: PieceId, square: nat)
    requires g.board.Valid() && CanMovePiece(g, id, square)
    ensures g.board.GetPos(id).None? ==> Moved(g, id, square) == g
    ensures g.board.GetPos(id).Some? ==>
              var from := g.board.GetPos(id).value;
              var b := Moved(g, id, square).board;
              b.Valid() &&
              b.GetId(square) == Some(FromPair(id.I(), id.version % HALF)) &&
              (from != square ==> b.GetIdNotNone(from).None?) &&
              (forall u | u != from && u != square :: b.GetId(u) == g.board.GetId(u)) &&
              b.Locatable(id) && b.GetPos(id) == Some(square)
  {
    if g.board.GetPos(id).Some? {
      var from := g.board.GetPos(id).value;
      var vacated := g.board.SetSquare(Default(), from);
      SetSquareThenGetId(g.board, Default(), from);
      SetSquareThenGetId(vacated, id, square);
      SetSquareThenGetPos(vacated, id, square);
      PackRoundTrip(0, 0);
    }
  }

  /** Moving relative by a whole row is moving to `top` of the old square, for either side. */
  lemma RelativeRowIsTop(g: GameState, id: PieceId)
    requires |g.board.ids| <= USIZE_MODULUS
    requires CanMovePieceRelative(g, id, g.board.rowSize)
    ensures g.board.GetPos(id).Some? ==>
              var from := g.board.GetPos(id).value;
              CanMovePiece(g, id, Top(from, id.sign, g.board.rowSize)) &&
              MovedRelative(g, id, g.board.rowSize) == Moved(g, id, Top(from, id.sign, g.board.rowSize))
  {
    if g.board.GetPos(id).Some? {
      OffsetFacts(g.board.GetPos(id).value, id.sign, g.board.rowSize);
    }
  }

  /**
   * En passant declines against a piece whose trail ends on the very square
   * it stands on.
   */
  lemma TrailAtOwnSquareBlocksEnPassant(f: StandardPieceSet.Flank, id: PieceId, b: BoardState,
                                        past: Trails, square: nat)
    requires b.Valid() && b.Locatable(id) && 0 < b.rowSize && 2 * b.rowSize < USIZE_MODULUS
    requires b.GetPos(id).Some? && StandardPieceSet.Beside(f, b.GetPos(id).value, id.sign) == square
    requires b.GetId(square).Some? && History.Key(b.GetId(square).value) in past
    requires var trail := past[History.Key(b.GetId(square).value)];
             |trail| > 0 && trail[|trail| - 1] == square
    ensures StandardPieceSet.EnPassantRule(f, id, b, past).None?
  {
    if StandardPieceSet.EnPassantRule(f, id, b, past).Some? {
      StandardPieceSet.EnPassantNeedsStaleTrail(f, id, b, past);
      assert false;
    }
  }

  /**
   * The en passant rule as written never fires against a pawn the game has
   * just moved: the game records destinations, so the pawn's trail ends on
   * the square it stands on, while the rule wants the trail to end two of
   * its rows behind it.
   */
  lemma JustMovedPawnEscapesEnPassant(g: GameState, p: PieceId, square: nat, m: GameState,
                                      f: StandardPieceSet.Flank, id: PieceId)
    requires g.board.Valid() && CanMovePiece(g, p, square) && g.board.GetPos(p).Some?
    requires p.version < HALF
    requires m == Moved(g, p, square) && m.board.Valid()
    requires 0 < m.board.rowSize && 2 * m.board.rowSize < USIZE_MODULUS
    requires m.board.Locatable(id) && m.board.GetPos(id).Some?
    requires StandardPieceSet.Beside(f, m.board.GetPos(id).value, id.sign) == square
    ensures StandardPieceSet.EnPassantRule(f, id, m.board, m.past).None?
  {
    MovePieceBoard(g, p, square);
    History.PushedTrail(g.past, p, square);
    assert History.Key(m.board.GetId(square).value) == History.Key(p);
    TrailAtOwnSquareBlocksEnPassant(f, id, m.board, m.past, square);
  }

  /**
   * With the intended en passant rule, a pawn's first move (the double step
   * from its starting row among them) opens en passant: an opposing piece
   * that has the pawn's new square beside it is offered the en passant move
   * on that flank.
   */
  lemma FirstMoveOpensEnPassant(g: GameState, p: PieceId, square: nat, m: GameState,
                                f: StandardPieceSet.Flank, id: PieceId)
    requires g.board.Valid() && CanMovePiece(g, p, square) && g.board.GetPos(p).Some?
    requires p.piece == Pieces.Pawn && p.sign != NoSign && p.version < HALF && p.Opposes(id)
    requires History.Trail(g.past, p).None?
    requires m == Moved(g, p, square) && m.board.Valid()
    requires m.board.Locatable(id) && m.board.GetPos(id).Some?
    requires StandardPieceSet.Beside(f, m.board.GetPos(id).value, id.sign) == square
    ensures StandardPieceSet.EnPassantIntended(f, id, m.board, m.past) ==
            Some((ChessMovement.Move(f.Step(), 1, 1), ChessMovement.NoCapture))
  {
    MovePieceBoard(g, p, square);
    MovedPawnOnSquare(p);
    History.PushedTrail(g.past, p, square);
    assert History.Key(m.board.GetId(square).value) == History.Key(p);
  }

  /**
   * After `move_piece(id, square)` of a placed piece, `get_pos` finds it on
   * `square` and its trail ends with `square`; every identity under another
   * key keeps its trail.
   */
  lemma MoveRecordsDestination(g: GameState, id: PieceId, square: nat)
    requires g.board.Valid() && CanMovePiece(g, id, square) && g.board.GetPos(id).Some?
    ensures var m := Moved(g, id, square);
            m.board.Locatable(id) && m.board.GetPos(id) == Some(square) &&
            History.Trail(m.past, id).Some? && |History.Trail(m.past, id).value| > 0 &&
            History.Trail(m.past, id).value[|History.Trail(m.past, id).value| - 1] == square
    ensures forall other | History.Key(other) != History.Key(id) ::
              History.Trail(Moved(g, id, square).past, other) == History.Trail(g.past, other)
  {
    MovePieceBoard(g, id, square);
    History.PushedTrail(g.past, id, square);
  }

  /**
   * After `move_piece_relative(id, distance)` of a placed piece, `get_pos`
   * finds it on `offset(sign, distance)` of its old square, and its trail
   * ends with that square.
   */
  lemma MoveRelativeRecordsDestination(g: GameState, id: PieceId, distance: nat)
    requires g.board.Valid() && CanMovePieceRelative(g, id, distance) && g.board.GetPos(id).Some?
    ensures var target := Offset(g.board.GetPos(id).value, id.sign, distance);
            var m := MovedRelative(g, id, distance);
            m.board.Locatable(id) && m.board.GetPos(id) == Some(target) &&
            History.Trail(m.past, id).Some? && |History.Trail(m.past, id).value| > 0 &&
            History.Trail(m.past, id).value[|History.Trail(m.past, id).value| - 1] == target
  {
    MoveRecordsDestination(g, id, Offset(g.board.GetPos(id).value, id.sign, distance));
  }

  /** The identity a board reads back for a pawn with a side is a pawn of that side, under the same key. */
  lemma MovedPawnOnSquare(p: PieceId)
    requires p.piece == Pieces.Pawn && p.sign != NoSign && p.version < HALF
    ensures var other := FromPair(p.I(), p.version % HALF);
            other.piece == Pieces.Pawn && other.sign == p.sign && History.Key(other) == History.Key(p)
  {
    Signs.ScalingIsProduct(p.sign, Pieces.ToInt(Pieces.Pawn));
    Signs.FromValue(p.sign);
    var other := FromPair(p.I(), p.version % HALF);
    Pieces.ToIntInjective(other.piece, Pieces.Pawn);
  }
}
