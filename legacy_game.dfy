/**
 * The game of the older tree (src/game.rs): the same three updates as the
 * newer game, over the board that keeps a `repeats` index and finds an
 * unrepeated piece by scanning for its code.
 */
module LegacyGame {
  import opened Wrappers
  import opened Signs
  import opened PieceIds
  import opened Positions
  import opened LegacyBoard
  import History

  /** The move history: each piece's trail of destinations, by (code, version). */
  type Trails = map<(int, nat), seq<nat>>

  /** What a game holds, as a value: the board and every piece's trail. */
  datatype GameState = GameState(board: Snapshot, past: Trails)

  /** `set_square` does not panic: the square exists, and so does the version's slot of a repeated code. */
  predicate CanSet(b: Snapshot, id: PieceId, square: nat) {
    square < |b.state| && (id.I() in b.repeats ==> id.version < |b.repeats[id.I()]|)
  }

  /** The two `set_square` calls of a move from `from` to `square` do not panic. */
  predicate MoveFits(b: Snapshot, from: nat, id: PieceId, square: nat) {
    CanSet(b, Default(), from) && CanSet(b.SetSquare(Default(), from), id, square)
  }

  /**
   * The game after `move_piece(id, square)`: unchanged when `get_pos` finds
   * no square; otherwise the destination is pushed to the piece's trail,
   * the empty code is written on the old square and then the piece on the
   * destination.
   */
  function Moved(g: GameState, id: PieceId, square: nat): GameState
    requires g.board.PosOf(id).Some? ==> MoveFits(g.board, g.board.PosOf(id).value, id, square)
  {
    match g.board.PosOf(id)
    case None => g
    case Some(from) =>
      GameState(g.board.SetSquare(Default(), from).SetSquare(id, square),
                History.Pushed(g.past, History.Key(id), square))
  }

  /** `move_piece_relative(id, distance)` does not panic. */
  predicate CanMovePieceRelative(g: GameState, id: PieceId, distance: nat) {
    g.board.PosOf(id).Some? ==>
      var from := g.board.PosOf(id).value;
      MoveFits(g.board, from, id, Offset(from, id.sign, distance))
  }

  /** The game after `move_piece_relative(id, distance)`: a move to `offset(sign, distance)` of the old square. */
  function MovedRelative(g: GameState, id: PieceId, distance: nat): GameState
    requires CanMovePieceRelative(g, id, distance)
  {
    match g.board.PosOf(id)
    case None => g
    case Some(from) => Moved(g, id, Offset(from, id.sign, distance))
  }

  /** `Game`: the board and the history (the piece set is only used for rendering). */
  class Game {
    const board: StandardBoard
    const history: History.BoardHistory

    function State(): GameState
      reads this, board, board.state, history
    {
      GameState(board.Value(), history.past)
    }

    /** `new`: the board built from the layout, and an empty history. */
    constructor (rowSize: nat, colSize: nat, initial: seq<int>)
      ensures fresh(board) && fresh(board.state) && fresh(history)
      ensures State() == GameState(Initial(rowSize, colSize, initial), map[])
    {
      board := new StandardBoard(rowSize, colSize, initial);
      history := new History.BoardHistory(None);
    }

    /** `move_piece`. */
    method MovePiece(id: PieceId, square: nat)
      requires State().board.PosOf(id).Some? ==> MoveFits(State().board, State().board.PosOf(id).value, id, square)
      modifies board, board.state, history
      ensures board.state == old(board.state)
      ensures State() == Moved(old(State()), id, square)
    {
      var existing := board.GetPos(id);
      if existing.Some? {
        var from := existing.value;
        history.Push(id, square);
        board.SetSquare(Default(), from);
        board.SetSquare(id, square);
      }
    }

    /** `move_piece_relative`. */
    method MovePieceRelative(id: PieceId, distance: nat)
      requires CanMovePieceRelative(State(), id, distance)
      modifies board, board.state, history
      ensures board.state == old(board.state)
      ensures State() == MovedRelative(old(State()), id, distance)
    {
      var existing := board.GetPos(id);
      if existing.Some? {
        var from := existing.value;
        var target := Offset(from, id.sign, distance);
        history.Push(id, target);
        board.SetSquare(Default(), from);
        board.SetSquare(id, target);
      }
    }

    /** `clear`: the board and the history together. */
    method Clear()
      modifies board, board.state, history
      ensures board.state == old(board.state)
      ensures State() == GameState(old(State()).board.Cleared(), map[])
    {
      board.Clear();
      history.Clear();
    }
  }

  /**
   * What a move does to the board. An absent piece changes nothing.
   * Otherwise the destination holds the piece's code, a vacated old square
   * holds the empty code, every other square keeps its code, and `get_pos`
   * finds the piece on the destination when its version is listed in
   * `repeats`, or when no other square held its (non-empty) code.
   */
  lemma MovePieceBoard(g: GameState, id: PieceId, square: nat)
    requires g.board.PosOf(id).Some? ==> MoveFits(g.board, g.board.PosOf(id).value, id, square)
    ensures g.board.PosOf(id).None? ==> Moved(g, id, square) == g
    ensures g.board.PosOf(id).Some? ==>
              var from := g.board.PosOf(id).value;
              var b := Moved(g, id, square).board;
              |b.state| == |g.board.state| && b.state[square] == id.I() &&
              (from != square ==> b.state[from] == 0) &&
              (forall u | 0 <= u < |b.state| && u != from && u != square :: b.state[u] == g.board.state[u]) &&
              ((id.I() in g.board.repeats && id.version < |g.board.repeats[id.I()]|) ||
               (id.I() != 0 && forall u | 0 <= u < |g.board.state| && u != from :: g.board.state[u] != id.I())
               ==> b.PosOf(id) == Some(square))
  {
    if g.board.PosOf(id).Some? {
      var from := g.board.PosOf(id).value;
      var vacated := g.board.SetSquare(Default(), from);
      var b := vacated.SetSquare(id, square);
      var c := id.I();
      if !(c in g.board.repeats && id.version < |g.board.repeats[c]|) &&
         c != 0 && forall u | 0 <= u < |g.board.state| && u != from :: g.board.state[u] != c {
        assert b.state[square] == c;
        assert b.PosOf(id).Some?;
      }
    }
  }
}
