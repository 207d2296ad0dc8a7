/**
 * The piece set of the older tree (src/implementations/piece/dynamic_piece_set.rs):
 * a map from piece kind to a list of move rules that callers extend with
 * `insert`, and `valid_moves`, which walks the move of every rule of the
 * piece's kind that applies and concatenates what the walks collect.
 */
module DynamicPieceSets {
  import opened Wrappers
  import opened Pieces
  import opened PieceIds
  import opened LegacyBoard
  import opened LegacyMovement
  import History

  /** The move history: each piece's trail of destinations, by (code, version). */
  type Trails = map<(int, nat), seq<nat>>

  /**
   * `CanMove`: a move with its capture rule, or a closure of the mover, the
   * board and the history that yields one or declines.
   */
  datatype CanMove =
    | Free(m: Move, c: CanCapture)
    | Conditional(offer: (PieceId, Snapshot, Trails) -> Option<(Move, CanCapture)>)

  /** The move and capture rule an entry offers in this position, if any. */
  function Resolve(cm: CanMove, id: PieceId, b: Snapshot, past: Trails): Option<(Move, CanCapture)> {
    match cm
    case Free(m, c) => Some((m, c))
    case Conditional(offer) => offer(id, b, past)
  }

  /** What one entry contributes: its move's walk, or nothing when its closure declines. */
  function RuleMoves(cm: CanMove, id: PieceId, pos: nat, b: Snapshot, past: Trails): seq<nat>
    requires b.Decodable() && b.rowSize > 0
  {
    match Resolve(cm, id, b, past)
    case None => []
    case Some((m, c)) => WalkFrom(m, id, pos, c, b)
  }

  /** The squares the first n entries contribute, in list order. */
  function Gathered(rules: seq<CanMove>, n: nat, id: PieceId, pos: nat, b: Snapshot, past: Trails): seq<nat>
    requires n <= |rules| && b.Decodable() && b.rowSize > 0
  {
    if n == 0 then [] else Gathered(rules, n - 1, id, pos, b, past) + RuleMoves(rules[n - 1], id, pos, b, past)
  }

  /**
   * What `valid_moves` computes: none when `get_pos` finds no square for the
   * piece or its kind has no list, else every entry's squares in list order.
   */
  function MovesOf(sets: map<StandardPiece, seq<CanMove>>, id: PieceId, b: Snapshot, past: Trails): (r: Option<seq<nat>>)
    requires b.Decodable() && b.rowSize > 0
    ensures r.None? <==> b.PosOf(id).None? || id.piece !in sets
  {
    match b.PosOf(id)
    case None => None
    case Some(pos) =>
      if id.piece in sets then Some(Gathered(sets[id.piece], |sets[id.piece]|, id, pos, b, past)) else None
  }

  /** The lists after `insert(piece, r)`: r appended to the kind's list, or the list [r] for a new kind. */
  function Inserted(sets: map<StandardPiece, seq<CanMove>>, piece: StandardPiece, r: CanMove)
    : (s: map<StandardPiece, seq<CanMove>>)
    ensures s.Keys == sets.Keys + {piece}
    ensures piece in sets ==> s[piece] == sets[piece] + [r]
    ensures piece !in sets ==> s[piece] == [r]
    ensures forall k | k in sets && k != piece :: s[k] == sets[k]
  {
    if piece in sets then sets[piece := sets[piece] + [r]] else sets[piece := [r]]
  }

  /** `DynamicPieceSet`: the rule lists by kind. */
  class DynamicPieceSet {
    var sets: map<StandardPiece, seq<CanMove>>

    /** The tuple constructor: the given lists. */
    constructor (initial: map<StandardPiece, seq<CanMove>>)
      ensures sets == initial
    {
      sets := initial;
    }

    /** `insert`: append the rule to the kind's list, creating the list if needed. */
    method Insert(piece: StandardPiece, r: CanMove)
      modifies this
      ensures sets == Inserted(old(sets), piece, r)
    {
      if piece in sets {
        var moveset := sets[piece];
        moveset := moveset + [r];
        sets := sets[piece := moveset];
      } else {
        sets := sets[piece := [r]];
      }
    }

    /** `moveset`: the kind's list, none for a kind never inserted. */
    function Moveset(piece: StandardPiece): (r: Option<seq<CanMove>>)
      reads this
      ensures r.Some? <==> piece in sets
      ensures r.Some? ==> r.value == sets[piece]
    {
      if piece in sets then Some(sets[piece]) else None
    }

    /** `valid_moves`: place the piece, then walk every entry of its kind's list that applies. */
    method ValidMoves(id: PieceId, board: LegacyBoard.StandardBoard, history: History.BoardHistory)
      returns (valid: Option<seq<nat>>)
      requires board.Value().Decodable() && board.rowSize > 0
      ensures valid == MovesOf(sets, id, board.Value(), history.past)
    {
      var pos := board.GetPos(id);
      if pos.None? {
        return None;
      }
      var moveset := Moveset(id.piece);
      if moveset.None? {
        return None;
      }
      var b := board.Value();
      var rules := moveset.value;
      var squares: seq<nat> := [];
      for k := 0 to |rules|
        invariant squares == Gathered(rules, k, id, pos.value, b, history.past)
      {
        var found: seq<nat> := [];
        // a free entry offers its move; a conditional one calls its closure
        var offered := Resolve(rules[k], id, b, history.past);
        if offered.Some? {
          found := offered.value.0.Calculate(id, pos.value, offered.value.1, b);
        }
        squares := squares + found;
      }
      return Some(squares);
    }

    /** `valid_slice`: the valid squares as a fresh slice, empty when there are none. */
    method ValidSlice(id: PieceId, board: LegacyBoard.StandardBoard, history: History.BoardHistory)
      returns (slice: History.BoardSlice)
      requires board.Value().Decodable() && board.rowSize > 0
      ensures fresh(slice)
      ensures var r := MovesOf(sets, id, board.Value(), history.past);
              slice.items == (if r.Some? then r.value else [])
    {
      var valid := ValidMoves(id, board, history);
      slice := new History.BoardSlice(valid);
    }
  }

  /** Entries appended after the first n do not change what the first n gather. */
  lemma {:induction false} GatheredPrefixStable(rules: seq<CanMove>, extra: seq<CanMove>, n: nat,
                                               id: PieceId, pos: nat, b: Snapshot, past: Trails)
    requires n <= |rules| && b.Decodable() && b.rowSize > 0
    ensures Gathered(rules + extra, n, id, pos, b, past) == Gathered(rules, n, id, pos, b, past)
  {
    if n > 0 {
      GatheredPrefixStable(rules, extra, n - 1, id, pos, b, past);
      assert (rules + extra)[n - 1] == rules[n - 1];
    }
  }

  /**
   * After `insert(k, r)`, the valid moves of a placed piece of kind k are
   * the ones before (none if k had no list) followed by what r contributes,
   * and pieces of other kinds keep theirs.
   */
  lemma InsertAppendsRule(sets: map<StandardPiece, seq<CanMove>>, k: StandardPiece, r: CanMove,
                          id: PieceId, b: Snapshot, past: Trails)
    requires b.Decodable() && b.rowSize > 0
    ensures id.piece != k ==> MovesOf(Inserted(sets, k, r), id, b, past) == MovesOf(sets, id, b, past)
    ensures id.piece == k && b.PosOf(id).Some? ==>
              MovesOf(Inserted(sets, k, r), id, b, past) ==
                Some((if k in sets then MovesOf(sets, id, b, past).value else []) +
                     RuleMoves(r, id, b.PosOf(id).value, b, past))
  {
    if id.piece == k && b.PosOf(id).Some? {
      var pos := b.PosOf(id).value;
      var before := if k in sets then sets[k] else [];
      var after := Inserted(sets, k, r)[k];
      assert after == before + [r];
      GatheredPrefixStable(before, [r], |before|, id, pos, b, past);
      assert Gathered(after, |after|, id, pos, b, past) ==
             Gathered(before, |before|, id, pos, b, past) + RuleMoves(r, id, pos, b, past);
      if k !in sets {
        assert Gathered(before, |before|, id, pos, b, past) == [];
      }
    }
  }

  /** A closure that declines everywhere adds nothing to any piece's valid moves. */
  lemma DecliningRuleAddsNothing(sets: map<StandardPiece, seq<CanMove>>, k: StandardPiece,
                                 offer: (PieceId, Snapshot, Trails) -> Option<(Move, CanCapture)>,
                                 id: PieceId, b: Snapshot, past: Trails)
    requires b.Decodable() && b.rowSize > 0 && k in sets
    requires forall i, s, p :: offer(i, s, p).None?
    ensures MovesOf(Inserted(sets, k, Conditional(offer)), id, b, past) == MovesOf(sets, id, b, past)
  {
    InsertAppendsRule(sets, k, Conditional(offer), id, b, past);
    if id.piece == k && b.PosOf(id).Some? {
      assert RuleMoves(Conditional(offer), id, b.PosOf(id).value, b, past) == [];
      assert MovesOf(sets, id, b, past).value + [] == MovesOf(sets, id, b, past).value;
    }
  }

  /** The valid moves of a placed piece are never more than the summed step limits of its kind's free entries and offered moves. */
  lemma {:induction false} GatheredWithinSteps(rules: seq<CanMove>, n: nat, id: PieceId, pos: nat, b: Snapshot, past: Trails)
    requires n <= |rules| && b.Decodable() && b.rowSize > 0
    ensures |Gathered(rules, n, id, pos, b, past)| <= Offered(rules, n, id, b, past)
  {
    if n > 0 {
      GatheredWithinSteps(rules, n - 1, id, pos, b, past);
      match Resolve(rules[n - 1], id, b, past)
      case None =>
      case Some((m, c)) =>
        var (px, py) := Positions.ToXY(pos, b.rowSize);
        WalkIsRayPrefix(m, id, c, b.View(), px + m.x, py + m.y, 0, 0);
    }
  }

  /** The summed step limits of the moves the first n entries offer in this position. */
  function Offered(rules: seq<CanMove>, n: nat, id: PieceId, b: Snapshot, past: Trails): nat
    requires n <= |rules|
  {
    if n == 0 then 0
    else Offered(rules, n - 1, id, b, past) +
         match Resolve(rules[n - 1], id, b, past)
         case None => 0
         case Some((m, _)) => m.maxSteps
  }
}
