/**
 * The standard piece set of the newer tree (src/chess/standard/piece.rs):
 * every kind's table of move rules, the conditional rules (the pawn's
 * double step, diagonal capture and en passant, the rook's and the king's
 * castling), and `valid_moves`, which walks the move of every rule the
 * position allows and concatenates what the walks collect.
 */
module StandardPieceSet {
  import opened Wrappers
  import opened Signs
  import opened Pieces
  import opened PieceIds
  import opened Positions
  import opened ChessBoard
  import opened ChessMovement
  import opened BoardViews
  import History

  /** The move history: each piece's trail of destinations, by (code, version). */
  type Trails = map<(int, nat), seq<nat>>

  /** The side a rule looks to from the mover, and the sign of its step along the row. */
  datatype Flank = LeftFlank | RightFlank {
    function Step(): (d: int)
      ensures d == -1 || d == 1
    {
      if LeftFlank? then -1 else 1
    }
  }

  /** The closures of the standard tables, by what they test. */
  datatype Rule =
    | DoubleStep                // pawn: two rows forward while it has no trail
    | DiagonalCapture(f: Flank) // pawn: one row forward and one column over, onto an opponent
    | EnPassant(f: Flank)       // pawn: past an opposing pawn standing beside it
    | CastleWithKing(f: Flank)  // rook: towards a king of its side, neither having moved
    | CastleWithRook(f: Flank)  // king: towards a rook of its side, neither having moved

  /** `CanMove`: a move with its capture rule, or a rule that yields one depending on the position. */
  datatype CanMove = Free(m: Move, c: CanCapture) | Conditional(rule: Rule)

  /** A slider: the step repeated up to `usize::MAX` times, taking one opponent. */
  function Slide(x: int, y: int): CanMove {
    CanMove.Free(Move(x, y, USIZE_MAX), Opposing(1))
  }

  /** A single step that may take one opponent. */
  function Hop(x: int, y: int): CanMove {
    CanMove.Free(Move(x, y, 1), Opposing(1))
  }

  const PawnMoveset: seq<CanMove> := [
    CanMove.Free(Move(0, 1, 1), NoCapture),
    Conditional(DoubleStep),
    Conditional(DiagonalCapture(LeftFlank)),
    Conditional(DiagonalCapture(RightFlank)),
    Conditional(EnPassant(LeftFlank)),
    Conditional(EnPassant(RightFlank))
  ]

  const KnightMoveset: seq<CanMove> := [
    Hop(1, 2), Hop(-1, 2), Hop(1, -2), Hop(-1, -2),
    Hop(2, 1), Hop(-2, 1), Hop(2, -1), Hop(-2, -1)
  ]

  const BishopMoveset: seq<CanMove> := [
    Slide(1, 1), Slide(-1, 1), Slide(1, -1), Slide(-1, -1)
  ]

  const RookMoveset: seq<CanMove> := [
    Slide(1, 0), Slide(-1, 0), Slide(0, 1), Slide(0, -1),
    Conditional(CastleWithKing(LeftFlank)),
    Conditional(CastleWithKing(RightFlank))
  ]

  const QueenMoveset: seq<CanMove> := [
    Slide(1, 0), Slide(-1, 0), Slide(0, 1), Slide(0, -1),
    Slide(1, 1), Slide(-1, 1), Slide(1, -1), Slide(-1, -1)
  ]

  const KingMoveset: seq<CanMove> := [
    Hop(1, 0), Hop(-1, 0), Hop(0, 1), Hop(0, -1),
    Hop(1, 1), Hop(-1, 1), Hop(1, -1), Hop(-1, -1),
    Conditional(CastleWithRook(LeftFlank)),
    Conditional(CastleWithRook(RightFlank))
  ]

  /** `moveset`: the kind's table; the empty kind has none. Never absent. */
  function Moveset(piece: StandardPiece): (r: Option<seq<CanMove>>)
    ensures r.Some?
    ensures piece == NoPiece <==> r.value == []
  {
    Some(match piece
      case NoPiece => []
      case Pawn => PawnMoveset
      case Knight => KnightMoveset
      case Bishop => BishopMoveset
      case Rook => RookMoveset
      case Queen => QueenMoveset
      case King => KingMoveset)
  }

  /** `history.get_slice(id).is_none()`: the piece has no trail, so it has never been moved. */
  predicate Unmoved(past: Trails, id: PieceId) {
    History.Trail(past, id).None?
  }

  /** `left(sign)` or `right(sign)` of a square, by flank. */
  function Beside(f: Flank, u: nat, s: Sign): nat {
    if f == LeftFlank then Left(u, s) else Right(u, s)
  }

  /** The square k steps to the flank, one `left`/`right` at a time. */
  function Ahead(f: Flank, u: nat, s: Sign, k: nat): nat {
    if k == 0 then u else Beside(f, Ahead(f, u, s, k - 1), s)
  }

  /** The square (x, y) a move's walk examines first: the step scaled by the mover's side. */
  function FirstSquare(m: Move, id: PieceId, pos: nat, rowSize: nat): (int, int)
    requires rowSize > 0
  {
    var (px, py) := ToXY(pos, rowSize);
    (px + IntMul(m.x, id.sign), py + IntMul(m.y, id.sign))
  }

  /** The pawn's double step: offered exactly while the pawn has no trail. */
  function DoubleStepRule(id: PieceId, past: Trails): (r: Option<(Move, CanCapture)>)
    ensures r.Some? <==> History.Key(id) !in past
    ensures r.Some? ==> r.value == (Move(0, 1, 2), NoCapture)
  {
    if Unmoved(past, id) then Some((Move(0, 1, 2), NoCapture)) else None
  }

  /**
   * The diagonal capture as written: the square tested is `topleft` or
   * `topright` of the pawn, a row forward for its side and one index lower
   * or higher whatever its side.
   */
  function DiagonalAsWritten(f: Flank, id: PieceId, b: BoardState): (r: Option<(Move, CanCapture)>)
    requires b.Valid() && b.Locatable(id)
    ensures r.Some? ==> r.value == (Move(f.Step(), 1, 1), Opposing(1)) && !id.IsNone()
  {
    match b.GetPos(id)
    case None => None
    case Some(op) =>
      var idx := if f == LeftFlank then TopLeft(op, id.sign, b.rowSize) else TopRight(op, id.sign, b.rowSize);
      match b.GetId(idx)
      case None => None
      case Some(other) => if other.Opposes(id) then Some((Move(f.Step(), 1, 1), Opposing(1))) else None
  }

  /**
   * The diagonal capture as intended: the square tested is the one the
   * offered move's walk examines, a row forward and a column to the flank
   * for the pawn's side.
   */
  function DiagonalRule(f: Flank, id: PieceId, b: BoardState): (r: Option<(Move, CanCapture)>)
    requires b.Valid() && b.Locatable(id) && b.rowSize > 0
    ensures r.Some? ==> r.value == (Move(f.Step(), 1, 1), Opposing(1)) && !id.IsNone()
  {
    match b.GetPos(id)
    case None => None
    case Some(op) =>
      var t := FirstSquare(Move(f.Step(), 1, 1), id, op, b.rowSize);
      if IsInbounds(t.0, t.1, b.rowSize, b.colSize) then
        match b.GetId(FromXY(t.0, t.1, b.rowSize))
        case None => None
        case Some(other) => if other.Opposes(id) then Some((Move(f.Step(), 1, 1), Opposing(1))) else None
      else None
  }

  /**
   * En passant: an opposing pawn stands beside the mover and the last
   * square of its trail is two of its own rows behind that square.
   */
  function EnPassantRule(f: Flank, id: PieceId, b: BoardState, past: Trails): (r: Option<(Move, CanCapture)>)
    requires b.Valid() && b.Locatable(id)
    ensures r.Some? ==> r.value == (Move(f.Step(), 1, 1), NoCapture) && b.GetPos(id).Some?
  {
    match b.GetPos(id)
    case None => None
    case Some(op) =>
      var beside := Beside(f, op, id.sign);
      match b.GetId(beside)
      case None => None
      case Some(other) =>
        if other.Opposes(id) && other.piece == Pawn then
          match History.Trail(past, other)
          case None => None
          case Some(prev) =>
            if |prev| > 0 && prev[|prev| - 1] == Bottom(Bottom(beside, other.sign, b.rowSize), other.sign, b.rowSize)
            then Some((Move(f.Step(), 1, 1), NoCapture))
            else None
        else None
  }

  /**
   * En passant as intended over a history of destinations: an opposing pawn
   * stands beside the mover and its trail is that one square, so it has
   * moved once and just arrived there.
   */
  function EnPassantIntended(f: Flank, id: PieceId, b: BoardState, past: Trails): (r: Option<(Move, CanCapture)>)
    requires b.Valid() && b.Locatable(id)
    ensures r.Some? ==> r.value == (Move(f.Step(), 1, 1), NoCapture) && b.GetPos(id).Some?
  {
    match b.GetPos(id)
    case None => None
    case Some(op) =>
      var beside := Beside(f, op, id.sign);
      match b.GetId(beside)
      case None => None
      case Some(other) =>
        if other.Opposes(id) && other.piece == Pawn && History.Trail(past, other) == Some([beside])
        then Some((Move(f.Step(), 1, 1), NoCapture))
        else None
  }

  /** `other_match`: a piece of the mover's side and the partner kind, neither of the two having moved. */
  predicate PartnerAt(b: BoardState, u: nat, kind: StandardPiece, id: PieceId, past: Trails)
    requires b.Valid()
  {
    b.GetIdNotNone(u).Some? && b.GetIdNotNone(u).value.Matches(id) && b.GetIdNotNone(u).value.piece == kind &&
    Unmoved(past, id) && Unmoved(past, b.GetIdNotNone(u).value)
  }

  /**
   * Castling, for the rook (partner: the king, distance 2 or 3) and the
   * king (partner: a rook, distance 2 either way): the first two squares
   * to the flank hold no piece and the third, failing that the fourth,
   * holds an unmoved partner while the mover is unmoved too.
   */
  function CastleRule(f: Flank, kind: StandardPiece, near: int, far: int, id: PieceId, b: BoardState, past: Trails)
    : (r: Option<(Move, CanCapture)>)
    requires b.Valid() && b.Locatable(id)
    ensures r.Some? ==> r.value.1 == NoCapture && r.value.0.y == 0 && r.value.0.maxSteps == 1
    ensures r.Some? ==>
              !id.IsNone() && History.Key(id) !in past &&
              var op := b.GetPos(id).value;
              b.GetIdNotNone(Ahead(f, op, id.sign, 1)).None? && b.GetIdNotNone(Ahead(f, op, id.sign, 2)).None? &&
              ((r.value.0.x == near && PartnerAt(b, Ahead(f, op, id.sign, 3), kind, id, past)) ||
               (r.value.0.x == far && PartnerAt(b, Ahead(f, op, id.sign, 4), kind, id, past)))
  {
    match b.GetPos(id)
    case None => None
    case Some(op) =>
      var idx1 := Beside(f, op, id.sign);
      var idx2 := Beside(f, idx1, id.sign);
      var idx3 := Beside(f, idx2, id.sign);
      var idx4 := Beside(f, idx3, id.sign);
      if b.GetIdNotNone(idx1).None? && b.GetIdNotNone(idx2).None? then
        if PartnerAt(b, idx3, kind, id, past) then Some((Move(near, 0, 1), NoCapture))
        else if PartnerAt(b, idx4, kind, id, past) then Some((Move(far, 0, 1), NoCapture))
        else None
      else None
  }

  /**
   * With the first two squares to the flank empty, castling is offered at
   * the near distance when the third square holds an unmoved partner (and
   * the mover is unmoved), failing that at the far distance when the fourth
   * does, and not at all otherwise.
   */
  lemma CastleOffered(f: Flank, kind: StandardPiece, near: int, far: int, id: PieceId, b: BoardState, past: Trails)
    requires b.Valid() && b.Locatable(id) && b.GetPos(id).Some?
    requires var op := b.GetPos(id).value;
             b.GetIdNotNone(Ahead(f, op, id.sign, 1)).None? && b.GetIdNotNone(Ahead(f, op, id.sign, 2)).None?
    ensures var op := b.GetPos(id).value;
            var third := PartnerAt(b, Ahead(f, op, id.sign, 3), kind, id, past);
            var fourth := PartnerAt(b, Ahead(f, op, id.sign, 4), kind, id, past);
            CastleRule(f, kind, near, far, id, b, past) ==
              if third then Some((Move(near, 0, 1), NoCapture))
              else if fourth then Some((Move(far, 0, 1), NoCapture))
              else None
  {
    var op := b.GetPos(id).value;
    var idx2 := Beside(f, Beside(f, op, id.sign), id.sign);
    assert Ahead(f, op, id.sign, 2) == idx2;
    assert Ahead(f, op, id.sign, 3) == Beside(f, idx2, id.sign);
    assert Ahead(f, op, id.sign, 4) == Beside(f, Beside(f, idx2, id.sign), id.sign);
  }

  /** Calling a conditional rule's closure. */
  function ResolveRule(rule: Rule, id: PieceId, b: BoardState, past: Trails): Option<(Move, CanCapture)>
    requires b.Valid() && b.Locatable(id) && b.rowSize > 0
  {
    match rule
    case DoubleStep => DoubleStepRule(id, past)
    case DiagonalCapture(f) => DiagonalRule(f, id, b)
    case EnPassant(f) => EnPassantIntended(f, id, b, past)
    case CastleWithKing(f) => CastleRule(f, King, 2 * f.Step(), 3 * f.Step(), id, b, past)
    case CastleWithRook(f) => CastleRule(f, Rook, 2 * f.Step(), 2 * f.Step(), id, b, past)
  }

  /** The move and capture rule a table entry offers in this position, if any. */
  function Resolve(cm: CanMove, id: PieceId, b: BoardState, past: Trails): Option<(Move, CanCapture)>
    requires b.Valid() && b.Locatable(id) && b.rowSize > 0
  {
    match cm
    case Free(m, c) => Some((m, c))
    case Conditional(rule) => ResolveRule(rule, id, b, past)
  }

  /** What one table entry contributes: its move's walk, or nothing when its rule declines. */
  function RuleMoves(cm: CanMove, it: Interpreter, id: PieceId, pos: nat, b: BoardState, past: Trails)
    : (seq<nat>, Interpreter)
    requires b.Valid() && b.Locatable(id) && b.rowSize > 0
  {
    match Resolve(cm, id, b, past)
    case None => ([], it)
    case Some((m, c)) => WalkSigned(m, it, id, pos, c, b)
  }

  /** The squares the first n entries contribute, in table order, and the interpreter after them. */
  function Gathered(rules: seq<CanMove>, n: nat, it: Interpreter, id: PieceId, pos: nat, b: BoardState, past: Trails)
    : (seq<nat>, Interpreter)
    requires n <= |rules| && b.Valid() && b.Locatable(id) && b.rowSize > 0
  {
    if n == 0 then ([], it)
    else
      var before := Gathered(rules, n - 1, it, id, pos, b, past);
      var step := RuleMoves(rules[n - 1], before.1, id, pos, b, past);
      (before.0 + step.0, step.1)
  }

  /** What `valid_moves` computes: none for a piece `get_pos` cannot place, else every entry's squares. */
  function MovesOf(it: Interpreter, id: PieceId, b: BoardState, past: Trails): (r: (Option<seq<nat>>, Interpreter))
    requires b.Valid() && b.Locatable(id) && b.rowSize > 0
    ensures r.0.None? <==> id.IsNone()
  {
    match b.GetPos(id)
    case None => (None, it)
    case Some(pos) =>
      var rules := Moveset(id.piece).value;
      var g := Gathered(rules, |rules|, it, id, pos, b, past);
      (Some(g.0), g.1)
  }

  /**
   * `valid_moves`: place the piece, then walk every entry of its table that
   * applies, appending the squares. The source's call passes no capture
   * interpreter; here the caller's interpreter is threaded through every walk.
   */
  method ValidMoves(it: Interpreter, id: PieceId, board: StandardBoard, history: History.BoardHistory)
    returns (valid: Option<seq<nat>>, it': Interpreter)
    requires board.Value().Valid() && board.Value().Locatable(id) && board.rowSize > 0
    ensures (valid, it') == MovesOf(it, id, board.Value(), history.past)
  {
    var pos := board.GetPos(id);
    if pos.None? {
      return None, it;
    }
    var b := board.Value();
    var rules := Moveset(id.piece).value;
    var squares: seq<nat> := [];
    var interpreter := it;
    for k := 0 to |rules|
      invariant (squares, interpreter) == Gathered(rules, k, it, id, pos.value, b, history.past)
    {
      ghost var before := interpreter;
      var found: seq<nat> := [];
      // a free entry offers its move; a conditional one calls its closure
      var offered := Resolve(rules[k], id, b, history.past);
      if offered.Some? {
        found, interpreter := offered.value.0.Calculate(interpreter, id, pos.value, offered.value.1, b);
      }
      assert (found, interpreter) == RuleMoves(rules[k], before, id, pos.value, b, history.past);
      squares := squares + found;
    }
    return Some(squares), interpreter;
  }

  /** `valid_slice`: the valid squares as a fresh slice, empty when there are none. */
  method ValidSlice(it: Interpreter, id: PieceId, board: StandardBoard, history: History.BoardHistory)
    returns (slice: History.BoardSlice, it': Interpreter)
    requires board.Value().Valid() && board.Value().Locatable(id) && board.rowSize > 0
    ensures fresh(slice)
    ensures var r := MovesOf(it, id, board.Value(), history.past);
            it' == r.1 && slice.items == (if r.0.Some? then r.0.value else [])
  {
    var valid;
    valid, it' := ValidMoves(it, id, board, history);
    slice := new History.BoardSlice(valid);
  }

  /** Once a piece has a trail, its double step and its castling are never offered again. */
  lemma MovedPieceLosesFirstMoveRules(rule: Rule, id: PieceId, b: BoardState, past: Trails, u: nat)
    requires b.Valid() && b.Locatable(id) && b.rowSize > 0
    requires rule.DoubleStep? || rule.CastleWithKing? || rule.CastleWithRook?
    ensures ResolveRule(rule, id, b, History.Pushed(past, History.Key(id), u)).None?
  {
  }

  /** A single-step move under the mobility interpreter collects its one square unless the capture rule blocks. */
  lemma OneStepWalk(m: Move, id: PieceId, cc: CanCapture, v: BoardView, x: int, y: int)
    requires m.maxSteps == 1 && IsInbounds(x, y, v.rowSize, v.colSize) && FromXY(x, y, v.rowSize) < |v.occupants|
    ensures var u := FromXY(x, y, v.rowSize);
            Walk(m, Mobility, id, cc, v, x, y, IntMul(m.x, id.sign), IntMul(m.y, id.sign), 0, 0).0 ==
              (if cc.Calculate(id, v.occupants[u], 0).0.Blocked? then [] else [u])
  {
    assert Walk(m, Mobility, id, cc, v, x, y, IntMul(m.x, id.sign), IntMul(m.y, id.sign), 0, 0) == Visit(m, Mobility, id, cc, v, x, y, IntMul(m.x, id.sign), IntMul(m.y, id.sign), 0, 0);
  }

  /**
   * The intended diagonal capture is offered exactly when an opponent stands
   * on the square its move examines first, and the move then collects that
   * square and nothing else under the mobility interpreter.
   */
  lemma DiagonalRuleTakesTarget(f: Flank, id: PieceId, b: BoardState)
    requires b.Valid() && b.Locatable(id) && b.rowSize > 0 && !id.IsNone()
    ensures var pos := b.GetPos(id).value;
            var t := FirstSquare(Move(f.Step(), 1, 1), id, pos, b.rowSize);
            var opponentThere := IsInbounds(t.0, t.1, b.rowSize, b.colSize) &&
                                 b.GetId(FromXY(t.0, t.1, b.rowSize)).Some? &&
                                 b.GetId(FromXY(t.0, t.1, b.rowSize)).value.Opposes(id);
            (DiagonalRule(f, id, b).Some? <==> opponentThere) &&
            (opponentThere ==>
               WalkSigned(Move(f.Step(), 1, 1), Mobility, id, pos, Opposing(1), b).0 == [FromXY(t.0, t.1, b.rowSize)])
  {
    var pos := b.GetPos(id).value;
    var m := Move(f.Step(), 1, 1);
    var t := FirstSquare(m, id, pos, b.rowSize);
    if IsInbounds(t.0, t.1, b.rowSize, b.colSize) && FromXY(t.0, t.1, b.rowSize) < |b.ids| {
      b.ViewAt(FromXY(t.0, t.1, b.rowSize));
      OneStepWalk(m, id, Opposing(1), b.View(), t.0, t.1);
    }
  }

  /**
   * As written, a pawn of the negative side at (px, py), away from the edge
   * columns and off row 0, is offered the left diagonal capture when an
   * opponent stands at (px - 1, py - 1), but the move offered walks to
   * (px + 1, py - 1): with that square empty the pawn is offered a diagonal
   * move onto an empty square, which the intended rule does not offer.
   */
  lemma AsWrittenDiagonalMirrored(id: PieceId, b: BoardState)
    requires b.Valid() && b.Locatable(id) && b.rowSize > 0
    requires id.sign == Negative && !id.IsNone()
    requires var (px, py) := ToXY(b.GetPos(id).value, b.rowSize);
             b.GetPos(id).value < USIZE_MODULUS && 1 <= px && px + 1 < b.rowSize && 1 <= py <= b.colSize &&
             b.GetId(FromXY(px - 1, py - 1, b.rowSize)).Some? &&
             b.GetId(FromXY(px - 1, py - 1, b.rowSize)).value.Opposes(id) &&
             b.GetId(FromXY(px + 1, py - 1, b.rowSize)).Some? &&
             b.GetId(FromXY(px + 1, py - 1, b.rowSize)).value.IsNone()
    ensures var (px, py) := ToXY(b.GetPos(id).value, b.rowSize);
            DiagonalAsWritten(LeftFlank, id, b) == Some((Move(-1, 1, 1), Opposing(1))) &&
            WalkSigned(Move(-1, 1, 1), Mobility, id, b.GetPos(id).value, Opposing(1), b).0 == [FromXY(px + 1, py - 1, b.rowSize)] &&
            DiagonalRule(LeftFlank, id, b).None?
  {
    var pos := b.GetPos(id).value;
    var R := b.rowSize;
    var (px, py) := ToXY(pos, R);
    SquareRoundTrip(pos, R);
    ScalingIsProduct(Negative, R);
    assert (py - 1) * R == py * R - R;
    assert TopLeft(pos, Negative, R) == FromXY(px - 1, py - 1, R);
    var u := FromXY(px + 1, py - 1, R);
    b.ViewAt(u);
    OneStepWalk(Move(-1, 1, 1), id, Opposing(1), b.View(), px + 1, py - 1);
  }

  /**
   * For the positive side, away from the edge columns and the last row, the
   * square tested as written is the square the offered move walks to, so
   * the two diagonal rules agree.
   */
  lemma DiagonalsAgreeForPositiveSide(f: Flank, id: PieceId, b: BoardState)
    requires b.Valid() && b.Locatable(id) && b.rowSize > 0 && id.sign == Positive
    requires b.GetPos(id).Some? ==>
               var (px, py) := ToXY(b.GetPos(id).value, b.rowSize);
               b.GetPos(id).value + b.rowSize + 1 < USIZE_MODULUS && 1 <= px && px + 1 < b.rowSize && py + 1 < b.colSize
    ensures DiagonalAsWritten(f, id, b) == DiagonalRule(f, id, b)
  {
    if b.GetPos(id).Some? {
      var pos := b.GetPos(id).value;
      var R := b.rowSize;
      var (px, py) := ToXY(pos, R);
      SquareRoundTrip(pos, R);
      ScalingIsProduct(Positive, R);
      ScalingIsProduct(Positive, f.Step());
      ScalingIsProduct(Positive, 1);
      assert (py + 1) * R == py * R + R;
      if f == LeftFlank {
        assert TopLeft(pos, Positive, R) == FromXY(px - 1, py + 1, R);
      } else {
        assert TopRight(pos, Positive, R) == FromXY(px + 1, py + 1, R);
      }
    }
  }

  /** Subtracting twice a non-zero amount below half the usize range never wraps back to the start. */
  lemma NoWholeTurn(x: int, k: int)
    requires 0 <= x < USIZE_MODULUS && k != 0 && -USIZE_MODULUS < 2 * k < USIZE_MODULUS
    ensures AsUsize(x - 2 * k) != x
  {
    var q := (x - 2 * k) / USIZE_MODULUS;
    assert x - 2 * k == q * USIZE_MODULUS + AsUsize(x - 2 * k);
    if q >= 1 {
      assert q * USIZE_MODULUS >= USIZE_MODULUS;
    } else if q <= -1 {
      assert q * USIZE_MODULUS <= -USIZE_MODULUS;
    }
  }

  /**
   * En passant is offered only against an opposing pawn whose trail ends
   * two of its own rows behind the square it stands on, so never while its
   * trail ends where it stands.
   */
  lemma EnPassantNeedsStaleTrail(f: Flank, id: PieceId, b: BoardState, past: Trails)
    requires b.Valid() && b.Locatable(id) && 0 < b.rowSize && 2 * b.rowSize < USIZE_MODULUS
    requires EnPassantRule(f, id, b, past).Some?
    ensures var beside := Beside(f, b.GetPos(id).value, id.sign);
            b.GetId(beside).Some? && b.GetId(beside).value.piece == Pawn && b.GetId(beside).value.Opposes(id) &&
            History.Key(b.GetId(beside).value) in past &&
            var trail := past[History.Key(b.GetId(beside).value)];
            var s := b.GetId(beside).value.sign;
            |trail| > 0 && trail[|trail| - 1] != beside &&
            Top(Top(trail[|trail| - 1], s, b.rowSize), s, b.rowSize) == beside
  {
    var R := b.rowSize;
    var beside := Beside(f, b.GetPos(id).value, id.sign);
    var other := b.GetId(beside).value;
    var s := other.sign;
    var trail := past[History.Key(other)];
    var once := Bottom(beside, s, R);
    assert trail[|trail| - 1] == Bottom(once, s, R);
    TopBottomInverse(once, s, R);
    TopBottomInverse(beside, s, R);
    WrapAdd(beside - MulInt(s, R), -MulInt(s, R));
    ScalingIsProduct(s, R);
    NoWholeTurn(beside, MulInt(s, R));
  }

  /**
   * Conversely, an opposing pawn beside the mover whose trail ends on a
   * square two of its own rows behind is always open to en passant.
   */
  lemma EnPassantOffered(f: Flank, id: PieceId, b: BoardState, past: Trails)
    requires b.Valid() && b.Locatable(id) && b.rowSize > 0 && b.GetPos(id).Some?
    requires var beside := Beside(f, b.GetPos(id).value, id.sign);
             b.GetId(beside).Some? && b.GetId(beside).value.piece == Pawn && b.GetId(beside).value.Opposes(id) &&
             History.Key(b.GetId(beside).value) in past &&
             var trail := past[History.Key(b.GetId(beside).value)];
             var s := b.GetId(beside).value.sign;
             |trail| > 0 && trail[|trail| - 1] < USIZE_MODULUS &&
             Top(Top(trail[|trail| - 1], s, b.rowSize), s, b.rowSize) == beside
    ensures EnPassantRule(f, id, b, past) == Some((Move(f.Step(), 1, 1), NoCapture))
  {
    var beside := Beside(f, b.GetPos(id).value, id.sign);
    var other := b.GetId(beside).value;
    var trail := past[History.Key(other)];
    var t := trail[|trail| - 1];
    TopBottomInverse(t, other.sign, b.rowSize);
    TopBottomInverse(Top(t, other.sign, b.rowSize), other.sign, b.rowSize);
  }

  /**
   * The intended en passant is offered exactly when an opposing pawn stands
   * beside the mover with the one-square trail of that square; a pawn that
   * has moved twice, or never, is out of reach.
   */
  lemma EnPassantIntendedExactly(f: Flank, id: PieceId, b: BoardState, past: Trails)
    requires b.Valid() && b.Locatable(id)
    ensures EnPassantIntended(f, id, b, past).Some? <==>
              b.GetPos(id).Some? &&
              var beside := Beside(f, b.GetPos(id).value, id.sign);
              b.GetId(beside).Some? && b.GetId(beside).value.piece == Pawn && b.GetId(beside).value.Opposes(id) &&
              History.Key(b.GetId(beside).value) in past && past[History.Key(b.GetId(beside).value)] == [beside]
  {
  }

  /** Every entry of every table, wherever the piece stands, offers no capture or the capture of one opponent. */
  lemma StandardCapturesOnly(piece: StandardPiece, id: PieceId, b: BoardState, past: Trails)
    requires b.Valid() && b.Locatable(id) && b.rowSize > 0
    ensures forall k | 0 <= k < |Moveset(piece).value| ::
              var r := Resolve(Moveset(piece).value[k], id, b, past);
              r.Some? ==> r.value.1 == NoCapture || r.value.1 == Opposing(1)
  {
  }

  /** Every square is on the board and empty or held by a piece opposing the mover. */
  predicate Lawful(v: BoardView, id: PieceId, squares: seq<nat>) {
    forall j | 0 <= j < |squares| ::
      squares[j] < |v.occupants| && (v.occupants[squares[j]].IsNone() || id.Opposes(v.occupants[squares[j]]))
  }

  /** Under the mobility interpreter a move taking no piece or one opponent collects lawful squares only. */
  lemma WalkLawful(m: Move, id: PieceId, pos: nat, cc: CanCapture, b: BoardState)
    requires b.Valid() && b.rowSize > 0 && (cc == NoCapture || cc == Opposing(1))
    ensures Lawful(b.View(), id, WalkSigned(m, Mobility, id, pos, cc, b).0)
    ensures WalkSigned(m, Mobility, id, pos, cc, b).1 == Mobility
  {
    var v := b.View();
    var (px, py) := ToXY(pos, b.rowSize);
    var mx, my := px + IntMul(m.x, id.sign), py + IntMul(m.y, id.sign);
    WalkIsRayPrefix(m, Mobility, id, cc, v, mx, my, IntMul(m.x, id.sign), IntMul(m.y, id.sign), 0, 0);
    MobilityWalkStaysMobility(m, id, cc, v, mx, my, IntMul(m.x, id.sign), IntMul(m.y, id.sign), 0, 0);
    if cc == NoCapture {
      MobilityNoCaptureOnlyEmpty(m, id, v, mx, my, IntMul(m.x, id.sign), IntMul(m.y, id.sign), 0, 0);
    } else {
      MobilityCapturesWithinBudget(m, id, cc, v, mx, my, IntMul(m.x, id.sign), IntMul(m.y, id.sign), 0, 0);
    }
  }

  /** A table whose entries take no piece or one opponent gathers lawful squares only under the mobility interpreter. */
  lemma {:induction false} GatheredLawful(rules: seq<CanMove>, n: nat, id: PieceId, pos: nat, b: BoardState, past: Trails)
    requires n <= |rules| && b.Valid() && b.Locatable(id) && b.rowSize > 0
    requires forall k | 0 <= k < |rules| ::
               var r := Resolve(rules[k], id, b, past);
               r.Some? ==> r.value.1 == NoCapture || r.value.1 == Opposing(1)
    ensures Gathered(rules, n, Mobility, id, pos, b, past).1 == Mobility
    ensures Lawful(b.View(), id, Gathered(rules, n, Mobility, id, pos, b, past).0)
  {
    if n > 0 {
      GatheredLawful(rules, n - 1, id, pos, b, past);
      var r := Resolve(rules[n - 1], id, b, past);
      if r.Some? {
        WalkLawful(r.value.0, id, pos, r.value.1, b);
      }
      var before := Gathered(rules, n - 1, Mobility, id, pos, b, past).0;
      var step := RuleMoves(rules[n - 1], Mobility, id, pos, b, past).0;
      assert Gathered(rules, n, Mobility, id, pos, b, past).0 == before + step;
    }
  }

  /**
   * Under the mobility interpreter no standard piece is offered a square
   * holding a piece of its own side: every square `valid_moves` returns is
   * on the board and empty or held by an opponent.
   */
  lemma MobilityNeverLandsOnOwnPiece(id: PieceId, b: BoardState, past: Trails)
    requires b.Valid() && b.Locatable(id) && b.rowSize > 0
    ensures var r := MovesOf(Mobility, id, b, past);
            r.1 == Mobility &&
            (r.0.Some? ==> forall u | u in r.0.value ::
               b.GetId(u).Some? && (b.GetId(u).value.IsNone() || id.Opposes(b.GetId(u).value)))
  {
    if !id.IsNone() {
      var pos := b.GetPos(id).value;
      var rules := Moveset(id.piece).value;
      StandardCapturesOnly(id.piece, id, b, past);
      GatheredLawful(rules, |rules|, id, pos, b, past);
      var squares := Gathered(rules, |rules|, Mobility, id, pos, b, past).0;
      forall u | u in squares
        ensures b.GetId(u).Some? && (b.GetId(u).value.IsNone() || id.Opposes(b.GetId(u).value))
      {
        var j :| 0 <= j < |squares| && squares[j] == u;
        b.ViewAt(u);
      }
    }
  }

  /** The most squares a table entry can contribute: its move's step limit. */
  function EntryBudget(cm: CanMove): nat {
    match cm
    case Free(m, _) => m.maxSteps
    case Conditional(rule) => if rule.DoubleStep? then 2 else 1
  }

  /** The summed step limits of the first n entries. */
  function Budget(rules: seq<CanMove>, n: nat): nat
    requires n <= |rules|
  {
    if n == 0 then 0 else Budget(rules, n - 1) + EntryBudget(rules[n - 1])
  }

  /** An entry's offered move never exceeds the entry's step limit. */
  lemma OfferedWithinEntry(cm: CanMove, id: PieceId, b: BoardState, past: Trails)
    requires b.Valid() && b.Locatable(id) && b.rowSize > 0
    ensures Resolve(cm, id, b, past).Some? ==> Resolve(cm, id, b, past).value.0.maxSteps <= EntryBudget(cm)
  {
  }

  /** The first n entries gather at most their summed step limits. */
  lemma {:induction false} GatheredWithinBudget(rules: seq<CanMove>, n: nat, it: Interpreter, id: PieceId, pos: nat,
                                                b: BoardState, past: Trails)
    requires n <= |rules| && b.Valid() && b.Locatable(id) && b.rowSize > 0
    ensures |Gathered(rules, n, it, id, pos, b, past).0| <= Budget(rules, n)
  {
    if n > 0 {
      GatheredWithinBudget(rules, n - 1, it, id, pos, b, past);
      var before := Gathered(rules, n - 1, it, id, pos, b, past);
      var r := Resolve(rules[n - 1], id, b, past);
      OfferedWithinEntry(rules[n - 1], id, b, past);
      if r.Some? {
        var m := r.value.0;
        var (px, py) := ToXY(pos, b.rowSize);
        WalkIsRayPrefix(m, ClearInternalStates(before.1), id, r.value.1, b.View(),
                        px + IntMul(m.x, id.sign), py + IntMul(m.y, id.sign), IntMul(m.x, id.sign), IntMul(m.y, id.sign), 0, 0);
      }
    }
  }

  /** A knight is offered at most 8 squares, a king at most 10 and a pawn at most 7. */
  lemma StepperBounds(it: Interpreter, id: PieceId, b: BoardState, past: Trails)
    requires b.Valid() && b.Locatable(id) && b.rowSize > 0 && !id.IsNone()
    ensures var r := MovesOf(it, id, b, past).0.value;
            (id.piece == Knight ==> |r| <= 8) && (id.piece == King ==> |r| <= 10) && (id.piece == Pawn ==> |r| <= 7)
  {
    var rules := Moveset(id.piece).value;
    GatheredWithinBudget(rules, |rules|, it, id, b.GetPos(id).value, b, past);
    StepperBudgets();
  }

  /** The step limits of the stepping kinds' tables add up to 8, 10 and 7. */
  lemma StepperBudgets()
    ensures Budget(KnightMoveset, 8) == 8 && Budget(KingMoveset, 10) == 10 && Budget(PawnMoveset, 6) == 7
  {
  }

  /** The presence interpreter stays a presence interpreter along a walk. */
  lemma {:induction false} PresenceWalkStaysPresence(m: Move, last: CalculationResult, id: PieceId, cc: CanCapture, v: BoardView,
                                                     mx: int, my: int, dx: int, dy: int, iters: nat, captured: nat)
    ensures Walk(m, Presence(last), id, cc, v, mx, my, dx, dy, iters, captured).1.Presence?
    decreases m.maxSteps - iters
  {
    if iters < m.maxSteps && IsInbounds(mx, my, v.rowSize, v.colSize) && FromXY(mx, my, v.rowSize) < |v.occupants| {
      var classified := cc.Calculate(id, v.occupants[FromXY(mx, my, v.rowSize)], captured);
      var decided := Interpret(Presence(last), classified.0);
      if decided.0 == Continue {
        PresenceWalkStaysPresence(m, decided.1.last, id, cc, v, mx + dx, my + dy, dx, dy, iters + 1, classified.1);
      }
    }
  }

  /** Whatever a presence interpreter carries into a table, the squares gathered are the same. */
  lemma {:induction false} GatheredForgetsPresence(rules: seq<CanMove>, n: nat, a: CalculationResult, c: CalculationResult,
                                                   id: PieceId, pos: nat, b: BoardState, past: Trails)
    requires n <= |rules| && b.Valid() && b.Locatable(id) && b.rowSize > 0
    ensures var x := Gathered(rules, n, Presence(a), id, pos, b, past);
            var y := Gathered(rules, n, Presence(c), id, pos, b, past);
            x.0 == y.0 && x.1.Presence? && y.1.Presence?
  {
    if n > 0 {
      GatheredForgetsPresence(rules, n - 1, a, c, id, pos, b, past);
      match Resolve(rules[n - 1], id, b, past)
      case None =>
      case Some((m, cc)) =>
        var (px, py) := ToXY(pos, b.rowSize);
        PresenceWalkStaysPresence(m, CalculationResult.Free(1), id, cc, b.View(),
                                  px + IntMul(m.x, id.sign), py + IntMul(m.y, id.sign), IntMul(m.x, id.sign), IntMul(m.y, id.sign), 0, 0);
    }
  }

  /** `calculate` resets the presence interpreter, so the state it carries into `valid_moves` never matters. */
  lemma PresenceStateIrrelevant(a: CalculationResult, c: CalculationResult, id: PieceId, b: BoardState, past: Trails)
    requires b.Valid() && b.Locatable(id) && b.rowSize > 0
    ensures MovesOf(Presence(a), id, b, past).0 == MovesOf(Presence(c), id, b, past).0
  {
    if !id.IsNone() {
      var rules := Moveset(id.piece).value;
      GatheredForgetsPresence(rules, |rules|, a, c, id, b.GetPos(id).value, b, past);
    }
  }
}
