/**
 * Movement in the newer tree (src/chess/movement.rs): a capture rule
 * classifies each occupant, a capture interpreter turns the classification
 * into continue / stop before / stop after, and a move walks a ray of squares.
 */
module ChessMovement {
  import opened Wrappers
  import opened Signs
  import opened PieceIds
  import opened Positions
  import opened ChessBoard
  import opened Layout
  import opened BoardViews

  /** How a capture rule classifies one examined square. */
  datatype CalculationResult = Free(max: nat) | Captured(max: nat) | Blocked(max: nat)

  /** What the walk does with an examined square. */
  datatype InterpretationResult = Continue | BreakBefore | BreakAfter

  /**
   * The two capture interpreters: `MobilityCalculator` (stateless) and
   * `PresenceCalculator`, which remembers the last classification it stored.
   */
  datatype Interpreter = Mobility | Presence(last: CalculationResult)

  /** `PresenceCalculator::new`. */
  function NewPresence(): (it: Interpreter)
    ensures it.Presence? && it.last == Free(1)
  {
    Presence(Free(1))
  }

  /** `clear_internal_states`: the presence calculator forgets its state, the mobility one has none. */
  function ClearInternalStates(it: Interpreter): (r: Interpreter)
    ensures it.Mobility? ==> r == it
    ensures it.Presence? ==> r == NewPresence()
  {
    match it
    case Mobility => Mobility
    case Presence(_) => Presence(Free(1))
  }

  /** `interpret`: the walk decision and the interpreter's new state. */
  function Interpret(it: Interpreter, c: CalculationResult): (r: (InterpretationResult, Interpreter))
    ensures it.Mobility? ==> r.1 == Mobility && (r.0 == BreakBefore <==> c.Blocked?) && r.0 != BreakAfter
    ensures it.Presence? ==> r.1 == (if c.Captured? then Presence(c) else it)
    ensures it.Presence? ==>
              (r.0 == Continue <==> (c.Free? && c.max > 0) || c.Captured?) &&
              (r.0 == BreakAfter <==> c.Blocked? && c.max > 0 && !it.last.Captured?)
  {
    match it
    case Mobility =>
      (match c
       case Free(_) => Continue
       case Captured(_) => Continue
       case Blocked(_) => BreakBefore, Mobility)
    case Presence(last) =>
      match c
      case Free(max) => (if max == 0 then BreakBefore else Continue, it)
      case Captured(_) => (Continue, Presence(c))
      case Blocked(max) =>
        if max == 0 then (BreakBefore, it)
        else if last.Captured? then (BreakBefore, it)
        else (BreakAfter, it)
  }

  /** Capture rules: which occupants a move may take, and how many. */
  datatype CanCapture =
    | NoCapture
    | Matching(max: nat)
    | Opposing(max: nat)
    | All(max: nat)
    | Specific(f: (PieceId, PieceId, nat) -> (CalculationResult, nat))
  {
    /**
     * `calculate`: classify `other` for the mover `id`, returning the new
     * capture count. An empty square is always free; an occupant is
     * captured exactly when the rule counts captures, the counter is below
     * max and the occupant is on the side the rule names, and is blocking
     * otherwise; the counter rises by one exactly on a capture, so it never
     * passes max.
     */
    function Calculate(id: PieceId, other: PieceId, captured: nat): (r: (CalculationResult, nat))
      ensures Specific? ==> r == f(id, other, captured)
      ensures !Specific? ==> r.0.max == if NoCapture? then 0 else max
      ensures !Specific? ==> (r.0.Free? <==> other.IsNone())
      ensures !Specific? ==>
                (r.0.Captured? <==> !NoCapture? && !other.IsNone() && captured < max &&
                                    (Opposing? ==> id.Opposes(other)) && (Matching? ==> id.Matches(other)))
      ensures !Specific? ==> r.1 == captured + (if r.0.Captured? then 1 else 0)
      ensures !Specific? && !NoCapture? && captured <= max ==> r.1 <= max
    {
      match this
      case NoCapture => (if other.IsNone() then Free(0) else Blocked(0), captured)
      case Matching(max) =>
        if other.IsNone() then (Free(max), captured)
        else if id.Matches(other) && captured < max then (Captured(max), captured + 1)
        else (Blocked(max), captured)
      case Opposing(max) =>
        if other.IsNone() then (Free(max), captured)
        else if id.Opposes(other) && captured < max then (Captured(max), captured + 1)
        else (Blocked(max), captured)
      case All(max) =>
        if other.IsNone() then (Free(max), captured)
        else if captured < max then (Captured(max), captured + 1)
        else (Blocked(max), captured)
      case Specific(f) => f(id, other, captured)
    }
  }

  /** A move: a step (x, y) repeated at most maxSteps times. */
  datatype Move = Move(x: int, y: int, maxSteps: nat) {

    /**
     * `calculate`: reset the interpreter, examine the squares of the walk
     * and collect the ones the interpreter admits. Every step, not only the
     * first, is scaled by the mover's side (`WalkAsWritten` is the walk as
     * the source writes it).
     */
    method Calculate(it: Interpreter, id: PieceId, pos: nat, cc: CanCapture, b: BoardState)
      returns (calculated: seq<nat>, it': Interpreter)
      requires b.Valid() && b.rowSize > 0
      ensures (calculated, it') == WalkSigned(this, it, id, pos, cc, b)
    {
      var interpreter := ClearInternalStates(it);
      calculated := [];
      var (px, py) := ToXY(pos, b.rowSize);
      var dx, dy := IntMul(x, id.sign), IntMul(y, id.sign);
      var mx, my := px + dx, py + dy;
      var iters := 0;
      var captured := 0;
      ghost var view := b.View();
      ghost var whole := Walk(this, interpreter, id, cc, view, mx, my, dx, dy, 0, 0);
      assert whole == WalkSigned(this, it, id, pos, cc, b);
      ghost var rest := whole;
      while iters < maxSteps && IsInbounds(mx, my, b.rowSize, b.colSize)
        invariant iters <= maxSteps
        invariant rest == Walk(this, interpreter, id, cc, view, mx, my, dx, dy, iters, captured)
        invariant calculated + rest.0 == whole.0 && rest.1 == whole.1
        decreases maxSteps - iters
      {
        var u := FromXY(mx, my, b.rowSize);
        var other := b.GetId(u);
        b.ViewAt(u);
        if other.Some? {
          var classified := cc.Calculate(id, other.value, captured);
          var decided := Interpret(interpreter, classified.0);
          WalkExamines(this, interpreter, id, cc, view, mx, my, dx, dy, iters, captured, other.value, decided.0, decided.1, classified.1);
          interpreter := decided.1;
          captured := classified.1;
          match decided.0
          case Continue =>
            rest := Walk(this, interpreter, id, cc, view, mx + dx, my + dy, dx, dy, iters + 1, captured);
            AppendRegroup(calculated, [u], rest.0);
            calculated := calculated + [u];
            mx := mx + dx;
            my := my + dy;
            iters := iters + 1;
            continue;
          case BreakAfter =>
            calculated := calculated + [u];
          case BreakBefore =>
        }
        break;
      }
      assert calculated == whole.0;
      it' := interpreter;
    }
  }

  /** The walk at an examined occupant, given the capture rule's classification and the interpreter's decision. */
  lemma WalkExamines(m: Move, it: Interpreter, id: PieceId, cc: CanCapture, v: BoardView,
                     mx: int, my: int, dx: int, dy: int, iters: nat, captured: nat,
                     other: PieceId, decision: InterpretationResult, it': Interpreter, captured': nat)
    requires iters < m.maxSteps && IsInbounds(mx, my, v.rowSize, v.colSize)
    requires FromXY(mx, my, v.rowSize) < |v.occupants| && v.occupants[FromXY(mx, my, v.rowSize)] == other
    requires cc.Calculate(id, other, captured).1 == captured'
    requires Interpret(it, cc.Calculate(id, other, captured).0) == (decision, it')
    ensures var w := Walk(m, it, id, cc, v, mx, my, dx, dy, iters, captured);
            var rest := Walk(m, it', id, cc, v, mx + dx, my + dy, dx, dy, iters + 1, captured');
            w == match decision
                 case Continue => ([FromXY(mx, my, v.rowSize)] + rest.0, rest.1)
                 case BreakAfter => ([FromXY(mx, my, v.rowSize)], it')
                 case BreakBefore => ([], it')
  {
  }

  /**
   * The squares a walk collects and the interpreter's final state, from the
   * square (mx, my) after `iters` steps, advancing by (dx, dy); a square
   * `get_id` does not know ends the walk.
   */
  function Walk(m: Move, it: Interpreter, id: PieceId, cc: CanCapture, v: BoardView,
                mx: int, my: int, dx: int, dy: int, iters: nat, captured: nat): (r: (seq<nat>, Interpreter))
    decreases m.maxSteps - iters, 1
  {
    if iters >= m.maxSteps || !IsInbounds(mx, my, v.rowSize, v.colSize) || FromXY(mx, my, v.rowSize) >= |v.occupants| then ([], it)
    else Visit(m, it, id, cc, v, mx, my, dx, dy, iters, captured)
  }

  /** The walk from an examined square: classify its occupant, interpret, and go on or stop. */
  function Visit(m: Move, it: Interpreter, id: PieceId, cc: CanCapture, v: BoardView,
                 mx: int, my: int, dx: int, dy: int, iters: nat, captured: nat): (r: (seq<nat>, Interpreter))
    requires iters < m.maxSteps && IsInbounds(mx, my, v.rowSize, v.colSize) && FromXY(mx, my, v.rowSize) < |v.occupants|
    decreases m.maxSteps - iters, 0
  {
    var u := FromXY(mx, my, v.rowSize);
    var classified := cc.Calculate(id, v.occupants[u], captured);
    var decided := Interpret(it, classified.0);
    if decided.0 == Continue then
      var rest := Walk(m, decided.1, id, cc, v, mx + dx, my + dy, dx, dy, iters + 1, classified.1);
      ([u] + rest.0, rest.1)
    else if decided.0 == BreakAfter then ([u], decided.1)
    else ([], decided.1)
  }

  /** The walk as written: the first square is offset by step × side, later steps add the bare step. */
  function WalkAsWritten(m: Move, it: Interpreter, id: PieceId, pos: nat, cc: CanCapture, b: BoardState): (seq<nat>, Interpreter)
    requires b.Valid() && b.rowSize > 0
  {
    var (px, py) := ToXY(pos, b.rowSize);
    Walk(m, ClearInternalStates(it), id, cc, b.View(), px + IntMul(m.x, id.sign), py + IntMul(m.y, id.sign), m.x, m.y, 0, 0)
  }

  /** The walk with every step scaled by the mover's side. */
  function WalkSigned(m: Move, it: Interpreter, id: PieceId, pos: nat, cc: CanCapture, b: BoardState): (seq<nat>, Interpreter)
    requires b.Valid() && b.rowSize > 0
  {
    var (px, py) := ToXY(pos, b.rowSize);
    var dx, dy := IntMul(m.x, id.sign), IntMul(m.y, id.sign);
    Walk(m, ClearInternalStates(it), id, cc, b.View(), px + dx, py + dy, dx, dy, 0, 0)
  }

  /** The point j steps of (dx, dy) away from (mx, my). */
  function RayPoint(mx: int, my: int, dx: int, dy: int, j: nat): (int, int)
    decreases j
  {
    if j == 0 then (mx, my) else RayPoint(mx + dx, my + dy, dx, dy, j - 1)
  }

  /** The j-th ray point is the start plus j steps. */
  lemma {:induction false} RayPointClosedForm(mx: int, my: int, dx: int, dy: int, j: nat)
    ensures RayPoint(mx, my, dx, dy, j) == (mx + j * dx, my + j * dy)
    decreases j
  {
    if j > 0 {
      RayPointClosedForm(mx + dx, my + dy, dx, dy, j - 1);
      assert (mx + dx) + (j - 1) * dx == mx + j * dx;
      assert (my + dy) + (j - 1) * dy == my + j * dy;
    }
  }

  /**
   * A walk collects at most the remaining step budget, and its squares are
   * the first squares of the ray, in order, all inside the board.
   */
  lemma {:induction false} WalkIsRayPrefix(m: Move, it: Interpreter, id: PieceId, cc: CanCapture, v: BoardView,
                                           mx: int, my: int, dx: int, dy: int, iters: nat, captured: nat)
    requires iters <= m.maxSteps
    ensures var r := Walk(m, it, id, cc, v, mx, my, dx, dy, iters, captured).0;
            iters + |r| <= m.maxSteps &&
            forall j | 0 <= j < |r| ::
              var p := RayPoint(mx, my, dx, dy, j);
              IsInbounds(p.0, p.1, v.rowSize, v.colSize) && r[j] == FromXY(p.0, p.1, v.rowSize) && r[j] < |v.occupants|
    decreases m.maxSteps - iters
  {
    var r := Walk(m, it, id, cc, v, mx, my, dx, dy, iters, captured).0;
    if iters < m.maxSteps && IsInbounds(mx, my, v.rowSize, v.colSize) && FromXY(mx, my, v.rowSize) < |v.occupants| {
      var u := FromXY(mx, my, v.rowSize);
      var classified := cc.Calculate(id, v.occupants[u], captured);
      var decided := Interpret(it, classified.0);
      if decided.0 == Continue {
        WalkIsRayPrefix(m, decided.1, id, cc, v, mx + dx, my + dy, dx, dy, iters + 1, classified.1);
        var rest := Walk(m, decided.1, id, cc, v, mx + dx, my + dy, dx, dy, iters + 1, classified.1).0;
        assert r == Visit(m, it, id, cc, v, mx, my, dx, dy, iters, captured).0 == [u] + rest;
        forall j | 1 <= j < |r|
          ensures var p := RayPoint(mx, my, dx, dy, j);
                  IsInbounds(p.0, p.1, v.rowSize, v.colSize) && r[j] == FromXY(p.0, p.1, v.rowSize) && r[j] < |v.occupants|
        {
          assert r[j] == rest[j - 1];
          assert RayPoint(mx, my, dx, dy, j) == RayPoint(mx + dx, my + dy, dx, dy, j - 1);
        }
      }
    }
  }

  /** The mobility interpreter stays the mobility interpreter. */
  lemma {:induction false} MobilityWalkStaysMobility(m: Move, id: PieceId, cc: CanCapture, v: BoardView,
                                                     mx: int, my: int, dx: int, dy: int, iters: nat, captured: nat)
    ensures Walk(m, Mobility, id, cc, v, mx, my, dx, dy, iters, captured).1 == Mobility
    decreases m.maxSteps - iters
  {
    if iters < m.maxSteps && IsInbounds(mx, my, v.rowSize, v.colSize) && FromXY(mx, my, v.rowSize) < |v.occupants| {
      var count := cc.Calculate(id, v.occupants[FromXY(mx, my, v.rowSize)], captured).1;
      MobilityWalkStaysMobility(m, id, cc, v, mx + dx, my + dy, dx, dy, iters + 1, count);
    }
  }

  /**
   * Under the mobility interpreter with a counted rule, every collected
   * occupant is one the rule captured, so their number is at most what is
   * left of the capture budget, and under `Opposing` each opposes the mover.
   */
  lemma {:induction false} MobilityCapturesWithinBudget(m: Move, id: PieceId, cc: CanCapture, v: BoardView,
                                                        mx: int, my: int, dx: int, dy: int, iters: nat, captured: nat)
    requires !cc.Specific? && !cc.NoCapture? && captured <= cc.max
    ensures var r := Walk(m, Mobility, id, cc, v, mx, my, dx, dy, iters, captured).0;
            OccupiedCount(v, r) <= cc.max - captured &&
            (cc.Opposing? ==> forall j | 0 <= j < |r| && v.Occupied(r[j]) :: id.Opposes(v.occupants[r[j]]))
    decreases m.maxSteps - iters
  {
    if iters < m.maxSteps && IsInbounds(mx, my, v.rowSize, v.colSize) && FromXY(mx, my, v.rowSize) < |v.occupants| {
      var u := FromXY(mx, my, v.rowSize);
      var classified := cc.Calculate(id, v.occupants[u], captured);
      if !classified.0.Blocked? {
        MobilityCapturesWithinBudget(m, id, cc, v, mx + dx, my + dy, dx, dy, iters + 1, classified.1);
        var rest := Walk(m, Mobility, id, cc, v, mx + dx, my + dy, dx, dy, iters + 1, classified.1).0;
        var r := Walk(m, Mobility, id, cc, v, mx, my, dx, dy, iters, captured).0;
        assert r == Visit(m, Mobility, id, cc, v, mx, my, dx, dy, iters, captured).0 == [u] + rest;
        assert r[1..] == rest;
        if cc.Opposing? {
          forall j | 0 <= j < |r| && v.Occupied(r[j])
            ensures id.Opposes(v.occupants[r[j]])
          {
            if j > 0 {
              assert r[j] == rest[j - 1];
            }
          }
        }
      }
    }
  }

  /** Every square of `squares` is on the board and empty. */
  predicate AllEmpty(v: BoardView, squares: seq<nat>) {
    forall j | 0 <= j < |squares| :: squares[j] < |v.occupants| && v.occupants[squares[j]].IsNone()
  }

  /** Under the mobility interpreter, a move that may not capture collects empty squares only. */
  lemma {:induction false} MobilityNoCaptureOnlyEmpty(m: Move, id: PieceId, v: BoardView,
                                                      mx: int, my: int, dx: int, dy: int, iters: nat, captured: nat)
    ensures AllEmpty(v, Walk(m, Mobility, id, NoCapture, v, mx, my, dx, dy, iters, captured).0)
    decreases m.maxSteps - iters
  {
    if iters < m.maxSteps && IsInbounds(mx, my, v.rowSize, v.colSize) && FromXY(mx, my, v.rowSize) < |v.occupants| {
      var u := FromXY(mx, my, v.rowSize);
      if v.occupants[u].IsNone() {
        MobilityNoCaptureOnlyEmpty(m, id, v, mx + dx, my + dy, dx, dy, iters + 1, captured);
        var rest := Walk(m, Mobility, id, NoCapture, v, mx + dx, my + dy, dx, dy, iters + 1, captured).0;
        var r := Walk(m, Mobility, id, NoCapture, v, mx, my, dx, dy, iters, captured).0;
        assert r == Visit(m, Mobility, id, NoCapture, v, mx, my, dx, dy, iters, captured).0 == [u] + rest;
        forall j | 0 <= j < |r| ensures r[j] < |v.occupants| && v.occupants[r[j]].IsNone() {
          if j > 0 {
            assert r[j] == rest[j - 1];
          }
        }
      }
    }
  }

  /** Under the presence interpreter, a move that may not capture collects nothing. */
  lemma PresenceNoCaptureIsEmpty(m: Move, last: CalculationResult, id: PieceId, v: BoardView,
                                 mx: int, my: int, dx: int, dy: int, iters: nat, captured: nat)
    ensures Walk(m, Presence(last), id, NoCapture, v, mx, my, dx, dy, iters, captured).0 == []
  {
  }

  /**
   * As written, the second square a walk examines for a mover on the
   * negative side is the mover's own square.
   */
  lemma AsWrittenRevisitsOrigin(m: Move, px: int, py: int)
    ensures RayPoint(px + IntMul(m.x, Negative), py + IntMul(m.y, Negative), m.x, m.y, 1) == (px, py)
  {
  }

  /**
   * As written, a negative-side slider standing on its square and capturing
   * opponents reaches at most one square under the mobility interpreter.
   */
  lemma AsWrittenNegativeSliderStops(m: Move, id: PieceId, pos: nat, b: BoardState)
    requires b.Valid() && b.rowSize > 0
    requires id.sign == Negative && !id.IsNone() && Canonical(id)
    requires pos < |b.ids| && UnpackI(b.ids[pos]) == id.I()
    ensures |WalkAsWritten(m, Mobility, id, pos, Opposing(1), b).0| <= 1
  {
    var v := b.View();
    var (px, py) := ToXY(pos, b.rowSize);
    var mx, my := px + IntMul(m.x, id.sign), py + IntMul(m.y, id.sign);
    WalkIsRayPrefix(m, Mobility, id, Opposing(1), v, mx, my, m.x, m.y, 0, 0);
    SquareRoundTrip(pos, b.rowSize);
    assert RayPoint(mx, my, m.x, m.y, 1) == (px, py);
    b.ViewAt(pos);
    MobilityCapturesWithinBudget(m, id, Opposing(1), v, mx, my, m.x, m.y, 0, 0);
  }

  /** With steps scaled by the side, every square collected lies on the mover's ray and is never its own square. */
  lemma SignedWalkLeavesOrigin(m: Move, id: PieceId, pos: nat, it: Interpreter, cc: CanCapture, b: BoardState)
    requires b.Valid() && b.rowSize > 0 && id.sign != NoSign && (m.x, m.y) != (0, 0)
    ensures var r := WalkSigned(m, it, id, pos, cc, b).0;
            var (px, py) := ToXY(pos, b.rowSize);
            var dx, dy := IntMul(m.x, id.sign), IntMul(m.y, id.sign);
            forall j | 0 <= j < |r| ::
              var p := RayPoint(px, py, dx, dy, j + 1);
              IsInbounds(p.0, p.1, b.rowSize, b.colSize) && r[j] == FromXY(p.0, p.1, b.rowSize) && r[j] != pos
  {
    var (px, py) := ToXY(pos, b.rowSize);
    var dx, dy := IntMul(m.x, id.sign), IntMul(m.y, id.sign);
    WalkIsRayPrefix(m, ClearInternalStates(it), id, cc, b.View(), px + dx, py + dy, dx, dy, 0, 0);
    SquareRoundTrip(pos, b.rowSize);
    var r := WalkSigned(m, it, id, pos, cc, b).0;
    forall j | 0 <= j < |r|
      ensures var p := RayPoint(px, py, dx, dy, j + 1);
              IsInbounds(p.0, p.1, b.rowSize, b.colSize) && r[j] == FromXY(p.0, p.1, b.rowSize) && r[j] != pos
    {
      assert RayPoint(px, py, dx, dy, j + 1) == RayPoint(px + dx, py + dy, dx, dy, j);
      RayLeavesStart(px, py, dx, dy, j + 1, b.rowSize, b.colSize);
    }
  }

  /** A point a non-zero number of non-zero steps away from an in-bounds start is a different square. */
  lemma RayLeavesStart(px: int, py: int, dx: int, dy: int, k: nat, rowSize: nat, colSize: nat)
    requires 0 <= px < rowSize && 0 <= py && k > 0 && (dx, dy) != (0, 0)
    requires IsInbounds(RayPoint(px, py, dx, dy, k).0, RayPoint(px, py, dx, dy, k).1, rowSize, colSize)
    ensures FromXY(RayPoint(px, py, dx, dy, k).0, RayPoint(px, py, dx, dy, k).1, rowSize) != FromXY(px, py, rowSize)
  {
    var p := RayPoint(px, py, dx, dy, k);
    RayPointClosedForm(px, py, dx, dy, k);
    NonZeroStep(k, dx, dy);
    XYRoundTrip(p.0, p.1, rowSize);
    XYRoundTrip(px, py, rowSize);
  }

  lemma NonZeroStep(k: nat, dx: int, dy: int)
    requires k > 0 && (dx, dy) != (0, 0)
    ensures (k * dx, k * dy) != (0, 0)
  {
    if dx != 0 {
      assert k * dx != 0;
    } else {
      assert k * dy != 0;
    }
  }
}
