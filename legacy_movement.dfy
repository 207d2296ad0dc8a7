/**
 * Movement in the older tree (src/movement.rs, src/movement/can_capture.rs):
 * a boolean capture check decides whether an occupied square may be entered,
 * and a move walks its ray until the check rejects an occupant.
 */
module LegacyMovement {
  import opened Wrappers
  import opened PieceIds
  import opened Positions
  import opened LegacyBoard
  import opened Layout
  import opened BoardViews

  /** Capture rules of the older tree. */
  datatype CanCapture =
    | NoCapture
    | Matching(max: nat)
    | Opposing(max: nat)
    | Specific(f: (PieceId, PieceId, nat) -> (bool, nat))
    | All
  {
    /**
     * `check`: whether `other` may be entered, and the capture counter after
     * the check. An empty square may always be entered; under a counted
     * rule an occupant is accepted exactly when the counter is below max and
     * the occupant is on the side the rule names. The counter rises by one
     * for every occupant examined below max, before its side is looked at,
     * so an accepted occupant is always counted and the counter never passes
     * max.
     */
    function Check(id: PieceId, other: PieceId, captured: nat): (r: (bool, nat))
      ensures Specific? ==> r == f(id, other, captured)
      ensures !Specific? && other.IsNone() ==> r.0
      ensures NoCapture? ==> (r.0 <==> other.IsNone())
      ensures All? ==> r.0
      ensures !Specific? && !Matching? && !Opposing? ==> r.1 == captured
      ensures (Matching? || Opposing?) && !other.IsNone() ==>
                (r.0 <==> captured < max && (if Matching? then id.Matches(other) else id.Opposes(other)))
      ensures (Matching? || Opposing?) ==> r.1 == captured + (if !other.IsNone() && captured < max then 1 else 0)
      ensures (Matching? || Opposing?) && r.0 && !other.IsNone() ==> r.1 == captured + 1
      ensures (Matching? || Opposing?) && captured <= max ==> r.1 <= max
    {
      match this
      case NoCapture => (other.IsNone(), captured)
      case Matching(max) =>
        if other.IsNone() then (true, captured)
        else if captured < max then (id.Matches(other), captured + 1)
        else (false, captured)
      case Opposing(max) =>
        if other.IsNone() then (true, captured)
        else if captured < max then (id.Opposes(other), captured + 1)
        else (false, captured)
      case Specific(f) => f(id, other, captured)
      case All => (true, captured)
    }
  }

  /** A move: a step (x, y) repeated at most maxSteps times. */
  datatype Move = Move(x: int, y: int, maxSteps: nat) {

    /** `calculate`: walk from the square one step away, collecting squares until a rejected occupant. */
    method Calculate(id: PieceId, pos: nat, cc: CanCapture, b: Snapshot) returns (calculated: seq<nat>)
      requires b.Decodable() && b.rowSize > 0
      ensures calculated == WalkFrom(this, id, pos, cc, b)
    {
      calculated := [];
      var (px, py) := ToXY(pos, b.rowSize);
      var mx, my := px + x, py + y;
      var iters := 0;
      var captured := 0;
      ghost var view := b.View();
      ghost var whole := Walk(this, id, cc, view, mx, my, 0, 0);
      ghost var rest := whole;
      while iters < maxSteps && IsInbounds(mx, my, b.rowSize, b.colSize)
        invariant iters <= maxSteps
        invariant rest == Walk(this, id, cc, view, mx, my, iters, captured)
        invariant calculated + rest == whole
        decreases maxSteps - iters
      {
        ghost var before := captured;
        var u := FromXY(mx, my, b.rowSize);
        var found := b.IdAt(u);
        b.ViewAt(u);
        if found.Some? {
          var checked := cc.Check(id, found.value, captured);
          if !checked.0 {
            assert rest == Visit(this, id, cc, view, mx, my, iters, before) == [];
            break;
          }
          captured := checked.1;
        }
        assert rest == Visit(this, id, cc, view, mx, my, iters, before)
                    == [u] + Walk(this, id, cc, view, mx + x, my + y, iters + 1, captured);
        AppendRegroup(calculated, [u], Walk(this, id, cc, view, mx + x, my + y, iters + 1, captured));
        rest := Walk(this, id, cc, view, mx + x, my + y, iters + 1, captured);
        calculated := calculated + [u];
        mx, my := mx + x, my + y;
        iters := iters + 1;
      }
    }
  }

  /** The walk of a move for the piece on square pos. */
  function WalkFrom(m: Move, id: PieceId, pos: nat, cc: CanCapture, b: Snapshot): seq<nat>
    requires b.Decodable() && b.rowSize > 0
  {
    var (px, py) := ToXY(pos, b.rowSize);
    Walk(m, id, cc, b.View(), px + m.x, py + m.y, 0, 0)
  }

  /** The squares the walk collects from (mx, my) after `iters` steps. */
  function Walk(m: Move, id: PieceId, cc: CanCapture, v: BoardView, mx: int, my: int, iters: nat, captured: nat): seq<nat>
    decreases m.maxSteps - iters, 1
  {
    if iters >= m.maxSteps || !IsInbounds(mx, my, v.rowSize, v.colSize) then []
    else Visit(m, id, cc, v, mx, my, iters, captured)
  }

  /**
   * The walk from an examined square: a square beyond the board's list is
   * taken as it is, an occupant is checked, and a rejected one ends the walk.
   */
  function Visit(m: Move, id: PieceId, cc: CanCapture, v: BoardView, mx: int, my: int, iters: nat, captured: nat): seq<nat>
    requires iters < m.maxSteps && IsInbounds(mx, my, v.rowSize, v.colSize)
    decreases m.maxSteps - iters, 0
  {
    var u := FromXY(mx, my, v.rowSize);
    if u >= |v.occupants| then [u] + Walk(m, id, cc, v, mx + m.x, my + m.y, iters + 1, captured)
    else
      var checked := cc.Check(id, v.occupants[u], captured);
      if !checked.0 then []
      else [u] + Walk(m, id, cc, v, mx + m.x, my + m.y, iters + 1, checked.1)
  }

  /** The counter after examining square u. */
  function CountAfter(cc: CanCapture, id: PieceId, v: BoardView, u: nat, captured: nat): nat {
    if u >= |v.occupants| then captured else cc.Check(id, v.occupants[u], captured).1
  }

  /** Square u lets the walk through. */
  predicate Admits(cc: CanCapture, id: PieceId, v: BoardView, u: nat, captured: nat) {
    u >= |v.occupants| || cc.Check(id, v.occupants[u], captured).0
  }

  /** The square (mx, my) advanced j steps of the move. */
  function RayPoint(m: Move, mx: int, my: int, j: nat): (p: (int, int))
    decreases j
  {
    if j == 0 then (mx, my) else RayPoint(m, mx + m.x, my + m.y, j - 1)
  }

  /** One examined square: the walk takes it and goes on, or stops before it. */
  lemma WalkStep(m: Move, id: PieceId, cc: CanCapture, v: BoardView, mx: int, my: int, iters: nat, captured: nat)
    requires iters < m.maxSteps && IsInbounds(mx, my, v.rowSize, v.colSize)
    ensures var u := FromXY(mx, my, v.rowSize);
            Walk(m, id, cc, v, mx, my, iters, captured) ==
              if Admits(cc, id, v, u, captured)
              then [u] + Walk(m, id, cc, v, mx + m.x, my + m.y, iters + 1, CountAfter(cc, id, v, u, captured))
              else []
  {
    assert Walk(m, id, cc, v, mx, my, iters, captured) == Visit(m, id, cc, v, mx, my, iters, captured);
  }

  /**
   * The walk collects at most the remaining step budget, and its squares
   * are the first squares of the ray, in walk order, all on the board.
   */
  lemma {:induction false} WalkIsRayPrefix(m: Move, id: PieceId, cc: CanCapture, v: BoardView,
                                           mx: int, my: int, iters: nat, captured: nat)
    requires iters <= m.maxSteps
    ensures var r := Walk(m, id, cc, v, mx, my, iters, captured);
            iters + |r| <= m.maxSteps &&
            forall j | 0 <= j < |r| ::
              var p := RayPoint(m, mx, my, j);
              IsInbounds(p.0, p.1, v.rowSize, v.colSize) && r[j] == FromXY(p.0, p.1, v.rowSize)
    decreases m.maxSteps - iters
  {
    var r := Walk(m, id, cc, v, mx, my, iters, captured);
    if iters < m.maxSteps && IsInbounds(mx, my, v.rowSize, v.colSize) {
      var u := FromXY(mx, my, v.rowSize);
      WalkStep(m, id, cc, v, mx, my, iters, captured);
      if Admits(cc, id, v, u, captured) {
        var next := CountAfter(cc, id, v, u, captured);
        WalkIsRayPrefix(m, id, cc, v, mx + m.x, my + m.y, iters + 1, next);
        var rest := Walk(m, id, cc, v, mx + m.x, my + m.y, iters + 1, next);
        forall j | 1 <= j < |r|
          ensures var p := RayPoint(m, mx, my, j);
                  IsInbounds(p.0, p.1, v.rowSize, v.colSize) && r[j] == FromXY(p.0, p.1, v.rowSize)
        {
          assert r[j] == rest[j - 1];
          assert RayPoint(m, mx, my, j) == RayPoint(m, mx + m.x, my + m.y, j - 1);
        }
      }
    }
  }

  /** Without a foreign check, the walk stops only at the budget, the board edge or a rejected occupant. */
  lemma {:induction false} WalkStopsOnlyAtRejection(m: Move, id: PieceId, cc: CanCapture, v: BoardView,
                                                    mx: int, my: int, iters: nat, captured: nat)
    requires iters <= m.maxSteps && !cc.Specific?
    ensures var r := Walk(m, id, cc, v, mx, my, iters, captured);
            var p := RayPoint(m, mx, my, |r|);
            iters + |r| == m.maxSteps || !IsInbounds(p.0, p.1, v.rowSize, v.colSize) ||
            v.Occupied(FromXY(p.0, p.1, v.rowSize))
    decreases m.maxSteps - iters
  {
    var r := Walk(m, id, cc, v, mx, my, iters, captured);
    if iters < m.maxSteps && IsInbounds(mx, my, v.rowSize, v.colSize) {
      var u := FromXY(mx, my, v.rowSize);
      WalkStep(m, id, cc, v, mx, my, iters, captured);
      if Admits(cc, id, v, u, captured) {
        var next := CountAfter(cc, id, v, u, captured);
        WalkStopsOnlyAtRejection(m, id, cc, v, mx + m.x, my + m.y, iters + 1, next);
        var rest := Walk(m, id, cc, v, mx + m.x, my + m.y, iters + 1, next);
        assert RayPoint(m, mx, my, |r|) == RayPoint(m, mx + m.x, my + m.y, |rest|);
      }
    }
  }

  /** Under `All` nothing is rejected: the walk runs to the budget or the board edge. */
  lemma {:induction false} AllRunsToEdge(m: Move, id: PieceId, v: BoardView, mx: int, my: int, iters: nat, captured: nat)
    requires iters <= m.maxSteps
    ensures var r := Walk(m, id, All, v, mx, my, iters, captured);
            var p := RayPoint(m, mx, my, |r|);
            iters + |r| == m.maxSteps || !IsInbounds(p.0, p.1, v.rowSize, v.colSize)
    decreases m.maxSteps - iters
  {
    if iters < m.maxSteps && IsInbounds(mx, my, v.rowSize, v.colSize) {
      WalkStep(m, id, All, v, mx, my, iters, captured);
      AllRunsToEdge(m, id, v, mx + m.x, my + m.y, iters + 1, captured);
      var rest := Walk(m, id, All, v, mx + m.x, my + m.y, iters + 1, captured);
      assert RayPoint(m, mx, my, |rest| + 1) == RayPoint(m, mx + m.x, my + m.y, |rest|);
    }
  }

  /**
   * Under a counted rule, every occupant the walk passes was counted, so the
   * walk collects at most max - captured occupied squares, each of which
   * matches (or opposes) the mover.
   */
  lemma {:induction false} CountedWalkWithinBudget(m: Move, id: PieceId, cc: CanCapture, v: BoardView,
                                                   mx: int, my: int, iters: nat, captured: nat)
    requires (cc.Matching? || cc.Opposing?) && captured <= cc.max
    ensures var r := Walk(m, id, cc, v, mx, my, iters, captured);
            OccupiedCount(v, r) <= cc.max - captured &&
            forall j | 0 <= j < |r| && v.Occupied(r[j]) ::
              if cc.Matching? then id.Matches(v.occupants[r[j]]) else id.Opposes(v.occupants[r[j]])
    decreases m.maxSteps - iters
  {
    var r := Walk(m, id, cc, v, mx, my, iters, captured);
    if iters < m.maxSteps && IsInbounds(mx, my, v.rowSize, v.colSize) {
      var u := FromXY(mx, my, v.rowSize);
      WalkStep(m, id, cc, v, mx, my, iters, captured);
      if Admits(cc, id, v, u, captured) {
        var next := CountAfter(cc, id, v, u, captured);
        CountedWalkWithinBudget(m, id, cc, v, mx + m.x, my + m.y, iters + 1, next);
        var rest := Walk(m, id, cc, v, mx + m.x, my + m.y, iters + 1, next);
        assert r[1..] == rest;
        forall j | 0 <= j < |r| && v.Occupied(r[j])
          ensures if cc.Matching? then id.Matches(v.occupants[r[j]]) else id.Opposes(v.occupants[r[j]])
        {
          if j > 0 {
            assert r[j] == rest[j - 1];
          }
        }
      }
    }
  }

  /** Under `NoCapture` the walk passes empty squares only. */
  lemma {:induction false} NoCaptureOnlyEmpty(m: Move, id: PieceId, v: BoardView, mx: int, my: int, iters: nat, captured: nat)
    ensures OccupiedCount(v, Walk(m, id, NoCapture, v, mx, my, iters, captured)) == 0
    decreases m.maxSteps - iters
  {
    var r := Walk(m, id, NoCapture, v, mx, my, iters, captured);
    if iters < m.maxSteps && IsInbounds(mx, my, v.rowSize, v.colSize) {
      var u := FromXY(mx, my, v.rowSize);
      WalkStep(m, id, NoCapture, v, mx, my, iters, captured);
      if Admits(NoCapture, id, v, u, captured) {
        assert CountAfter(NoCapture, id, v, u, captured) == captured;
        NoCaptureOnlyEmpty(m, id, v, mx + m.x, my + m.y, iters + 1, captured);
        var rest := Walk(m, id, NoCapture, v, mx + m.x, my + m.y, iters + 1, captured);
        assert r == [u] + rest && !v.Occupied(u);
        assert r[1..] == rest;
      }
    }
  }
}
