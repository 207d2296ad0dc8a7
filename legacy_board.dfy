/**
 * The older board (src/implementations/board/standard_board.rs): a flat
 * array of signed codes plus a `repeats` index listing, for every code that
 * occurs more than once in the initial layout, the squares of its versions.
 */
module LegacyBoard {
  import opened Wrappers
  import opened Pieces
  import opened PieceIds
  import opened Layout
  import opened BoardViews

  /** The board's contents as a value. */
  datatype Snapshot = Snapshot(rowSize: nat, colSize: nat, state: seq<int>, repeats: map<int, seq<nat>>) {

    /** Every square holds a code of the standard taxonomy (decoding cannot panic). */
    predicate Decodable() {
      forall u | 0 <= u < |state| :: -MAX_CODE <= state[u] <= MAX_CODE
    }

    /**
     * The version of the piece on square u: its index in its code's `repeats`
     * list, or 0 for a code without one.
     */
    function VersionAt(u: nat): (v: nat)
      requires u < |state|
      ensures state[u] in repeats && u in repeats[state[u]] ==>
                v < |repeats[state[u]]| && repeats[state[u]][v] == u
      ensures !(state[u] in repeats && u in repeats[state[u]]) ==> v == 0
    {
      var c := state[u];
      if c in repeats then FirstIndex(repeats[c], u).GetOr(0) else 0
    }

    /**
     * `get_id`: the identity on square u, none beyond the board. (The source
     * guards with `u > size`; see `GuardAsWritten`.)
     */
    function IdAt(u: nat): (r: Option<PieceId>)
      requires Decodable()
      ensures r.None? <==> u >= |state|
      ensures r.Some? ==> r.value.I() == state[u] && r.value.version == VersionAt(u)
      ensures r.Some? ==> Canonical(r.value)
    {
      if u >= |state| then None else Some(FromPair(state[u], VersionAt(u)))
    }

    /** What `get_id` reports for every square on the board, in square order. */
    function View(): (v: BoardView)
      requires Decodable()
      ensures |v.occupants| == |state| && v.rowSize == rowSize && v.colSize == colSize
    {
      BoardView(OccupantsBelow(|state|), rowSize, colSize)
    }

    /** The identities of the squares below n. */
    function OccupantsBelow(n: nat): (s: seq<PieceId>)
      requires Decodable() && n <= |state|
      ensures |s| == n
    {
      if n == 0 then [] else OccupantsBelow(n - 1) + [IdAt(n - 1).value]
    }

    /** Every square's identity in the view is the one `get_id` reports. */
    lemma ViewAt(u: nat)
      requires Decodable()
      ensures IdAt(u) == (if u < |state| then Some(View().occupants[u]) else None)
    {
      if u < |state| {
        OccupantsBelowAt(|state|, u);
      }
    }

    /** The view's occupied squares are the ones `get_id_not_none` reports. */
    lemma ViewOccupied(u: nat)
      requires Decodable()
      ensures View().Occupied(u) <==> IdNotNoneAt(u).Some?
    {
      ViewAt(u);
    }

    lemma {:induction false} OccupantsBelowAt(n: nat, u: nat)
      requires Decodable() && u < n <= |state|
      ensures OccupantsBelow(n)[u] == IdAt(u).value
    {
      if u < n - 1 {
        OccupantsBelowAt(n - 1, u);
      }
    }

    /** `get_id_not_none`: as `get_id`, but none for the empty piece too. */
    function IdNotNoneAt(u: nat): (r: Option<PieceId>)
      requires Decodable()
      ensures r.None? <==> IdAt(u).None? || IdAt(u).value.IsNone()
      ensures r.Some? ==> r == IdAt(u)
    {
      match IdAt(u)
      case Some(id) => if !id.IsNone() then Some(id) else None
      case None => None
    }

    /**
     * `get_pos`: the listed square of the identity's version, or else the
     * lowest square holding its code. The empty code is not special-cased.
     */
    function PosOf(id: PieceId): (r: Option<nat>)
      ensures id.I() in repeats && id.version < |repeats[id.I()]| ==> r == Some(repeats[id.I()][id.version])
      ensures r.Some? ==> r.value < |state| || (id.I() in repeats && id.version < |repeats[id.I()]|)
      ensures r.None? <==> !(id.I() in repeats && id.version < |repeats[id.I()]|) && id.I() !in state
      ensures !(id.I() in repeats && id.version < |repeats[id.I()]|) && r.Some? ==>
                state[r.value] == id.I() && forall j | 0 <= j < r.value :: state[j] != id.I()
    {
      var c := id.I();
      if c in repeats && id.version < |repeats[c]| then Some(repeats[c][id.version])
      else FirstIndex(state, c)
    }

    /** `set_square`: write the code, and the version's slot if the code is repeated. */
    function SetSquare(id: PieceId, square: nat): (b: Snapshot)
      requires square < |state|
      requires id.I() in repeats ==> id.version < |repeats[id.I()]|
      ensures b.rowSize == rowSize && b.colSize == colSize && |b.state| == |state|
      ensures b.state[square] == id.I()
      ensures forall u | 0 <= u < |state| && u != square :: b.state[u] == state[u]
      ensures b.repeats.Keys == repeats.Keys
      ensures forall c | c in repeats && c != id.I() :: b.repeats[c] == repeats[c]
      ensures id.I() in repeats ==> b.repeats[id.I()] == repeats[id.I()][id.version := square]
    {
      var c := id.I();
      if c in repeats then
        var versions: seq<nat> := repeats[c][id.version := square];
        Snapshot(rowSize, colSize, state[square := c], repeats[c := versions])
      else
        Snapshot(rowSize, colSize, state[square := c], repeats)
    }

    /** `clear`: every square empty and no repeats. */
    function Cleared(): (b: Snapshot)
      ensures b.rowSize == rowSize && b.colSize == colSize && |b.state| == |state|
      ensures forall u | 0 <= u < |b.state| :: b.state[u] == 0
      ensures b.repeats == map[]
    {
      Snapshot(rowSize, colSize, seq(|state|, _ => 0), map[])
    }

    /** `row(r)`: the codes of one row. */
    function Row(r: nat): (codes: seq<int>)
      requires r < rowSize && r * rowSize + colSize <= |state|
      requires colSize == rowSize
      ensures |codes| == rowSize
      ensures forall k | 0 <= k < rowSize :: codes[k] == state[r * rowSize + k]
    {
      state[r * rowSize..r * rowSize + colSize]
    }

    /** Squares below n whose code is the code of one of `ids`, in increasing order. */
    function SquaresHolding(ids: seq<PieceId>, n: nat): (squares: seq<nat>)
      requires n <= |state|
      ensures Increasing(squares)
      ensures forall u: nat :: u in squares <==> u < n && CodeAmong(ids, state[u])
    {
      if n == 0 then []
      else
        var front := SquaresHolding(ids, n - 1);
        assert forall j | 0 <= j < |front| :: front[j] < n - 1 by {
          forall j | 0 <= j < |front| ensures front[j] < n - 1 {
            assert front[j] in front;
          }
        }
        if CodeAmong(ids, state[n - 1]) then front + [n - 1] else front
    }

    /**
     * `piece_slice` as written: the range `0..size - 1` leaves out the last
     * square.
     */
    function PieceSliceAsWritten(ids: seq<PieceId>): seq<nat>
      requires |state| >= 1
    {
      SquaresHolding(ids, |state| - 1)
    }

    /** `piece_slice` over every square of the board. */
    function PieceSlice(ids: seq<PieceId>): seq<nat> {
      SquaresHolding(ids, |state|)
    }

    /** The guard of `get_id` as written: it lets an index proceed unless `u > size`. */
    predicate GuardAsWritten(u: nat) {
      !(u > |state|)
    }
  }

  /** Whether c is the code of one of `ids`. */
  predicate CodeAmong(ids: seq<PieceId>, c: int) {
    exists k | 0 <= k < |ids| :: ids[k].I() == c
  }

  /** The `repeats` index built from an initial layout. */
  function InitialRepeats(s: seq<int>): map<int, seq<nat>> {
    map c | c in Codes(s) && |Occurrences(s, c, |s|)| >= 2 :: Occurrences(s, c, |s|)
  }

  /** `StandardBoard::new`. */
  function Initial(rowSize: nat, colSize: nat, s: seq<int>): Snapshot {
    Snapshot(rowSize, colSize, s, InitialRepeats(s))
  }

  /** After `new`, exactly the repeated codes have an entry, listing their squares in order. */
  lemma InitialRepeatsExact(s: seq<int>, c: int)
    ensures c in InitialRepeats(s) <==> c != 0 && |Occurrences(s, c, |s|)| >= 2
    ensures c in InitialRepeats(s) ==> Increasing(InitialRepeats(s)[c])
    ensures c in InitialRepeats(s) ==>
              forall u | 0 <= u < |s| :: u in InitialRepeats(s)[c] <==> s[u] == c
  {
    OccurrencesExact(s, c, |s|);
    if c != 0 && |Occurrences(s, c, |s|)| >= 2 {
      var u := Occurrences(s, c, |s|)[0];
      assert s[u] == c;
      assert c in Codes(s);
    }
  }

  /** On a freshly built board, the position of the identity on square u is u. */
  lemma InitialPosOfIdAt(rowSize: nat, colSize: nat, s: seq<int>, u: nat)
    requires u < |s| && s[u] != 0
    requires Initial(rowSize, colSize, s).Decodable()
    ensures var b := Initial(rowSize, colSize, s); b.PosOf(b.IdAt(u).value) == Some(u)
  {
    var b := Initial(rowSize, colSize, s);
    var c := s[u];
    InitialRepeatsExact(s, c);
    OccurrencesExact(s, c, |s|);
    var id := b.IdAt(u).value;
    if c in b.repeats {
      FirstIndexOfIncreasing(b.repeats[c], FirstIndex(b.repeats[c], u).value);
    } else {
      var occ := Occurrences(s, c, |s|);
      assert u in occ;
      assert |occ| == 1;
      SingleOccurrenceFirst(s, c, u);
    }
  }

  /** The version `get_id` reports on a fresh board is the square's rank among its code's squares. */
  lemma InitialVersionIsRank(rowSize: nat, colSize: nat, s: seq<int>, u: nat)
    requires u < |s| && s[u] != 0
    ensures var b := Initial(rowSize, colSize, s);
            var occ := Occurrences(s, s[u], |s|);
            if |occ| >= 2 then b.VersionAt(u) < |occ| && occ[b.VersionAt(u)] == u
            else b.VersionAt(u) == 0
  {
    InitialRepeatsExact(s, s[u]);
    OccurrencesExact(s, s[u], |s|);
  }

  /** `get_id_not_none` is none exactly on empty squares and beyond the board. */
  lemma IdNotNoneOnEmpty(b: Snapshot, u: nat)
    requires b.Decodable()
    ensures b.IdNotNoneAt(u).None? <==> u >= |b.state| || b.state[u] == 0
  {
    if u < |b.state| {
      var id := b.IdAt(u).value;
      assert id.IsNone() <==> id.I() == 0;
    }
  }

  /** The as-written `piece_slice` misses a piece standing on the last square. */
  lemma PieceSliceMissesLastSquare(b: Snapshot, id: PieceId)
    requires |b.state| >= 1 && b.state[|b.state| - 1] == id.I()
    ensures |b.state| - 1 !in b.PieceSliceAsWritten([id])
    ensures |b.state| - 1 in b.PieceSlice([id])
  {
    assert [id][0].I() == b.state[|b.state| - 1];
  }

  /**
   * The as-written guard of `get_id` lets exactly one index with no square
   * through to the array access: the board size, where the corrected
   * `get_id` answers none.
   */
  lemma GuardLetsSizeThrough(b: Snapshot)
    requires b.Decodable()
    ensures b.GuardAsWritten(|b.state|) && b.IdAt(|b.state|).None?
    ensures forall u: nat | b.GuardAsWritten(u) :: u < |b.state| || u == |b.state|
  {
  }

  /** While `new` scans, `last_seen_pos` holds the latest square of every code seen so far. */
  ghost predicate LastSeenTracks(s: seq<int>, pos: nat, lastSeen: map<int, nat>)
    requires pos <= |s|
  {
    forall c ::
      (c in lastSeen <==> c != 0 && |Occurrences(s, c, pos)| >= 1) &&
      (c in lastSeen ==> lastSeen[c] == Occurrences(s, c, pos)[|Occurrences(s, c, pos)| - 1])
  }

  /** While `new` scans, `repeats` lists the squares so far of every code seen twice. */
  ghost predicate RepeatsTrack(s: seq<int>, pos: nat, reps: map<int, seq<nat>>)
    requires pos <= |s|
  {
    forall c :: (c in reps <==> c != 0 && |Occurrences(s, c, pos)| >= 2) &&
      (c in reps ==> reps[c] == Occurrences(s, c, pos))
  }

  /** Once the scan has covered the layout, its `repeats` is the initial index. */
  lemma ScanComplete(s: seq<int>, reps: map<int, seq<nat>>)
    requires RepeatsTrack(s, |s|, reps)
    ensures reps == InitialRepeats(s)
  {
    forall c ensures c in reps <==> c in InitialRepeats(s) {
      InitialRepeatsExact(s, c);
    }
  }

  /** The effect of one step of the scan on `last_seen_pos`. */
  lemma LastSeenStep(s: seq<int>, pos: nat, lastSeen: map<int, nat>, lastSeen': map<int, nat>)
    requires pos < |s|
    requires LastSeenTracks(s, pos, lastSeen)
    requires lastSeen' == if s[pos] == 0 then lastSeen else lastSeen[s[pos] := pos]
    ensures LastSeenTracks(s, pos + 1, lastSeen')
  {
    forall c
      ensures (c in lastSeen' <==> c != 0 && |Occurrences(s, c, pos + 1)| >= 1) &&
              (c in lastSeen' ==> lastSeen'[c] == Occurrences(s, c, pos + 1)[|Occurrences(s, c, pos + 1)| - 1])
    {
      var o, o' := Occurrences(s, c, pos), Occurrences(s, c, pos + 1);
      if c == s[pos] {
        assert o' == o + [pos];
      } else {
        assert o' == o;
      }
    }
  }

  /** The effect of one step of the scan on `repeats`. */
  lemma RepeatsStep(s: seq<int>, pos: nat, lastSeen: map<int, nat>, reps: map<int, seq<nat>>,
                    reps': map<int, seq<nat>>)
    requires pos < |s|
    requires LastSeenTracks(s, pos, lastSeen) && RepeatsTrack(s, pos, reps)
    requires reps' == if s[pos] == 0 || s[pos] !in lastSeen then reps
                      else if s[pos] in reps then reps[s[pos] := reps[s[pos]] + [pos]]
                      else reps[s[pos] := [lastSeen[s[pos]], pos]]
    ensures RepeatsTrack(s, pos + 1, reps')
  {
    forall c
      ensures (c in reps' <==> c != 0 && |Occurrences(s, c, pos + 1)| >= 2) &&
              (c in reps' ==> reps'[c] == Occurrences(s, c, pos + 1))
    {
      var o, o' := Occurrences(s, c, pos), Occurrences(s, c, pos + 1);
      if c != s[pos] {
        assert o' == o;
      } else if c != 0 {
        assert o' == o + [pos];
        if c in lastSeen && c !in reps {
          assert |o| == 1;
          assert o == [lastSeen[c]];
        }
      }
    }
  }

  /** `last_seen_pos` after the scan of `new` has covered the first n squares. */
  function LastSeenAfter(s: seq<int>, n: nat): map<int, nat>
    requires n <= |s|
  {
    if n == 0 then map[]
    else
      var lastSeen := LastSeenAfter(s, n - 1);
      if s[n - 1] == 0 then lastSeen else lastSeen[s[n - 1] := n - 1]
  }

  /** `repeats` after the scan of `new` has covered the first n squares. */
  function RepeatsAfter(s: seq<int>, n: nat): map<int, seq<nat>>
    requires n <= |s|
  {
    if n == 0 then map[]
    else
      var reps, lastSeen, c := RepeatsAfter(s, n - 1), LastSeenAfter(s, n - 1), s[n - 1];
      if c == 0 || c !in lastSeen then reps
      else if c in reps then reps[c := reps[c] + [n - 1]]
      else reps[c := [lastSeen[c], n - 1]]
  }

  /** The scan keeps both maps in step with the squares covered so far. */
  lemma {:induction false} ScanTracks(s: seq<int>, n: nat)
    requires n <= |s|
    ensures LastSeenTracks(s, n, LastSeenAfter(s, n))
    ensures RepeatsTrack(s, n, RepeatsAfter(s, n))
  {
    if n > 0 {
      ScanTracks(s, n - 1);
      LastSeenStep(s, n - 1, LastSeenAfter(s, n - 1), LastSeenAfter(s, n));
      RepeatsStep(s, n - 1, LastSeenAfter(s, n - 1), RepeatsAfter(s, n - 1), RepeatsAfter(s, n));
    }
  }

  /** The scan of `new`: one pass, adding an entry at a code's second sighting. */
  method ScanRepeats(initial: seq<int>) returns (reps: map<int, seq<nat>>)
    ensures reps == InitialRepeats(initial)
  {
    reps := map[];
    var lastSeen: map<int, nat> := map[];
    for pos := 0 to |initial|
      invariant lastSeen == LastSeenAfter(initial, pos)
      invariant reps == RepeatsAfter(initial, pos)
    {
      var id := initial[pos];
      if id != 0 {
        if id in lastSeen {
          var v := lastSeen[id];
          if id in reps {
            reps := reps[id := reps[id] + [pos]];
          } else {
            reps := reps[id := [v, pos]];
          }
        }
        lastSeen := lastSeen[id := pos];
      }
    }
    ScanTracks(initial, |initial|);
    ScanComplete(initial, reps);
  }

  /** The board as the class below keeps it. */
  class StandardBoard {
    const rowSize: nat
    const colSize: nat
    var state: array<int>
    var repeats: map<int, seq<nat>>

    function Value(): Snapshot
      reads this, state
    {
      Snapshot(rowSize, colSize, state[..], repeats)
    }

    /** `new`: the layout as given, with the `repeats` index its scan builds. */
    constructor (rowSize: nat, colSize: nat, initial: seq<int>)
      ensures Value() == Initial(rowSize, colSize, initial)
      ensures fresh(state)
    {
      var cells := new int[|initial|](i requires 0 <= i < |initial| => initial[i]);
      var reps := ScanRepeats(initial);
      this.rowSize, this.colSize := rowSize, colSize;
      state, repeats := cells, reps;
      new;
      assert state[..] == initial;
    }

    /** `get_id`, with its search of the version list. */
    method GetId(u: nat) returns (r: Option<PieceId>)
      requires Value().Decodable()
      ensures r == Value().IdAt(u)
    {
      if u >= state.Length {
        return None;
      }
      var id := state[u];
      if id in repeats {
        var versions := repeats[id];
        var version := 0;
        while version < |versions|
          invariant 0 <= version <= |versions|
          invariant forall j | 0 <= j < version :: versions[j] != u
        {
          if versions[version] == u {
            return Some(FromPair(id, version));
          }
          version := version + 1;
        }
      }
      return Some(FromPair(id, 0));
    }

    /** `get_id_not_none`. */
    method GetIdNotNone(u: nat) returns (r: Option<PieceId>)
      requires Value().Decodable()
      ensures r == Value().IdNotNoneAt(u)
    {
      var found := GetId(u);
      match found
      case Some(id) =>
        if !id.IsNone() {
          return Some(id);
        }
        return None;
      case None => return None;
    }

    /** `get_pos`, with its fallback scan of the whole board. */
    method GetPos(id: PieceId) returns (r: Option<nat>)
      ensures r == Value().PosOf(id)
    {
      var c := id.I();
      if c in repeats && id.version < |repeats[c]| {
        return Some(repeats[c][id.version]);
      }
      var idx := 0;
      while idx < state.Length
        invariant 0 <= idx <= state.Length
        invariant forall j | 0 <= j < idx :: state[j] != c
      {
        if state[idx] == c {
          return Some(idx);
        }
        idx := idx + 1;
      }
      return None;
    }

    /** `set_square`; the square being vacated is left as it is. */
    method SetSquare(id: PieceId, square: nat)
      requires square < state.Length
      requires id.I() in repeats ==> id.version < |repeats[id.I()]|
      modifies this, state
      ensures state == old(state)
      ensures Value() == old(Value()).SetSquare(id, square)
    {
      var c := id.I();
      if c in repeats {
        var versions: seq<nat> := repeats[c][id.version := square];
        repeats := repeats[c := versions];
      }
      state[square] := c;
    }

    /** `clear`. */
    method Clear()
      modifies this, state
      ensures state == old(state)
      ensures Value() == old(Value()).Cleared()
    {
      forall u | 0 <= u < state.Length {
        state[u] := 0;
      }
      repeats := map[];
    }

    /** `col(c)`: the codes of one column, top to bottom. */
    method Col(c: nat) returns (codes: seq<int>)
      requires c < colSize
      requires colSize == 0 || c + (colSize - 1) * rowSize < state.Length
      ensures |codes| == colSize
      ensures forall u | 0 <= u < colSize :: c + u * rowSize < state.Length && codes[u] == state[c + u * rowSize]
    {
      var column := new int[colSize];
      for u := 0 to colSize
        invariant forall k | 0 <= k < u :: c + k * rowSize < state.Length && column[k] == state[c + k * rowSize]
      {
        assert c + u * rowSize <= c + (colSize - 1) * rowSize by {
          MulMonotone(u, colSize - 1, rowSize);
        }
        column[u] := state[c + u * rowSize];
      }
      codes := column[..];
    }
  }

  lemma MulMonotone(a: nat, b: nat, n: nat)
    requires a <= b
    ensures a * n <= b * n
  {
    assert b * n == a * n + (b - a) * n;
  }
}
