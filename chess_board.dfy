/**
 * The newer board (src/chess/standard/board.rs): every square holds a packed
 * 64-bit identity (the signed code in the high 32 bits, the version in the
 * low 32), and every code maps to the squares of its versions.
 */
module ChessBoard {
  import opened Wrappers
  import opened Pieces
  import opened Signs
  import opened PieceIds
  import opened Layout
  import opened BoardViews

  const HALF: int := 0x1_0000_0000
  const I32_LIMIT: int := 0x8000_0000
  const U64_MODULUS: int := HALF * HALF

  /** `convert_to_id`: the code as an i32 shifted up 32 bits, or-ed with the version as a u32. */
  function Pack(i: int, version: nat): (p: nat)
    ensures p < U64_MODULUS
    ensures p / HALF == i % HALF && p % HALF == version % HALF
  {
    (i % HALF) * HALF + version % HALF
  }

  /** `convert_to_i`: the high 32 bits read as a signed i32. */
  function UnpackI(p: nat): (i: int)
    ensures -I32_LIMIT <= i < I32_LIMIT || p >= U64_MODULUS
  {
    var high := p / HALF;
    if high >= I32_LIMIT then high - HALF else high
  }

  /** `convert_to_version`: the low 32 bits. */
  function UnpackVersion(p: nat): (v: nat)
    ensures v < HALF
  {
    p % HALF
  }

  /** The packed form of an identity. */
  function PackId(id: PieceId): nat {
    Pack(id.I(), id.version)
  }

  /** Packing keeps the code, and the version modulo 2^32. */
  lemma PackRoundTrip(i: int, version: nat)
    requires -I32_LIMIT <= i < I32_LIMIT
    ensures UnpackI(Pack(i, version)) == i
    ensures UnpackVersion(Pack(i, version)) == version % HALF
  {
    var p := Pack(i, version);
    assert p / HALF == i % HALF;
  }

  /** Versions below 2^32 survive packing unchanged. */
  lemma SmallVersion(version: nat)
    requires version < HALF
    ensures version % HALF == version
  {
  }

  /** Every 64-bit word is the packing of its own halves. */
  lemma UnpackRoundTrip(p: nat)
    requires p < U64_MODULUS
    ensures Pack(UnpackI(p), UnpackVersion(p)) == p
  {
    var high := p / HALF;
    assert p == high * HALF + p % HALF;
    assert UnpackI(p) % HALF == high;
  }

  /** The empty word is exactly the packing of code 0 at a version that is 0 modulo 2^32. */
  lemma PackZero(i: int, version: nat)
    requires -I32_LIMIT <= i < I32_LIMIT
    ensures Pack(i, version) == 0 <==> i == 0 && version % HALF == 0
  {
    PackRoundTrip(i, version);
  }

  /** The board's contents as a value. */
  datatype BoardState = BoardState(rowSize: nat, colSize: nat, ids: seq<nat>, positions: map<int, seq<nat>>) {

    /** Every square decodes to a code of the standard taxonomy. */
    predicate Valid() {
      forall u | 0 <= u < |ids| :: -MAX_CODE <= UnpackI(ids[u]) <= MAX_CODE
    }

    /** `get_id`: the identity unpacked from square u, none beyond the board. */
    function GetId(u: nat): (r: Option<PieceId>)
      requires Valid()
      ensures r.None? <==> u >= |ids|
      ensures r.Some? ==> r.value.I() == UnpackI(ids[u]) && r.value.version == UnpackVersion(ids[u])
      ensures r.Some? ==> Canonical(r.value)
    {
      if u >= |ids| then None else Some(FromPair(UnpackI(ids[u]), UnpackVersion(ids[u])))
    }

    /** What `get_id` reports for every square on the board, in square order. */
    function View(): (v: BoardView)
      requires Valid()
      ensures |v.occupants| == |ids| && v.rowSize == rowSize && v.colSize == colSize
    {
      BoardView(OccupantsBelow(|ids|), rowSize, colSize)
    }

    /** The identities of the squares below n. */
    function OccupantsBelow(n: nat): (s: seq<PieceId>)
      requires Valid() && n <= |ids|
      ensures |s| == n
    {
      if n == 0 then [] else OccupantsBelow(n - 1) + [GetId(n - 1).value]
    }

    /** Every square's identity in the view is the one `get_id` reports. */
    lemma ViewAt(u: nat)
      requires Valid()
      ensures GetId(u) == (if u < |ids| then Some(View().occupants[u]) else None)
    {
      if u < |ids| {
        OccupantsBelowAt(|ids|, u);
      }
    }

    /** The view's occupied squares are the ones `get_id_not_none` reports. */
    lemma ViewOccupied(u: nat)
      requires Valid()
      ensures View().Occupied(u) <==> GetIdNotNone(u).Some?
    {
      ViewAt(u);
    }

    lemma {:induction false} OccupantsBelowAt(n: nat, u: nat)
      requires Valid() && u < n <= |ids|
      ensures OccupantsBelow(n)[u] == GetId(u).value
    {
      if u < n - 1 {
        OccupantsBelowAt(n - 1, u);
      }
    }

    /** `get_id_not_none`: as `get_id`, but none for the empty piece too. */
    function GetIdNotNone(u: nat): (r: Option<PieceId>)
      requires Valid()
      ensures r.None? <==> u >= |ids| || UnpackI(ids[u]) == 0
      ensures r.Some? ==> r == GetId(u)
    {
      match GetId(u)
      case Some(id) => if !id.IsNone() then Some(id) else None
      case None => None
    }

    /** `get_pos` does not panic: the code has a list and the version (mod 2^32) an entry in it. */
    predicate Locatable(id: PieceId) {
      id.IsNone() || (id.I() in positions && id.version % HALF < |positions[id.I()]|)
    }

    /** `get_pos`: none for the empty piece, else the listed square of the version. */
    function GetPos(id: PieceId): (r: Option<nat>)
      requires Locatable(id)
      ensures r.None? <==> id.IsNone()
      ensures r.Some? ==> r.value == positions[id.I()][id.version % HALF]
    {
      if id.IsNone() then None
      else
        var p := PackId(id);
        PackRoundTrip(id.I(), id.version);
        Some(positions[UnpackI(p)][UnpackVersion(p)])
    }

    /** `get_slice`: the occupied squares, in increasing order. */
    function Slice(n: nat := |ids|): (squares: seq<nat>)
      requires n <= |ids|
      ensures Increasing(squares)
      ensures forall u: nat :: u in squares <==> u < n && ids[u] != 0
    {
      if n == 0 then []
      else
        var front := Slice(n - 1);
        assert forall j | 0 <= j < |front| :: front[j] < n - 1 by {
          forall j | 0 <= j < |front| ensures front[j] < n - 1 {
            assert front[j] in front;
          }
        }
        if ids[n - 1] != 0 then front + [n - 1] else front
    }

    /** Whether `set_square` can run: the square exists and the version's slot does too. */
    predicate CanSet(id: PieceId, square: nat) {
      square < |ids| &&
      (id.I() in positions ==> id.version % HALF < |positions[id.I()]|)
    }

    /** `set_square`: pack the identity onto the square and record the square for its version. */
    function SetSquare(id: PieceId, square: nat): (b: BoardState)
      requires CanSet(id, square)
      ensures b.rowSize == rowSize && b.colSize == colSize && |b.ids| == |ids|
      ensures b.ids == ids[square := PackId(id)]
      ensures b.positions.Keys == positions.Keys
      ensures forall c | c in positions && c != id.I() :: b.positions[c] == positions[c]
      ensures id.I() in positions ==> b.positions[id.I()] == positions[id.I()][id.version % HALF := square]
    {
      var p := PackId(id);
      PackRoundTrip(id.I(), id.version);
      var c := UnpackI(p);
      if c in positions then
        var versions: seq<nat> := positions[c][UnpackVersion(p) := square];
        BoardState(rowSize, colSize, ids[square := p], positions[c := versions])
      else
        BoardState(rowSize, colSize, ids[square := p], positions)
    }

    /** `clear`: every square empty, no version lists. */
    function Cleared(): (b: BoardState)
      ensures b.rowSize == rowSize && b.colSize == colSize && |b.ids| == |ids|
      ensures forall u | 0 <= u < |b.ids| :: b.ids[u] == 0
      ensures b.positions == map[]
    {
      BoardState(rowSize, colSize, seq(|ids|, _ => 0), map[])
    }

    /** `row(r)`: the codes of one row. */
    function Row(r: nat): (codes: seq<int>)
      requires r < rowSize && r * rowSize + colSize <= |ids|
      requires colSize == rowSize
      ensures |codes| == rowSize
      ensures forall k | 0 <= k < rowSize :: codes[k] == UnpackI(ids[r * rowSize + k])
    {
      seq(colSize, k requires 0 <= k < colSize => UnpackI(ids[r * rowSize + k]))
    }

    /** The version lists hold standard codes only. */
    predicate KeysDecodable() {
      forall c | c in positions :: -MAX_CODE <= c <= MAX_CODE
    }

    /** `get_all_pieces`: the kinds that have a version list. */
    function AllPieces(): (kinds: set<StandardPiece>)
      requires KeysDecodable()
      ensures forall k :: k in kinds <==> exists c | c in positions :: ToInt(k) == Abs(c)
    {
      set c | c in positions :: KindOf(c)
    }

    /** `get_all_versions`: the versions 0 .. n - 1 of the code kind × side. */
    function AllVersions(piece: StandardPiece, sign: Sign): (versions: seq<nat>)
      requires IntMul(ToInt(piece), sign) in positions
      ensures |versions| == |positions[IntMul(ToInt(piece), sign)]|
      ensures forall k | 0 <= k < |versions| :: versions[k] == k
    {
      seq(|positions[IntMul(ToInt(piece), sign)]|, k => k)
    }
  }

  /** The packed word `new` gives square u of a layout: the square's rank among its code's squares. */
  function InitialId(s: seq<int>, u: nat): nat
    requires u < |s|
  {
    if s[u] == 0 then 0 else Pack(s[u], |Occurrences(s, s[u], u)|)
  }

  /** The version lists `new` builds: every non-zero code's squares in order. */
  function InitialPositions(s: seq<int>): map<int, seq<nat>> {
    map c | c in Codes(s) :: Occurrences(s, c, |s|)
  }

  /** `new`, numbering each code's versions from 0. */
  function Initial(rowSize: nat, colSize: nat, s: seq<int>): BoardState {
    BoardState(rowSize, colSize, seq(|s|, u requires 0 <= u < |s| => InitialId(s, u)), InitialPositions(s))
  }

  /** `new` as written: the version is the list's length after the push, so numbering starts at 1. */
  function InitialAsWritten(rowSize: nat, colSize: nat, s: seq<int>): BoardState {
    BoardState(rowSize, colSize,
               seq(|s|, u requires 0 <= u < |s| => AsWrittenId(s, u)),
               InitialPositions(s))
  }

  /** A code of a layout has a version list exactly when it is non-zero and occurs. */
  lemma InitialPositionsKeys(s: seq<int>, c: int)
    ensures c in InitialPositions(s) <==> c != 0 && |Occurrences(s, c, |s|)| >= 1
  {
    CodesMembership(s, c);
  }

  /** What the packed word of a fresh square decodes to. */
  lemma InitialIdDecodes(s: seq<int>, u: nat)
    requires u < |s| && -MAX_CODE <= s[u] <= MAX_CODE
    ensures UnpackI(InitialId(s, u)) == s[u]
    ensures UnpackVersion(InitialId(s, u)) == if s[u] == 0 then 0 else |Occurrences(s, s[u], u)| % HALF
  {
    if s[u] != 0 {
      PackRoundTrip(s[u], |Occurrences(s, s[u], u)|);
    }
  }

  /** A layout of standard codes gives a valid board whose squares decode to the layout. */
  lemma InitialDecodes(rowSize: nat, colSize: nat, s: seq<int>)
    requires forall u | 0 <= u < |s| :: -MAX_CODE <= s[u] <= MAX_CODE
    ensures Initial(rowSize, colSize, s).Valid()
    ensures forall u | 0 <= u < |s| :: Initial(rowSize, colSize, s).GetId(u).value.I() == s[u]
  {
    var b := Initial(rowSize, colSize, s);
    forall u | 0 <= u < |s|
      ensures UnpackI(b.ids[u]) == s[u]
    {
      InitialIdDecodes(s, u);
    }
  }

  /** On a freshly built board, the position of the identity on square u is u. */
  lemma InitialGetPosOfGetId(rowSize: nat, colSize: nat, s: seq<int>, u: nat)
    requires forall k | 0 <= k < |s| :: -MAX_CODE <= s[k] <= MAX_CODE
    requires u < |s| && s[u] != 0
    requires |s| < HALF
    ensures var b := Initial(rowSize, colSize, s);
            b.Valid() && b.Locatable(b.GetId(u).value) && b.GetPos(b.GetId(u).value) == Some(u)
  {
    var b := Initial(rowSize, colSize, s);
    InitialDecodes(rowSize, colSize, s);
    var id := b.GetId(u).value;
    var rank := |Occurrences(s, s[u], u)|;
    assert b.ids[u] == InitialId(s, u);
    InitialIdDecodes(s, u);
    assert id.I() == s[u];
    assert rank <= u;
    SmallVersion(rank);
    OccurrenceRank(s, u);
    InitialPositionsKeys(s, s[u]);
    assert b.positions[s[u]] == Occurrences(s, s[u], |s|);
    assert b.Locatable(id);
    assert b.GetPos(id) == Some(u);
  }

  /** The packed word `new` as written gives square u. */
  function AsWrittenId(s: seq<int>, u: nat): nat
    requires u < |s|
  {
    if s[u] == 0 then 0 else Pack(s[u], |Occurrences(s, s[u], u + 1)|)
  }

  /** The board `new` builds as written decodes to the layout. */
  lemma AsWrittenDecodes(rowSize: nat, colSize: nat, s: seq<int>)
    requires forall k | 0 <= k < |s| :: -MAX_CODE <= s[k] <= MAX_CODE
    ensures InitialAsWritten(rowSize, colSize, s).Valid()
  {
    var b := InitialAsWritten(rowSize, colSize, s);
    forall k | 0 <= k < |s|
      ensures UnpackI(b.ids[k]) == s[k]
    {
      assert b.ids[k] == AsWrittenId(s, k);
      if s[k] != 0 {
        PackRoundTrip(s[k], |Occurrences(s, s[k], k + 1)|);
      }
    }
  }

  /** As written, square u of a fresh board carries version 1 + its rank among its code's squares. */
  lemma AsWrittenGetId(rowSize: nat, colSize: nat, s: seq<int>, u: nat)
    requires forall k | 0 <= k < |s| :: -MAX_CODE <= s[k] <= MAX_CODE
    requires u < |s| && s[u] != 0
    requires |s| < HALF
    ensures InitialAsWritten(rowSize, colSize, s).Valid()
    ensures InitialAsWritten(rowSize, colSize, s).GetId(u) == Some(FromPair(s[u], |Occurrences(s, s[u], u)| + 1))
  {
    var b := InitialAsWritten(rowSize, colSize, s);
    AsWrittenDecodes(rowSize, colSize, s);
    var n := |Occurrences(s, s[u], u + 1)|;
    assert n == |Occurrences(s, s[u], u)| + 1;
    PackRoundTrip(s[u], n);
    SmallVersion(n);
    assert b.ids[u] == Pack(s[u], n);
  }

  /**
   * With the numbering as written, the identity on a square locates the next
   * square of the same code, or no square at all (the lookup then panics).
   */
  lemma AsWrittenGetPosMisses(rowSize: nat, colSize: nat, s: seq<int>, u: nat)
    requires forall k | 0 <= k < |s| :: -MAX_CODE <= s[k] <= MAX_CODE
    requires u < |s| && s[u] != 0
    requires |s| < HALF
    ensures var id := FromPair(s[u], |Occurrences(s, s[u], u)| + 1);
            var b := InitialAsWritten(rowSize, colSize, s);
            b.Locatable(id) ==> b.GetPos(id).value > u
  {
    var b := InitialAsWritten(rowSize, colSize, s);
    var n := |Occurrences(s, s[u], u)| + 1;
    var id := FromPair(s[u], n);
    SmallVersion(n);
    if b.Locatable(id) {
      var all := Occurrences(s, s[u], |s|);
      assert id.I() == s[u] && id.version % HALF == n;
      assert b.positions[s[u]] == all;
      assert all[n - 1] == u by {
        OccurrenceRank(s, u);
      }
      assert all[n - 1] < all[n] by {
        OccurrencesExact(s, s[u], |s|);
      }
    }
  }

  /** A lone king on a one-square board: as written, looking up its position panics. */
  lemma AsWrittenLoneKing()
    ensures var b := InitialAsWritten(1, 1, [6]);
            b.GetId(0) == Some(FromPair(6, 1)) && !b.Locatable(FromPair(6, 1))
  {
    var s := [6];
    assert Occurrences(s, 6, 1) == [0];
    PackRoundTrip(6, 1);
    InitialPositionsKeys(s, 6);
  }

  /** After `set_square`, the square holds the identity (version mod 2^32) and no other square changed. */
  lemma SetSquareThenGetId(b: BoardState, id: PieceId, square: nat)
    requires b.Valid() && b.CanSet(id, square)
    ensures b.SetSquare(id, square).Valid()
    ensures b.SetSquare(id, square).GetId(square) == Some(FromPair(id.I(), id.version % HALF))
    ensures forall u | u != square :: b.SetSquare(id, square).GetId(u) == b.GetId(u)
  {
    PackRoundTrip(id.I(), id.version);
  }

  /** After `set_square` of a listed identity, `get_pos` finds it on its new square. */
  lemma SetSquareThenGetPos(b: BoardState, id: PieceId, square: nat)
    requires b.CanSet(id, square) && !id.IsNone() && id.I() in b.positions
    ensures b.SetSquare(id, square).Locatable(id)
    ensures b.SetSquare(id, square).GetPos(id) == Some(square)
  {
    PackRoundTrip(id.I(), id.version);
  }

  /** After `clear`, every square reads as the empty piece and the slice is empty. */
  lemma ClearedIsEmpty(b: BoardState)
    ensures b.Cleared().Valid()
    ensures forall u | 0 <= u < |b.ids| :: b.Cleared().GetIdNotNone(u).None?
    ensures b.Cleared().Slice() == []
  {
    var c := b.Cleared();
    if c.Slice() != [] {
      assert c.Slice()[0] in c.Slice();
    }
  }

  /** The board as the class below keeps it. */
  class StandardBoard {
    const rowSize: nat
    const colSize: nat
    var ids: array<nat>
    var positions: map<int, seq<nat>>

    function Value(): BoardState
      reads this, ids
    {
      BoardState(rowSize, colSize, ids[..], positions)
    }

    /** `new`: one pass pushing each square onto its code's list and packing its version. */
    constructor (rowSize: nat, colSize: nat, initial: seq<int>)
      requires forall c | c in initial :: -MAX_CODE <= c <= MAX_CODE
      ensures Value() == Initial(rowSize, colSize, initial)
      ensures fresh(ids)
    {
      var cells := new nat[|initial|](_ => 0);
      var lists: map<int, seq<nat>> := map[];
      for pos := 0 to |initial|
        invariant lists == ListsAfter(initial, pos)
        invariant forall k | 0 <= k < pos :: cells[k] == InitialId(initial, k)
        invariant forall k | pos <= k < |initial| :: cells[k] == 0
      {
        var i := initial[pos];
        if i != 0 {
          var list := if i in lists then lists[i] else [];
          ListsAfterTracks(initial, pos, i);
          lists := lists[i := list + [pos]];
          cells[pos] := Pack(i, |lists[i]| - 1);
        }
      }
      ListsComplete(initial);
      this.rowSize, this.colSize := rowSize, colSize;
      ids, positions := cells, lists;
      new;
      assert ids[..] == Initial(rowSize, colSize, initial).ids;
    }

    /** `get_id`. */
    method GetId(u: nat) returns (r: Option<PieceId>)
      requires Value().Valid()
      ensures r == Value().GetId(u)
    {
      if u >= ids.Length {
        return None;
      }
      var p := ids[u];
      return Some(FromPair(UnpackI(p), UnpackVersion(p)));
    }

    /** `get_pos`. */
    method GetPos(id: PieceId) returns (r: Option<nat>)
      requires Value().Locatable(id)
      ensures r == Value().GetPos(id)
    {
      if id.IsNone() {
        return None;
      }
      var p := PackId(id);
      PackRoundTrip(id.I(), id.version);
      return Some(positions[UnpackI(p)][UnpackVersion(p)]);
    }

    /** `set_square`. */
    method SetSquare(id: PieceId, square: nat)
      requires Value().CanSet(id, square)
      modifies this, ids
      ensures ids == old(ids)
      ensures Value() == old(Value()).SetSquare(id, square)
    {
      var p := PackId(id);
      PackRoundTrip(id.I(), id.version);
      ids[square] := p;
      var c := UnpackI(p);
      if c in positions {
        var versions: seq<nat> := positions[c][UnpackVersion(p) := square];
        positions := positions[c := versions];
      }
    }

    /** `clear`. */
    method Clear()
      modifies this, ids
      ensures ids == old(ids)
      ensures Value() == old(Value()).Cleared()
    {
      forall u | 0 <= u < ids.Length {
        ids[u] := 0;
      }
      positions := map[];
    }

    /** `col(c)`: the codes of one column, top to bottom. */
    method Col(c: nat) returns (codes: seq<int>)
      requires c < colSize
      requires colSize == 0 || c + (colSize - 1) * rowSize < ids.Length
      ensures |codes| == colSize
      ensures forall u | 0 <= u < colSize ::
                c + u * rowSize < ids.Length && codes[u] == UnpackI(ids[c + u * rowSize])
    {
      var column := new int[colSize];
      for u := 0 to colSize
        invariant forall k | 0 <= k < u ::
                    c + k * rowSize < ids.Length && column[k] == UnpackI(ids[c + k * rowSize])
      {
        assert c + u * rowSize <= c + (colSize - 1) * rowSize by {
          MulMonotone(u, colSize - 1, rowSize);
        }
        column[u] := UnpackI(ids[c + u * rowSize]);
      }
      codes := column[..];
    }
  }

  /** The version lists after the scan of `new` has covered the first n squares. */
  function ListsAfter(s: seq<int>, n: nat): map<int, seq<nat>>
    requires n <= |s|
  {
    if n == 0 then map[]
    else
      var lists, c := ListsAfter(s, n - 1), s[n - 1];
      if c == 0 then lists
      else lists[c := (if c in lists then lists[c] else []) + [n - 1]]
  }

  /** During the scan, a code's list holds exactly its squares so far. */
  lemma {:induction false} ListsAfterTracks(s: seq<int>, n: nat, c: int)
    requires n <= |s|
    ensures c in ListsAfter(s, n) <==> c != 0 && |Occurrences(s, c, n)| >= 1
    ensures c in ListsAfter(s, n) ==> ListsAfter(s, n)[c] == Occurrences(s, c, n)
  {
    if n > 0 {
      ListsAfterTracks(s, n - 1, c);
    }
  }

  /** Once the scan has covered the layout, its lists are the initial version lists. */
  lemma ListsComplete(s: seq<int>)
    ensures ListsAfter(s, |s|) == InitialPositions(s)
  {
    var lists := ListsAfter(s, |s|);
    forall c ensures c in lists <==> c in InitialPositions(s) {
      ListsAfterTracks(s, |s|, c);
      InitialPositionsKeys(s, c);
    }
    forall c | c in lists ensures lists[c] == InitialPositions(s)[c] {
      ListsAfterTracks(s, |s|, c);
    }
  }

  lemma MulMonotone(a: nat, b: nat, n: nat)
    requires a <= b
    ensures a * n <= b * n
  {
    assert b * n == a * n + (b - a) * n;
  }
}
