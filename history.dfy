/**
 * Move history (src/chess/board.rs, with identical copies in
 * src/board/board_history.rs and src/board/board_slice.rs): a trail of
 * squares per piece, keyed by the piece's (code, version) pair, and the
 * `BoardSlice` list type with its rendering onto a fresh board.
 */
module History {
  import opened Wrappers
  import opened Pieces
  import opened PieceIds
  import CB = ChessBoard
  import LB = LegacyBoard
  import Layout

  /** The key a trail is stored under: `(id.i(), id.version())`. */
  function Key(id: PieceId): (int, nat) {
    ToPair(id)
  }

  /** The trail stored for an identity, if it has one. */
  function Trail(past: map<(int, nat), seq<nat>>, id: PieceId): (r: Option<seq<nat>>)
    ensures r.Some? <==> Key(id) in past
    ensures r.Some? ==> r.value == past[Key(id)]
  {
    if Key(id) in past then Some(past[Key(id)]) else None
  }

  /**
   * The trails after `push(id, u)`: the key's trail with u appended, or the
   * one-square trail [u] when the key had none; other keys keep theirs.
   */
  function Pushed(past: map<(int, nat), seq<nat>>, key: (int, nat), u: nat): (p: map<(int, nat), seq<nat>>)
    ensures p.Keys == past.Keys + {key}
    ensures key !in past ==> p[key] == [u]
    ensures key in past ==> |p[key]| == |past[key]| + 1 && p[key][..|past[key]|] == past[key] && p[key][|past[key]|] == u
    ensures forall k | k in past && k != key :: p[k] == past[k]
  {
    if key in past then past[key := past[key] + [u]] else past[key := [u]]
  }

  /**
   * Seen through `get_slice`, a push appends the square to the pushed
   * identity's trail (which starts as [u]) and leaves every identity with
   * another key as it was.
   */
  lemma PushedTrail(past: map<(int, nat), seq<nat>>, id: PieceId, u: nat)
    ensures Trail(Pushed(past, Key(id), u), id) == Some((if Key(id) in past then past[Key(id)] else []) + [u])
    ensures forall other | Key(other) != Key(id) :: Trail(Pushed(past, Key(id), u), other) == Trail(past, other)
  {
    var p := Pushed(past, Key(id), u);
    if Key(id) in past {
      assert p[Key(id)] == past[Key(id)] + [u];
    } else {
      assert p[Key(id)] == [] + [u];
    }
  }

  /** Two identities share a trail exactly when their codes and versions agree. */
  lemma SharedTrailIffSameKey(a: PieceId, b: PieceId, past: map<(int, nat), seq<nat>>, u: nat)
    requires Key(a) != Key(b)
    ensures Key(b) in Pushed(past, Key(a), u) <==> Key(b) in past
    ensures Key(b) in past ==> Pushed(past, Key(a), u)[Key(b)] == past[Key(b)]
  {
  }

  /**
   * The key forgets everything but the code and version: pieces of one kind
   * on opposite sides never share a trail, while any two side-less
   * identities of one version (code 0) do.
   */
  lemma KeySeparatesSides(a: PieceId, b: PieceId)
    ensures (a.piece == b.piece && a.piece != NoPiece && a.sign != b.sign &&
             a.sign != Signs.NoSign && b.sign != Signs.NoSign) ==> Key(a) != Key(b)
    ensures a.sign == Signs.NoSign && b.sign == Signs.NoSign && a.version == b.version ==> Key(a) == Key(b)
  {
    if a.piece == b.piece && a.piece != NoPiece && a.sign != b.sign && a.sign != Signs.NoSign && b.sign != Signs.NoSign {
      Signs.ScalingIsProduct(a.sign, ToInt(a.piece));
      Signs.ScalingIsProduct(b.sign, ToInt(b.piece));
      assert Key(a).0 == -Key(b).0;
    }
  }

  /** `BoardHistory`: every piece's trail of destination squares. */
  class BoardHistory {
    var past: map<(int, nat), seq<nat>>

    /** `new`: the given trails, or none. */
    constructor (initial: Option<map<(int, nat), seq<nat>>>)
      ensures past == if initial.Some? then initial.value else map[]
    {
      match initial
      case Some(p) => past := p;
      case None => past := map[];
    }

    /** `get_slice`: the trail stored under the identity's key, if any. */
    function GetSlice(id: PieceId): (r: Option<seq<nat>>)
      reads this
      ensures r.Some? <==> Key(id) in past
      ensures r.Some? ==> r.value == past[Key(id)]
    {
      Trail(past, id)
    }

    /** `push`: append the square to the identity's trail, starting one if needed. */
    method Push(id: PieceId, u: nat)
      modifies this
      ensures past == Pushed(old(past), Key(id), u)
    {
      var key := Key(id);
      match GetSlice(id)
      case Some(slice) =>
        var trail := new BoardSlice(Some(slice));
        trail.Push(u);
        past := past[key := trail.items];
      case None =>
        var trail := new BoardSlice(Some([u]));
        past := past[key := trail.items];
    }

    /** `clear`: forget every trail. */
    method Clear()
      modifies this
      ensures past == map[]
      ensures forall id: PieceId :: GetSlice(id).None?
    {
      past := map[];
    }
  }

  /** `BoardSlice`: a list of squares. */
  class BoardSlice {
    var items: seq<nat>

    /** `new`: the given squares, or none. */
    constructor (default: Option<seq<nat>>)
      ensures items == if default.Some? then default.value else []
    {
      match default
      case Some(n) => items := n;
      case None => items := [];
    }

    /** `inner`. */
    function Inner(): seq<nat>
      reads this
    {
      items
    }

    /** `push`: append one square. */
    method Push(u: nat)
      modifies this
      ensures items == old(items) + [u]
    {
      items := items + [u];
    }

    /**
     * `visualize` onto the newer board: a board of `size` empty squares on
     * which `fill` is set at every listed square.
     */
    method Visualize(rowSize: nat, colSize: nat, size: nat, fill: int) returns (visual: CB.StandardBoard)
      requires -MAX_CODE <= fill <= MAX_CODE
      requires forall k | 0 <= k < |items| :: items[k] < size
      ensures fresh(visual) && fresh(visual.ids)
      ensures visual.Value() == Painted(rowSize, colSize, size, items, fill)
    {
      var blank := seq(size, _ => 0);
      visual := new CB.StandardBoard(rowSize, colSize, blank);
      BlankHasNoCodes(blank);
      assert visual.Value() == Painted(rowSize, colSize, size, [], fill);
      var id := FromPair(fill, 0);
      CB.PackRoundTrip(fill, 0);
      for k := 0 to |items|
        invariant fresh(visual.ids)
        invariant visual.Value() == Painted(rowSize, colSize, size, items[..k], fill)
      {
        assert items[..k + 1] == items[..k] + [items[k]];
        visual.SetSquare(id, items[k]);
      }
      assert items[..|items|] == items;
    }

    /**
     * `visualize` onto the older board: a layout of `size` empty squares on
     * which `fill` is set at every listed square.
     */
    method VisualizeLegacy(rowSize: nat, colSize: nat, size: nat, fill: int) returns (visual: LB.StandardBoard)
      requires -MAX_CODE <= fill <= MAX_CODE
      requires forall k | 0 <= k < |items| :: items[k] < size
      ensures fresh(visual) && fresh(visual.state)
      ensures visual.Value() == PaintedLegacy(rowSize, colSize, size, items, fill)
    {
      var blank := seq(size, _ => 0);
      visual := new LB.StandardBoard(rowSize, colSize, blank);
      BlankHasNoCodes(blank);
      assert visual.Value() == PaintedLegacy(rowSize, colSize, size, [], fill);
      var id := FromPair(fill, 0);
      for k := 0 to |items|
        invariant fresh(visual.state)
        invariant visual.Value() == PaintedLegacy(rowSize, colSize, size, items[..k], fill)
      {
        assert items[..k + 1] == items[..k] + [items[k]];
        visual.SetSquare(id, items[k]);
      }
      assert items[..|items|] == items;
    }
  }

  /** An all-empty layout has no codes. */
  lemma BlankHasNoCodes(s: seq<int>)
    requires forall u | 0 <= u < |s| :: s[u] == 0
    ensures Layout.Codes(s) == {}
  {
  }

  /** The newer board a slice renders to: `fill`, version 0, on the listed squares, nothing elsewhere. */
  function Painted(rowSize: nat, colSize: nat, size: nat, items: seq<nat>, fill: int): CB.BoardState
  {
    CB.BoardState(rowSize, colSize, seq(size, u => if u in items then CB.Pack(fill, 0) else 0), map[])
  }

  /** The older board a slice renders to: `fill` on the listed squares, 0 elsewhere, no repeats. */
  function PaintedLegacy(rowSize: nat, colSize: nat, size: nat, items: seq<nat>, fill: int): LB.Snapshot {
    LB.Snapshot(rowSize, colSize, seq(size, u => if u in items then fill else 0), map[])
  }

  /**
   * A rendered newer board is valid, and reading any square back gives
   * `fill` on a listed square and the empty code elsewhere.
   */
  lemma PaintedReadsBack(rowSize: nat, colSize: nat, size: nat, items: seq<nat>, fill: int, u: nat)
    requires -MAX_CODE <= fill <= MAX_CODE
    ensures var b := Painted(rowSize, colSize, size, items, fill);
            b.Valid() && (u < size <==> b.GetId(u).Some?) &&
            (u < size ==> b.GetId(u).value.I() == (if u in items then fill else 0))
  {
    CB.PackRoundTrip(fill, 0);
    CB.PackRoundTrip(0, 0);
    var b := Painted(rowSize, colSize, size, items, fill);
    forall v | 0 <= v < size
      ensures -MAX_CODE <= CB.UnpackI(b.ids[v]) <= MAX_CODE
    {
    }
  }

  /**
   * A rendered older board is decodable, reads `fill` on a listed square and
   * the empty code elsewhere, and has no repeats.
   */
  lemma PaintedLegacyReadsBack(rowSize: nat, colSize: nat, size: nat, items: seq<nat>, fill: int, u: nat)
    requires -MAX_CODE <= fill <= MAX_CODE
    ensures var b := PaintedLegacy(rowSize, colSize, size, items, fill);
            b.Decodable() && b.repeats == map[] &&
            (u < size ==> b.IdAt(u).Some? && b.IdAt(u).value.I() == (if u in items then fill else 0))
  {
  }
}
