/**
 * Piece identities (src/piece/piece_id.rs): a kind, a side and a version
 * that tells apart pieces sharing kind and side.
 */
module PieceIds {
  import opened Signs
  import opened Pieces

  datatype PieceId = PieceId(piece: StandardPiece, sign: Sign, version: nat) {

    /** The identity holds the empty kind. */
    predicate IsNone() {
      piece == NoPiece
    }

    /** The signed code: kind code times side. */
    function I(): (code: int)
      ensures code == IntMul(ToInt(piece), sign)
      ensures code == 0 <==> piece == NoPiece || sign == NoSign
      ensures -MAX_CODE <= code <= MAX_CODE
    {
      IntMul(ToInt(piece), sign)
    }

    /** Same side (ownership, not identity). */
    predicate Matches(other: PieceId) {
      sign == other.sign
    }

    /** Opposite sides. */
    predicate Opposes(other: PieceId) {
      sign == Neg(other.sign)
    }
  }

  /** `From<(isize, usize)>`: the kind from |i|, the side from the signum of i. */
  function FromPair(i: int, version: nat): (id: PieceId)
    requires -MAX_CODE <= i <= MAX_CODE
    ensures id.I() == i && id.version == version
    ensures ToInt(id.piece) == Abs(i) && id.sign == Signs.FromInt(i)
  {
    PieceId(KindOf(i), Signs.FromInt(i), version)
  }

  /** `From<&PieceId> for (isize, usize)`. */
  function ToPair(id: PieceId): (p: (int, nat))
    ensures -MAX_CODE <= p.0 <= MAX_CODE
    ensures p.1 == id.version
    ensures (p.0 == 0) == (id.piece == NoPiece || id.sign == NoSign)
  {
    (id.I(), id.version)
  }

  /** `Default`: the empty kind, no side, version 0. */
  function Default(): (id: PieceId)
    ensures id.IsNone() && id.I() == 0 && id.version == 0 && id.sign == NoSign
  {
    PieceId(NoPiece, NoSign, 0)
  }

  /**
   * A canonical identity is one a signed code can produce: the empty kind
   * has no side, every other kind has one.
   */
  predicate Canonical(id: PieceId) {
    id.IsNone() <==> id.sign == NoSign
  }

  /** Converting a canonical identity to a pair and back gives it back. */
  lemma PairRoundTrip(id: PieceId)
    requires Canonical(id)
    ensures FromPair(ToPair(id).0, ToPair(id).1) == id
  {
    var back := FromPair(id.I(), id.version);
    ToIntInjective(back.piece, id.piece);
  }

  /** Converting a code to an identity and back gives the code. */
  lemma CodeRoundTrip(i: int, version: nat)
    requires -MAX_CODE <= i <= MAX_CODE
    ensures ToPair(FromPair(i, version)) == (i, version)
    ensures Canonical(FromPair(i, version))
  {
  }

  /** Signed codes of identities with a side are distinct per (kind, side). */
  lemma CodeInjective(a: PieceId, b: PieceId)
    requires !a.IsNone() && a.sign != NoSign
    requires a.I() == b.I()
    ensures a.piece == b.piece && a.sign == b.sign
  {
    ToIntInjective(a.piece, b.piece);
  }

  /** `matches` is an equivalence relation. */
  lemma MatchesEquivalence(a: PieceId, b: PieceId, c: PieceId)
    ensures a.Matches(a)
    ensures a.Matches(b) ==> b.Matches(a)
    ensures a.Matches(b) && b.Matches(c) ==> a.Matches(c)
  {
  }

  /** `opposes` is symmetric. */
  lemma OpposesSymmetric(a: PieceId, b: PieceId)
    ensures a.Opposes(b) <==> b.Opposes(a)
  {
  }

  /** Between sided identities, opposing is exactly not matching. */
  lemma OpposesIffNotMatches(a: PieceId, b: PieceId)
    requires a.sign != NoSign && b.sign != NoSign
    ensures a.Opposes(b) <==> !a.Matches(b)
  {
  }

  /** Two sideless identities both match and oppose each other. */
  lemma SidelessMatchAndOppose(a: PieceId, b: PieceId)
    requires a.sign == NoSign && b.sign == NoSign
    ensures a.Matches(b) && a.Opposes(b)
  {
  }
}
