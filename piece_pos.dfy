/**
 * Square addressing (src/piece/piece_pos.rs): a square is a row-major index
 * u = x + y * rowSize; neighbours are computed in signed arithmetic and cast
 * back with `as usize`.
 */
module Positions {
  import opened Signs

  /** 2^64: the `usize` range. */
  const USIZE_MODULUS: int := 0x1_0000_0000_0000_0000

  /** `usize::MAX`, the step count of sliding moves. */
  const USIZE_MAX: nat := USIZE_MODULUS - 1

  /**
   * `n as usize` for a signed n: the two's-complement reinterpretation. A
   * negative n becomes a huge index, which every board reports as absent.
   */
  function AsUsize(n: int): (u: nat)
    ensures u < USIZE_MODULUS
    ensures 0 <= n < USIZE_MODULUS ==> u == n
    ensures n < 0 && -USIZE_MODULUS <= n ==> u == n + USIZE_MODULUS
  {
    n % USIZE_MODULUS
  }

  /** `From<(isize, isize, &Board)>`: the index of square (x, y). */
  function FromXY(x: int, y: int, rowSize: nat): nat
    requires x >= 0 && y >= 0
  {
    x + y * rowSize
  }

  /** `From<&PiecePos> for (isize, isize)`: column and row of an index. */
  function ToXY(u: nat, rowSize: nat): (xy: (int, int))
    requires rowSize > 0
    ensures 0 <= xy.0 < rowSize && 0 <= xy.1
  {
    (u % rowSize, u / rowSize)
  }

  /** `PiecePos::is_inbounds`. */
  predicate IsInbounds(x: int, y: int, rowSize: nat, colSize: nat) {
    0 <= x < rowSize && 0 <= y < colSize
  }

  /** Division by rowSize undoes x + y * rowSize when x is a column. */
  lemma DivModUnique(u: int, rowSize: nat, x: int, y: int)
    requires rowSize > 0 && 0 <= x < rowSize && 0 <= y
    requires u == x + y * rowSize
    ensures u / rowSize == y && u % rowSize == x
  {
    var q, r := u / rowSize, u % rowSize;
    assert u == q * rowSize + r;
    if q > y {
      MulAtLeast(q - y, rowSize);
    } else if q < y {
      MulAtLeast(y - q, rowSize);
    }
  }

  lemma MulAtLeast(k: int, n: nat)
    requires k >= 1
    ensures k * n >= n
  {
    if k > 1 {
      MulAtLeast(k - 1, n);
      assert k * n == (k - 1) * n + n;
    }
  }

  /** (x, y) -> index -> (x, y) is the identity on columns within the row. */
  lemma XYRoundTrip(x: int, y: int, rowSize: nat)
    requires 0 <= x < rowSize && 0 <= y
    ensures ToXY(FromXY(x, y, rowSize), rowSize) == (x, y)
  {
    DivModUnique(FromXY(x, y, rowSize), rowSize, x, y);
  }

  /** index -> (x, y) -> index is the identity. */
  lemma SquareRoundTrip(u: nat, rowSize: nat)
    requires rowSize > 0
    ensures FromXY(ToXY(u, rowSize).0, ToXY(u, rowSize).1, rowSize) == u
  {
  }

  /** An in-bounds square lies inside the rowSize x colSize grid. */
  lemma InboundsBelowArea(x: int, y: int, rowSize: nat, colSize: nat)
    requires IsInbounds(x, y, rowSize, colSize)
    ensures FromXY(x, y, rowSize) < rowSize * colSize
  {
    assert FromXY(x, y, rowSize) < (y + 1) * rowSize;
    assert (y + 1) * rowSize <= colSize * rowSize;
  }

  /** `top`: one row forward for the side. */
  function Top(u: nat, s: Sign, rowSize: nat): nat {
    AsUsize(u + MulInt(s, rowSize))
  }

  /** `bottom`: one row backward for the side. */
  function Bottom(u: nat, s: Sign, rowSize: nat): nat {
    AsUsize(u - MulInt(s, rowSize))
  }

  /** `left`: the index minus the side. */
  function Left(u: nat, s: Sign): nat {
    AsUsize(IntSub(u, s))
  }

  /** `right`: the index plus the side. */
  function Right(u: nat, s: Sign): nat {
    AsUsize(IntAdd(u, s))
  }

  /** `topleft`: a row forward for the side, then one index down whatever the side. */
  function TopLeft(u: nat, s: Sign, rowSize: nat): nat {
    AsUsize(u + MulInt(s, rowSize) - 1)
  }

  /** `topright`. */
  function TopRight(u: nat, s: Sign, rowSize: nat): nat {
    AsUsize(u + MulInt(s, rowSize) + 1)
  }

  /** `bottomleft`. */
  function BottomLeft(u: nat, s: Sign, rowSize: nat): nat {
    AsUsize(u - MulInt(s, rowSize) - 1)
  }

  /** `bottomright`. */
  function BottomRight(u: nat, s: Sign, rowSize: nat): nat {
    AsUsize(u - MulInt(s, rowSize) + 1)
  }

  /** `offset(sign, n)`: n indices in the side's direction. */
  function Offset(u: nat, s: Sign, n: nat): nat {
    AsUsize(u + MulInt(s, n))
  }

  /** Casting twice is casting once, whatever was added in between. */
  lemma WrapAdd(a: int, b: int)
    ensures AsUsize(AsUsize(a) + b) == AsUsize(a + b)
  {
    var q := a / USIZE_MODULUS;
    assert a == q * USIZE_MODULUS + AsUsize(a);
    assert a + b == (AsUsize(a) + b) + q * USIZE_MODULUS;
  }

  /** Every index of the usize range is a fixed point of the cast. */
  lemma AsUsizeOfIndex(u: nat)
    requires u < USIZE_MODULUS
    ensures AsUsize(u) == u
  {
  }

  /** `top` and `bottom` undo each other (modulo 2^64, so even across a wrap). */
  lemma TopBottomInverse(u: nat, s: Sign, rowSize: nat)
    requires u < USIZE_MODULUS
    ensures Bottom(Top(u, s, rowSize), s, rowSize) == u
    ensures Top(Bottom(u, s, rowSize), s, rowSize) == u
  {
    WrapAdd(u + MulInt(s, rowSize), -MulInt(s, rowSize));
    WrapAdd(u - MulInt(s, rowSize), MulInt(s, rowSize));
  }

  /** `left` and `right` undo each other. */
  lemma LeftRightInverse(u: nat, s: Sign)
    requires u < USIZE_MODULUS
    ensures Left(Right(u, s), s) == u
    ensures Right(Left(u, s), s) == u
  {
    WrapAdd(IntAdd(u, s), -Value(s));
    WrapAdd(IntSub(u, s), Value(s));
  }

  /**
   * The diagonals are a straight step forward or backward for the side
   * followed by a fixed step of one index that does not depend on the side.
   */
  lemma DiagonalsIgnoreSide(u: nat, s: Sign, rowSize: nat)
    ensures TopLeft(u, s, rowSize) == Left(Top(u, s, rowSize), Positive)
    ensures TopRight(u, s, rowSize) == Right(Top(u, s, rowSize), Positive)
    ensures BottomLeft(u, s, rowSize) == Left(Bottom(u, s, rowSize), Positive)
    ensures BottomRight(u, s, rowSize) == Right(Bottom(u, s, rowSize), Positive)
  {
    var up, down := u + MulInt(s, rowSize), u - MulInt(s, rowSize);
    assert Top(u, s, rowSize) == AsUsize(up) && Bottom(u, s, rowSize) == AsUsize(down);
    UnitStepAfterCast(up);
    UnitStepAfterCast(down);
  }

  /** A unit step after the cast lands where the unit step before it does. */
  lemma UnitStepAfterCast(a: int)
    ensures AsUsize(a - 1) == Left(AsUsize(a), Positive)
    ensures AsUsize(a + 1) == Right(AsUsize(a), Positive)
  {
    assert IntSub(AsUsize(a), Positive) == AsUsize(a) + -1;
    assert IntAdd(AsUsize(a), Positive) == AsUsize(a) + 1;
    WrapAdd(a, -1);
    WrapAdd(a, 1);
  }

  /** `offset` by a side-less identity stays put; by a whole row it is `top`. */
  lemma OffsetFacts(u: nat, s: Sign, rowSize: nat)
    requires u < USIZE_MODULUS
    ensures Offset(u, NoSign, rowSize) == u
    ensures Offset(u, s, rowSize) == Top(u, s, rowSize)
  {
  }
}
