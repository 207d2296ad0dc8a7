/**
 * The side of a piece (src/piece/sign.rs): an enum whose discriminants are
 * 0, 1 and -1, with operators mixing a side and a signed integer.
 */
module Signs {

  datatype Sign = NoSign | Positive | Negative

  /** The enum discriminant of a side: None = 0, Positive = 1, Negative = -1. */
  function Value(s: Sign): (v: int)
    ensures -1 <= v <= 1
    ensures (v == 0) == (s == NoSign)
  {
    match s
    case NoSign => 0
    case Positive => 1
    case Negative => -1
  }

  /** `Sign::from(isize)`: the side of an integer, by its signum. */
  function FromInt(i: int): (s: Sign)
    ensures s == Positive <==> i > 0
    ensures s == Negative <==> i < 0
    ensures s == NoSign <==> i == 0
  {
    if i > 0 then Positive else if i < 0 then Negative else NoSign
  }

  /** Unary minus on a side. */
  function Neg(s: Sign): (r: Sign)
    ensures Value(r) == -Value(s)
  {
    match s
    case NoSign => NoSign
    case Positive => Negative
    case Negative => Positive
  }

  /** `Sign * isize`: scales the integer by the side. */
  function MulInt(s: Sign, rhs: int): (r: int)
    ensures r == 0 <==> s == NoSign || rhs == 0
  {
    match s
    case NoSign => 0
    case Positive => rhs
    case Negative => -rhs
  }

  /** `isize * Sign`. */
  function IntMul(lhs: int, s: Sign): (r: int)
    ensures r == 0 <==> s == NoSign || lhs == 0
  {
    match s
    case NoSign => 0
    case Positive => lhs
    case Negative => -lhs
  }

  /** `Sign + isize`: moves the integer one unit in the side's direction. */
  function AddInt(s: Sign, rhs: int): (r: int)
    ensures r == rhs + Value(s)
  {
    match s
    case NoSign => rhs
    case Positive => rhs + 1
    case Negative => rhs - 1
  }

  /** `isize + Sign`. */
  function IntAdd(lhs: int, s: Sign): (r: int)
    ensures r == lhs + Value(s)
  {
    match s
    case NoSign => lhs
    case Positive => lhs + 1
    case Negative => lhs - 1
  }

  /**
   * `Sign - isize`. The side is subtracted FROM the integer, not the other
   * way round: the result is rhs - sign, exactly as for `isize - Sign`.
   */
  function SubInt(s: Sign, rhs: int): (r: int)
    ensures r == rhs - Value(s)
  {
    match s
    case NoSign => rhs
    case Positive => rhs - 1
    case Negative => rhs + 1
  }

  /** `isize - Sign`. */
  function IntSub(lhs: int, s: Sign): (r: int)
    ensures r == lhs - Value(s)
  {
    match s
    case NoSign => lhs
    case Positive => lhs - 1
    case Negative => lhs + 1
  }

  /**
   * Scaling by a side is multiplication by its discriminant, and the
   * discriminant of an integer's side times the integer is never negative.
   * (Kept out of the operators' own contracts so that proofs about them
   * stay linear.)
   */
  lemma ScalingIsProduct(s: Sign, n: int)
    ensures MulInt(s, n) == Value(s) * n && IntMul(n, s) == n * Value(s)
    ensures Value(FromInt(n)) * n >= 0
  {
  }

  /** Negation is an involution that fixes only NoSign. */
  lemma NegInvolutive(s: Sign)
    ensures Neg(Neg(s)) == s
    ensures Neg(s) == s <==> s == NoSign
  {
  }

  /** Both operand orders of `*`, `+` and `-` agree. */
  lemma OperandOrderIrrelevant(s: Sign, n: int)
    ensures MulInt(s, n) == IntMul(n, s)
    ensures AddInt(s, n) == IntAdd(n, s)
    ensures SubInt(s, n) == IntSub(n, s)
  {
  }

  /** NoSign is neutral for `+` and `-`, and absorbing for `*`. */
  lemma NoSignNeutral(n: int)
    ensures AddInt(NoSign, n) == n && SubInt(NoSign, n) == n
    ensures MulInt(NoSign, n) == 0
  {
  }

  /** The side of a side's own discriminant is that side. */
  lemma {:induction false} FromValue(s: Sign)
    ensures FromInt(Value(s)) == s
    ensures FromInt(MulInt(s, 1)) == s
  {
  }

  /** Multiplying by a side and then by its opposite negates. */
  lemma MulNeg(s: Sign, n: int)
    ensures MulInt(Neg(s), n) == -MulInt(s, n)
  {
  }
}
