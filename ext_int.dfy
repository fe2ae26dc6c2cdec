/** Integers extended with the two infinities that the Java code uses as
    sentinels (Double.NEGATIVE_INFINITY and Double.POSITIVE_INFINITY). */
module ExtInt {

  datatype XInt = NegInf | Fin(v: int) | PosInf

  /** a <= b in the extended order. */
  predicate Le(a: XInt, b: XInt)
  {
    match (a, b)
    case (NegInf, _) => true
    case (_, PosInf) => true
    case (Fin(x), Fin(y)) => x <= y
    case _ => false
  }

  predicate Lt(a: XInt, b: XInt)
  {
    !Le(b, a)
  }

  function Max(a: XInt, b: XInt): (r: XInt)
    ensures Le(a, r) && Le(b, r)
    ensures r == a || r == b
  {
    if Le(a, b) then b else a
  }

  /** Negation, used to turn a descending key order into an ascending one. */
  function Neg(a: XInt): XInt
  {
    match a
    case NegInf => PosInf
    case PosInf => NegInf
    case Fin(x) => Fin(-x)
  }

  lemma LeTotal(a: XInt, b: XInt)
    ensures Le(a, b) || Le(b, a)
  {
  }

  lemma LeTrans(a: XInt, b: XInt, c: XInt)
    requires Le(a, b) && Le(b, c)
    ensures Le(a, c)
  {
  }

  lemma LeAntisym(a: XInt, b: XInt)
    requires Le(a, b) && Le(b, a)
    ensures a == b
  {
  }

  lemma NegInvolution(a: XInt)
    ensures Neg(Neg(a)) == a
  {
  }

  lemma NegReverses(a: XInt, b: XInt)
    ensures Le(a, b) <==> Le(Neg(b), Neg(a))
  {
  }
}
