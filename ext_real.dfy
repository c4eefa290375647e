/** Rewards extended with the two infinities.

    The engine seeds its best-ever reward with minus infinity (when maximizing)
    or plus infinity (when minimizing), and `fix_best` may copy that sentinel
    into the cumulative rewards of the last walker, so rewards are taken over
    the reals with both infinities added. */
module ExtReals {

  datatype ExtReal = NegInf | Fin(value: real) | PosInf

  /** The strict order of the extended reals: NegInf < every Fin < PosInf. */
  predicate Less(a: ExtReal, b: ExtReal)
  {
    match a
    case NegInf => !b.NegInf?
    case Fin(x) => (b.Fin? && x < b.value) || b.PosInf?
    case PosInf => false
  }

  predicate LessEq(a: ExtReal, b: ExtReal)
  {
    Less(a, b) || a == b
  }

  /** Adding a finite reward; an infinite total stays infinite (as in floating point). */
  function AddReal(a: ExtReal, r: real): (s: ExtReal)
    ensures a.Fin? <==> s.Fin?
    ensures a.Fin? ==> s.value - a.value == r
    ensures !a.Fin? ==> s == a
  {
    match a
    case Fin(x) => Fin(x + r)
    case _ => a
  }

  lemma LessIsStrictTotalOrder(a: ExtReal, b: ExtReal, c: ExtReal)
    ensures !Less(a, a)
    ensures Less(a, b) ==> !Less(b, a)
    ensures Less(a, b) && Less(b, c) ==> Less(a, c)
    ensures a != b ==> Less(a, b) || Less(b, a)
  {
  }
}
