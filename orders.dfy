/** Animation orders and the comparator the scheduler sorts them with.

    An order is any JavaScript number except NaN: a finite value or one of
    the two infinities. The scheduler sorts with the comparator
    `(a, b) => a.order - b.order`; the array sort reads a negative result as
    "a first", a positive one as "b first", and zero or NaN as a tie. */
module Orders {

  datatype Order = NegInf | Fin(r: real) | PosInf {
    /** `Number.isFinite` on the order value. */
    predicate IsFinite() { Fin? }
  }

  /** Sign of `a - b` in IEEE arithmetic, with the NaN that `∞ - ∞` and
      `-∞ - -∞` produce read as 0, as the array sort reads it. */
  function Compare(a: Order, b: Order): (c: int)
    ensures -1 <= c <= 1
    ensures a == b ==> c == 0
  {
    match (a, b)
    case (Fin(x), Fin(y)) => if x < y then -1 else if x > y then 1 else 0
    case (NegInf, NegInf) => 0
    case (PosInf, PosInf) => 0
    case (NegInf, _) => -1
    case (PosInf, _) => 1
    case (_, NegInf) => 1
    case (_, PosInf) => -1
  }

  /** `a` sorts strictly before `b`. */
  predicate Less(a: Order, b: Order) { Compare(a, b) < 0 }

  /** `a` and `b` compare equal: the sort keeps their input order. */
  predicate Tied(a: Order, b: Order) { Compare(a, b) == 0 }

  /** The comparator is antisymmetric, as the array sort requires of a
      consistent comparator. */
  lemma CompareAntisymmetric(a: Order, b: Order)
    ensures Compare(a, b) == -Compare(b, a)
  {
  }

  /** Ties are exactly the pairs where neither side sorts first. */
  lemma TiedIffNeitherLess(a: Order, b: Order)
    ensures Tied(a, b) <==> !Less(a, b) && !Less(b, a)
  {
  }

  /** "Not after" is transitive, so the comparator induces a total preorder. */
  lemma NotLessTransitive(a: Order, b: Order, c: Order)
    requires !Less(b, a) && !Less(c, b)
    ensures !Less(c, a)
  {
  }

  /** Strict order is irreflexive and transitive. */
  lemma LessTransitive(a: Order, b: Order, c: Order)
    requires Less(a, b) && Less(b, c)
    ensures Less(a, c) && !Less(a, a)
  {
  }

  /** Ties form an equivalence; equal infinities tie with each other. */
  lemma TiedEquivalence(a: Order, b: Order, c: Order)
    ensures Tied(a, a)
    ensures Tied(a, b) ==> Tied(b, a)
    ensures Tied(a, b) && Tied(b, c) ==> Tied(a, c)
    ensures Tied(PosInf, PosInf) && Tied(NegInf, NegInf)
  {
  }

  /** A strictly smaller order never ties with a larger one's class. */
  lemma LessRespectsTies(a: Order, b: Order, k: Order)
    requires Less(a, b) && Tied(a, k)
    ensures !Tied(b, k)
  {
  }

  /** The infinities are the permanent first and last anchors: nothing sorts
      before negative infinity or after positive infinity. */
  lemma InfinitiesAreAnchors(a: Order)
    ensures !Less(a, NegInf) && !Less(PosInf, a)
    ensures a.IsFinite() ==> Less(NegInf, a) && Less(a, PosInf)
  {
  }
}
