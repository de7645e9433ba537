/** Properties of the `Compare` predicate a priority queue is parameterised by.
    `less(a, b)` means that `a` ranks below `b`; the queue keeps the element that
    ranks highest at its root. */
module Ordering {

  ghost predicate Asymmetric<T(!new)>(less: (T, T) -> bool) {
    forall a, b :: less(a, b) ==> !less(b, a)
  }

  /** "Not below" is transitive: if a is not below b and b is not below c, then
      a is not below c. */
  ghost predicate NegativelyTransitive<T(!new)>(less: (T, T) -> bool) {
    forall a, b, c {:trigger less(a, b), less(b, c), less(a, c)} ::
      !less(a, b) && !less(b, c) ==> !less(a, c)
  }

  /** A strict weak ordering, the requirement the C++ standard places on `Compare`.
      Asymmetry together with negative transitivity is equivalent to the usual
      definition (irreflexive, transitive, transitive incomparability). */
  ghost predicate StrictWeakOrder<T(!new)>(less: (T, T) -> bool) {
    Asymmetric(less) && NegativelyTransitive(less)
  }

}
