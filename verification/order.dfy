/** The ordering both priority queues are parametric over.
    `Compare(a, b)` reads "b is more extreme than a": b is popped before a.
    The queues are instantiated with their default functor, `std::less` on
    integers, so the most extreme element is the largest one. */
module Order {

  predicate Compare(a: int, b: int) {
    a < b
  }

  /** `!Compare` is transitive: if neither b beats a nor c beats b, then c does not beat a. */
  lemma NotCompareTransitive(a: int, b: int, c: int)
    requires !Compare(a, b) && !Compare(b, c)
    ensures !Compare(a, c)
  {
  }
}
