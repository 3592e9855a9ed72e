/** A fact about finite sets shared by the cache and graph models. */
module Sets {

  /** A proper subset of a finite set is strictly smaller. */
  lemma ProperSubsetSize<T>(a: set<T>, b: set<T>, x: T)
    requires a <= b && x in b && x !in a
    ensures |a| < |b|
  {
    var extra := b - a;
    assert b == a + extra;
    assert a * extra == {};
    assert x in extra;
  }
}
