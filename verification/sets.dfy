/** Facts about finite sets that the counters of the sync and review
    scripts rely on. */
module Sets {

  /** A set split into two disjoint parts is as large as both together. */
  lemma DisjointUnionSize<T>(a: set<T>, b: set<T>)
    requires a !! b
    ensures |a + b| == |a| + |b|
  {
    assert a * b == {};
  }
}
