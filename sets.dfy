/** Cardinality facts for the termination measures of the walks. */
module Sets {
  lemma SubsetCard<T>(s: set<T>, t: set<T>)
    requires s <= t
    ensures |s| <= |t|
    decreases |s|
  {
    if s != {} {
      var x :| x in s;
      SubsetCard(s - {x}, t - {x});
    }
  }

  /** Adding `x` of `universe` to a set brings it closer to `universe`. */
  lemma ShrinkAfterCreate<T>(universe: set<T>, before: set<T>, after: set<T>, x: T)
    requires before <= after && x in universe && x in after && x !in before
    ensures |universe - after| < |universe - before|
  {
    assert universe - after <= (universe - before) - {x};
    SubsetCard(universe - after, (universe - before) - {x});
  }
}
