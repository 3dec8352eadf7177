/** Facts about finite sets. */
module Sets {

  lemma HasElement(s: set<int>)
    requires s != {}
    ensures exists x :: x in s
  {
    if forall x :: x !in s {
      assert false;
    }
  }

  lemma SubsetSize<T>(small: set<T>, large: set<T>)
    requires small <= large
    ensures |small| <= |large|
  {
    assert large == small + (large - small);
  }

  lemma ProperSubsetSize<T>(small: set<T>, large: set<T>, x: T)
    requires small <= large && x in large && x !in small
    ensures |small| < |large|
  {
    assert large == small + (large - small);
    assert x in large - small;
  }
}
