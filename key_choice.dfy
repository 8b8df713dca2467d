/** Picking one element of a non-empty key set, for loops that visit every key once. */
module KeyChoice {
  /** A set that differs from the empty set has an element. */
  lemma NonEmptyHasElement(s: set<int>)
    requires s != {}
    ensures exists k :: k in s
  {
    if forall k :: k !in s {
      assert false;
    }
  }

  /** Any one key still to visit (the sweep's result does not depend on the visiting order). */
  method PickKey(pending: set<int>) returns (k: int)
    requires pending != {}
    ensures k in pending
  {
    NonEmptyHasElement(pending);
    k :| k in pending;
  }
}
