/** A fact about finite sets that the loops over table keys rely on. */
module Sets {

  /** A non-empty set has an element; this names one, so that a loop can pick a key of a table. */
  lemma Pick<T>(s: set<T>) returns (x: T)
    requires s != {}
    ensures x in s
  {
    x :| x in s;
  }
}
