/** Iterating over a Python set or dict, whose order the model leaves open. */
module Sets {

  /** Some element of a non-empty set: the next one an iteration visits. */
  method Pick<T>(s: set<T>) returns (x: T)
    requires s != {}
    ensures x in s
  {
    x :| x in s;
  }
}
