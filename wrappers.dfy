/** An optional value, for the source's "returns a value or an error code"
    results. */
module Wrappers {
  datatype Option<T> = None | Some(value: T)

  /** `k` itself: a term for a quantifier over turns of a loop to be
      instantiated on, so that a fact about turn `k` is looked up only
      where a proof asks for it. */
  function Pin(k: nat): nat
  {
    k
  }
}
