/** Values shared by every component: an optional value and the outcome of a fallible call. */
module Prelude {

  /** A Go pointer or slice that may be nil. */
  datatype Option<+T> = None | Some(value: T)

  /** A Go `(value, error)` pair. */
  datatype Result<+T, +E> = Ok(value: T) | Err(error: E)

  /** A subset is no larger than the set it comes from. */
  lemma SubsetSize<T>(small: set<T>, big: set<T>)
    requires small <= big
    ensures |small| <= |big|
  {
    assert big == small + (big - small);
  }
}
