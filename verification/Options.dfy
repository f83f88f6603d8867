/** The two wrapper types and the fact about sets that other modules share. */
module Options {

  datatype Option<+T> = None | Some(value: T)

  /** The outcome of an operation that the original ends with a return or a raised error. */
  datatype Result<+T, +E> = Ok(value: T) | Err(error: E)

  /** A part of a set has no more elements. */
  lemma {:induction false} Fewer<T>(a: set<T>, b: set<T>)
    requires a <= b
    ensures |a| <= |b|
  {
    if x :| x in a {
      Fewer(a - {x}, b - {x});
    }
  }
}
