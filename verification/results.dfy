/** Failure-compatible results shared by the three encoders of the query-result tree. */
module Results {

  /** Why an encoder gave up on a cell. */
  datatype Error =
    | NotAString(leaf: int)     // a leaf that is neither nil, text, a nested row nor an array
    | CastFailed(reason: string) // the declared type's parser or the columnar scalar appender refused the text
    | NotStructBuilder           // a nested row met a builder that is not a struct builder
    | NotListBuilder             // an array met a builder that is not a list builder

  datatype Option<+T> = None | Some(value: T)

  /** A value or the error that stopped its computation. */
  datatype Result<+T> = Ok(value: T) | Err(error: Error) {

    predicate IsFailure() {
      Err?
    }

    function PropagateFailure<U>(): Result<U>
      requires Err?
    {
      Err(error)
    }

    function Extract(): T
      requires Ok?
    {
      value
    }
  }
}
