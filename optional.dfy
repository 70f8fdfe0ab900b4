/** Optional values and results, usable with the `:-` operator. */
module Optional {

  /** A value that may be absent; `None` also stands for PHP's `null`. */
  datatype Option<+T> = None | Some(value: T) {
    predicate IsFailure() { None? }

    function PropagateFailure<U>(): Option<U>
      requires None?
    {
      None
    }

    function Extract(): T
      requires Some?
    {
      value
    }
  }

  /** Either a value or the exception an operation throws. */
  datatype Result<+T, +E> = Success(value: T) | Failure(error: E)
}
