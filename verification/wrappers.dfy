/** Optional values and the exceptions the modelled code lets escape. */
module Wrappers {

  /** Python's `Optional[T]`: `None` or a value. */
  datatype Option<+T> = None | Some(value: T)

  /** The exceptions that escape the modelled functions. */
  datatype Error =
    | DetectorValueError   // insightface's `get` raised ValueError where nothing catches it
    | UndefinedName        // a NameError raised by a reference to an undefined variable

  /** A value, or the exception that was raised instead; usable with `:-`. */
  datatype Result<+T> = Ok(value: T) | Raised(error: Error) {

    predicate IsFailure() {
      Raised?
    }

    function PropagateFailure<U>(): Result<U>
      requires Raised?
    {
      Raised(error)
    }

    function Extract(): T
      requires Ok?
    {
      value
    }
  }
}
