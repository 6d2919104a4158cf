/** Option and exception-carrying results shared by the model. */
module Wrappers {

  /** A Java reference that may be null. */
  datatype Option<+T> = None | Some(value: T)

  /** The Java exceptions the modelled code can raise. */
  datatype Exception =
    /** `String.substring(1, 0)` on a lone quote in cleanAttributeValue. */
    | StringIndexOutOfBounds

  /** A value, or the exception thrown while computing it. */
  datatype Result<+T> = Ok(value: T) | Thrown(exception: Exception) {

    predicate IsFailure() {
      Thrown?
    }

    function PropagateFailure<U>(): Result<U>
      requires Thrown?
    {
      Thrown(exception)
    }

    function Extract(): T
      requires Ok?
    {
      value
    }
  }

  /** How a `void` Java method ended: normally, or by throwing. */
  datatype Outcome = Pass | Fail(exception: Exception)
}
