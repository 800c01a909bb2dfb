/** Bytes and the failure-carrying results used throughout the model in place of Java exceptions. */
module Wrappers {

  /** An unsigned byte value as the streams carry it. */
  type byte = x: int | 0 <= x < 256

  datatype Option<+T> = None | Some(value: T)

  /** The Java exception classes the modelled code throws. */
  datatype Error =
    | IllegalArgument        // java.lang.IllegalArgumentException
    | IllegalState           // java.lang.IllegalStateException
    | IOFailure              // java.io.IOException
    | IndexOutOfBounds       // String/Array index out of bounds
    | UnsupportedOperation   // java.lang.UnsupportedOperationException
    | ClassCast              // java.lang.ClassCastException
    | EmptyStack             // java.util.EmptyStackException

  datatype Result<+T> = Ok(value: T) | Err(error: Error) {
    predicate IsFailure() { Err? }
    function PropagateFailure<U>(): Result<U>
      requires Err?
    {
      Err(error)
    }
    function Extract(): T
      requires Ok?
    {
      value
    }
  }

  /** A call that returns nothing, or throws. */
  datatype Outcome = Done | Fail(error: Error)
}
