/** Shared result types: Java's `null` becomes `None`, and the exceptions the
    library throws become the `Failure` arm of `Result`. */
module Wrappers {

  datatype Option<+T> = None | Some(value: T)

  /** The exception classes the library throws, explicitly or through the JVM. */
  datatype Error =
    | IllegalArgument     // java.lang.IllegalArgumentException
    | NoSuchElement       // java.util.NoSuchElementException
    | NullPointer         // a dereference or unboxing of null
    | IndexOutOfBounds    // an array or list index outside its bounds
    | NegativeArraySize   // java.lang.NegativeArraySizeException

  datatype Result<+T> = Success(value: T) | Failure(error: Error)
  {
    predicate IsFailure() { Failure? }

    function PropagateFailure<U>(): Result<U>
      requires Failure?
    {
      Failure(error)
    }

    function Extract(): T
      requires Success?
    {
      value
    }
  }

  /** `Outcome` is a `Result` without a value, for operations that return `void`. */
  datatype Outcome = Pass | Fail(error: Error)
}
