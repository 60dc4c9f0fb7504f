/** Optional values, the exceptions the Java code throws, and results that carry either. */
module Wrappers {

  /** A Java reference that may be null. */
  datatype Option<+T> = None | Some(value: T) {
    function GetOr(default: T): T {
      match this
      case Some(v) => v
      case None => default
    }
  }

  /** The Java exception classes the modelled code throws or lets escape. */
  datatype ErrorKind =
    | IllegalArgument       // IllegalArgumentException (also Guava Preconditions, ImmutableMap duplicates)
    | IO                    // IOException
    | FileNotFound          // FileNotFoundException
    | NullPointer           // NullPointerException
    | NumberFormat          // NumberFormatException from Integer.parseInt / Long.parseLong
    | IndexOutOfBounds      // ArrayIndexOutOfBoundsException and friends
    | Arithmetic            // ArithmeticException (division by zero)
    | IllegalFormat         // IllegalFormatException from String.format

  datatype Error = Error(kind: ErrorKind, message: string)

  /** The outcome of a Java call that either returns a value or throws. */
  datatype Result<+T> = Ok(value: T) | Err(error: Error) {
    predicate IsFailure() { Err? }

    function PropagateFailure<U>(): Result<U>
      requires Err?
    {
      Err(error)
    }

    function Extract(): T
      requires Ok?
    {
      value
    }
  }

  /** The outcome of a void Java call: it returns normally or throws. */
  datatype Outcome = Pass | Failure(error: Error)

  /** What a command's validateOptions decides: go on, or print the usage text with a message
    * and stop with an error exit code. */
  datatype Validation = Continue | Usage(message: string)

  function Fail<T>(kind: ErrorKind, message: string): Result<T> {
    Err(Error(kind, message))
  }
}
