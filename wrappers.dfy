/** Option and failure types shared by the whole model.  Java's `null` becomes
    `None`, and every exception the library can raise becomes an `Error` value. */
module Wrappers {

  datatype Option<+T> = None | Some(value: T)

  /** The exceptions of the library, plus the runtime crashes that its code can
      run into (a failed cast, a null dereference, an index out of range). */
  datatype Error =
    | ItemNotFound          // ItemNotFoundException
    | ItemAlreadyReturned   // ItemAlreadyReturnedException
    | ParseFailure          // java.text.ParseException
    | IllegalArgument       // IllegalArgumentException
    | ClassCast             // ClassCastException
    | NullPointer           // NullPointerException
    | IndexOutOfBounds      // (String|Array)IndexOutOfBoundsException

  /** A value or the exception that was thrown instead. */
  datatype Result<+R> = Ok(value: R) | Err(error: Error) {
    predicate IsFailure() { Err? }

    function PropagateFailure<U>(): Result<U>
      requires Err?
    {
      Err(error)
    }

    function Extract(): R
      requires Ok?
    {
      value
    }
  }

  /** Outcome of a `void` Java method that may throw. */
  datatype Outcome = Pass | Fail(error: Error)
}
