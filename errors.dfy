/** The exceptions the library raises, named after the CLR exception types,
    and the result of an operation that either returns a value or throws. */
module Errors {

  datatype Exception =
    | ArgumentNull(paramName: string)          // ArgumentNullException
    | Argument(message: string)                // ArgumentException
    | ArgumentOutOfRange(paramName: string)    // ArgumentOutOfRangeException
    | InvalidOperation                         // InvalidOperationException
    | IndexOutOfRange                          // IndexOutOfRangeException raised by the runtime
    | NullReference                            // NullReferenceException raised by the runtime

  datatype Result<+T> = Ok(value: T) | Throws(error: Exception)

  /** The result of a guard: it either lets the call through or throws. */
  datatype Outcome = Pass | Fail(error: Exception)
}
