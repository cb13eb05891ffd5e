/** Optional values, the exceptions the core raises, and results that carry them. */
module Outcomes {

  /** `java.util.Optional`, and a Java reference that may be null. */
  datatype Option<+T> = None | Some(value: T)

  /** The exceptions the modelled core lets reach its caller. */
  datatype Error =
    | IllegalArgument(message: string)  // IllegalArgumentException
    | IOFailure                         // IOException
    | NullPointer                       // NullPointerException (a switch on a null scheme)

  /** Either a value or the exception raised instead of returning one. */
  datatype Result<+T> = Ok(value: T) | Err(error: Error)
}
