/** Result types for the exceptions the patcher can raise. */
module Wrappers {

  datatype Option<+T> = None | Some(value: T)

  /** The exceptions the model keeps, one constructor per .NET exception. */
  datatype Error =
    | DuplicateKey      // ArgumentException from Dictionary.Add on a key already present
    | ConversionFailed  // exception thrown by the type converter
    | KeyNotFound       // KeyNotFoundException from the schema dictionary's indexer

  datatype Result<+T> = Ok(value: T) | Err(error: Error)

  /** A call that returns normally (Pass) or throws (Fail). */
  datatype Outcome = Pass | Fail(error: Error)
}
