/** Results of operations that can fail. */
module Wrappers {
  datatype Option<+T> = None | Some(value: T)

  datatype Error = PageFull | InvalidPage | OutOfBounds | NoSuchSavepoint | NotActive
                 | UniqueFailed | NotNullFailed | CountMismatch | UnknownColumn | BadConversion
                 | RowNotFound | Truncated | BadType | Syntax | Unterminated

  datatype Result<+T> = Ok(value: T) | Err(error: Error)
}
