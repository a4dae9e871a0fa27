/** Results of operations that may throw, and optional answers for operations
    that return a null pointer. */
module Outcome {
  /** The standard exceptions the containers throw. */
  datatype Error = LogicError | OutOfRange | InvalidArgument

  datatype Result<T> = Ok(value: T) | Fail(error: Error)

  datatype Option<T> = None | Some(value: T)
}
