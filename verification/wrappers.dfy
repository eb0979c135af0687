/** Option and Result: Python's `Optional[...]` / JavaScript's `undefined`,
    and a value-or-exception result for operations that raise or throw. */
module Wrappers {

  datatype Option<+T> = None | Some(value: T)

  /** `Err(message)` stands for an exception carrying that message. */
  datatype Result<+T> = Ok(value: T) | Err(message: string)
}
