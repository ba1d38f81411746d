/** Optional values and results with an error message, used wherever the modelled
    code returns `None` or raises an exception that aborts the caller. */
module Wrappers {

  datatype Option<+T> = None | Some(value: T)

  /** `Err(e)` stands for a Python exception of kind `e` that propagates to the caller. */
  datatype Result<+T> = Ok(value: T) | Err(error: string)
}
