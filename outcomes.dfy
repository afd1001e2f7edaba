/** Optional values and success-or-error results, used wherever the editor
    either returns nothing (`None` in Python) or raises. */
module Outcomes {

  datatype Option<+T> = None | Some(value: T)

  datatype Result<+T, +E> = Ok(value: T) | Err(error: E)
}
