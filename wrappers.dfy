/** Optional values and success-or-error results, used for the pricers'
    "no unit price" answer and for the errors the pricing module raises. */
module Wrappers {

  datatype Option<+T> = None | Some(value: T)

  datatype Result<+R, +E> = Ok(value: R) | Err(error: E)
}
