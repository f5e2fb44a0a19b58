/** Optional values, and the reply of an HTTP handler: a body with status 200 or an error status. */
module Wrappers {

  datatype Option<+T> = None | Some(value: T)

  /** What a route handler answers: `Ok` is a 200 response carrying a value, `Err` an error status. */
  datatype Reply<+T> = Ok(value: T) | Err(status: int)
}
