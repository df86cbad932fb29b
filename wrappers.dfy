/** Option and Result, used for absent values (a header or cache entry that is not
    there) and for operations that can fail (parsing a body as JSON). */
module Wrappers {

  datatype Option<+T> = None | Some(value: T)

  datatype Result<+T, +E> = Ok(value: T) | Err(error: E)
}
