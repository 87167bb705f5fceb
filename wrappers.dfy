/** Option and Result values: SQL NULL and JavaScript `null`/absent become None,
    a thrown Error becomes Failure. */
module Wrappers {

  datatype Option<+T> = None | Some(value: T)

  datatype Result<+T, +E> = Success(value: T) | Failure(error: E)
}
