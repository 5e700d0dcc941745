/** Failure-carrying result types shared by the parser, the record stream and
    the object stream. A thrown JavaScript `Error` becomes an `Err`. */
module Wrappers {

  datatype Option<+T> = None | Some(value: T)

  datatype Result<+T, +E> = Ok(value: T) | Err(error: E)
}
