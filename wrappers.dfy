/** Option and Result, used for Java's nullable references and for the
    exception that aborts a Spark job. */
module Wrappers {

  datatype Option<+T> = None | Some(value: T)

  datatype Result<+R, +E> = Success(value: R) | Failure(error: E)
}
