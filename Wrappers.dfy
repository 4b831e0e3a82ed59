/** Option and Result, used for pandas' missing values and for Python exceptions. */
module Wrappers {

  /** A value that may be absent; `None` stands for a pandas NaN or a Python `None`. */
  datatype Option<+T> = None | Some(value: T)

  /** The outcome of an operation that raises on some inputs. */
  datatype Result<+R, +E> = Success(value: R) | Failure(error: E)
}
