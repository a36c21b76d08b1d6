/** Failure-compatible wrappers used throughout the model. */
module Wrappers {

  /** An optional value: `None` stands for JavaScript's `undefined`/`null`. */
  datatype Option<+T> = None | Some(value: T)

  /** Either a value or an error, for operations that reject some inputs. */
  datatype Result<+R, +E> = Success(value: R) | Failure(error: E)
}
