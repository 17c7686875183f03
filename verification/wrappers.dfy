/** Optional values and success/failure results.

    `Option` stands for a TypeScript value that may be `undefined` or `null`;
    `Result` stands for an rxjs stream that either emits one value or errors.
 */
module Wrappers {

  /** A value that may be absent (`undefined` in the application). */
  datatype Option<+T> = None | Some(value: T)

  /** The outcome of an asynchronous request: a value, or an error payload. */
  datatype Result<+R, +E> = Success(value: R) | Failure(error: E)
}
