/** Optional values and success-or-failure results, used for JavaScript's
    `undefined`/`null` results and for thrown exceptions. */
module Common {

  datatype Option<+T> = None | Some(value: T)

  datatype Result<+T, +E> = Success(value: T) | Failure(error: E)
}
