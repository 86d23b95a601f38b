/** The success-or-exception outcome of the operations that throw in PHP. */
module Results {

  datatype Result<T, E> = Success(value: T) | Failure(error: E)

  datatype Outcome<E> = Pass | Fail(error: E)

  datatype Option<T> = None | Some(value: T)
}
