/** Failure-carrying wrappers used by the debt model: an optional value and a
    result that is either a value or the exception the program raises. */
module Results {

  datatype Option<+T> = None | Some(value: T)

  datatype Result<+T, +E> = Success(value: T) | Failure(error: E)
}
