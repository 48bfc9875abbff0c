/** Optional values (a JavaScript `null`/`undefined`) and outcomes that are either a value or an error reply. */
module Results {

  datatype Option<+T> = None | Some(value: T)

  datatype Result<+T, +E> = Success(value: T) | Failure(error: E)
}
