/** Failure-carrying wrappers used across the model. */
module Results {

  /** Either nothing, or exactly one value; the model's reading of a getter
      that hands back a possibly null pointer. */
  datatype Option<+T> = None | Some(value: T)

  /** Either what an operation produced, or the error it reported instead of
      producing it (the model's reading of a thrown exception). */
  datatype Result<+T, +E> = Success(value: T) | Failure(error: E)
}
