/** Success/failure outcomes, standing in for the exceptions the bindings raise. */
module Results {

  datatype Result<+T, +E> = Success(value: T) | Failure(error: E)
}
