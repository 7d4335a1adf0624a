/** The error values that stand for the source's `std::runtime_error` throws. */
module Results {

  datatype Result<+T, +E> = Ok(value: T) | Err(error: E)
}
