/** The exception classes thrown by the two containers, and the value that an
    operation returns instead of throwing one. */
module Errors {

  /** `container_is_empty`, `index_out_of_bound` and `invalid_iterator`. */
  datatype Error = ContainerIsEmpty | IndexOutOfBound | InvalidIterator

  /** Either the value an operation returns or the exception it throws. */
  datatype Result<+R> = Ok(value: R) | Err(error: Error)
}
