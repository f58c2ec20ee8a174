/** Failure-carrying results shared by every container of the library. */
module Wrappers {

  /** An optional value; `None` stands for a null link or an absent result. */
  datatype Option<+T> = None | Some(value: T)

  /** The exceptions the containers throw, as values. */
  datatype Error =
    | KeyNotFound      // Map::at on an absent key
    | OutOfRange       // Vector::at / Array::at past the last element
    | InvalidIterator  // erase through end(), e.g. begin() of an empty list

  /** The outcome of an operation that either yields a value or throws. */
  datatype Result<+R> = Success(value: R) | Failure(error: Error)

  /** The outcome of an operation that yields nothing or throws. */
  datatype Outcome = Pass | Fail(error: Error)
}
