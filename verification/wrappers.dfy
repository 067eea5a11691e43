/** Failure-carrying datatypes shared by the model: an optional value and a
    result that is either a value or the exception the Python code would raise. */
module Wrappers {

  /** `None` plays the part of Python's `None`. */
  datatype Option<+T> = None | Some(value: T)

  /** `Err` stands for an exception that escapes the modelled function. */
  datatype Result<+T, +E> = Ok(value: T) | Err(error: E)
}
