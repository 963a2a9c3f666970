/** The two result shapes used across the model: a value that may be missing, and a
    computation that may fail with an error. */
module Results {
  datatype Option<+T> = None | Some(value: T)

  datatype Result<+T, +E> = Ok(value: T) | Err(error: E)
}
