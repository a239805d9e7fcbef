/** Option and the outcome of an endpoint. */
module Wrappers {

  /** A row that may be missing, or a nullable column (`None` is SQL NULL). */
  datatype Option<+T> = None | Some(value: T)

  /** What an endpoint produces: a response value, or the HTTP status code of the
      exception it raises instead. */
  datatype Result<+T> = Ok(value: T) | Err(code: int)
}
