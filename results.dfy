/** Optional values and the error outcomes of the HTTP handlers. */
module Results {

  datatype Option<+T> = None | Some(value: T)

  /** The failures a handler can end in: a 404 with its detail text, or an
      unhandled Python exception (KeyError, TypeError), which FastAPI turns into a 500. */
  datatype Error = NotFound(detail: string) | ServerError

  datatype Result<+T> = Ok(value: T) | Err(error: Error)
}
