/** Optional values and the outcomes a catalog request can end with. */
module Outcomes {

  /** An optional value; `None` stands for Python's `None`. */
  datatype Option<+T> = None | Some(value: T)

  /** The ways a catalog request fails, classified by the kind of the
      exception raised: the referenced id is not stored (NotFound), a
      payload breaks a field constraint (ValidationError, whether the
      framework or the handler raised it), or some other exception escapes
      the handler (ServerError). */
  datatype Error = NotFound | ValidationError | ServerError

  /** A request that answers with a value, or fails. */
  datatype Result<+T> = Ok(value: T) | Err(error: Error)

  /** A request that answers with a confirmation message only, or fails. */
  datatype Status = Done | Failed(error: Error)
}
