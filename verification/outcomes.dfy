/** Results of the endpoints: a value, or one of the errors the backend
    surfaces to its caller. */
module Outcomes {

  datatype Option<T> = None | Some(value: T)

  /** The failures the core can produce. `NotFound` is the 404 of the photo
      endpoints, `Conflict` the 409 of hashtag creation, `IntegrityError` a
      unique-constraint violation raised by the database on commit, and
      `StorageFailure` an exception raised by the blob transfer. */
  datatype Error = NotFound | Conflict | IntegrityError | StorageFailure

  datatype Result<T> = Ok(value: T) | Err(error: Error)

  /** Python truthiness of an optional string: present and non-empty. */
  predicate Truthy(s: Option<string>) {
    s.Some? && s.value != ""
  }
}
