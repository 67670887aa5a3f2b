/** Failure-carrying values shared by every endpoint of the model.

    The controllers answer either a JSON payload or an error status; the model
    keeps only the kind of error, leaving status codes and payload encoding to
    the transport layer.
 */
module Outcome {

  /** A value that may be absent (a missing request field, a null reference). */
  datatype Option<+T> = None | Some(value: T)

  /** The error kinds the endpoints produce.
      - NotFound: a referenced record does not exist (HTTP 404).
      - Invalid: a required field is missing or malformed (HTTP 400).
      - Conflict: the email is already registered (HTTP 409).
      - Unauthorized: the password does not verify (HTTP 401).
      - ServerError: the request aborts with an uncaught exception (HTTP 500),
        e.g. a foreign-key violation at flush time or a null tutor. */
  datatype Error = NotFound | Invalid | Conflict | Unauthorized | ServerError

  /** The outcome of one endpoint. */
  datatype Result<+T> = Ok(value: T) | Err(error: Error)
}
