/** Outcome types shared by the route handlers: an optional value, and the
    reply of a handler, which is either a value or an HTTP error status with
    the short message the server writes in its JSON body. */
module Http {

  datatype Option<+T> = None | Some(value: T)

  /** An error reply: the status code and the message of the `error` field. */
  datatype Failure = Failure(status: nat, message: string)

  datatype Result<+T> = Ok(value: T) | Err(failure: Failure)

  /** `res.sendStatus(401)`: Express writes the status text as the body. */
  const Unauthorized := Failure(401, "Unauthorized")

  /** `res.sendStatus(403)`. */
  const Forbidden := Failure(403, "Forbidden")
}
