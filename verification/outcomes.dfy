/** Failure-carrying datatypes shared by every service of the model. */
module Outcomes {

  /** An optional value: `None` stands for Python's `None`. */
  datatype Option<+T> = None | Some(value: T)

  /** The failure a service call reports.
      `NotFound` and `BadRequest` are the HTTP 404 and 400 exceptions the
      services raise deliberately, with their detail text. `Unhandled` is an
      exception the services do not catch (a database constraint violation,
      a query that was required to return a row and returned none); it
      reaches the caller as an internal server error. */
  datatype Error =
    | NotFound(detail: string)
    | BadRequest(detail: string)
    | Unhandled(cause: string)

  /** The outcome of one service call: a value or the error it raised. */
  datatype Result<+T> = Ok(value: T) | Err(error: Error)

  /** Python truthiness of an optional string: `None` and `""` are false. */
  predicate Truthy(s: Option<string>)
    ensures Truthy(s) <==> s != None && s != Some("")
  {
    s.Some? && s.value != ""
  }
}
