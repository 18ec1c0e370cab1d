/** Result shapes shared by the schemas and the routes. */
module Outcomes {

  /** Python's `None` / a present value. */
  datatype Option<+T> = None | Some(value: T)

  /** What a schema validator does with a field or a body: hands it on, or raises a validation error. */
  datatype Checked<+T> = Accepted(value: T) | Rejected

  /** What a writing route answers: its success message, a 404, or a request body the schema refused. */
  datatype Status = Done | NotFound | Invalid

  /** What a reading route answers: the value, a 404, or an exception that escapes the handler (a 500). */
  datatype Reply<+T> = Ok(value: T) | Missing | ServerError
}
