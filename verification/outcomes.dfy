/** Option and Result values shared by the validators, the post engine and the
    error reducer, plus the flat error object every layer passes around. */
module Outcomes {

  /** A value that may be absent: a request field that was not sent, or a
      document lookup that found nothing. */
  datatype Option<+T> = None | Some(value: T)

  /** The outcome of an operation that may fail with a typed error. */
  datatype Result<+R, +E> = Success(value: R) | Failure(error: E)

  /** A flat JSON object of field name to message, such as `{ text: "..." }`. */
  type ErrorMap = map<string, string>
}
