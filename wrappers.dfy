/** Small value wrappers shared by the model. */
module Wrappers {

  /** A value that may be absent; for a parsed number, `None` stands for NaN. */
  datatype Option<+T> = None | Some(value: T)

  /** The outcome of an HTTP request: the response body, or the failure's message. */
  datatype Reply<+T> = Ok(body: T) | Err(message: string)
}
