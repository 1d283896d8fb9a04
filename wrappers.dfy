/** Small value wrappers shared by the whole model. */
module Wrappers {

  /** A value that may be absent: an omitted request field, a lookup that found nothing. */
  datatype Option<+T> = None | Some(value: T)

  /** What a request handler answers: a success status with its JSON body, or an error
      status with the human-readable message the handler puts in the body. */
  datatype Reply<+T> = Ok(status: int, body: T) | Err(status: int, message: string)
}
