/** Small result types shared by the survey model. */
module Wrappers {

  datatype Option<+T> = None | Some(value: T)

  /** What an HTTP handler sends back: a JSON body, or the error status sent instead
      (404 NotFound, 400 BadRequest, 500 ServerError). */
  datatype Response<+T> = Ok(body: T) | NotFound | BadRequest | ServerError
}
