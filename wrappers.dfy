/** Optional values and results with an error, used for every error path of the model. */
module Wrappers {

  datatype Option<+T> = None | Some(value: T)

  datatype Result<+T, +E> = Ok(value: T) | Err(error: E)

  /** How the server refuses to go on: a failed guarantee, which crashes it
      (the message is empty when the guarantee gives none), or an error
      reported to the user. */
  datatype Failure = GuaranteeFailed(message: string) | UserError(message: string)
}
