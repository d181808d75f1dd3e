/** Optional values (nullable columns) and the outcome of a service call. */
module Wrappers {
  datatype Option<+T> = None | Some(value: T)

  /** The error a service call answers with; the table is then unchanged. */
  datatype Error =
    | BadRequest | NotFound | NotPending | CannotBeCancelled | CannotUpdate | RatingNotValid | OtpNotMatch
    | LanguageNotSupported | InvalidUserCode | DuplicateKey

  datatype Result<+T> = Ok(value: T) | Err(error: Error)
}
