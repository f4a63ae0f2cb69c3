/** The error kinds the validators and the endpoint handlers raise
    (app/core/errors.py), and the outcome of a handler. */
module Errors {

  datatype ErrorKind =
    | InvalidAmount
    | UserNotFound
    | SenderNotFound
    | RecipientNotFound
    | AlreadyExists
    | InsufficientFunds
    | SameUser
      /** The generic 500 answer of a handler's catch-all `except Exception`. */
    | Undefined

  /** What a handler answers: its response payload or the error kind it raised. */
  datatype Outcome<+T> = Success(value: T) | Failure(error: ErrorKind)
}
