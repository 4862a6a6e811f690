/** Shared vocabulary: optional values, results and the error kinds the services raise. */
module Prelude {

  datatype Option<+T> = None | Some(value: T)

  datatype Result<+T, +E> = Ok(value: T) | Err(error: E)

  /** The kinds of `DomainError` the modelled handlers throw. */
  datatype DomainError =
    | InvalidCredentials
    | AccountLocked
    | AccountInactive
    | CurrentPasswordIncorrect
    | ExpiredResetToken
    | ExpiredConfirmationToken
    | NoPendingEmailChange
    | InvalidToken
    | EmailRevertWindowExpired
    | InvalidEmailChangeCode
    | EmailAlreadyExists
    | ValidationError
    | UserNotFound
    | InvalidRefreshToken
    | DuplicateKey          // a unique index refused the write
    | StoreFailure          // the database or Redis did not answer

  /** Which Redis commands of one call fail. */
  datatype Faults = Faults(read: bool, write: bool)

  /** Milliseconds since the epoch, as `Date.now()` returns them. */
  type Instant = int
}
