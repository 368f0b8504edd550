/** The status codes that operations return, and a result that carries a value or a status. */
module Status {
  datatype Code =
    | InvalidArgument
    | NotFound
    | AlreadyExists
    | ConstraintViolation
    | Corruption
    | TransactionError
    | InternalError
    | IoError

  /** The codes of failures below the statements: reading, writing, committing and rolling back. */
  predicate StorageFailure(code: Code) {
    code == IoError || code == InternalError || code == TransactionError
  }

  datatype Result<+T> = Ok(value: T) | Err(code: Code)

  datatype Outcome = Done | Failed(code: Code)

  datatype Option<+T> = None | Some(value: T)
}
