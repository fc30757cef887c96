/** The result and error types shared by the product service: a service error
    carries a caller-facing message, the underlying cause (kept for logging)
    and an HTTP-style status code. */
module Types {

  const StatusBadRequest := 400
  const StatusNotFound := 404
  const StatusInternalServerError := 500

  /** The underlying error a service error wraps. */
  datatype Cause =
    | NoRows         // sql.ErrNoRows from a lookup by id
    | InvalidPrice   // the negative-price check
    | Driver         // any other failure of the storage driver (or a cancelled context)
    | DecimalParse   // decimal.NewFromString rejected the price text
    | DecimalScan    // types.Decimal.Scan rejected the decimal text

  datatype ServiceError = ServiceError(message: string, cause: Cause, code: int)

  /** An error carries exactly one of the three status classifications. */
  predicate Classified(e: ServiceError) {
    e.code == StatusBadRequest || e.code == StatusNotFound || e.code == StatusInternalServerError
  }

  /** An entity, or exactly one service error and no entity. */
  datatype Result<T> = Ok(value: T) | Err(error: ServiceError)

  /** What an operation without a result value returns: nil, or one service error. */
  datatype Outcome = Success | Failure(error: ServiceError)
}
