/** Shared vocabulary of the job tracker model: optional values, operation
    results, and the identifier and timestamp types the tables use. */
module Base {

  /** A value that may be absent (SQL NULL, Python None). */
  datatype Option<+T> = None | Some(value: T)

  /** The outcome of an operation that can be refused. */
  datatype Result<+T, +E> = Success(value: T) | Failure(error: E)

  /** Surrogate key of a row in the jobs table (SQLite rowids start at 1). */
  type JobId = int

  /** Surrogate key of a row in the photos table. */
  type PhotoId = int

  /** The logged-in user's id, taken from the session. */
  type UserId = int

  /** An ISO-8601 timestamp as produced by `datetime.now().isoformat()`.
      It is never empty, so a stored empty string can be read as "unset". */
  type Timestamp = s: string | |s| > 0 witness "0"

  /** Why an operation refused to change the store. */
  datatype Error =
    | Forbidden        // the session role may not perform the action
    | MissingRequired  // job number or customer name left blank
    | DuplicateJobNo   // the UNIQUE constraint on jobs.job_no
    | NotFound         // no job row with the given id
}
