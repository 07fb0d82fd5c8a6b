/**
 The application's error kinds, the conversions into them, the classifier that
 recognises a duplicate-key failure, and the table that turns each error into an
 HTTP status and a JSON body `{"error": <message>}` (src/error.rs).
 */
module Errors {
  import opened Wrappers

  // HTTP status codes the service answers with (RFC 9110, section 15).
  const StatusOk: int := 200                   // section 15.3.1
  const StatusCreated: int := 201              // section 15.3.2
  const StatusNoContent: int := 204            // section 15.3.5
  const StatusBadRequest: int := 400           // section 15.5.1
  const StatusNotFound: int := 404             // section 15.5.5
  const StatusConflict: int := 409             // section 15.5.10
  const StatusInternalServerError: int := 500  // section 15.6.1

  /** The successful class, 2xx (RFC 9110, section 15.3). */
  predicate IsSuccessStatus(status: int) {
    200 <= status <= 299
  }

  /** The client error class, 4xx (RFC 9110, section 15.5). */
  predicate IsClientErrorStatus(status: int) {
    400 <= status <= 499
  }

  /** The server error class, 5xx (RFC 9110, section 15.6). */
  predicate IsServerErrorStatus(status: int) {
    500 <= status <= 599
  }

  /** PostgreSQL's SQLSTATE for `unique_violation` (error class 23, integrity constraint violation). */
  const UniqueViolation: string := "23505"

  /**
   A failure reported by the database driver. `Database` is an error the server sent,
   with its SQLSTATE code when it carried one; `Driver` stands for every other kind
   (I/O, pool timeout, row decoding, ...), which has no SQLSTATE.
   */
  datatype DbError =
    | Database(code: Option<string>, message: string)
    | Driver(message: string)

  /** The error is the server's report of a duplicate key. */
  predicate IsUniqueViolation(e: DbError) {
    e.Database? && e.code == Some(UniqueViolation)
  }

  /** The validator's per-field report, kept as the text its `Display` renders. */
  datatype ValidationErrors = ValidationErrors(rendered: string)

  /** A schema-migration failure, kept as its rendered text. */
  datatype MigrateError = MigrateError(rendered: string)

  datatype AppError =
    | DatabaseError(cause: DbError)
    | MigrationError(migration: MigrateError)
    | NotFound
    | ConfigError(detail: string)
    | ValidationError(validation: ValidationErrors)
    | NoChangesToUpdate
    | AlreadyExists(message: string)

  /** The conversion a plain `?` applies to a storage error. */
  function FromDbError(e: DbError): AppError {
    DatabaseError(e)
  }

  /** The conversion a plain `?` applies to a migration error. */
  function FromMigrateError(e: MigrateError): AppError {
    MigrationError(e)
  }

  /** The conversion a plain `?` applies to a failed validation. */
  function FromValidationErrors(e: ValidationErrors): AppError {
    ValidationError(e)
  }

  /**
   Classifies a storage error from a create: a duplicate key becomes a conflict
   naming the resource, anything else the error `?` would have produced.
   */
  function MapDbError(e: DbError, resourceName: string): (r: AppError)
    ensures r.AlreadyExists? <==> IsUniqueViolation(e)
    ensures IsUniqueViolation(e) ==> r == AlreadyExists(resourceName + " already exists")
    ensures !IsUniqueViolation(e) ==> r == FromDbError(e)
  {
    if e.Database? && e.code == Some(UniqueViolation) then
      AlreadyExists(resourceName + " already exists")
    else
      DatabaseError(e)
  }

  /** What `into_response` sends: a status and the text of the JSON `error` field. */
  datatype ErrorResponse = ErrorResponse(status: int, error: string)

  /**
   The status and message of every error kind. Rejections of the request are
   client errors; failures of the server's own collaborators are server errors,
   and the two storage kinds never show their cause to the caller.
   */
  function IntoResponse(e: AppError): (r: ErrorResponse)
    ensures IsClientErrorStatus(r.status) <==>
              e.NotFound? || e.ValidationError? || e.NoChangesToUpdate? || e.AlreadyExists?
    ensures IsServerErrorStatus(r.status) <==>
              e.DatabaseError? || e.MigrationError? || e.ConfigError?
    ensures r.status == StatusNotFound <==> e.NotFound?
    ensures r.status == StatusConflict <==> e.AlreadyExists?
    ensures r.status == StatusBadRequest <==> e.ValidationError? || e.NoChangesToUpdate?
    ensures r.status == StatusInternalServerError <==> IsServerErrorStatus(r.status)
    ensures e.AlreadyExists? ==> r.error == e.message
    ensures e.ConfigError? ==> |e.detail| <= |r.error| && r.error[|r.error| - |e.detail|..] == e.detail
  {
    match e
    case NotFound => ErrorResponse(StatusNotFound, "Resource Not Found")
    case ValidationError(v) => ErrorResponse(StatusBadRequest, "Validation error: " + v.rendered)
    case NoChangesToUpdate => ErrorResponse(StatusBadRequest, "No valid fields provided for update.")
    case AlreadyExists(msg) => ErrorResponse(StatusConflict, msg)
    case DatabaseError(_) => ErrorResponse(StatusInternalServerError, "Database Operation Failed")
    case MigrationError(_) => ErrorResponse(StatusInternalServerError, "Database Migration Failed")
    case ConfigError(detail) => ErrorResponse(StatusInternalServerError, "Configuration Error: " + detail)
  }

  /** Two storage failures are indistinguishable to the caller, whatever their cause. */
  lemma StorageFailuresLookAlike(a: DbError, b: DbError, m: MigrateError, n: MigrateError)
    ensures IntoResponse(DatabaseError(a)) == IntoResponse(DatabaseError(b))
    ensures IntoResponse(MigrationError(m)) == IntoResponse(MigrationError(n))
    ensures IntoResponse(DatabaseError(a)).error != IntoResponse(MigrationError(m)).error
  {
  }

  /**
   The classifier and the status table together: a create's storage error is
   answered with 409 exactly when it was a duplicate key, and with 500 otherwise.
   */
  lemma CreateFailureStatus(e: DbError, resourceName: string)
    ensures IntoResponse(MapDbError(e, resourceName)).status ==
            (if IsUniqueViolation(e) then StatusConflict else StatusInternalServerError)
  {
  }

  /** A plain `?` on a storage error never yields a conflict, even for a duplicate key. */
  lemma PlainConversionNeverConflicts(e: DbError)
    ensures !FromDbError(e).AlreadyExists?
    ensures IntoResponse(FromDbError(e)).status == StatusInternalServerError
  {
  }
}
