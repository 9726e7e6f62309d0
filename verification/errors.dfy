/** The domain error taxonomy of `src/helpers`: a `BaseError` carries a status code,
    a top-level message and (optionally) a list of diagnostics; `BadRequestError` and
    `NotFoundError` fix the status code to 400 and 404. */
module Errors {
  import opened Results

  /** HTTP status codes and top-level messages used by the service layer. */
  const BAD_REQUEST: int := 400
  const NOT_FOUND: int := 404
  const BAD_REQUEST_ERROR: string := "BadRequestError"
  const NOT_FOUND_ERROR: string := "NotFoundError"

  /** One entry of an error's `errors` array. */
  datatype Diagnostic = Diagnostic(title: string, detail: string, code: int)

  /** All fields are fixed at construction (the source declares them readonly);
      `errors` may be absent. */
  datatype BaseError = BaseError(statusCode: int, message: string, errors: Option<seq<Diagnostic>>)

  /** `new BaseError(statusCode, message, errors?)`. */
  function NewBaseError(statusCode: int, message: string, errors: Option<seq<Diagnostic>>): (e: BaseError)
    ensures e.statusCode == statusCode && e.message == message && e.errors == errors
  {
    BaseError(statusCode, message, errors)
  }

  /** `new BadRequestError(message, errors)`: status 400 whatever the arguments. */
  function BadRequestError(message: string, errors: seq<Diagnostic>): (e: BaseError)
    ensures e.statusCode == BAD_REQUEST
    ensures e.message == message && e.errors == Some(errors)
  {
    NewBaseError(BAD_REQUEST, message, Some(errors))
  }

  /** `new NotFoundError(message, errors)`: status 404 whatever the arguments. */
  function NotFoundError(message: string, errors: seq<Diagnostic>): (e: BaseError)
    ensures e.statusCode == NOT_FOUND
    ensures e.message == message && e.errors == Some(errors)
  {
    NewBaseError(NOT_FOUND, message, Some(errors))
  }

  predicate IsBadRequest(e: BaseError) {
    e.statusCode == BAD_REQUEST
  }

  predicate IsNotFound(e: BaseError) {
    e.statusCode == NOT_FOUND
  }

  /** The two kinds are told apart by status code alone: no bad-request error is a
      not-found error, whatever messages and diagnostics either carries. */
  lemma KindsDisjoint(m1: string, d1: seq<Diagnostic>, m2: string, d2: seq<Diagnostic>)
    ensures IsBadRequest(BadRequestError(m1, d1)) && !IsNotFound(BadRequestError(m1, d1))
    ensures IsNotFound(NotFoundError(m2, d2)) && !IsBadRequest(NotFoundError(m2, d2))
    ensures BadRequestError(m1, d1) != NotFoundError(m2, d2)
  {
  }

  /** The constructors lose nothing: message and diagnostics (order included) can be
      read back from the error. */
  lemma ConstructorsInjective(m1: string, d1: seq<Diagnostic>, m2: string, d2: seq<Diagnostic>)
    ensures BadRequestError(m1, d1) == BadRequestError(m2, d2) <==> m1 == m2 && d1 == d2
    ensures NotFoundError(m1, d1) == NotFoundError(m2, d2) <==> m1 == m2 && d1 == d2
  {
  }
}
