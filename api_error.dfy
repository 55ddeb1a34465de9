/**
 * The application error of src/utils/ApiError.ts.
 *
 * In the source, `ApiError` extends `Error`, passes `message` to the base
 * class and keeps `statusCode`, `errorCode`, `details` and `isOperational`
 * in readonly fields assigned once by the constructor. A Dafny datatype
 * value is immutable in the same way.
 */
module ApiErrors {
  import opened Wrappers

  /** An operational, caller-facing failure. `details` is optional. */
  datatype ApiError = ApiError(
    message: string,
    statusCode: int,
    errorCode: string,
    details: Option<string>)
  {
    /** The constructor sets this flag and nothing can change it, so every error has it set. */
    const isOperational: bool := true
  }

  /**
   * The constructor `new ApiError({message, statusCode, errorCode, details})`.
   * An omitted `details` is `None`.
   */
  function NewApiError(message: string, statusCode: int, errorCode: string,
                       details: Option<string> := None): (e: ApiError)
    ensures e.message == message
    ensures e.statusCode == statusCode
    ensures e.errorCode == errorCode
    ensures e.details == details
    ensures e.isOperational
  {
    ApiError(message, statusCode, errorCode, details)
  }
}
