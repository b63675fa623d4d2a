/**
  `ApiError` and its `IntoResponse` translation. The Rust module that
  defines it is not declared in the crate root, so nothing in the handler
  path produces these values; the mapping is modelled on its own.
 */
module Errors {
  import opened Validator
  import opened Dto
  import opened Http
  import ValidatedQuery

  datatype ApiError =
    | ValidationError(errors: ValidationErrors)
    | AxumFormRejection(rejection: QueryRejection)
    | CannotDownloadInternal
    | CannotDownloadBadRequest

  const BAD_URL_MESSAGE := "sorry, cannot download this (the reason is likely a bad URL)."
  const INTERNAL_MESSAGE := "sorry, cannot download this (the reason likely on our side)."

  /** `impl IntoResponse for ApiError`. */
  function ApiErrorResponse(e: ApiError): (r: Response)
    ensures r.status == BAD_REQUEST || r.status == INTERNAL_SERVER_ERROR
    ensures r.status == INTERNAL_SERVER_ERROR <==> e.CannotDownloadInternal?
    ensures r.headers == [] && r.body.Json?
    ensures r.body.dto.ErrorWithValidationErrorsDTO? <==> e.ValidationError?
  {
    match e
    case ValidationError(errors) =>
      JsonResponse(BAD_REQUEST, NewErrorWithValidationErrorsDTO("validation errors ocurred", errors))
    case AxumFormRejection(rejection) =>
      JsonResponse(BAD_REQUEST, NewErrorDTO(rejection.bodyText))
    case CannotDownloadBadRequest =>
      JsonResponse(BAD_REQUEST, NewErrorDTO(BAD_URL_MESSAGE))
    case CannotDownloadInternal =>
      JsonResponse(INTERNAL_SERVER_ERROR, NewErrorDTO(INTERNAL_MESSAGE))
  }

  /** What each variant puts in the body. */
  lemma ApiErrorBodies(e: ApiError)
    ensures e.ValidationError? ==>
      ApiErrorResponse(e).body.dto == ErrorWithValidationErrorsDTO("validation errors ocurred", e.errors)
    ensures e.AxumFormRejection? ==> ApiErrorResponse(e).body.dto == ErrorDTO(e.rejection.bodyText)
    ensures e.CannotDownloadBadRequest? ==> ApiErrorResponse(e).body.dto == ErrorDTO(BAD_URL_MESSAGE)
    ensures e.CannotDownloadInternal? ==> ApiErrorResponse(e).body.dto == ErrorDTO(INTERNAL_MESSAGE)
  {
  }

  /** Only a validation failure serializes to an object with an "errors" key; every other body has "message" alone. */
  lemma OnlyValidationCarriesErrors(e: ApiError)
    ensures e.ValidationError? ==> JsonKeys(ApiErrorResponse(e).body.dto) == {"message", "errors"}
    ensures !e.ValidationError? ==> JsonKeys(ApiErrorResponse(e).body.dto) == {"message"}
  {
  }

  /** A request-extraction failure seen as an `ApiError` (the two `#[from]` conversions). */
  function FromServerError(e: ValidatedQuery.ServerError): (a: ApiError)
    ensures a.ValidationError? <==> e.ValidationError?
    ensures a.ValidationError? ==> a.errors == e.errors
    ensures a.AxumFormRejection? ==> a.rejection == e.rejection
    ensures !a.CannotDownloadInternal? && !a.CannotDownloadBadRequest?
  {
    match e
    case ValidationError(errors) => ValidationError(errors)
    case AxumFormRejection(rejection) => AxumFormRejection(rejection)
  }

  /** The two translations agree on the variants the enums share. */
  lemma SharedVariantsAgree(e: ValidatedQuery.ServerError)
    ensures ApiErrorResponse(FromServerError(e)) == ValidatedQuery.ServerErrorResponse(e)
  {
  }
}
