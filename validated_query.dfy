/**
  The `ValidatedQuery<T>` extractor: deserialize the query string into T,
  then run T's `validate()`, and the `ServerError` it rejects with.
 */
module ValidatedQuery {
  import opened Wrappers
  import opened Validator
  import opened Dto
  import opened Http

  datatype ServerError =
    | ValidationError(errors: ValidationErrors)
    | AxumFormRejection(rejection: QueryRejection)

  /**
    `ValidatedQuery::from_request_parts`. The outcome of axum's `Query`
    extractor and the type's `validate()` are inputs: deserialization runs
    first and its failure is returned before `validate` is consulted.
   */
  function FromRequestParts<T>(query: Result<T, QueryRejection>, validate: T -> Result<(), ValidationErrors>): (r: Result<T, ServerError>)
    ensures r.Ok? <==> query.Ok? && validate(query.value).Ok?
    ensures r.Ok? ==> r.value == query.value
    ensures query.Err? ==> r == Err(AxumFormRejection(query.error))
    ensures query.Ok? && validate(query.value).Err? ==> r == Err(ValidationError(validate(query.value).error))
  {
    match query
    case Err(rejection) => Err(AxumFormRejection(rejection))
    case Ok(value) =>
      match validate(value)
      case Err(errors) => Err(ValidationError(errors))
      case Ok(_) => Ok(value)
  }

  /** `impl IntoResponse for ServerError`. */
  function ServerErrorResponse(e: ServerError): (r: Response)
    ensures r.status == BAD_REQUEST && r.headers == [] && r.body.Json?
    ensures r.body.dto.ErrorWithValidationErrorsDTO? <==> e.ValidationError?
  {
    match e
    case ValidationError(errors) =>
      JsonResponse(BAD_REQUEST, NewErrorWithValidationErrorsDTO("validation errors ocurred", errors))
    case AxumFormRejection(rejection) =>
      JsonResponse(BAD_REQUEST, NewErrorDTO(rejection.bodyText))
  }

  /** What each rejection puts in the body. */
  lemma ServerErrorBodies(e: ServerError)
    ensures e.ValidationError? ==>
      ServerErrorResponse(e).body.dto == ErrorWithValidationErrorsDTO("validation errors ocurred", e.errors)
    ensures e.AxumFormRejection? ==>
      ServerErrorResponse(e).body.dto == ErrorDTO(e.rejection.bodyText)
  {
  }

  /** Only a validation failure serializes to an object with an "errors" key. */
  lemma OnlyValidationCarriesErrors(e: ServerError)
    ensures e.ValidationError? ==> JsonKeys(ServerErrorResponse(e).body.dto) == {"message", "errors"}
    ensures e.AxumFormRejection? ==> JsonKeys(ServerErrorResponse(e).body.dto) == {"message"}
  {
  }

  /** When deserialization fails, the validator plays no part in the outcome. */
  lemma RejectionIgnoresValidator<T>(rejection: QueryRejection, v1: T -> Result<(), ValidationErrors>, v2: T -> Result<(), ValidationErrors>)
    ensures FromRequestParts(Err(rejection), v1) == FromRequestParts(Err(rejection), v2)
  {
  }
}
