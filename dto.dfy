/**
  The JSON error bodies: `ErrorDTO { message }` and
  `ErrorWithValidationErrorsDTO { message, errors }`.
 */
module Dto {
  import opened Validator

  datatype ErrorBody =
    | ErrorDTO(message: string)
    | ErrorWithValidationErrorsDTO(message: string, errors: ValidationErrors)

  /** `ErrorDTO::new`: a body holding the message as given and nothing else. */
  function NewErrorDTO(message: string): (d: ErrorBody)
    ensures d.ErrorDTO? && d.message == message
  {
    ErrorDTO(message)
  }

  /** `ErrorWithValidationErrorsDTO::new`: a body holding the message and the errors as given. */
  function NewErrorWithValidationErrorsDTO(message: string, errors: ValidationErrors): (d: ErrorBody)
    ensures d.ErrorWithValidationErrorsDTO? && d.message == message && d.errors == errors
  {
    ErrorWithValidationErrorsDTO(message, errors)
  }

  /** The keys of the JSON object that serializing a body produces (one per struct field). */
  function JsonKeys(d: ErrorBody): (keys: set<string>)
    ensures "message" in keys
    ensures "errors" in keys <==> d.ErrorWithValidationErrorsDTO?
  {
    match d
    case ErrorDTO(_) => {"message"}
    case ErrorWithValidationErrorsDTO(_, _) => {"message", "errors"}
  }
}
