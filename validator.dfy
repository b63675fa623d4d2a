/**
  The shape of the `validator` crate's `ValidationErrors`: for each field of
  the validated struct, the failed checks, each named by its code.
 */
module Validator {

  /** One failed check on a field, named by its code (such as "url"). */
  datatype FieldError = FieldError(code: string)

  /** The per-field failures that a `validate()` call reports. */
  datatype ValidationErrors = ValidationErrors(fields: map<string, seq<FieldError>>)
}
