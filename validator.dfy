/**
 * The `Validator` protocol and `ValidationType`, which picks the validator
 * for a field. `isValid` is the protocol's default: a value is valid when
 * `validate` reports no error.
 */
module Validator {
  import opened Wrappers
  import opened ValidationErrors
  import PasswordValidator
  import NationalIdValidator
  import FullNameValidator
  import PhoneValidator
  import EmailValidator
  import RequiredValidator

  /**
   * A validator: one of the built-in ones, or a caller's own `validate`
   * function that relies on the default `isValid`.
   */
  datatype ValidationType =
    | Email
    | FullName
    | NationalId
    | Password
    | Phone
    | Required
    | Custom(validate: string -> Option<ValidationError>)

  /** `validator.validate(value)`. */
  function Validate(t: ValidationType, value: string): Option<ValidationError>
  {
    match t
    case Email => EmailValidator.Validate(value)
    case FullName => FullNameValidator.Validate(value)
    case NationalId => NationalIdValidator.Validate(value)
    case Password => PasswordValidator.Validate(value)
    case Phone => PhoneValidator.Validate(value)
    case Required => RequiredValidator.Validate(value)
    case Custom(validate) => validate(value)
  }

  /** What each built-in validator accepts, stated without its guard chain. */
  predicate Accepts(t: ValidationType, value: string)
    requires !t.Custom?
  {
    match t
    case Email => value != [] && EmailValidator.IsEmailValid(value)
    case FullName => FullNameValidator.Acceptable(value)
    case NationalId => NationalIdValidator.Acceptable(value)
    case Password => PasswordValidator.Acceptable(value)
    case Phone => PhoneValidator.Acceptable(value)
    case Required => RequiredValidator.HasContent(value)
  }

  /** The errors each built-in validator can report. */
  function Errors(t: ValidationType): set<ValidationError>
    requires !t.Custom?
  {
    match t
    case Email => EmailValidator.Errors
    case FullName => FullNameValidator.Errors
    case NationalId => NationalIdValidator.Errors
    case Password => PasswordValidator.Errors
    case Phone => PhoneValidator.Errors
    case Required => {FieldRequired}
  }

  /**
   * The default `isValid`: true exactly when `validate` returns `nil`, for a
   * custom validator too, so the two never disagree; for a built-in one,
   * exactly when the value is acceptable to it.
   */
  function IsValid(t: ValidationType, value: string): (b: bool)
    ensures b <==> Validate(t, value).None?
    ensures !t.Custom? ==> (b <==> Accepts(t, value))
  {
    Validate(t, value) == None
  }

  /**
   * A value that is not valid gets an error, and a built-in validator's
   * error is one of its own messages.
   */
  lemma InvalidHasError(t: ValidationType, value: string)
    requires !IsValid(t, value)
    ensures Validate(t, value).Some?
    ensures !t.Custom? ==> Validate(t, value).value in Errors(t)
  {
  }

  /** Every built-in validator refuses the empty value as a missing field. */
  lemma EmptyRefused(t: ValidationType)
    requires !t.Custom?
    ensures Validate(t, "") == Some(FieldRequired)
  {
    assert !RequiredValidator.HasContent("");
  }
}
