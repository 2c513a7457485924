/**
 * `ValidationError`: why a value failed validation. The message is kept as
 * its localisation key; looking up the localised text is not modelled.
 */
module ValidationErrors {
  datatype ValidationError = ValidationError(message: string)

  /** The error every built-in validator reports first, for a missing value. */
  const FieldRequired := ValidationError("This Field Is Required")
}
