/** `NationalIdValidator`: a 14-digit national number beginning with 2 or 3. */
module NationalIdValidator {
  import opened Wrappers
  import opened Chars
  import opened ValidationErrors

  const OnlyDigits := ValidationError("National Number Must Contain Only Digits")
  const WrongLength := ValidationError("National Number Must Be Exactly 14 Digits Long")
  const InvalidNumber := ValidationError("The National Number Is Invalid")

  /** Every error this validator can report. */
  const Errors := {FieldRequired, OnlyDigits, WrongLength, InvalidNumber}

  /** `SELF MATCHES "^[0-9]+$"`: one or more ASCII digits and nothing else. */
  predicate ContainsOnlyDigits(number: string)
  {
    |number| > 0 && forall k :: 0 <= k < |number| ==> IsAsciiDigit(number[k])
  }

  /** `SELF MATCHES "^[2-3][0-9]{13}$"`: a 2 or a 3, then exactly 13 ASCII digits. */
  predicate IsNumberValid(number: string)
  {
    && |number| == 1 + 13
    && '2' <= number[0] <= '3'
    && forall k :: 1 <= k < |number| ==> IsAsciiDigit(number[k])
  }

  /** What the validator accepts: exactly 14 ASCII digits, the first a 2 or a 3. */
  predicate Acceptable(value: string)
  {
    && |value| == 14
    && (forall k :: 0 <= k < |value| ==> IsAsciiDigit(value[k]))
    && (value[0] == '2' || value[0] == '3')
  }

  /**
   * `validate`: `None` exactly for an acceptable number; otherwise, in this
   * order, the missing value, a character outside 0-9, a length other than
   * 14, and a first digit other than 2 or 3.
   */
  function Validate(value: string): (r: Option<ValidationError>)
    ensures r == None <==> Acceptable(value)
    ensures r.Some? ==> r.value in Errors
    ensures r == Some(FieldRequired) <==> value == []
    ensures r == Some(OnlyDigits) <==>
      exists k :: 0 <= k < |value| && !IsAsciiDigit(value[k])
    ensures r == Some(WrongLength) <==>
      value != [] && (forall k :: 0 <= k < |value| ==> IsAsciiDigit(value[k])) && |value| != 14
    ensures r == Some(InvalidNumber) <==>
      |value| == 14 && (forall k :: 0 <= k < |value| ==> IsAsciiDigit(value[k]))
      && value[0] != '2' && value[0] != '3'
  {
    if value == [] then Some(FieldRequired)
    else if !ContainsOnlyDigits(value) then Some(OnlyDigits)
    else if |value| != 14 then Some(WrongLength)
    else if !IsNumberValid(value) then Some(InvalidNumber)
    else None
  }
}
