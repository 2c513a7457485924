/** `PhoneValidator`: an 11-digit number beginning with 01. */
module PhoneValidator {
  import opened Wrappers
  import opened Chars
  import opened ValidationErrors

  const MustBeginWith01 := ValidationError("Phone Number Must Begin With 01")
  const WrongLength := ValidationError("Phone Number Must Be 11 Digits")
  const InvalidNumber := ValidationError("The Phone Number Is Invalid")

  /** Every error this validator can report. */
  const Errors := {FieldRequired, MustBeginWith01, WrongLength, InvalidNumber}

  /** `value.hasPrefix("01")`. */
  predicate HasPrefix01(value: string)
  {
    |value| >= 2 && value[..2] == "01"
  }

  /** `SELF MATCHES "^(01)[0-9]{9}$"`. */
  predicate IsNumberValid(number: string)
  {
    && |number| == 2 + 9
    && number[..2] == "01"
    && forall k :: 2 <= k < |number| ==> IsAsciiDigit(number[k])
  }

  /** What the validator accepts: `0`, `1`, then nine more ASCII digits. */
  predicate Acceptable(value: string)
  {
    && |value| == 11
    && value[0] == '0' && value[1] == '1'
    && forall k :: 0 <= k < |value| ==> IsAsciiDigit(value[k])
  }

  /**
   * `validate`: `None` exactly for an acceptable number; otherwise, in this
   * order, the missing value, a missing `01` prefix, a length other than 11,
   * and a character outside 0-9.
   */
  function Validate(value: string): (r: Option<ValidationError>)
    ensures r == None <==> Acceptable(value)
    ensures r.Some? ==> r.value in Errors
    ensures r == Some(FieldRequired) <==> value == []
    ensures r == Some(MustBeginWith01) <==> value != [] && !HasPrefix01(value)
    ensures r == Some(WrongLength) <==> HasPrefix01(value) && |value| != 11
    ensures r == Some(InvalidNumber) <==>
      HasPrefix01(value) && |value| == 11 && exists k :: 2 <= k < 11 && !IsAsciiDigit(value[k])
  {
    if value == [] then Some(FieldRequired)
    else if !HasPrefix01(value) then Some(MustBeginWith01)
    else if |value| != 11 then Some(WrongLength)
    else if !IsNumberValid(value) then Some(InvalidNumber)
    else None
  }
}
