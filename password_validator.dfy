/** `PasswordValidator`: a guard chain whose first failing check names the error. */
module PasswordValidator {
  import opened Wrappers
  import opened Chars
  import opened ValidationErrors

  const NoSpaces := ValidationError("Password Must Not Contain Spaces")
  const TooShort := ValidationError("Password Must Be at Least 8 Characters Long")
  const NoUppercase := ValidationError("Password Must Contain at Least One Uppercase Letter")
  const NoLowercase := ValidationError("Password Must Contain at Least One Lowercase Letter")
  const NoNumber := ValidationError("Password Must Contain at Least One Number")
  const NoSpecialCharacter := ValidationError("Password Must Contain at Least One Special Character")

  /** Every error this validator can report. */
  const Errors := {FieldRequired, NoSpaces, TooShort, NoUppercase, NoLowercase, NoNumber, NoSpecialCharacter}

  /** The bracketed classes of the four `.*[...]+.*` patterns. */
  datatype CharClass = Uppercase | Lowercase | Number | Special

  predicate InClass(cls: CharClass, c: char)
  {
    match cls
    case Uppercase => IsAsciiUpper(c)
    case Lowercase => IsAsciiLower(c)
    case Number => IsAsciiDigit(c)
    case Special => c in "!@#$%^&*(),.?\":{}|<>"
  }

  /**
   * `s[..i]` and `s[j..]` hold no line terminator, which ICU's `.` does not
   * accept, and every character of `s[i..j]` lies in the class.
   */
  predicate MatchesAt(s: string, cls: CharClass, i: int, j: int)
  {
    && 0 <= i < j <= |s|
    && (forall k :: 0 <= k < i ==> !IsLineTerminator(s[k]))
    && (forall k :: i <= k < j ==> InClass(cls, s[k]))
    && (forall k :: j <= k < |s| ==> !IsLineTerminator(s[k]))
  }

  /**
   * `SELF MATCHES ".*[C]+.*"`: the whole string is some characters `.`
   * accepts, then one or more characters of the class, then again some that
   * `.` accepts.
   */
  predicate MatchesSomewhere(s: string, cls: CharClass)
  {
    exists i, j :: 0 <= i < j <= |s| && MatchesAt(s, cls, i, j)
  }

  predicate ContainsUppercase(password: string) { MatchesSomewhere(password, Uppercase) }

  predicate ContainsLowercase(password: string) { MatchesSomewhere(password, Lowercase) }

  predicate ContainsNumber(password: string) { MatchesSomewhere(password, Number) }

  predicate ContainsSpecialCharacter(password: string) { MatchesSomewhere(password, Special) }

  /** No character of `s` is a line terminator. */
  predicate SingleLine(s: string)
  {
    forall k :: 0 <= k < |s| ==> !IsLineTerminator(s[k])
  }

  /** Some character of `s` lies in the class. */
  predicate Has(s: string, cls: CharClass)
  {
    exists k :: 0 <= k < |s| && InClass(cls, s[k])
  }

  /** No character of a class is a line terminator. */
  lemma ClassIsSingleLine(cls: CharClass, c: char)
    requires InClass(cls, c)
    ensures !IsLineTerminator(c)
  {
  }

  /**
   * Each pattern holds exactly when the string is a single line with one
   * character of the class; on single-line input, exactly when it has one.
   */
  lemma MatchesSomewhereIff(s: string, cls: CharClass)
    ensures MatchesSomewhere(s, cls) <==> SingleLine(s) && Has(s, cls)
  {
    if MatchesSomewhere(s, cls) {
      var i, j :| 0 <= i < j <= |s| && MatchesAt(s, cls, i, j);
      assert InClass(cls, s[i]);
      forall k | i <= k < j ensures !IsLineTerminator(s[k]) {
        ClassIsSingleLine(cls, s[k]);
      }
    }
    if SingleLine(s) && Has(s, cls) {
      var k :| 0 <= k < |s| && InClass(cls, s[k]);
      assert MatchesAt(s, cls, k, k + 1);
    }
  }

  /**
   * What the validator accepts: at least 8 characters, no space, a single
   * line, and an uppercase letter, a lowercase letter, a digit and a special
   * character somewhere.
   */
  predicate Acceptable(value: string)
  {
    && |value| >= 8
    && ' ' !in value
    && SingleLine(value)
    && Has(value, Uppercase) && Has(value, Lowercase) && Has(value, Number) && Has(value, Special)
  }

  /**
   * `validate`: `None` exactly for an acceptable password; otherwise the error
   * of the first check that fails, in the order: required, no spaces, length,
   * uppercase, lowercase, number, special character.
   */
  function Validate(value: string): (r: Option<ValidationError>)
    ensures r == None <==> Acceptable(value)
    ensures r.Some? ==> r.value in Errors
    ensures r == Some(FieldRequired) <==> value == []
    ensures r == Some(NoSpaces) <==> value != [] && ' ' in value
    ensures r == Some(TooShort) <==> value != [] && ' ' !in value && |value| < 8
    ensures r == Some(NoUppercase) <==>
      |value| >= 8 && ' ' !in value && !ContainsUppercase(value)
    ensures r == Some(NoLowercase) <==>
      |value| >= 8 && ' ' !in value && ContainsUppercase(value) && !ContainsLowercase(value)
    ensures r == Some(NoNumber) <==>
      |value| >= 8 && ' ' !in value && ContainsUppercase(value) && ContainsLowercase(value)
      && !ContainsNumber(value)
    ensures r == Some(NoSpecialCharacter) <==>
      |value| >= 8 && ' ' !in value && ContainsUppercase(value) && ContainsLowercase(value)
      && ContainsNumber(value) && !ContainsSpecialCharacter(value)
  {
    MatchesSomewhereIff(value, Uppercase);
    MatchesSomewhereIff(value, Lowercase);
    MatchesSomewhereIff(value, Number);
    MatchesSomewhereIff(value, Special);
    if value == [] then Some(FieldRequired)
    else if ' ' in value then Some(NoSpaces)
    else if |value| < 8 then Some(TooShort)
    else if !ContainsUppercase(value) then Some(NoUppercase)
    else if !ContainsLowercase(value) then Some(NoLowercase)
    else if !ContainsNumber(value) then Some(NoNumber)
    else if !ContainsSpecialCharacter(value) then Some(NoSpecialCharacter)
    else None
  }

  /**
   * A line terminator anywhere makes every `.*[C]+.*` pattern fail, so a
   * long enough password without spaces is refused for its missing
   * uppercase letter whatever else it holds.
   */
  lemma LineTerminatorFailsUppercase(value: string, k: nat)
    requires k < |value| && IsLineTerminator(value[k])
    requires |value| >= 8 && ' ' !in value
    ensures Validate(value) == Some(NoUppercase)
  {
    MatchesSomewhereIff(value, Uppercase);
  }
}
