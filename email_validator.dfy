/** `EmailValidator`: a required value matching one address pattern. */
module EmailValidator {
  import opened Wrappers
  import opened Chars
  import opened ValidationErrors

  const InvalidEmail := ValidationError("The Email Address Is Invalid")

  /** Every error this validator can report. */
  const Errors := {FieldRequired, InvalidEmail}

  /** The class `[A-Z0-9a-z._%+-]` before the `@`. */
  predicate IsLocalChar(c: char)
  {
    IsAsciiLetter(c) || IsAsciiDigit(c) || c == '.' || c == '_' || c == '%' || c == '+' || c == '-'
  }

  /** The class `[A-Za-z0-9.-]` between the `@` and the last dot. */
  predicate IsDomainChar(c: char)
  {
    IsAsciiLetter(c) || IsAsciiDigit(c) || c == '.' || c == '-'
  }

  /**
   * The pattern `[A-Z0-9a-z._%+-]+@[A-Za-z0-9.-]+\.[A-Za-z]{2,}` matches the
   * whole of `s` with its `@` at index `at` and its literal dot at `dot`.
   */
  predicate MatchesAt(s: string, at: int, dot: int)
  {
    && 0 < at && at + 1 < dot && dot + 3 <= |s|
    && (forall k :: 0 <= k < at ==> IsLocalChar(s[k]))
    && s[at] == '@'
    && (forall k :: at < k < dot ==> IsDomainChar(s[k]))
    && s[dot] == '.'
    && (forall k :: dot < k < |s| ==> IsAsciiLetter(s[k]))
  }

  /** `SELF MATCHES` the address pattern. */
  predicate IsEmailValid(email: string)
  {
    exists at, dot :: 0 <= at < dot < |email| && MatchesAt(email, at, dot)
  }

  /** `validate`: the required-field error for an empty value, then the pattern. */
  function Validate(value: string): (r: Option<ValidationError>)
    ensures r == None <==> value != [] && IsEmailValid(value)
    ensures r.Some? ==> r.value in Errors
    ensures r == Some(FieldRequired) <==> value == []
  {
    if value == [] then Some(FieldRequired)
    else if !IsEmailValid(value) then Some(InvalidEmail)
    else None
  }

  /** `s[at]` is the only `@` of `s`. */
  predicate OnlyAtSignAt(s: string, at: int)
  {
    0 <= at < |s| && s[at] == '@' && forall k :: 0 <= k < |s| && s[k] == '@' ==> k == at
  }

  /** `s[dot]` is the last `.` of `s`. */
  predicate LastDotAt(s: string, dot: int)
  {
    0 <= dot < |s| && s[dot] == '.' && forall k :: dot < k < |s| ==> s[k] != '.'
  }

  /**
   * In every match, the `@` is the only one in the string, since no class
   * of the pattern holds it, and the literal dot is the last dot, since only
   * letters follow it.
   */
  lemma MatchPositions(s: string, at: int, dot: int)
    requires MatchesAt(s, at, dot)
    ensures OnlyAtSignAt(s, at) && LastDotAt(s, dot)
  {
  }

  /**
   * An accepted address holds exactly one `@`; after its last dot come two or
   * more ASCII letters, and at least one character stands between the `@` and
   * that dot.
   */
  lemma AcceptedShape(value: string)
    requires Validate(value) == None
    ensures exists at :: OnlyAtSignAt(value, at)
    ensures exists at, dot ::
      && OnlyAtSignAt(value, at) && LastDotAt(value, dot) && at + 1 < dot
      && |value| - (dot + 1) >= 2
      && (forall k :: dot < k < |value| ==> IsAsciiLetter(value[k]))
  {
    var at, dot :| 0 <= at < dot < |value| && MatchesAt(value, at, dot);
    MatchPositions(value, at, dot);
  }

  /**
   * The pattern can only match at the unique `@` and the last dot: once those
   * are fixed, the address is accepted exactly when the match at them holds.
   */
  lemma MatchDeterminedByPositions(s: string, at: int, dot: int)
    requires OnlyAtSignAt(s, at) && LastDotAt(s, dot)
    ensures IsEmailValid(s) <==> MatchesAt(s, at, dot)
  {
    if IsEmailValid(s) {
      var at', dot' :| 0 <= at' < dot' < |s| && MatchesAt(s, at', dot');
      MatchPositions(s, at', dot');
    }
  }

  /** A value with a space, or without an `@`, is refused as an invalid address. */
  lemma SpaceOrNoAtSignRefused(value: string)
    requires value != [] && (' ' in value || '@' !in value)
    ensures Validate(value) == Some(InvalidEmail)
  {
    if IsEmailValid(value) {
      var at, dot :| 0 <= at < dot < |value| && MatchesAt(value, at, dot);
    }
  }

  // Cases the repository's unit tests exercise.

  lemma AcceptsPlainAddress()
    ensures Validate("baher.tamer@email.com") == None
  {
    assert MatchesAt("baher.tamer@email.com", 11, 17);
  }

  /** Nothing between the `@` and the dot: refused. */
  lemma RefusesMissingDomain()
    ensures Validate("baher.tamer@.com") == Some(InvalidEmail)
  {
    var s := "baher.tamer@.com";
    assert OnlyAtSignAt(s, 11);
    assert LastDotAt(s, 12);
    MatchDeterminedByPositions(s, 11, 12);
  }

  /** No dot after the `@`: refused. */
  lemma RefusesMissingExtension()
    ensures Validate("baher.tamer@email") == Some(InvalidEmail)
  {
    var s := "baher.tamer@email";
    assert OnlyAtSignAt(s, 11);
    assert LastDotAt(s, 5);
    MatchDeterminedByPositions(s, 11, 5);
  }
}
