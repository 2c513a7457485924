/** `FullNameValidator`: letters, white space and hyphens, at least two names. */
module FullNameValidator {
  import opened Wrappers
  import opened Chars
  import opened Strings
  import opened ValidationErrors

  const LettersAndSpaces := ValidationError("Full Name Must Contain Only Letters and Spaces")
  const FirstAndLastName := ValidationError("Full Name Must Consist of at Least a First Name and a Last Name")

  /** Every error this validator can report. */
  const Errors := {FieldRequired, LettersAndSpaces, FirstAndLastName}

  /** The class `[a-zA-Z\s-]`, where `\s` is any White_Space character. */
  predicate IsNameChar(c: char)
  {
    IsAsciiLetter(c) || IsWhitespaceOrNewline(c) || c == '-'
  }

  /** `SELF MATCHES "^[a-zA-Z\s-]+$"`. */
  predicate ContainsNoSpecialCharacters(name: string)
  {
    |name| > 0 && forall k :: 0 <= k < |name| ==> IsNameChar(name[k])
  }

  /** `name.split(separator: " ").count >= 2`: two or more non-empty space-separated runs. */
  predicate IsNameValid(name: string)
  {
    |Words(name, ' ')| >= 2
  }

  /**
   * What the validator accepts: only letters, white space and hyphens, with
   * a space (U+0020 itself) somewhere between two characters that are not
   * spaces.
   */
  predicate Acceptable(value: string)
  {
    (forall k :: 0 <= k < |value| ==> IsNameChar(value[k])) && SeparatedPair(value, ' ')
  }

  /**
   * `validate`: `None` exactly for an acceptable name; otherwise, in this
   * order, the missing value, a character outside the class, and fewer than
   * two space-separated names.
   */
  function Validate(value: string): (r: Option<ValidationError>)
    ensures r == None <==> Acceptable(value)
    ensures r.Some? ==> r.value in Errors
    ensures r == Some(FieldRequired) <==> value == []
    ensures r == Some(LettersAndSpaces) <==>
      exists k :: 0 <= k < |value| && !IsNameChar(value[k])
    ensures r == Some(FirstAndLastName) <==>
      value != [] && (forall k :: 0 <= k < |value| ==> IsNameChar(value[k]))
      && !SeparatedPair(value, ' ')
  {
    TwoWordsIff(value, ' ');
    if value == [] then Some(FieldRequired)
    else if !ContainsNoSpecialCharacters(value) then Some(LettersAndSpaces)
    else if !IsNameValid(value) then Some(FirstAndLastName)
    else None
  }

  /**
   * Names kept apart only by tabs, newlines or other white space pass the
   * character check but are one component, so they are refused as a single
   * name.
   */
  lemma NoSpaceIsOneName(value: string)
    requires value != [] && ' ' !in value
    requires forall k :: 0 <= k < |value| ==> IsNameChar(value[k])
    ensures Validate(value) == Some(FirstAndLastName)
  {
    WordsWithoutSeparator(value, ' ');
    TwoWordsIff(value, ' ');
  }

  /**
   * Leading, trailing and repeated spaces add no name component: two
   * space-free names with any number of spaces before, between (at least
   * one) and after them are exactly two components.
   */
  lemma ExtraSpacesIrrelevant(first: string, last: string, before: nat, between: nat, after: nat)
    requires first != [] && last != [] && ' ' !in first && ' ' !in last
    ensures Words(Repeat(' ', before) + first + Repeat(' ', between + 1) + last + Repeat(' ', after), ' ') == [first, last]
  {
    var core := first + Repeat(' ', between + 1) + last;
    assert Repeat(' ', before) + first + Repeat(' ', between + 1) + last + Repeat(' ', after)
      == Repeat(' ', before) + (core + Repeat(' ', after));
    LeadingSeparators(before, core + Repeat(' ', after), ' ');
    TrailingSeparators(core, after, ' ');
    SeparatorRun(first, between, last, ' ');
    WordsWithoutSeparator(first, ' ');
    WordsWithoutSeparator(last, ' ');
  }

  /** Two names of letters and hyphens, with any spacing around and between them, are accepted. */
  lemma SpacedNamesAccepted(first: string, last: string, before: nat, between: nat, after: nat)
    requires first != [] && last != []
    requires forall k :: 0 <= k < |first| ==> first[k] != ' ' && IsNameChar(first[k])
    requires forall k :: 0 <= k < |last| ==> last[k] != ' ' && IsNameChar(last[k])
    ensures Validate(Repeat(' ', before) + first + Repeat(' ', between + 1) + last + Repeat(' ', after)) == None
  {
    var s := Repeat(' ', before) + first + Repeat(' ', between + 1) + last + Repeat(' ', after);
    ExtraSpacesIrrelevant(first, last, before, between, after);
    TwoWordsIff(s, ' ');
    assert IsNameChar(' ');
    forall k | 0 <= k < |s| ensures IsNameChar(s[k]) {
      var i := before + |first|;
      var j := i + between + 1;
      var m := j + |last|;
      if k < before {
        assert s[k] == ' ';
      } else if k < i {
        assert s[k] == first[k - before];
      } else if k < j {
        assert s[k] == ' ';
      } else if k < m {
        assert s[k] == last[k - j];
      } else {
        assert s[k] == ' ';
      }
    }
  }
}
