/** `RequiredValidator`: the value must hold something besides white space. */
module RequiredValidator {
  import opened Wrappers
  import opened Chars
  import opened Strings
  import opened ValidationErrors

  /** `!text.trimmingCharacters(in: .whitespacesAndNewlines).isEmpty`. */
  predicate IsFieldValid(text: string)
  {
    Trim(text, WhitespacesAndNewlines) != []
  }

  /** Some character is neither white space nor a newline. */
  predicate HasContent(value: string)
  {
    exists k :: 0 <= k < |value| && !IsWhitespaceOrNewline(value[k])
  }

  /**
   * `validate`: `None` exactly when some character is not white space or a
   * newline, and the required-field error otherwise, which is the only error
   * this validator reports.
   */
  function Validate(value: string): (r: Option<ValidationError>)
    ensures r == None <==> HasContent(value)
    ensures r != None ==> r == Some(FieldRequired)
  {
    TrimEmptyIff(value, WhitespacesAndNewlines);
    if IsFieldValid(value) then None else Some(FieldRequired)
  }

  /** Surrounding a value with white space and newlines never changes the verdict. */
  lemma PaddingIrrelevant(before: string, value: string, after: string)
    requires forall k :: 0 <= k < |before| ==> IsWhitespaceOrNewline(before[k])
    requires forall k :: 0 <= k < |after| ==> IsWhitespaceOrNewline(after[k])
    ensures Validate(before + value + after) == Validate(value)
  {
    var s := before + value + after;
    if HasContent(value) {
      var k :| 0 <= k < |value| && !IsWhitespaceOrNewline(value[k]);
      assert s[|before| + k] == value[k];
    }
    if HasContent(s) {
      var k :| 0 <= k < |s| && !IsWhitespaceOrNewline(s[k]);
      assert |before| <= k < |before| + |value|;
      assert value[k - |before|] == s[k];
    }
  }
}
