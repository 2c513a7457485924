/**
 * `OTPFields`: one single-character field per pin. Typing collapses a pin to
 * one character, moves the focus to the next or the previous field, and the
 * submit action runs when the focus leaves the last field.
 */
module OTPFields {
  import opened Wrappers

  /** `s.prefix(1)`: the first character, or nothing for the empty string. */
  function Prefix1(s: string): (r: string)
    ensures |r| <= 1 && |r| <= |s| && r == s[..|r|]
    ensures s != [] ==> r == [s[0]]
  {
    if s == [] then [] else [s[0]]
  }

  /**
   * What `limitText` leaves in a pin: a pin of at most one character is left
   * alone; a longer one becomes its last character when the old and the new
   * value start alike (the character was typed after the cursor) and its
   * first character otherwise (it was typed before the cursor).
   */
  function Limited(pin: string, oldValue: string, newValue: string): (r: string)
    ensures |r| <= 1
    ensures |pin| <= 1 ==> r == pin
    ensures |pin| > 1 ==> |r| == 1
    ensures |pin| > 1 ==> (r == [pin[|pin| - 1]] <==> Prefix1(oldValue) == Prefix1(newValue) || pin[0] == pin[|pin| - 1])
    ensures |pin| > 1 ==> (r == [pin[0]] <==> Prefix1(oldValue) != Prefix1(newValue) || pin[0] == pin[|pin| - 1])
  {
    if |pin| <= 1 then pin
    else if Prefix1(oldValue) == Prefix1(newValue) then [pin[|pin| - 1]]
    else [pin[0]]
  }

  /**
   * Where `updateFocusedIndex(for: pin)` moves the focus among `count`
   * fields: nowhere if there is none; one field on after a non-empty pin,
   * cleared on the last field; one field back after an empty pin, cleared on
   * the first field.
   */
  function NextFocus(focus: Option<int>, pin: string, count: int): (r: Option<int>)
    ensures focus.None? ==> r.None?
    ensures r.Some? ==> focus.Some? && r.value == focus.value + (if pin != [] then 1 else -1)
    ensures focus.Some? && r.None? ==> (if pin != [] then focus.value == count - 1 else focus.value == 0)
    ensures focus.Some? && 0 <= focus.value < count ==> r.None? || 0 <= r.value < count
  {
    match focus
    case None => None
    case Some(index) =>
      if pin != [] then (if index == count - 1 then None else Some(index + 1))
      else (if index == 0 then None else Some(index - 1))
  }

  /** The value the focus `onChange` watches: `focusedIndex ?? -1`. */
  function FocusKey(focus: Option<int>): int
  {
    match focus
    case None => -1
    case Some(index) => index
  }

  /** The focus is none, or one of the `count` fields. */
  predicate OnField(focus: Option<int>, count: int)
  {
    focus.Some? ==> 0 <= focus.value < count
  }

  /** The moment the code is submitted: the focus went from the last field to none. */
  predicate LeavesLastField(oldFocus: Option<int>, newFocus: Option<int>, count: int)
  {
    oldFocus == Some(count - 1) && newFocus == None
  }

  /**
   * `-1` stands for no focus without clashing with a field, so the focus
   * `onChange`, which watches `focusedIndex ?? -1`, runs exactly when the
   * focus changes.
   */
  lemma FocusKeyInjective(o: Option<int>, n: Option<int>, count: int)
    requires OnField(o, count) && OnField(n, count)
    ensures FocusKey(o) == FocusKey(n) <==> o == n
  {
  }

  class OTPFields {
    /** The pins bound to the fields, one per field. */
    var pins: seq<string>
    /** The `@FocusState` index of the focused field, if any. */
    var focusedIndex: Option<int>

    /** Any focus is on one of the fields. */
    predicate Valid()
      reads this
    {
      OnField(focusedIndex, |pins|)
    }

    /** The fields for the given pins, none of them focused yet. */
    constructor (pins: seq<string>)
      ensures Valid()
      ensures this.pins == pins && focusedIndex == None
    {
      this.pins := pins;
      focusedIndex := None;
    }

    /** `limitText(oldValue, newValue, index:)`: collapses `pins[index]` to one character. */
    method LimitText(oldValue: string, newValue: string, index: int)
      requires 0 <= index < |pins|
      modifies this
      ensures pins == old(pins)[index := Limited(old(pins)[index], oldValue, newValue)]
      ensures focusedIndex == old(focusedIndex)
    {
      if |pins[index]| <= 1 {
        return;
      }
      var pin := pins[index];
      var firstOldChar := Prefix1(oldValue);
      var firstNewChar := Prefix1(newValue);
      var isSamePrefix := firstOldChar == firstNewChar;
      var suffix := [pin[|pin| - 1]];
      var prefix := [pin[0]];
      pins := pins[index := if isSamePrefix then suffix else prefix];
    }

    /** `updateFocusedIndex(for: pin)`: moves the focus on or back, or clears it. */
    method UpdateFocusedIndex(pin: string)
      requires Valid()
      modifies this
      ensures Valid()
      ensures pins == old(pins)
      ensures focusedIndex == NextFocus(old(focusedIndex), pin, |pins|)
    {
      if focusedIndex.None? {
        focusedIndex := None;
        return;
      }
      var index := focusedIndex.value;
      if pin != [] {
        var isLastField := index == |pins| - 1;
        focusedIndex := if isLastField then None else Some(index + 1);
      } else {
        var isFirstField := index == 0;
        focusedIndex := if isFirstField then None else Some(index - 1);
      }
    }

    /**
     * `focusedIndexDidChange(oldValue, newValue)`: whether `onSubmit` runs.
     * Called with the keys of two different focuses, it submits exactly when
     * the focus left the last field for none.
     */
    method FocusedIndexDidChange(oldValue: int, newValue: int) returns (submit: bool)
      ensures submit <==> oldValue == |pins| - 1 && newValue == -1
      ensures forall o, n ::
        OnField(o, |pins|) && OnField(n, |pins|) && o != n && FocusKey(o) == oldValue && FocusKey(n) == newValue
        ==> (submit <==> LeavesLastField(o, n, |pins|))
    {
      var isLastField := oldValue == |pins| - 1;
      var isNil := newValue == -1;
      submit := isLastField && isNil;
    }

    /**
     * The user edits field `index` so that it reads `newValue`. The text
     * field writes the pin; if the pin changed, its `onChange` runs
     * `limitText` and then `updateFocusedIndex(for: newValue)`; if that moved
     * the focus, the focus `onChange` runs `focusedIndexDidChange`, whose
     * answer is returned as `submitted`.
     */
    method Edit(index: int, newValue: string) returns (submitted: bool)
      requires Valid() && 0 <= index < |pins|
      modifies this
      ensures Valid()
      ensures |pins| == |old(pins)|
      ensures old(pins)[index] == newValue ==> pins == old(pins) && focusedIndex == old(focusedIndex) && !submitted
      ensures old(pins)[index] != newValue ==>
        && pins == old(pins)[index := Limited(newValue, old(pins)[index], newValue)]
        && focusedIndex == NextFocus(old(focusedIndex), newValue, |pins|)
      ensures submitted <==> LeavesLastField(old(focusedIndex), focusedIndex, |pins|)
    {
      var oldValue := pins[index];
      submitted := false;
      if oldValue == newValue {
        return;
      }
      pins := pins[index := newValue];
      var oldKey := FocusKey(focusedIndex);
      LimitText(oldValue, newValue, index);
      UpdateFocusedIndex(newValue);
      var newKey := FocusKey(focusedIndex);
      if oldKey != newKey {
        submitted := FocusedIndexDidChange(oldKey, newKey);
      }
    }

    /**
     * The user moves the focus to `newFocus` (a field, or none when the
     * keyboard is dismissed); if it changed, `focusedIndexDidChange` runs.
     */
    method Focus(newFocus: Option<int>) returns (submitted: bool)
      requires Valid()
      requires newFocus.Some? ==> 0 <= newFocus.value < |pins|
      modifies this
      ensures Valid()
      ensures pins == old(pins) && focusedIndex == newFocus
      ensures submitted <==> LeavesLastField(old(focusedIndex), newFocus, |pins|)
    {
      var oldKey := FocusKey(focusedIndex);
      focusedIndex := newFocus;
      var newKey := FocusKey(focusedIndex);
      submitted := false;
      if oldKey != newKey {
        submitted := FocusedIndexDidChange(oldKey, newKey);
      }
    }
  }

  // ---------------------------------------------------------------------------
  // Typing into a one-character field
  // ---------------------------------------------------------------------------

  /**
   * Typing `c` into a field that holds `o`, on either side of the cursor,
   * leaves exactly `c` in the field.
   */
  lemma TypedCharacterWins(o: char, c: char)
    ensures Limited([o, c], [o], [o, c]) == [c]
    ensures Limited([c, o], [o], [c, o]) == [c]
  {
  }

  /** Typing into an empty field keeps what was typed when it is one character. */
  lemma TypingIntoEmptyField(c: char)
    ensures Limited([c], [], [c]) == [c]
  {
  }

  /** Pasting several characters into an empty field keeps the first of them. */
  lemma PasteKeepsFirst(code: string)
    requires |code| > 1
    ensures Limited(code, [], code) == [code[0]]
  {
  }

  /** A collapsed pin is left alone by a second `limitText`. */
  lemma LimitedIdempotent(pin: string, oldValue: string, newValue: string, oldValue': string, newValue': string)
    ensures var r := Limited(pin, oldValue, newValue); Limited(r, oldValue', newValue') == r
  {
  }

  /**
   * Filling the fields in order: a non-empty pin typed in field `i` moves
   * the focus to field `i + 1`, and on the last field it clears the focus,
   * which is the single moment the code is submitted.
   */
  lemma FillingInOrder(i: int, pin: string, count: int)
    requires 0 <= i < count && pin != []
    ensures NextFocus(Some(i), pin, count) == if i == count - 1 then None else Some(i + 1)
    ensures LeavesLastField(Some(i), NextFocus(Some(i), pin, count), count) <==> i == count - 1
  {
  }

  /** Clearing field `i` moves the focus back one field; on the first field it clears it without submitting unless that is also the last. */
  lemma ClearingGoesBack(i: int, count: int)
    requires 0 <= i < count
    ensures NextFocus(Some(i), [], count) == if i == 0 then None else Some(i - 1)
    ensures LeavesLastField(Some(i), NextFocus(Some(i), [], count), count) <==> i == 0 && count == 1
  {
  }
}
