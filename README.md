# ViewKit core, modelled in Dafny

This project models the parts of the SwiftUI library ViewKit that hold logic of their own:

- **Validation.** The `Validator` protocol and its default `isValid`. The six built-in validators: password, national id, full name, phone, email and required. The `ValidationType` dispatch that picks one of them.
  - Each validator is a total function from a string to `Option<ValidationError>`.
  - Its contract says exactly when it returns `None`, and which error wins when several checks fail.
  - The NSPredicate regular expressions are written out as character-class predicates. `MATCHES` is a whole-string match.
- **`Color(hex:)`.** Trimming of non-alphanumerics at both ends, the `Scanner` hex scan, and the split of the scanned integer into alpha, red, green and blue bytes by the trimmed length.
- **`HighlightedText`.** The `attributedString` loop that cuts the text at every caret and colours the odd-numbered pieces. It is a method with a loop, proved against a specification function.
- **`OTPFields`.** A class holding the `pins` and the optional `focusedIndex`. Its methods are `limitText`, `updateFocusedIndex`, `focusedIndexDidChange`, and the order in which the two `onChange` handlers run them.
- **`RoundedCorners`.** `UIRectCorner.flipped` is a method that builds the set insert by insert. `adjustedCorners` is a function of the corners and the layout direction.

Files:
- `wrappers.dfy`: `Option`.
- `chars.dfy`: character classes.
- `strings.dfy`: Swift's `trimmingCharacters(in:)` and `split(separator:)` on `seq<char>`, with their properties.
- `validation_error.dfy`: `ValidationError`.
- One file per validator, and `validator.dfy`.
- `hex_color.dfy`, `highlighted_text.dfy`, `otp_fields.dfy` and `rounded_corners.dfy`.

Modelling choices:
- A Swift `String` is a `seq<char>` with one element per `Character`.
- ICU's `.` does not match a line terminator. So the password helpers `.*[X]+.*` fail on any string that holds one of `\n`, U+000B, U+000C, `\r`, U+0085, U+2028 or U+2029, and the model keeps that behaviour.
- ICU's `\s` (in the full-name pattern) is the Unicode White_Space property: the separators (category Z), U+0009–U+000D and U+0085. Foundation's `.whitespacesAndNewlines` is the same set, so both use one predicate.
- `CharacterSet.alphanumerics` is taken to be the ASCII letters and digits.
- The documentation of `Color(hex:)` says it ignores every non-alphanumeric character. The code only trims them from the two ends, and any that remain inside count toward the length. The model follows the code.
- The Scanner reads an optional `0x`/`0X` prefix and then the longest run of hexadecimal digits. When no digit comes first it reads 0. The model works on unbounded naturals, so no `UInt64` overflow is modelled; strings of the three accepted lengths stay far below it.
- `safeOnChange` is not part of this model. It is taken to behave like SwiftUI's two-argument `onChange`: the action runs only when the watched value changed, and it gets the old and the new value.

## Model

| member | source | states |
|---|---|---|
| Validator.Validate | Sources/ViewKit/Utilities/Validation/Validator.swift:8-14 | the dispatch of `ValidationType.validator`: each built-in type runs its own validator and a custom one its own `validate`; a pure function of the type and the value |
| Validator.IsValid | Sources/ViewKit/Utilities/Validation/Validator.swift:20-28 | `isValid` holds exactly when `validate` returns no error; for a built-in validator, exactly when the value has that validator's accepted form |
| Validator.InvalidHasError | Sources/ViewKit/Utilities/Validation/Validator.swift:12-14 | a value that is not valid gets an error, and for a built-in validator it is one of the errors that validator declares |
| Validator.EmptyRefused | Sources/ViewKit/Utilities/Validation/Validators/PasswordValidator.swift:12-14 | every built-in validator refuses the empty string with the required-field error: the first guard of the password, national id, full name, phone and email validators, and the trim test of the required one |
| PasswordValidator.Validate | Sources/ViewKit/Utilities/Validation/Validators/PasswordValidator.swift:11-43 | no error exactly for a single-line value of at least 8 characters without a space that has an uppercase letter, a lowercase letter, a digit and a special character; otherwise the first failing check's error, one iff per error in the order required, spaces, length, uppercase, lowercase, digit, special |
| PasswordValidator.ContainsUppercase | Sources/ViewKit/Utilities/Validation/Validators/PasswordValidator.swift:46-50 | `.*[A-Z]+.*` matches the whole string: characters `.` accepts, one or more of the class, characters `.` accepts |
| PasswordValidator.ContainsLowercase | Sources/ViewKit/Utilities/Validation/Validators/PasswordValidator.swift:53-57 | the same for `[a-z]` |
| PasswordValidator.ContainsNumber | Sources/ViewKit/Utilities/Validation/Validators/PasswordValidator.swift:60-64 | the same for `[0-9]` |
| PasswordValidator.ContainsSpecialCharacter | Sources/ViewKit/Utilities/Validation/Validators/PasswordValidator.swift:67-71 | the same for the class of `!@#$%^&*(),.?":{}\|<>` |
| PasswordValidator.MatchesSomewhereIff | Sources/ViewKit/Utilities/Validation/Validators/PasswordValidator.swift:46-71 | each `.*[C]+.*` helper holds exactly when the string has no line terminator and holds a character of class C |
| PasswordValidator.ClassIsSingleLine | Sources/ViewKit/Utilities/Validation/Validators/PasswordValidator.swift:47-68 | no character of the four bracketed classes is a line terminator |
| PasswordValidator.LineTerminatorFailsUppercase | Sources/ViewKit/Utilities/Validation/Validators/PasswordValidator.swift:24-26 | a long enough value without spaces that holds a line terminator is refused for its missing uppercase letter, whatever else it holds |
| NationalIdValidator.ContainsOnlyDigits | Sources/ViewKit/Utilities/Validation/Validators/NationalIdValidator.swift:31-35 | `^[0-9]+$`: non-empty and every character an ASCII digit |
| NationalIdValidator.IsNumberValid | Sources/ViewKit/Utilities/Validation/Validators/NationalIdValidator.swift:37-41 | `^[2-3][0-9]{13}$`: exactly 14 characters, a `2` or `3` and then thirteen ASCII digits |
| NationalIdValidator.Validate | Sources/ViewKit/Utilities/Validation/Validators/NationalIdValidator.swift:11-41 | no error exactly for 14 ASCII digits starting with 2 or 3; otherwise one iff per error: empty, a non-digit, a length other than 14, a wrong first digit |
| PhoneValidator.HasPrefix01 | Sources/ViewKit/Utilities/Validation/Validators/PhoneValidator.swift:16 | `hasPrefix("01")`: the first two characters are `0` and `1` |
| PhoneValidator.IsNumberValid | Sources/ViewKit/Utilities/Validation/Validators/PhoneValidator.swift:31-35 | `^(01)[0-9]{9}$`: exactly 11 characters, `01` and then nine ASCII digits |
| PhoneValidator.Validate | Sources/ViewKit/Utilities/Validation/Validators/PhoneValidator.swift:11-35 | no error exactly for `01` followed by 9 ASCII digits; otherwise one iff per error: empty, no `01` prefix, a length other than 11, a non-digit |
| FullNameValidator.Validate | Sources/ViewKit/Utilities/Validation/Validators/FullNameValidator.swift:11-38 | no error exactly when every character is a letter, white space or `-` and a space separates two non-space characters; otherwise one iff per error: empty, a character outside the class, fewer than two names |
| FullNameValidator.ContainsNoSpecialCharacters | Sources/ViewKit/Utilities/Validation/Validators/FullNameValidator.swift:28-32 | `^[a-zA-Z\s-]+$`: the value is non-empty and every character is an ASCII letter, a White_Space character or `-` |
| FullNameValidator.IsNameValid | Sources/ViewKit/Utilities/Validation/Validators/FullNameValidator.swift:35-38 | two or more non-empty runs between spaces; TwoWordsIff turns this into a space between two non-space characters |
| FullNameValidator.NoSpaceIsOneName | Sources/ViewKit/Utilities/Validation/Validators/FullNameValidator.swift:20-22 | a permitted value without a space, such as two names joined by a tab, is refused with the first-and-last-name error |
| FullNameValidator.ExtraSpacesIrrelevant | Sources/ViewKit/Utilities/Validation/Validators/FullNameValidator.swift:35-38 | two space-free names with any number of spaces before them, one or more between them and any number after them split into exactly those two components |
| FullNameValidator.SpacedNamesAccepted | Sources/ViewKit/Utilities/Validation/Validators/FullNameValidator.swift:11-38 | two names of letters and hyphens with any such spacing are accepted |
| EmailValidator.Validate | Sources/ViewKit/Utilities/Validation/Validators/EmailValidator.swift:11-27 | no error exactly for a non-empty value the address pattern matches; the required-field error exactly for the empty string; only the two declared errors otherwise |
| EmailValidator.IsEmailValid | Sources/ViewKit/Utilities/Validation/Validators/EmailValidator.swift:23-27 | the pattern matches the whole string: a non-empty local part of `[A-Z0-9a-z._%+-]`, `@`, a non-empty domain of `[A-Za-z0-9.-]`, a dot, and two or more ASCII letters |
| EmailValidator.MatchPositions | Sources/ViewKit/Utilities/Validation/Validators/EmailValidator.swift:24 | in every match the `@` is the only one in the string and the literal dot is the last dot |
| EmailValidator.AcceptedShape | Sources/ViewKit/Utilities/Validation/Validators/EmailValidator.swift:24 | an accepted address has exactly one `@`, a character between it and the last dot, and at least two letters after that dot |
| EmailValidator.MatchDeterminedByPositions | Sources/ViewKit/Utilities/Validation/Validators/EmailValidator.swift:23-27 | once the unique `@` and the last dot are known, the pattern matches exactly when it matches at those positions |
| EmailValidator.SpaceOrNoAtSignRefused | Sources/ViewKit/Utilities/Validation/Validators/EmailValidator.swift:16-18 | a non-empty value with a space, or without an `@`, is refused as an invalid address |
| EmailValidator.AcceptsPlainAddress | Sources/ViewKit/Utilities/Validation/Validators/EmailValidator.swift:24 | `baher.tamer@email.com` is accepted, the address the test suite calls valid |
| EmailValidator.RefusesMissingDomain | Sources/ViewKit/Utilities/Validation/Validators/EmailValidator.swift:24 | `baher.tamer@.com` is refused as an invalid address, as the test suite expects |
| EmailValidator.RefusesMissingExtension | Sources/ViewKit/Utilities/Validation/Validators/EmailValidator.swift:24 | `baher.tamer@email` is refused as an invalid address, as the test suite expects |
| RequiredValidator.IsFieldValid | Sources/ViewKit/Utilities/Validation/Validators/RequiredValidator.swift:16-18 | the value trimmed of white space and newlines is not empty; TrimEmptyIff turns this into some character outside that set |
| RequiredValidator.Validate | Sources/ViewKit/Utilities/Validation/Validators/RequiredValidator.swift:11-18 | no error exactly when some character is neither white space nor a newline; the only error is the required-field error |
| RequiredValidator.PaddingIrrelevant | Sources/ViewKit/Utilities/Validation/Validators/RequiredValidator.swift:17 | white space and newlines added before or after a value never change the verdict |
| Strings.Trim | Sources/ViewKit/Utilities/Validation/Validators/RequiredValidator.swift:17 | `trimmingCharacters(in:)`: drop the members of the set from the start, then from the end; TrimSlice and TrimPadded say what is left |
| Strings.TrimStart | Sources/ViewKit/Utilities/Validation/Validators/RequiredValidator.swift:17 | the result is a suffix of the input, everything dropped is in the set, and the result does not start with a member of the set |
| Strings.TrimEnd | Sources/ViewKit/Extensions/UI/Color/HexColor.swift:40 | the result is a prefix of the input, everything dropped is in the set, and the result does not end with a member of the set |
| Strings.TrimSlice | Sources/ViewKit/Extensions/UI/Color/HexColor.swift:40 | trimming gives a contiguous slice of the input whose outside lies in the set and whose ends do not |
| Strings.TrimEmptyIff | Sources/ViewKit/Utilities/Validation/Validators/RequiredValidator.swift:17 | trimming gives the empty string exactly when every character is in the set |
| Strings.TrimmedToUnique | Sources/ViewKit/Extensions/UI/Color/HexColor.swift:40 | a non-empty trimmed slice is determined by the string |
| Strings.TrimPadded | Sources/ViewKit/Extensions/UI/Color/HexColor.swift:40 | padding a core whose ends are outside the set with characters from the set trims back to the core |
| Strings.Split | Sources/ViewKit/Components/HighlightedText.swift:56 | splitting with the empty pieces kept gives one more piece than there are separators, none holding the separator |
| Strings.JoinSplit | Sources/ViewKit/Components/HighlightedText.swift:56 | joining the pieces with the separator gives back the input |
| Strings.SplitJoin | Sources/ViewKit/Components/HighlightedText.swift:56 | separator-free pieces joined by the separator split back into the same pieces |
| Strings.SplitAtSeparator | Sources/ViewKit/Components/HighlightedText.swift:56 | splitting `a + sep + b` gives the pieces of `a` followed by the pieces of `b` |
| Strings.SplitWithoutSeparator | Sources/ViewKit/Components/HighlightedText.swift:56 | a string without the separator is a single piece |
| Strings.ConcatSplit | Sources/ViewKit/Components/HighlightedText.swift:56-63 | the pieces one after another are the input with every separator removed |
| Strings.NonEmpty | Sources/ViewKit/Utilities/Validation/Validators/FullNameValidator.swift:36 | dropping the empty pieces leaves only non-empty ones |
| Strings.Words | Sources/ViewKit/Utilities/Validation/Validators/FullNameValidator.swift:36 | `split(separator:)` with its default of omitting empty pieces: the non-empty pieces of the split, in order |
| Strings.LeadingSeparators | Sources/ViewKit/Utilities/Validation/Validators/FullNameValidator.swift:36 | separators in front of a string add no component |
| Strings.TrailingSeparators | Sources/ViewKit/Utilities/Validation/Validators/FullNameValidator.swift:36 | separators after a string add no component |
| Strings.SeparatorRun | Sources/ViewKit/Utilities/Validation/Validators/FullNameValidator.swift:36 | a run of one or more separators between two strings gives the components of the first followed by those of the second, whatever its length |
| Strings.WordsAtSeparator | Sources/ViewKit/Utilities/Validation/Validators/FullNameValidator.swift:36 | the words of `a + sep + b` are the words of `a` followed by those of `b` |
| Strings.NoWordsIff | Sources/ViewKit/Utilities/Validation/Validators/FullNameValidator.swift:36 | a string has no words exactly when it consists of separators only |
| Strings.TwoWordsIff | Sources/ViewKit/Utilities/Validation/Validators/FullNameValidator.swift:35-38 | `split(separator:)` yields two or more components exactly when a separator lies between two non-separator characters |
| HexColor.Trimmed | Sources/ViewKit/Extensions/UI/Color/HexColor.swift:40 | the input trimmed of everything outside the ASCII letters and digits at both ends; TrimmedCore says what is left |
| HexColor.ScanHex | Sources/ViewKit/Extensions/UI/Color/HexColor.swift:42-44 | `scanHexInt64` into a zero: an optional `0x` or `0X`, then the value of the longest run of hexadecimal digits, 0 when there is none |
| HexColor.HexValue | Sources/ViewKit/Extensions/UI/Color/HexColor.swift:42-44 | the value of n hexadecimal digits is below 16 to the power n |
| HexColor.HexRun | Sources/ViewKit/Extensions/UI/Color/HexColor.swift:44 | the scan reads the longest leading run of hexadecimal digits |
| HexColor.ScanBound | Sources/ViewKit/Extensions/UI/Color/HexColor.swift:42-44 | the scanned value is below 16 to the power of the string's length |
| HexColor.ColorComponents | Sources/ViewKit/Extensions/UI/Color/HexColor.swift:39-58 | every component is a byte for every input; any trimmed length other than 3, 6 or 8 gives opaque black; alpha is 255 unless the length is 8 |
| HexColor.ThreeDigits | Sources/ViewKit/Extensions/UI/Color/HexColor.swift:47-48 | three digits give alpha 255 and each component its digit times 17 |
| HexColor.SixDigits | Sources/ViewKit/Extensions/UI/Color/HexColor.swift:50-51 | six digits give alpha 255 and red, green and blue from the three digit pairs in order |
| HexColor.EightDigits | Sources/ViewKit/Extensions/UI/Color/HexColor.swift:53-54 | eight digits give alpha, red, green and blue from the four digit pairs in order |
| HexColor.HexValue3 | Sources/ViewKit/Extensions/UI/Color/HexColor.swift:48 | `int >> 8`, `int >> 4 & 0xF` and `int & 0xF` of a three-digit value are its three digits |
| HexColor.HexValue6 | Sources/ViewKit/Extensions/UI/Color/HexColor.swift:51 | `int >> 16`, `int >> 8 & 0xFF` and `int & 0xFF` of a six-digit value are its three digit pairs |
| HexColor.HexValue8 | Sources/ViewKit/Extensions/UI/Color/HexColor.swift:54 | the four shifts and masks of an eight-digit value are its four digit pairs |
| HexColor.HexValueAppend | Sources/ViewKit/Extensions/UI/Color/HexColor.swift:44 | the value of `a + b` is the value of `a` shifted by the length of `b`, plus the value of `b` |
| HexColor.ScanAllDigits | Sources/ViewKit/Extensions/UI/Color/HexColor.swift:44 | a string of hexadecimal digits scans to its value |
| HexColor.NoLeadingDigitIsBlack | Sources/ViewKit/Extensions/UI/Color/HexColor.swift:44-58 | a trimmed string that does not start with a digit gives black: opaque, or fully transparent when its length is 8 |
| HexColor.ScanStopsAtNonDigit | Sources/ViewKit/Extensions/UI/Color/HexColor.swift:44 | without a `0x` prefix, the scan reads the digits up to the first non-digit and nothing after it, for a run of any length |
| HexColor.ScanSkipsPrefix | Sources/ViewKit/Extensions/UI/Color/HexColor.swift:44 | a leading `0x` or `0X` is skipped before the digits |
| HexColor.RunOfDigits | Sources/ViewKit/Extensions/UI/Color/HexColor.swift:44 | the digit run of digits followed by a non-digit is exactly those digits |
| HexColor.TrimmedCore | Sources/ViewKit/Extensions/UI/Color/HexColor.swift:40 | only the non-alphanumerics at the two ends are removed; those inside stay |
| HexColor.WhiteFromShortForm | Sources/ViewKit/Extensions/UI/Color/HexColor.swift:47-48 | `#FFF` gives (255, 255, 255, 255) |
| HexColor.InteriorDotExample | Sources/ViewKit/Extensions/UI/Color/HexColor.swift:40-48 | `#F.F` keeps its dot, so it has three characters, but scans to 15 and gives (255, 0, 0, 255) |
| HexColor.ArgbExample | Sources/ViewKit/Extensions/UI/Color/HexColor.swift:53-54 | `#80FF5733` gives alpha 0x80, red 0xFF, green 0x57, blue 0x33 |
| HighlightedText.AttributedString | Sources/ViewKit/Components/HighlightedText.swift:54-66 | one segment more than there are carets; segment i is piece i of the split, holds no caret, and is highlighted exactly when i is odd; the result is the alternating colouring of the split |
| HighlightedText.AlternateIndex | Sources/ViewKit/Components/HighlightedText.swift:58-60 | piece i of the alternating colouring keeps its text and is coloured by the parity of i |
| HighlightedText.AlternatedByParity | Sources/ViewKit/Components/HighlightedText.swift:58-63 | pieces coloured by the parity of their index are the alternating colouring |
| HighlightedText.ShownText | Sources/ViewKit/Components/HighlightedText.swift:56-63 | the text shown is the input with every caret removed |
| HighlightedText.NoCaretIsPlain | Sources/ViewKit/Components/HighlightedText.swift:56-60 | a text without a caret is one piece in the normal colour |
| HighlightedText.ColouringAgrees | Sources/ViewKit/Components/HighlightedText.swift:22-23 | every character is coloured as the caret convention says, read one character at a time: a caret is hidden and switches the highlight |
| HighlightedText.DocumentationExample | Sources/ViewKit/Components/HighlightedText.swift:29-33 | `Hello, ^world^! Welcome to ^ViewKit^.` splits into five pieces and highlights exactly `world` and `ViewKit` |
| OTPFields.Limited | Sources/ViewKit/Components/OTPFields.swift:108-119 | a pin of at most one character is left alone; a longer one becomes one character, its last exactly when the old and new values start alike and its first exactly when they do not (either, when the two are equal) |
| OTPFields.NextFocus | Sources/ViewKit/Components/OTPFields.swift:122-135 | no focus stays none; focus moves one on after a non-empty pin and one back after an empty one; it clears only on the last or first field; a focus on a field stays on a field or clears |
| OTPFields.OTPFields.LimitText | Sources/ViewKit/Components/OTPFields.swift:108-119 | only `pins[index]` changes, to the collapsed pin; the focus is untouched |
| OTPFields.OTPFields.UpdateFocusedIndex | Sources/ViewKit/Components/OTPFields.swift:122-135 | the focus becomes the next focus for the pin, the pins are untouched, and the focus stays on a field or clears |
| OTPFields.Prefix1 | Sources/ViewKit/Components/OTPFields.swift:112-113 | `prefix(1)`: the first character, or nothing for the empty string |
| OTPFields.FocusKeyInjective | Sources/ViewKit/Components/OTPFields.swift:80-83 | the watched `focusedIndex ?? -1` is the same for two focuses on the fields exactly when they are the same focus, so the focus `onChange` runs exactly when the focus changes |
| OTPFields.OTPFields.FocusedIndexDidChange | Sources/ViewKit/Components/OTPFields.swift:101-105 | for the keys of two different focuses, each none or on a field, it submits exactly when the old focus is the last field and the new one is none; on raw keys, exactly when the old key is the last index and the new one is -1 |
| OTPFields.OTPFields.Edit | Sources/ViewKit/Components/OTPFields.swift:80-96 | an edit that changes a pin runs `limitText` and then `updateFocusedIndex`; the code is submitted exactly when the focus left the last field for none |
| OTPFields.OTPFields.Focus | Sources/ViewKit/Components/OTPFields.swift:80-83 | moving the focus submits exactly when it goes from the last field to none |
| OTPFields.TypedCharacterWins | Sources/ViewKit/Components/OTPFields.swift:111-118 | typing a character after or before the one a field holds leaves exactly the typed character |
| OTPFields.TypingIntoEmptyField | Sources/ViewKit/Components/OTPFields.swift:109 | one character typed into an empty field stays as typed |
| OTPFields.PasteKeepsFirst | Sources/ViewKit/Components/OTPFields.swift:111-118 | pasting several characters into an empty field keeps the first |
| OTPFields.LimitedIdempotent | Sources/ViewKit/Components/OTPFields.swift:109 | a collapsed pin is left alone by a second `limitText` |
| OTPFields.FillingInOrder | Sources/ViewKit/Components/OTPFields.swift:128-130 | a non-empty pin moves the focus one field on, and leaves the last field for none exactly when typed on the last field |
| OTPFields.ClearingGoesBack | Sources/ViewKit/Components/OTPFields.swift:131-133 | an empty pin moves the focus one field back; clearing it on the first field submits only when that is also the last |
| RoundedCorners.Flipped | Sources/ViewKit/Modifiers/RoundedCorners.swift:93-101 | a corner is in the result exactly when its mirror image is in the input; the result is the mirrored set |
| RoundedCorners.MirrorProperties | Sources/ViewKit/Modifiers/RoundedCorners.swift:96-99 | mirroring swaps left and right, keeps top and bottom, and undoes itself |
| RoundedCorners.FlipInvolution | Sources/ViewKit/Modifiers/RoundedCorners.swift:94-101 | flipping twice gives back the corners asked for |
| RoundedCorners.FlipKeepsCount | Sources/ViewKit/Modifiers/RoundedCorners.swift:96-99 | flipping keeps the number of corners |
| RoundedCorners.FlipKeepsEdges | Sources/ViewKit/Modifiers/RoundedCorners.swift:96-99 | the top corners flip to the top corners of the result, the bottom ones to the bottom |
| RoundedCorners.FlipAllAndNone | Sources/ViewKit/Modifiers/RoundedCorners.swift:95-100 | all corners flip to all corners, no corner to no corner |
| RoundedCorners.FlipSingleCorner | Sources/ViewKit/Modifiers/RoundedCorners.swift:96-99 | a single corner flips to its mirror image |
| RoundedCorners.AdjustedCorners | Sources/ViewKit/Modifiers/RoundedCorners.swift:71-73 | the corners as given under left to right and the flipped corners under right to left |
| RoundedCorners.AdjustedCornersProperties | Sources/ViewKit/Modifiers/RoundedCorners.swift:71-73 | left to right keeps the corners; right to left mirrors them; adjusting twice is no change; the count is kept |

## Left out

- The image loader and cache: no such code is part of this model.
- The NSPredicate/ICU regular expression engine: each pattern is a hand-written predicate over characters.
- Localisation: `String(localized:)` is a resource lookup, so every error message is its key string, and HighlightedText.AttributedString receives the text after that lookup.
- The `Double(x) / 255` conversion, `asUIColor` and the `Color`/`UIColor` types: these are floating point and UIKit bridging. `HexColor.ColorComponents` stops at the integer components.
- HexColor.ColorComponents: works on unbounded naturals and does not model `UInt64` overflow in the Scanner for very long digit runs.
- `CharacterSet.alphanumerics` and the `[a-zA-Z]` classes: only ASCII letters and digits count as alphanumeric. The Unicode tables are not modelled.
- Grapheme clusters: a `Character` made of several scalars is not modelled; one `char` is one `Character`.
- SwiftUI view bodies, layout, `RoundedShape.path`, `Carousel`, borders, `Hide`, `CollapsableGroup`: there is no logic to model beyond drawing.
- `InputField` and `String+Validation`: timing and a delegation to `ValidationType`; the dispatch itself is `Validator.Validate`.
- Base64 images, `WebView`, image rendering and the layout-direction lookup: these are calls into system frameworks. The layout direction is a parameter of `RoundedCorners.AdjustedCorners`.
- `ViewKitConfig`, `ViewKitLogger` and the package manifest: configuration and plumbing.
- `safeOnChange` is not part of this model. OTPFields.OTPFields.Edit runs the pin handler once per user edit. It does not model a second delivery of that handler after `limitText` rewrites the pin.
- `onSubmit` is a caller's closure; the model returns whether it runs.
- Custom validators: `ValidationType.Custom` is modelled by its `validate` function alone, so a conforming type that overrides the protocol's `isValid` with its own answer is not modelled; Validator.IsValid is the default implementation.
- RoundedCorners.Flipped works on the set of the four corners. It does not model the raw bit value of `UIRectCorner`; `.allCorners` is taken to be the four corners.
