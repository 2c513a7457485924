/**
 * The character classes that the library's regular expressions and
 * Foundation character sets refer to. A `char` stands for one Swift
 * `Character`.
 */
module Chars {

  predicate IsAsciiDigit(c: char) { '0' <= c <= '9' }

  predicate IsAsciiUpper(c: char) { 'A' <= c <= 'Z' }

  predicate IsAsciiLower(c: char) { 'a' <= c <= 'z' }

  predicate IsAsciiLetter(c: char) { IsAsciiUpper(c) || IsAsciiLower(c) }

  predicate IsHexDigit(c: char)
  {
    IsAsciiDigit(c) || 'a' <= c <= 'f' || 'A' <= c <= 'F'
  }

  /** The value of one hexadecimal digit, either case. */
  function HexDigitValue(c: char): (v: nat)
    requires IsHexDigit(c)
    ensures v < 16
    ensures IsAsciiDigit(c) ==> v == c as int - '0' as int
    ensures 'a' <= c <= 'f' ==> v == c as int - 'a' as int + 10
    ensures 'A' <= c <= 'F' ==> v == c as int - 'A' as int + 10
  {
    if IsAsciiDigit(c) then c as int - '0' as int
    else if 'a' <= c <= 'f' then c as int - 'a' as int + 10
    else c as int - 'A' as int + 10
  }

  /**
   * The line terminators of ICU regular expressions: without the DOTALL
   * flag, `.` matches every character except these.
   */
  predicate IsLineTerminator(c: char)
  {
    c == '\n' || c == '\U{000B}' || c == '\U{000C}' || c == '\r'
    || c == '\U{0085}' || c == '\U{2028}' || c == '\U{2029}'
  }

  /** Unicode general category Z (space, line and paragraph separators). */
  predicate IsSeparator(c: char)
  {
    c == ' ' || c == '\U{00A0}' || c == '\U{1680}'
    || ('\U{2000}' <= c <= '\U{200A}')
    || c == '\U{2028}' || c == '\U{2029}'
    || c == '\U{202F}' || c == '\U{205F}' || c == '\U{3000}'
  }

  /**
   * The Unicode White_Space property: category Z, U+0009 to U+000D and
   * U+0085. It is Foundation's `CharacterSet.whitespacesAndNewlines`, and
   * also what ICU's regular expressions match with `\s`.
   */
  predicate IsWhitespaceOrNewline(c: char)
  {
    IsSeparator(c) || ('\t' <= c <= '\r') || c == '\U{0085}'
  }

  /** Foundation's `CharacterSet.alphanumerics`, restricted to ASCII. */
  predicate IsAlphanumeric(c: char)
  {
    IsAsciiLetter(c) || IsAsciiDigit(c)
  }

  /** The two character sets the library trims with. */
  datatype CharacterSet = WhitespacesAndNewlines | AlphanumericsInverted

  predicate InSet(cs: CharacterSet, c: char)
  {
    match cs
    case WhitespacesAndNewlines => IsWhitespaceOrNewline(c)
    case AlphanumericsInverted => !IsAlphanumeric(c)
  }
}
