/** Character classes behind the regular expressions and string methods of the
    voice assistant and of the menu extractor: Python's whitespace (`\s`,
    `str.strip`, `str.split`), word characters (`\w`, `\b`), decimal digits
    (`\d`), the Arabic block and per-character lower-casing. */
module Chars {

  /** Python's `str.isspace()`, which is also what `\s` matches in a str pattern. */
  predicate IsSpace(c: char)
  {
    || c == ' '
    || ('\t' <= c <= '\r')
    || ('\U{1C}' <= c <= '\U{1F}')
    || c == '\U{85}' || c == '\U{A0}' || c == '\U{1680}'
    || ('\U{2000}' <= c <= '\U{200A}')
    || c == '\U{2028}' || c == '\U{2029}' || c == '\U{202F}' || c == '\U{205F}' || c == '\U{3000}'
  }

  /** The Arabic Unicode block, U+0600 to U+06FF. */
  predicate InArabicBlock(c: char)
  {
    '\U{0600}' <= c <= '\U{06FF}'
  }

  predicate IsAsciiLetter(c: char)
  {
    'a' <= c <= 'z' || 'A' <= c <= 'Z'
  }

  predicate IsAsciiDigit(c: char)
  {
    '0' <= c <= '9'
  }

  /** Letters and digits of the Arabic block (marks and punctuation excluded). */
  predicate IsArabicWordChar(c: char)
  {
    || ('\U{0620}' <= c <= '\U{064A}')
    || ('\U{0660}' <= c <= '\U{0669}')
    || ('\U{066E}' <= c <= '\U{066F}')
    || ('\U{0671}' <= c <= '\U{06D3}')
    || c == '\U{06D5}'
    || ('\U{06E5}' <= c <= '\U{06E6}')
    || ('\U{06EE}' <= c <= '\U{06FC}')
    || c == '\U{06FF}'
  }

  /** Python's `\w` (alphanumeric or underscore), for ASCII, Latin-1 and the
      Arabic block; letters of other scripts are not word characters here. */
  predicate IsWordChar(c: char)
  {
    || IsAsciiLetter(c) || IsAsciiDigit(c) || c == '_'
    || c == '\U{AA}' || c == '\U{B2}' || c == '\U{B3}' || c == '\U{B5}'
    || c == '\U{B9}' || c == '\U{BA}'
    || ('\U{BC}' <= c <= '\U{BE}')
    || ('\U{C0}' <= c <= '\U{D6}')
    || ('\U{D8}' <= c <= '\U{F6}')
    || ('\U{F8}' <= c <= '\U{FF}')
    || IsArabicWordChar(c)
  }

  /** Python's lower-casing of one character, for ASCII and Latin-1. */
  function Lower(c: char): (r: char)
    ensures !('A' <= r <= 'Z') && !('\U{C0}' <= r <= '\U{DE}' && r != '\U{D7}')
    ensures IsSpace(r) == IsSpace(c)
    ensures IsWordChar(r) == IsWordChar(c)
    ensures InArabicBlock(r) == InArabicBlock(c)
    ensures IsAsciiLetter(r) == IsAsciiLetter(c)
    ensures !IsAsciiLetter(c) && !IsWordChar(c) ==> r == c
  {
    if 'A' <= c <= 'Z' || ('\U{C0}' <= c <= '\U{DE}' && c != '\U{D7}') then
      (c as int + 32) as char
    else
      c
  }

  /** Python's `\d`: ASCII, Arabic-Indic (U+0660..U+0669) and extended
      Arabic-Indic (U+06F0..U+06F9) decimal digits. */
  predicate IsDecimalDigit(c: char)
  {
    IsAsciiDigit(c) || ('\U{0660}' <= c <= '\U{0669}') || ('\U{06F0}' <= c <= '\U{06F9}')
  }

  /** The value `float()` gives a decimal digit of any of those scripts. */
  function DigitValue(c: char): (d: nat)
    requires IsDecimalDigit(c)
    ensures d < 10
    ensures IsAsciiDigit(c) ==> c == ('0' as int + d) as char
  {
    if IsAsciiDigit(c) then c as int - '0' as int
    else if c <= '\U{0669}' then c as int - 0x0660
    else c as int - 0x06F0
  }
}
