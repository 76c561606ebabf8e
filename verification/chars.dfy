/**
  Character classes used by the listener's regular expressions and string helpers.

  Strings are `seq<char>`. The classes are exact on ASCII. Outside ASCII, `\p{L}` and
  the word characters of `\b` are approximated by the letter blocks listed in `IsLetter`.
 */
module Chars {

  predicate IsDigit(c: char) { '0' <= c <= '9' }

  predicate IsUpper(c: char) { 'A' <= c <= 'Z' }

  predicate IsLower(c: char) { 'a' <= c <= 'z' }

  predicate IsAsciiLetter(c: char) { IsUpper(c) || IsLower(c) }

  /** Java's `\s`: space, tab, newline, vertical tab, form feed, carriage return. */
  predicate IsSpace(c: char) {
    c == ' ' || c == '\t' || c == '\n' || c == '\U{000B}' || c == '\U{000C}' || c == '\r'
  }

  /**
    `\p{L}`, letters of any script: ASCII letters, the Latin-1 letters, Latin Extended-A/B,
    Hiragana, Katakana, the CJK ideograph blocks and Hangul syllables.
   */
  predicate IsLetter(c: char) {
    || IsAsciiLetter(c)
    || c == '\U{00AA}' || c == '\U{00B5}' || c == '\U{00BA}'
    || ('\U{00C0}' <= c <= '\U{024F}' && c != '\U{00D7}' && c != '\U{00F7}')
    || ('\U{3041}' <= c <= '\U{3096}')
    || ('\U{30A1}' <= c <= '\U{30FA}')
    || ('\U{3400}' <= c <= '\U{4DBF}')
    || ('\U{4E00}' <= c <= '\U{9FFF}')
    || ('\U{AC00}' <= c <= '\U{D7A3}')
  }

  /** The characters `\b` treats as word characters. */
  predicate IsWordChar(c: char) { IsDigit(c) || c == '_' || IsLetter(c) }

  /** The line terminators Java's `$` may stand before at the end of the input. */
  predicate IsLineTerminator(c: char) {
    c == '\n' || c == '\r' || c == '\U{0085}' || c == '\U{2028}' || c == '\U{2029}'
  }

  /** What `String.trim()` strips: every char at or below U+0020. */
  predicate IsTrimmable(c: char) { c <= ' ' }

  /** `Character.toLowerCase` under `Locale.ROOT`, restricted to ASCII. */
  function ToLower(c: char): (r: char)
    ensures IsUpper(c) ==> IsLower(r) && r as int == c as int + 32
    ensures !IsUpper(c) ==> r == c
  {
    if IsUpper(c) then (c as int + 32) as char else c
  }

  /** Every whitespace char is at most `' '`, so `trim` drops it. */
  lemma SpaceIsTrimmable(c: char)
    ensures IsSpace(c) ==> IsTrimmable(c)
  {
  }
}
