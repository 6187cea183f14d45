/**
 * Character classification the regular expressions rely on. PCRE's Unicode tables are not
 * modelled: the letter class `\p{L}`, the digit class `\p{N}`, the word characters behind `\b`
 * and the case folding of the `i` flag are passed in as total functions, so every property
 * proved below holds for any tables.
 */
module Unicode {

  datatype CharClasses = CharClasses(
    isLetter: char -> bool,   // \p{L}
    isDigit: char -> bool,    // \p{N}
    isWord: char -> bool,     // \w under the u flag, which decides \b
    fold: char -> char)       // simple case folding under the i flag

  /** `\p{L}|\p{N}`: what masking overwrites. Its complement is the filler allowed between
      the characters of an obfuscated word. */
  predicate IsAlnum(u: CharClasses, c: char)
  {
    u.isLetter(c) || u.isDigit(c)
  }

  /** Two characters match under the pattern's case mode. */
  predicate Same(u: CharClasses, caseInsensitive: bool, a: char, b: char)
  {
    if caseInsensitive then u.fold(a) == u.fold(b) else a == b
  }

  predicate IsWordAt(isWord: char -> bool, s: string, q: int)
  {
    0 <= q < |s| && isWord(s[q])
  }

  /** `\b` at position `i` (between `s[i-1]` and `s[i]`); outside the string counts as
      non-word. */
  predicate Boundary(isWord: char -> bool, s: string, i: int)
  {
    IsWordAt(isWord, s, i - 1) != IsWordAt(isWord, s, i)
  }

  /** `\w` without the u flag: ASCII letters, digits and underscore. */
  predicate AsciiWord(c: char)
  {
    ('a' <= c <= 'z') || ('A' <= c <= 'Z') || ('0' <= c <= '9') || c == '_'
  }
}
