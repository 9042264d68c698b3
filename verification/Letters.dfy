/**
  Letters of ASCII and their case, which both INI libraries ignore in names.
 */
module Letters {
  /** The same character, or a letter and the same letter in the other case. */
  predicate SameLetter(c: char, d: char) {
    || c == d
    || ('A' <= c <= 'Z' && d as int == c as int + ('a' as int - 'A' as int))
    || ('A' <= d <= 'Z' && c as int == d as int + ('a' as int - 'A' as int))
  }
}
