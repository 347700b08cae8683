/** Character classes used by the lexer, fixed to the ASCII ("C" locale) meaning
    of isalpha, isdigit and isspace, and the character-or-end-of-input value that
    fgetc returns. */
module Chars {

  /** What fgetc yields: a character, or the end-of-input sentinel EOF. */
  datatype Ch = Eof | Char(c: char)

  /** What fgetc returns when the stream stands at position i of s: the
      character there, or Eof once s is exhausted. */
  function At(s: seq<char>, i: nat): (r: Ch)
    ensures r.Eof? <==> i >= |s|
    ensures r.Char? ==> i < |s| && r.c == s[i]
  {
    if i < |s| then Char(s[i]) else Eof
  }

  predicate IsAlpha(c: char) {
    ('a' <= c <= 'z') || ('A' <= c <= 'Z')
  }

  predicate IsDigit(c: char) {
    '0' <= c <= '9'
  }

  /** isspace in the C locale: space, \t, \n, \v, \f and \r (codes 9 to 13). */
  predicate IsSpace(c: char) {
    c == ' ' || ('\t' <= c <= '\r')
  }

  /** A character that may begin an identifier: a letter or `_`. */
  predicate IsNameStart(c: char) {
    IsAlpha(c) || c == '_'
  }

  /** A character that may continue an identifier: a letter, a digit or `_`. */
  predicate IsNameChar(c: char) {
    IsAlpha(c) || IsDigit(c) || c == '_'
  }
}
