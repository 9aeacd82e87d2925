/** Character classes used by the scraper's Python string methods
    (`isupper`, `isalnum`, `isspace`, `lower`), restricted to ASCII. */
module Chars {

  /** `str.isupper` on a single character. */
  predicate IsUpper(c: char) {
    'A' <= c <= 'Z'
  }

  predicate IsLower(c: char) {
    'a' <= c <= 'z'
  }

  predicate IsDigit(c: char) {
    '0' <= c <= '9'
  }

  /** `str.isalnum` on a single character. */
  predicate IsAlnum(c: char) {
    IsUpper(c) || IsLower(c) || IsDigit(c)
  }

  /** `str.isspace` on a single character: the ASCII whitespace characters,
      including the four information separators 0x1C..0x1F that Python
      also treats as whitespace. */
  predicate IsSpace(c: char) {
    c == ' ' || '\t' <= c <= '\r' || '\U{1C}' <= c <= '\U{1F}'
  }

  /** `str.lower` on a single character. */
  function ToLower(c: char): (r: char)
    ensures IsUpper(c) ==> IsLower(r) && r as int - c as int == 32
    ensures !IsUpper(c) ==> r == c
  {
    if IsUpper(c) then (c as int + 32) as char else c
  }

  /** `str.upper` on a single character. */
  function ToUpper(c: char): (r: char)
    ensures IsLower(c) ==> IsUpper(r) && ToLower(r) == c
    ensures !IsLower(c) ==> r == c
  {
    if IsLower(c) then (c as int - 32) as char else c
  }
}
