/**
 * Character classification and case mapping of the C locale, as the narrow
 * build (xchar = char) uses them: std::isspace, std::isupper, std::ispunct,
 * ::toupper and ::tolower.
 */
module Chars {

  /** std::isspace: space, tab, newline, vertical tab, form feed, carriage return. */
  predicate IsSpace(c: char) {
    c == ' ' || c == '\t' || c == '\n' || c == '\U{000B}' || c == '\U{000C}' || c == '\r'
  }

  predicate IsUpper(c: char) {
    'A' <= c <= 'Z'
  }

  predicate IsLower(c: char) {
    'a' <= c <= 'z'
  }

  predicate IsDigit(c: char) {
    '0' <= c <= '9'
  }

  /** std::ispunct: printable ASCII that is neither a letter, a digit nor a space. */
  predicate IsPunct(c: char) {
    '!' <= c <= '~' && !IsUpper(c) && !IsLower(c) && !IsDigit(c)
  }

  function ToUpper(c: char): (r: char)
    ensures IsLower(c) ==> IsUpper(r)
    ensures !IsLower(c) ==> r == c
  {
    if IsLower(c) then (c as int - 32) as char else c
  }

  function ToLower(c: char): (r: char)
    ensures IsUpper(c) ==> IsLower(r)
    ensures !IsUpper(c) ==> r == c
  {
    if IsUpper(c) then (c as int + 32) as char else c
  }

  /**
   * The value `hash ^= s[i]` mixes in: a plain `char` is signed, so a byte at or
   * above 0x80 is sign-extended when it is converted to `unsigned int`.
   * Characters above 0xFF do not occur in the narrow build; they are taken as
   * their code point, as the wide build would.
   */
  function Code(c: char): bv32 {
    if c as int < 0x80 then c as int as bv32
    else if c as int < 0x100 then (c as int + 0xFFFF_FF00) as bv32
    else c as int as bv32
  }

  /** `std::string::operator[]` at index `size()` yields the terminating NUL. */
  function CharAt(s: seq<char>, i: nat): char {
    if i < |s| then s[i] else '\0'
  }
}
