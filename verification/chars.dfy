/**
  ASCII character classification used throughout the concordance model.

  The C++ code calls `std::isalnum`, `std::isalpha`, `std::islower` and
  `std::tolower` in the default "C" locale; on ASCII input these are the
  predicates below.
 */
module Chars {

  predicate IsDigit(c: char) {
    '0' <= c <= '9'
  }

  predicate IsUpper(c: char) {
    'A' <= c <= 'Z'
  }

  predicate IsLower(c: char) {
    'a' <= c <= 'z'
  }

  predicate IsAlpha(c: char) {
    IsUpper(c) || IsLower(c)
  }

  predicate IsAlnum(c: char) {
    IsAlpha(c) || IsDigit(c)
  }

  /** `std::tolower`: maps 'A'..'Z' onto 'a'..'z' and leaves every other character alone. */
  function ToLower(c: char): (r: char)
    ensures !IsUpper(r)
    ensures IsUpper(c) ==> IsLower(r) && r as int - c as int == 'a' as int - 'A' as int
    ensures !IsUpper(c) ==> r == c
    ensures IsAlnum(r) <==> IsAlnum(c)
    ensures IsAlpha(r) <==> IsAlpha(c)
  {
    if IsUpper(c) then (c as int - 'A' as int + 'a' as int) as char else c
  }
}
