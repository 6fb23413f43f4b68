/** ASCII character classes and the ASCII part of `toUpperCase` and
    `toLowerCase`. Characters outside ASCII are left unchanged. */
module Ascii {

  predicate IsUpper(c: char) { 'A' <= c <= 'Z' }

  predicate IsLower(c: char) { 'a' <= c <= 'z' }

  predicate IsLetter(c: char) { IsUpper(c) || IsLower(c) }

  predicate IsDigit(c: char) { '0' <= c <= '9' }

  /** The class `[a-z0-9]` under the `i` flag. */
  predicate IsAlnum(c: char) { IsLetter(c) || IsDigit(c) }

  function Upper(c: char): (r: char)
    ensures !IsLower(r)
    ensures IsLetter(r) == IsLetter(c) && IsAlnum(r) == IsAlnum(c)
    ensures !IsLetter(c) ==> r == c
    ensures IsUpper(c) ==> r == c
    ensures IsLower(c) ==> r as int == c as int - 32
  {
    if IsLower(c) then (c as int - 32) as char else c
  }

  function Lower(c: char): (r: char)
    ensures !IsUpper(r)
    ensures IsLetter(r) == IsLetter(c) && IsAlnum(r) == IsAlnum(c)
    ensures !IsLetter(c) ==> r == c
    ensures IsLower(c) ==> r == c
    ensures IsUpper(c) ==> r as int == c as int + 32
  {
    if IsUpper(c) then (c as int + 32) as char else c
  }

  /** `s.toLowerCase()` on the ASCII letters of `s`. */
  function LowerAll(s: string): (r: string)
    ensures |r| == |s|
    ensures forall i :: 0 <= i < |s| ==> r[i] == Lower(s[i])
  {
    seq(|s|, i requires 0 <= i < |s| => Lower(s[i]))
  }
}
