/** Character classes used by the slug normaliser, and the ASCII case mapping
    of Ruby's `String#downcase` restricted to the letters `A`-`Z`. */
module Ascii {

  predicate IsUpper(c: char) { 'A' <= c <= 'Z' }

  predicate IsLower(c: char) { 'a' <= c <= 'z' }

  predicate IsDigit(c: char) { '0' <= c <= '9' }

  /** The class `[a-z0-9]`: the characters that survive into a slug unchanged. */
  predicate IsSlugAlnum(c: char) { IsLower(c) || IsDigit(c) }

  /** An ASCII letter of either case, or a digit. */
  predicate IsAlnum(c: char) { IsUpper(c) || IsSlugAlnum(c) }

  /** The alphabet of a finished slug. */
  predicate IsSlugChar(c: char) { IsSlugAlnum(c) || c == '-' }

  /** Lower-cases one character: `A`-`Z` go to the letter at the same
      alphabet position in `a`-`z`, every other character is left alone. */
  function Downcase(c: char): (d: char)
    ensures !IsUpper(d)
    ensures IsAlnum(c) <==> IsSlugAlnum(d)
    ensures IsUpper(c) ==> IsLower(d) && d as int - 'a' as int == c as int - 'A' as int
    ensures !IsUpper(c) ==> d == c
  {
    if IsUpper(c) then (c as int - 'A' as int + 'a' as int) as char else c
  }
}
