/**
 * Character classes used by the regular expressions of the converters and the
 * inflector, and the case mapping of `toLowerCase` / `toUpperCase`.
 *
 * The case mapping covers ASCII, the letters of the Latin-1 Supplement and the
 * one-to-one letter pairs of Latin Extended-A; every other character maps to
 * itself (see README, "Left out").
 */
module Chars {

  /** `[A-Z]` */
  predicate IsAsciiUpper(c: char) { 'A' <= c <= 'Z' }

  /** `[a-z]` */
  predicate IsAsciiLower(c: char) { 'a' <= c <= 'z' }

  /** `\d` */
  predicate IsDigit(c: char) { '0' <= c <= '9' }

  /** `[a-z\d]` */
  predicate IsLowerOrDigit(c: char) { IsAsciiLower(c) || IsDigit(c) }

  /** `\w` */
  predicate IsWordChar(c: char) { IsAsciiUpper(c) || IsAsciiLower(c) || IsDigit(c) || c == '_' }

  /** `\s`: the WhiteSpace and LineTerminator code points of ECMAScript. */
  predicate IsSpace(c: char) {
    var n := c as int;
    (9 <= n <= 13) || n == 0x20 || n == 0xA0 || n == 0x1680 || (0x2000 <= n <= 0x200A)
    || n == 0x2028 || n == 0x2029 || n == 0x202F || n == 0x205F || n == 0x3000 || n == 0xFEFF
  }

  /** Capitals U+00C0..U+00DE of the Latin-1 Supplement (U+00D7 is the multiplication sign). */
  predicate IsLatin1Upper(c: char) { var n := c as int; 0xC0 <= n <= 0xDE && n != 0xD7 }

  /** Small letters U+00E0..U+00FE of the Latin-1 Supplement (U+00F7 is the division sign). */
  predicate IsLatin1Lower(c: char) { var n := c as int; 0xE0 <= n <= 0xFE && n != 0xF7 }

  /** Blocks of Latin Extended-A where the capital has the even code point and its small letter the next one. */
  predicate InEvenCapitalBlock(c: char) {
    var n := c as int;
    (0x100 <= n <= 0x12F) || (0x132 <= n <= 0x137) || (0x14A <= n <= 0x177)
  }

  /** Blocks of Latin Extended-A where the capital has the odd code point and its small letter the next one. */
  predicate InOddCapitalBlock(c: char) {
    var n := c as int;
    (0x139 <= n <= 0x148) || (0x179 <= n <= 0x17E)
  }

  /** A character that `toLowerCase` changes. */
  predicate IsUpperCase(c: char) {
    IsAsciiUpper(c) || IsLatin1Upper(c)
    || (InEvenCapitalBlock(c) && c as int % 2 == 0)
    || (InOddCapitalBlock(c) && c as int % 2 == 1)
  }

  /** A character that `toUpperCase` changes. */
  predicate IsLowerCase(c: char) {
    IsAsciiLower(c) || IsLatin1Lower(c)
    || (InEvenCapitalBlock(c) && c as int % 2 == 1)
    || (InOddCapitalBlock(c) && c as int % 2 == 0)
  }

  function ToLower(c: char): (r: char)
    ensures IsUpperCase(c) ==> IsLowerCase(r)
    ensures !IsUpperCase(c) ==> r == c
    ensures !IsUpperCase(r)
  {
    if IsAsciiUpper(c) || IsLatin1Upper(c) then (c as int + 32) as char
    else if InEvenCapitalBlock(c) && c as int % 2 == 0 then (c as int + 1) as char
    else if InOddCapitalBlock(c) && c as int % 2 == 1 then (c as int + 1) as char
    else c
  }

  function ToUpper(c: char): (r: char)
    ensures IsLowerCase(c) ==> IsUpperCase(r)
    ensures !IsLowerCase(c) ==> r == c
    ensures !IsLowerCase(r)
  {
    if IsAsciiLower(c) || IsLatin1Lower(c) then (c as int - 32) as char
    else if InEvenCapitalBlock(c) && c as int % 2 == 1 then (c as int - 1) as char
    else if InOddCapitalBlock(c) && c as int % 2 == 0 then (c as int - 1) as char
    else c
  }

  /** Lowering and raising are inverse on letters that have a case partner. */
  lemma CasePairs(c: char)
    ensures ToLower(ToUpper(c)) == ToLower(c)
    ensures ToUpper(ToLower(c)) == ToUpper(c)
  {
  }

  /** `toLowerCase` of a whole string. */
  function LowerStr(s: string): (r: string)
    ensures |r| == |s|
    ensures forall k | 0 <= k < |s| :: r[k] == ToLower(s[k])
  {
    seq(|s|, k requires 0 <= k < |s| => ToLower(s[k]))
  }

  /** No character of `s` is changed by `toLowerCase`. */
  predicate HasNoUpper(s: string) {
    forall k | 0 <= k < |s| :: !IsUpperCase(s[k])
  }

  lemma LowerStrOfLower(s: string)
    requires HasNoUpper(s)
    ensures LowerStr(s) == s
  {
  }

  lemma LowerStrConcat(a: string, b: string)
    ensures LowerStr(a + b) == LowerStr(a) + LowerStr(b)
  {
  }
}
