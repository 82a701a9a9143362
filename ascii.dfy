/** Characters as the C++ code sees them under the "C" locale: 7-bit ASCII,
    with `isalpha`, `toupper` and the truncating `%` of C++ written out. */
module Ascii {

  /** A character of the 7-bit ASCII range. */
  type AsciiChar = c: char | c as int < 128 witness 'A'

  type AsciiString = seq<AsciiChar>

  predicate IsUpper(c: char) { 'A' <= c <= 'Z' }

  predicate IsLower(c: char) { 'a' <= c <= 'z' }

  /** `isalpha` of the "C" locale. */
  predicate IsAlpha(c: char) { IsUpper(c) || IsLower(c) }

  /** True when some character of `s` is a letter. */
  predicate HasLetter(s: AsciiString) {
    exists i :: 0 <= i < |s| && IsAlpha(s[i])
  }

  /** `toupper` of the "C" locale: lower-case letters move down by 32,
      every other character is returned unchanged. */
  function ToUpper(c: AsciiChar): (r: AsciiChar)
    ensures IsAlpha(r) <==> IsAlpha(c)
    ensures IsAlpha(c) ==> IsUpper(r)
    ensures !IsLower(c) ==> r == c
    ensures IsLower(c) ==> r as int + 32 == c as int
  {
    if IsLower(c) then (c as int - 32) as char else c
  }

  /** The position of an upper-case letter in the alphabet, 'A' being 0. */
  function LetterIndex(c: char): int { c as int - 'A' as int }

  /** The upper-case letter at position `i` of the alphabet. */
  function Letter(i: int): (r: AsciiChar)
    requires 0 <= i < 26
    ensures IsUpper(r) && LetterIndex(r) == i
  {
    ('A' as int + i) as char
  }

  /** The letters `isalpha` accepts are the 26 letters of the alphabet in
      upper case and the same letters 32 code points higher in lower case. */
  lemma IsAlphaLetters(c: char)
    ensures IsAlpha(c) <==>
      exists i :: 0 <= i < 26 && (c == Letter(i) || c as int == Letter(i) as int + 32)
  {
    if IsUpper(c) {
      assert c == Letter(LetterIndex(c));
    } else if IsLower(c) {
      assert c as int == Letter(LetterIndex(c) - 32) as int + 32;
    }
  }

  /** `a % 26` as C++ computes it, truncating toward zero: unlike Dafny's
      `%`, the remainder takes the sign of a negative dividend. */
  function Rem26(a: int): (r: int)
    ensures -26 < r < 26
    ensures (a - r) % 26 == 0
    ensures a >= 0 ==> 0 <= r
    ensures a < 0 ==> r <= 0
  {
    if a >= 0 then a % 26 else -((-a) % 26)
  }

}
