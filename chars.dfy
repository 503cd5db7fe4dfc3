/** Character classification as the C locale's `<cctype>` does it: the only
    alphabetic characters are 'A'..'Z' and 'a'..'z', and `toupper` maps
    'a'..'z' to 'A'..'Z' and leaves every other character alone. */
module CharClass {

  /** The canonical alphabet "ABCDEFGHIJKLMNOPQRSTUVWXYZ", the `alphabet`
      constant of the cipher tools: position `i` holds the letter with code
      'A' + i. */
  const ALPHABET: string := Letters()

  /** The letter with code 'A' + i, for i in 0..25. */
  function Letter(i: int): char {
    if 0 <= i < 26 then (65 + i) as char else 'A'
  }

  /** The 26 letters in order. */
  function Letters(): (s: string)
    ensures |s| == 26 && forall i :: 0 <= i < 26 ==> s[i] == Letter(i)
  {
    seq(26, Letter)
  }

  predicate IsUpper(c: char) {
    'A' <= c <= 'Z'
  }

  predicate IsLower(c: char) {
    'a' <= c <= 'z'
  }

  /** `std::isalpha` in the C locale. */
  predicate IsAlpha(c: char) {
    IsUpper(c) || IsLower(c)
  }

  /** `std::toupper` in the C locale. */
  function ToUpper(c: char): (u: char)
    ensures IsLower(c) ==> IsUpper(u) && u as int == c as int - 32
    ensures !IsLower(c) ==> u == c
  {
    if IsLower(c) then (c as int - 32) as char else c
  }

  /** The position of an upper-case letter in ALPHABET (`c - 'A'`). */
  function LetterIndex(c: char): (i: nat)
    requires IsUpper(c)
    ensures i < 26 && ALPHABET[i] == c
  {
    c as int - 'A' as int
  }

  /** Position `i` of the alphabet holds the letter with code 'A' + i. */
  lemma AlphabetAt(i: int)
    requires 0 <= i < 26
    ensures |ALPHABET| == 26 && ALPHABET[i] as int == 'A' as int + i && IsUpper(ALPHABET[i])
  {
  }

  /** Every character of `s` is an upper-case letter. */
  predicate AllUpper(s: string) {
    forall k :: 0 <= k < |s| ==> IsUpper(s[k])
  }

  /** Upper-casing an alphabetic character gives an upper-case letter, and an
      upper-case letter is its own upper-case form. */
  lemma ToUpperOfAlpha(c: char)
    requires IsAlpha(c)
    ensures IsUpper(ToUpper(c)) && IsAlpha(ToUpper(c))
    ensures ToUpper(ToUpper(c)) == ToUpper(c)
  {
  }
}
