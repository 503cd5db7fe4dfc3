/** Encryption and decryption with a known key (ciphertools.cpp): position
    `i` of the key is the cipher letter for the `i`-th letter of the
    alphabet. */
module CipherTools {
  import opened CharClass
  import opened Swaps

  /** The first index of `x` in `s`, or `|s|` when it does not occur
      (`std::string::find`, with `npos` written as `|s|`). */
  function Find(s: string, x: char): (i: nat)
    ensures i <= |s|
    ensures i < |s| ==> s[i] == x
    ensures forall j :: 0 <= j < i ==> s[j] != x
    decreases |s|
  {
    if s == [] then 0 else if s[0] == x then 0 else 1 + Find(s[1..], x)
  }

  /** An upper-case letter is found in the alphabet at its letter index. */
  lemma FindInAlphabet(c: char)
    requires IsUpper(c)
    ensures Find(ALPHABET, c) == LetterIndex(c)
  {
    var i := Find(ALPHABET, c);
    var j := LetterIndex(c);
    if i < j {
      AlphabetAt(i);
    }
  }

  /** Reading position `i` of a `std::string`: its character, or NUL at
      `i == size()`. */
  function CharAt(s: string, i: nat): char
    requires i <= |s|
  {
    if i < |s| then s[i] else '\0'
  }

  /** Every letter of the text reads the key within its characters or at its
      terminating NUL. */
  predicate EncryptDefined(text: string, key: string) {
    forall k :: 0 <= k < |text| && IsAlpha(text[k]) ==> LetterIndex(ToUpper(text[k])) <= |key|
  }

  /** One character of `encrypt_monoalphabetic`: a letter of either case
      becomes the key's letter at its alphabet position; anything else is
      kept. */
  function EncryptChar(c: char, key: string): char
    requires IsAlpha(c) ==> LetterIndex(ToUpper(c)) <= |key|
  {
    if IsAlpha(ToUpper(c)) then CharAt(key, LetterIndex(ToUpper(c))) else c
  }

  /** Every letter of the text that occurs in the key occurs among its first
      27 characters, so its alphabet letter, or the alphabet's terminating
      NUL, exists. */
  predicate DecryptDefined(text: string, key: string) {
    forall k :: 0 <= k < |text| && IsAlpha(text[k]) ==>
      Find(key, ToUpper(text[k])) == |key| || Find(key, ToUpper(text[k])) <= 26
  }

  /** One character of `decrypt_monoalphabetic`: a letter whose upper-case
      form first occurs at index `i` of the key becomes the `i`-th letter of
      the alphabet; a letter absent from the key and any other character are
      kept as they are. */
  function DecryptChar(c: char, key: string): char
    requires IsAlpha(c) ==> Find(key, ToUpper(c)) == |key| || Find(key, ToUpper(c)) <= 26
  {
    if IsAlpha(ToUpper(c)) && Find(key, ToUpper(c)) < |key| then CharAt(ALPHABET, Find(key, ToUpper(c))) else c
  }

  function Encrypted(text: string, key: string): string
    requires EncryptDefined(text, key)
  {
    seq(|text|, k requires 0 <= k < |text| => EncryptChar(text[k], key))
  }

  function Decrypted(text: string, key: string): string
    requires DecryptDefined(text, key)
  {
    seq(|text|, k requires 0 <= k < |text| => DecryptChar(text[k], key))
  }

  /** `encrypt_monoalphabetic`: one output character per input character. */
  method EncryptMonoalphabetic(plaintext: string, key: string) returns (cipherText: string)
    requires EncryptDefined(plaintext, key)
    ensures cipherText == Encrypted(plaintext, key)
    ensures |cipherText| == |plaintext|
    ensures forall k :: 0 <= k < |plaintext| && !IsAlpha(plaintext[k]) ==> cipherText[k] == plaintext[k]
    ensures forall k :: 0 <= k < |plaintext| && IsAlpha(plaintext[k]) ==>
      cipherText[k] == CharAt(key, LetterIndex(ToUpper(plaintext[k])))
  {
    cipherText := "";
    for i := 0 to |plaintext|
      invariant cipherText == Encrypted(plaintext[..i], key)
    {
      var c := plaintext[i];
      var upperC := ToUpper(c);
      if IsAlpha(upperC) {
        var index := Find(ALPHABET, upperC);
        FindInAlphabet(upperC);
        if index != |ALPHABET| {
          cipherText := cipherText + [CharAt(key, index)];
        } else {
          cipherText := cipherText + [c];
        }
      } else {
        cipherText := cipherText + [c];
      }
    }
    assert plaintext[..|plaintext|] == plaintext;
  }

  /** `decrypt_monoalphabetic`: one output character per input character. */
  method DecryptMonoalphabetic(encryptedText: string, key: string) returns (decryptedText: string)
    requires DecryptDefined(encryptedText, key)
    ensures decryptedText == Decrypted(encryptedText, key)
    ensures |decryptedText| == |encryptedText|
    ensures forall k :: 0 <= k < |encryptedText| && !IsAlpha(encryptedText[k]) ==>
      decryptedText[k] == encryptedText[k]
    ensures forall k :: 0 <= k < |encryptedText| && IsAlpha(encryptedText[k]) ==>
      decryptedText[k] == if Find(key, ToUpper(encryptedText[k])) < |key|
                          then CharAt(ALPHABET, Find(key, ToUpper(encryptedText[k]))) else encryptedText[k]
  {
    decryptedText := "";
    for i := 0 to |encryptedText|
      invariant decryptedText == Decrypted(encryptedText[..i], key)
    {
      var c := encryptedText[i];
      var upperC := ToUpper(c);
      if IsAlpha(upperC) {
        var index := Find(key, upperC);
        if index != |key| {
          decryptedText := decryptedText + [CharAt(ALPHABET, index)];
        } else {
          decryptedText := decryptedText + [c];
        }
      } else {
        decryptedText := decryptedText + [c];
      }
    }
    assert encryptedText[..|encryptedText|] == encryptedText;
  }

  /** A key is an arrangement of the 26 letters A..Z. */
  predicate IsKey(key: string) {
    IsPermutationOf(key, ALPHABET)
  }

  /** The text with its letters upper-cased and everything else kept. */
  function UpperCased(text: string): string {
    seq(|text|, k requires 0 <= k < |text| => ToUpper(text[k]))
  }

  /** The characters of the alphabet are exactly the upper-case letters. */
  lemma AlphabetLetters(c: char)
    ensures c in ALPHABET <==> IsUpper(c)
  {
    if IsUpper(c) {
      assert ALPHABET[LetterIndex(c)] == c;
    }
  }

  /** Every letter of a key is an upper-case letter, and a key has no
      repeats. */
  lemma KeyLetters(key: string)
    requires IsKey(key)
    ensures Distinct(key) && |key| == 26
    ensures forall i :: 0 <= i < |key| ==> IsUpper(key[i])
  {
    assert Distinct(ALPHABET);
    PermutationOfDistinct(key, ALPHABET);
    forall i | 0 <= i < |key| ensures IsUpper(key[i]) {
      assert key[i] in multiset(ALPHABET);
      AlphabetLetters(key[i]);
    }
  }

  /** With a key made of the 26 letters, any text can be encrypted, and the
      result can be decrypted. */
  lemma KeyDefinesBoth(text: string, key: string)
    requires IsKey(key)
    ensures EncryptDefined(text, key)
    ensures DecryptDefined(Encrypted(text, key), key)
  {
    KeyLetters(key);
  }

  /** Decrypting an encryption with the same key gives the text with its
      letters upper-cased: the round trip of ciphertools.cpp's `main`. */
  lemma RoundTrip(text: string, key: string)
    requires IsKey(key)
    ensures EncryptDefined(text, key)
    ensures DecryptDefined(Encrypted(text, key), key)
    ensures Decrypted(Encrypted(text, key), key) == UpperCased(text)
  {
    KeyDefinesBoth(text, key);
    KeyLetters(key);
    var e := Encrypted(text, key);
    var d := Decrypted(e, key);
    forall k | 0 <= k < |text| ensures d[k] == ToUpper(text[k]) {
      var c := text[k];
      if IsAlpha(c) {
        var i := LetterIndex(ToUpper(c));
        assert e[k] == key[i];
        assert IsUpper(key[i]);
        var j := Find(key, key[i]);
        assert j == i;
      }
    }
  }

  /** The identity key "ABC...Z" only upper-cases the letters. */
  lemma EncryptWithAlphabet(text: string)
    ensures EncryptDefined(text, ALPHABET)
    ensures Encrypted(text, ALPHABET) == UpperCased(text)
  {
    var e := Encrypted(text, ALPHABET);
    forall k | 0 <= k < |text| ensures e[k] == ToUpper(text[k]) {
      if IsAlpha(text[k]) {
        assert ALPHABET[LetterIndex(ToUpper(text[k]))] == ToUpper(text[k]);
      }
    }
  }
}
