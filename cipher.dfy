/** The cipher transformer: `vigenereDecrypt` of Vigenere.cpp, and the
    encryption it inverts. */
module Cipher {
  import opened Ascii
  import opened Wrappers

  datatype CipherError = EmptyKey

  /** One letter of ciphertext decrypted under one key character, as
      `((toupper(c) - toupper(k) + 26) % 26) + 'A'` with the C++ `%`.
      Under a letter key the result is the upper-case letter that lies
      `k` places before `c` in the alphabet, wrapping round. */
  function DecryptChar(c: AsciiChar, k: AsciiChar): (r: AsciiChar)
    requires IsAlpha(c)
    ensures IsAlpha(k) ==> IsUpper(r)
    ensures IsAlpha(k) ==>
      LetterIndex(r) == (LetterIndex(ToUpper(c)) - LetterIndex(ToUpper(k))) % 26
  {
    (Rem26(ToUpper(c) as int - ToUpper(k) as int + 26) + 'A' as int) as char
  }

  /** What the decryption loop emits at position `i` for character `c`:
      a letter is decrypted under the key character `i` places along the
      repeating key, anything else is copied. */
  function PlainChar(c: AsciiChar, key: AsciiString, i: nat): AsciiChar
    requires |key| > 0
  {
    if IsAlpha(c) then DecryptChar(c, key[i % |key|]) else c
  }

  /** The plaintext of `ciphertext` under a non-empty `key`. The key is
      indexed by absolute position, so non-letters consume key characters. */
  function Decipher(ciphertext: AsciiString, key: AsciiString): (p: AsciiString)
    requires |key| > 0
    ensures |p| == |ciphertext|
  {
    if |ciphertext| == 0 then []
    else
      var n := |ciphertext| - 1;
      Decipher(ciphertext[..n], key) + [PlainChar(ciphertext[n], key, n)]
  }

  /** The plaintext character by character: the same length, letters
      decrypted under the key character of their absolute position,
      non-letters passed through unchanged. */
  lemma {:induction false} DecipherAt(ciphertext: AsciiString, key: AsciiString, i: int)
    requires |key| > 0
    requires 0 <= i < |ciphertext|
    ensures Decipher(ciphertext, key)[i] == PlainChar(ciphertext[i], key, i)
    ensures !IsAlpha(ciphertext[i]) ==> Decipher(ciphertext, key)[i] == ciphertext[i]
    ensures IsAlpha(ciphertext[i]) ==>
      Decipher(ciphertext, key)[i] == DecryptChar(ciphertext[i], key[i % |key|])
  {
    var n := |ciphertext| - 1;
    if i < n {
      DecipherAt(ciphertext[..n], key, i);
    }
  }

  /** Under a key made of letters, every letter of the ciphertext becomes
      an upper-case letter and every non-letter stays a non-letter. */
  lemma DecipherRange(ciphertext: AsciiString, key: AsciiString)
    requires |key| > 0 && forall j :: 0 <= j < |key| ==> IsAlpha(key[j])
    ensures forall i :: 0 <= i < |ciphertext| ==>
      (IsAlpha(ciphertext[i]) <==> IsUpper(Decipher(ciphertext, key)[i]))
  {
    forall i | 0 <= i < |ciphertext|
      ensures IsAlpha(ciphertext[i]) <==> IsUpper(Decipher(ciphertext, key)[i])
    {
      DecipherAt(ciphertext, key, i);
    }
  }

  /** `vigenereDecrypt`. The C++ code divides by the key length only when
      it meets a letter, so an empty key is an error exactly when the
      ciphertext holds a letter; letter-free text comes back unchanged. */
  method Decrypt(ciphertext: AsciiString, key: AsciiString) returns (r: Result<AsciiString, CipherError>)
    ensures r.Failure? <==> |key| == 0 && HasLetter(ciphertext)
    ensures r.Failure? ==> r.error == EmptyKey
    ensures r.Success? ==> |r.value| == |ciphertext|
    ensures r.Success? ==> forall i :: 0 <= i < |ciphertext| && !IsAlpha(ciphertext[i]) ==>
      r.value[i] == ciphertext[i]
    ensures r.Success? ==> forall i :: 0 <= i < |ciphertext| && IsAlpha(ciphertext[i]) ==>
      |key| > 0 && r.value[i] == DecryptChar(ciphertext[i], key[i % |key|])
    ensures r.Success? && |key| > 0 ==> r.value == Decipher(ciphertext, key)
  {
    var plaintext: AsciiString := [];
    var keyLength := |key|;
    for i := 0 to |ciphertext|
      invariant keyLength > 0 ==> plaintext == Decipher(ciphertext[..i], key)
      invariant keyLength == 0 ==> plaintext == ciphertext[..i]
      invariant keyLength == 0 ==> forall j :: 0 <= j < i ==> !IsAlpha(ciphertext[j])
    {
      assert ciphertext[..i + 1][..i] == ciphertext[..i];
      if IsAlpha(ciphertext[i]) {
        if keyLength == 0 {
          return Failure(EmptyKey);
        }
        var decryptedChar := DecryptChar(ciphertext[i], key[i % keyLength]);
        plaintext := plaintext + [decryptedChar];
      } else {
        plaintext := plaintext + [ciphertext[i]];
      }
    }
    assert ciphertext[..|ciphertext|] == ciphertext;
    r := Success(plaintext);
    if keyLength > 0 {
      forall i | 0 <= i < |ciphertext|
        ensures plaintext[i] == PlainChar(ciphertext[i], key, i)
      {
        DecipherAt(ciphertext, key, i);
      }
    }
  }

  /** The encryption the decryption undoes: an upper-case letter `k`
      places after the plaintext letter `p`. */
  function EncryptChar(p: AsciiChar, k: AsciiChar): (r: AsciiChar)
    ensures IsUpper(r)
  {
    ((LetterIndex(ToUpper(p)) + LetterIndex(ToUpper(k))) % 26 + 'A' as int) as char
  }

  /** Vigenère encryption with the same absolute-position key indexing:
      letters are shifted forward, non-letters copied. */
  function Encipher(plaintext: AsciiString, key: AsciiString): (c: AsciiString)
    requires |key| > 0
    ensures |c| == |plaintext|
  {
    seq(|plaintext|, i requires 0 <= i < |plaintext| =>
      if IsAlpha(plaintext[i]) then EncryptChar(plaintext[i], key[i % |key|]) else plaintext[i])
  }

  /** `plaintext` with every letter folded to upper case. */
  function UpperCased(plaintext: AsciiString): (u: AsciiString)
    ensures |u| == |plaintext|
  {
    seq(|plaintext|, i requires 0 <= i < |plaintext| => ToUpper(plaintext[i]))
  }

  /** Shifting forward by `b` and then back by `b`, in the arithmetic of
      the two cipher directions, returns the alphabet position `a`. */
  lemma ShiftBackUndoesShift(a: int, b: int)
    requires 0 <= a < 26 && 0 <= b < 26
    ensures Rem26((a + b) % 26 - b + 26) == a
  {
    if a + b < 26 {
      assert (a + b) % 26 == a + b;
      assert (a + 26) % 26 == a;
    } else {
      assert (a + b) % 26 == a + b - 26;
      assert a % 26 == a;
    }
  }

  /** Decrypting a letter encrypted under the same letter key gives back
      the plaintext letter in upper case. */
  lemma DecryptEncryptChar(p: AsciiChar, k: AsciiChar)
    requires IsAlpha(p) && IsAlpha(k)
    ensures DecryptChar(EncryptChar(p, k), k) == ToUpper(p)
  {
    var a, b := LetterIndex(ToUpper(p)), LetterIndex(ToUpper(k));
    var e := EncryptChar(p, k);
    assert ToUpper(e) == e;
    assert e as int == (a + b) % 26 + 'A' as int;
    ShiftBackUndoesShift(a, b);
    assert e as int - ToUpper(k) as int + 26 == (a + b) % 26 - b + 26;
  }

  /** Round trip: under a key of letters, decryption undoes encryption,
      returning the plaintext with its letters upper-cased and its
      non-letters untouched. */
  lemma DecipherEncipher(plaintext: AsciiString, key: AsciiString)
    requires |key| > 0 && forall j :: 0 <= j < |key| ==> IsAlpha(key[j])
    ensures Decipher(Encipher(plaintext, key), key) == UpperCased(plaintext)
  {
    var c := Encipher(plaintext, key);
    forall i | 0 <= i < |plaintext|
      ensures Decipher(c, key)[i] == UpperCased(plaintext)[i]
    {
      DecipherAt(c, key, i);
      if IsAlpha(plaintext[i]) {
        DecryptEncryptChar(plaintext[i], key[i % |key|]);
      }
    }
  }

}
