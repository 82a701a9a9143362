/** Hand-computable inputs run through the specification functions. */
module Scenarios {
  import opened Ascii
  import opened Frequency
  import opened Cipher
  import opened KeyGuess

  /** Non-letters keep their place and consume key characters: under the
      key "KEY" only "ABC" changes, and the digits and punctuation stay. */
  lemma PunctuationPassesThrough()
    ensures Decipher("ABC, 123!", "KEY") == "QXE, 123!"
  {
    var c: AsciiString, k: AsciiString := "ABC, 123!", "KEY";
    forall i | 0 <= i < |c| ensures Decipher(c, k)[i] == "QXE, 123!"[i] {
      DecipherAt(c, k, i);
    }
  }

  const CaesarText: AsciiString := "KHOOR ZRUOG"

  /** "KHOOR ZRUOG" is "HELLO WORLD" encrypted under the key "D" (a shift
      by three), so by the round trip the key "D" decrypts it. */
  lemma CaesarDecrypts()
    ensures Decipher("KHOOR ZRUOG", "D") == "HELLO WORLD"
  {
    var p: AsciiString, k: AsciiString := "HELLO WORLD", "D";
    assert Encipher(p, k) == "KHOOR ZRUOG";
    assert UpperCased(p) == p;
    DecipherEncipher(p, k);
  }

  /** Extending a prefix of the text by one character adds that
      character to the count when it is a letter folding to `L`. */
  lemma CountPrefix(s: AsciiString, i: int, L: char)
    requires 0 <= i < |s|
    ensures Count(s[..i + 1], L)
         == Count(s[..i], L) + (if IsAlpha(s[i]) && ToUpper(s[i]) == L then 1 else 0)
  {
    assert s[..i + 1][..i] == s[..i];
  }

  lemma CaesarTextHalfCounts(L: char)
    ensures Count(CaesarText[..6], L) ==
      if L == 'O' then 2 else if L == 'K' || L == 'H' || L == 'R' then 1 else 0
  {
    assert Count(CaesarText[..0], L) == 0;
    CountPrefix(CaesarText, 0, L);
    CountPrefix(CaesarText, 1, L);
    CountPrefix(CaesarText, 2, L);
    CountPrefix(CaesarText, 3, L);
    CountPrefix(CaesarText, 4, L);
    CountPrefix(CaesarText, 5, L);
  }

  /** The letter counts of "KHOOR ZRUOG": 'O' three times, 'R' twice,
      'K', 'H', 'Z', 'U' and 'G' once, the space not at all. */
  lemma CaesarTextCounts(L: char)
    ensures Count(CaesarText, L) ==
      if L == 'O' then 3
      else if L == 'R' then 2
      else if L == 'K' || L == 'H' || L == 'Z' || L == 'U' || L == 'G' then 1
      else 0
  {
    CaesarTextHalfCounts(L);
    CountPrefix(CaesarText, 6, L);
    CountPrefix(CaesarText, 7, L);
    CountPrefix(CaesarText, 8, L);
    CountPrefix(CaesarText, 9, L);
    CountPrefix(CaesarText, 10, L);
    assert CaesarText[..11] == CaesarText;
  }

  /** With key length 1 the single group of "KHOOR ZRUOG" is the whole
      text, whose most frequent letter is 'O'; the estimator therefore
      guesses 'K', the shift from 'E' to 'O', and not 'D': the dominant
      letter of the plaintext "HELLO WORLD" is 'L', not 'E'. */
  lemma CaesarKeyGuess()
    ensures Group(CaesarText, 1, 0) == CaesarText
    ensures Dominant(Group(CaesarText, 1, 0)) == 'O'
  {
    GroupOfKeyLengthOne(CaesarText);
    forall L: AsciiChar | IsUpper(L)
      ensures Count(CaesarText, L) <= Count(CaesarText, 'O')
      ensures Count(CaesarText, L) == Count(CaesarText, 'O') ==> 'O' <= L
    {
      CaesarTextCounts(L);
      CaesarTextCounts('O');
    }
    assert IsDominant(CaesarText, 'O');
    DominantUnique(CaesarText, 'O', Dominant(CaesarText));
  }

  /** The key letter that carries 'E' onto 'O' is 'K'. */
  lemma KeyForO()
    ensures KeyChar('O') == 'K'
  {
  }

}
