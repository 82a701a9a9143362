/** The frequency analyser: `calculateFrequency` of Vigenere.cpp, which
    counts the letters of a text after folding them to upper case. */
module Frequency {
  import opened Ascii

  /** The number of positions of `s` holding a letter that upper-cases to `L`. */
  function Count(s: AsciiString, L: char): (n: nat)
    ensures n <= |s|
    ensures !IsUpper(L) ==> n == 0
  {
    if |s| == 0 then 0
    else
      var c := s[|s| - 1];
      Count(s[..|s| - 1], L) + (if IsAlpha(c) && ToUpper(c) == L then 1 else 0)
  }

  /** The number of positions of `s` holding a letter. */
  function Letters(s: AsciiString): nat
  {
    if |s| == 0 then 0
    else Letters(s[..|s| - 1]) + (if IsAlpha(s[|s| - 1]) then 1 else 0)
  }

  /** The letter-count table of `s`: one entry per upper-case letter that
      occurs in `s` (in either case), mapped to its count. */
  function FrequencyOf(s: AsciiString): map<AsciiChar, int>
  {
    map L: AsciiChar | 'A' <= L <= 'Z' && Count(s, L) > 0 :: Count(s, L)
  }

  /** The sum of the entries of `m` stored under the first `j` letters of
      the alphabet (absent letters add nothing). */
  function TableSum(m: map<AsciiChar, int>, j: int): int
    requires 0 <= j <= 26
  {
    if j == 0 then 0
    else TableSum(m, j - 1) + (if Letter(j - 1) in m then m[Letter(j - 1)] else 0)
  }

  /** The sum of all entries of a table whose keys are upper-case letters. */
  function Total(m: map<AsciiChar, int>): int
  {
    TableSum(m, 26)
  }

  /** The sum of the counts in `s` of the first `j` letters of the alphabet. */
  function CountSum(s: AsciiString, j: int): nat
    requires 0 <= j <= 26
  {
    if j == 0 then 0 else CountSum(s, j - 1) + Count(s, Letter(j - 1))
  }

  /** Appending one character to the text adds it to the count sum exactly
      when it is a letter among the first `j`. */
  lemma {:induction false} CountSumSnoc(s: AsciiString, c: AsciiChar, j: int)
    requires 0 <= j <= 26
    ensures CountSum(s + [c], j)
         == CountSum(s, j) + (if IsAlpha(c) && LetterIndex(ToUpper(c)) < j then 1 else 0)
  {
    assert (s + [c])[..|s|] == s;
    if j > 0 {
      CountSumSnoc(s, c, j - 1);
    }
  }

  lemma {:induction false} CountSumEmpty(j: int)
    requires 0 <= j <= 26
    ensures CountSum([], j) == 0
  {
    if j > 0 { CountSumEmpty(j - 1); }
  }

  /** The counts of the 26 letters add up to the number of letters. */
  lemma {:induction false} CountSumIsLetters(s: AsciiString)
    ensures CountSum(s, 26) == Letters(s)
  {
    if |s| == 0 {
      CountSumEmpty(26);
    } else {
      var init, c := s[..|s| - 1], s[|s| - 1];
      assert s == init + [c];
      CountSumIsLetters(init);
      CountSumSnoc(init, c, 26);
      assert IsAlpha(c) ==> LetterIndex(ToUpper(c)) < 26;
      assert Letters(s) == Letters(init) + (if IsAlpha(c) then 1 else 0);
    }
  }

  /** Summing the table letter by letter is summing the counts. */
  lemma {:induction false} TableSumIsCountSum(s: AsciiString, j: int)
    requires 0 <= j <= 26
    ensures TableSum(FrequencyOf(s), j) == CountSum(s, j)
  {
    if j > 0 {
      TableSumIsCountSum(s, j - 1);
    }
  }

  /** The entries of the table of `s` add up to the number of letters of `s`. */
  lemma TotalIsLetters(s: AsciiString)
    ensures Total(FrequencyOf(s)) == Letters(s)
  {
    TableSumIsCountSum(s, 26);
    CountSumIsLetters(s);
  }

  /** Counting is additive over concatenation. */
  lemma {:induction false} CountAppend(a: AsciiString, b: AsciiString, L: char)
    ensures Count(a + b, L) == Count(a, L) + Count(b, L)
  {
    if |b| == 0 {
      assert a + b == a;
    } else {
      var init := b[..|b| - 1];
      assert (a + b)[..|a + b| - 1] == a + init;
      assert (a + b)[|a + b| - 1] == b[|b| - 1];
      CountAppend(a, init, L);
    }
  }

  /** Inserting a non-letter anywhere in the text changes no count, and so
      leaves the table as it was. */
  lemma NonLetterIgnored(a: AsciiString, c: AsciiChar, b: AsciiString)
    requires !IsAlpha(c)
    ensures forall L :: Count(a + [c] + b, L) == Count(a + b, L)
    ensures FrequencyOf(a + [c] + b) == FrequencyOf(a + b)
  {
    forall L ensures Count(a + [c] + b, L) == Count(a + b, L) {
      CountAppend(a + [c], b, L);
      CountAppend(a, [c], L);
      CountAppend(a, b, L);
      assert [c][..0] == [];
    }
  }

  /** Replacing a letter by its upper-case form changes no count: the
      table does not see case. */
  lemma CaseIgnored(a: AsciiString, c: AsciiChar, b: AsciiString)
    ensures forall L :: Count(a + [c] + b, L) == Count(a + [ToUpper(c)] + b, L)
    ensures FrequencyOf(a + [c] + b) == FrequencyOf(a + [ToUpper(c)] + b)
  {
    forall L ensures Count(a + [c] + b, L) == Count(a + [ToUpper(c)] + b, L) {
      CountAppend(a + [c], b, L);
      CountAppend(a, [c], L);
      CountAppend(a + [ToUpper(c)], b, L);
      CountAppend(a, [ToUpper(c)], L);
      assert [c][..0] == [] && [ToUpper(c)][..0] == [];
    }
  }

  /** A text has an empty table exactly when it has no letters. */
  lemma {:induction false} EmptyTableIffNoLetters(s: AsciiString)
    ensures FrequencyOf(s) == map[] <==> Letters(s) == 0
  {
    if |s| > 0 {
      var init, c := s[..|s| - 1], s[|s| - 1];
      EmptyTableIffNoLetters(init);
      if IsAlpha(c) {
        assert ToUpper(c) in FrequencyOf(s);
      } else {
        assert FrequencyOf(s) == FrequencyOf(init) by {
          forall L ensures Count(s, L) == Count(init, L) { }
        }
      }
    }
  }

  /** The table after one more character: a letter increments (or creates)
      the entry of its upper-case form; a non-letter changes nothing. */
  lemma FrequencyOfSnoc(s: AsciiString, c: AsciiChar)
    ensures IsAlpha(c) ==>
      var u := ToUpper(c);
      FrequencyOf(s + [c]) == FrequencyOf(s)[u := if u in FrequencyOf(s) then FrequencyOf(s)[u] + 1 else 1]
    ensures !IsAlpha(c) ==> FrequencyOf(s + [c]) == FrequencyOf(s)
  {
    assert (s + [c])[..|s|] == s;
  }

  /** `calculateFrequency`: one pass over the text, incrementing the entry
      of each letter's upper-case form and skipping every other character. */
  method CalculateFrequency(text: AsciiString) returns (frequency: map<AsciiChar, int>)
    ensures frequency == FrequencyOf(text)
    ensures forall k :: k in frequency ==> IsUpper(k) && frequency[k] > 0
    ensures forall L: AsciiChar :: L in frequency <==> Count(text, L) > 0
    ensures forall L :: L in frequency ==> frequency[L] == Count(text, L)
    ensures Total(frequency) == Letters(text)
  {
    frequency := map[];
    for i := 0 to |text|
      invariant frequency == FrequencyOf(text[..i])
    {
      var c := text[i];
      FrequencyOfSnoc(text[..i], c);
      assert text[..i + 1] == text[..i] + [c];
      if IsAlpha(c) {
        var u := ToUpper(c);
        frequency := frequency[u := if u in frequency then frequency[u] + 1 else 1];
      }
    }
    assert text[..|text|] == text;
    TotalIsLetters(text);
  }

}
