/** The key estimator: `guessVigenereKey` of Vigenere.cpp. It splits the
    ciphertext into interleaved groups, tabulates each group, takes the
    group's most frequent letter and assumes it is the image of 'E'. */
module KeyGuess {
  import opened Ascii
  import opened Wrappers
  import opened Frequency
  import opened Cipher

  datatype KeyError =
    | InvalidKeyLength
    | EmptyFrequencyGroup(group: nat)

  // ---------------------------------------------------------------------
  // Splitting into groups
  // ---------------------------------------------------------------------

  /** Group `j` of `c` for key length `n`: the characters of `c` at the
      positions `i` with `i % n == j`, in their original order. Non-letters
      take part by position like any other character. */
  function Group(c: AsciiString, n: int, j: int): (g: AsciiString)
    requires n > 0
    ensures |g| <= |c|
  {
    if |c| == 0 then []
    else
      var last := |c| - 1;
      Group(c[..last], n, j) + (if last % n == j then [c[last]] else [])
  }

  /** How far group `j` reaches: after its last character the next
      stride from `j` is past the end of `c`, and its last character is
      within `c`. */
  lemma {:induction false} GroupReach(c: AsciiString, n: int, j: int)
    requires 0 <= j < n
    ensures j + |Group(c, n, j)| * n >= |c|
    ensures |Group(c, n, j)| > 0 ==> j + (|Group(c, n, j)| - 1) * n < |c|
  {
    if |c| > 0 {
      var last := |c| - 1;
      GroupReach(c[..last], n, j);
      var q := |Group(c[..last], n, j)|;
      MulStep(q, n);
      if last % n == j {
        StrideHit(last, n, j, q);
      } else {
        StrideMiss(last, n, j, q);
      }
    }
  }

  /** The `k`-th character of group `j` is `c[j + k * n]`. */
  lemma {:induction false} GroupAt(c: AsciiString, n: int, j: int, k: int)
    requires 0 <= j < n
    requires 0 <= k < |Group(c, n, j)|
    ensures j + k * n < |c| && Group(c, n, j)[k] == c[j + k * n]
  {
    var last := |c| - 1;
    var init := c[..last];
    var g := Group(init, n, j);
    if k < |g| {
      GroupAt(init, n, j, k);
    } else {
      GroupReach(init, n, j);
      StrideHit(last, n, j, k);
    }
  }

  /** Group `j` (for `0 <= j < n`) is the stride of `c` starting at `j` with
      step `n`: its `k`-th character is `c[j + k * n]`, and it stops at the
      first such position past the end of `c`. */
  lemma GroupIsStride(c: AsciiString, n: int, j: int)
    requires 0 <= j < n
    ensures forall k :: 0 <= k < |Group(c, n, j)| ==>
      j + k * n < |c| && Group(c, n, j)[k] == c[j + k * n]
    ensures j + |Group(c, n, j)| * n >= |c|
  {
    GroupReach(c, n, j);
    forall k | 0 <= k < |Group(c, n, j)|
      ensures j + k * n < |c| && Group(c, n, j)[k] == c[j + k * n]
    {
      GroupAt(c, n, j, k);
    }
  }

  /** Multiplying by a positive step preserves sign and order. */
  lemma {:induction false} MulSign(t: int, n: int)
    ensures t >= 0 && n >= 0 ==> t * n >= 0
    ensures t >= 1 && n >= 1 ==> t * n >= n
  {
    if t > 1 && n >= 1 {
      MulSign(t - 1, n);
      assert t * n == (t - 1) * n + n;
    }
  }

  lemma MulStep(q: int, n: int)
    ensures (q + 1) * n == q * n + n
    ensures (q - 1) * n == q * n - n
  {
  }

  /** The quotient and remainder of `q * n + j` by `n` are `q` and `j`. */
  lemma ModOfStride(q: int, n: int, j: int)
    requires 0 <= j < n && 0 <= q
    ensures (q * n + j) % n == j
  {
    var x := q * n + j;
    var d, r := x / n, x % n;
    assert x == d * n + r;
    assert (d - q) * n == j - r;
    MulSign(d - q, n);
    MulSign(q - d, n);
    assert (q - d) * n == r - j;
  }

  /** A position in residue class `j` met right after `q` strides from `j`
      is the next stride. */
  lemma StrideHit(last: int, n: int, j: int, q: int)
    requires 0 <= j < n && 0 <= last && 0 <= q
    requires last % n == j
    requires j + q * n >= last
    requires q > 0 ==> j + (q - 1) * n < last
    ensures j + q * n == last
  {
    var d := last / n;
    assert last == d * n + j;
    MulSign(q - 1 - d, n);
    MulSign(d - q, n);
    assert (q - 1 - d) * n == (q - 1) * n - d * n;
    assert (d - q) * n == d * n - q * n;
  }

  /** A position outside residue class `j` is never a stride from `j`. */
  lemma StrideMiss(last: int, n: int, j: int, q: int)
    requires 0 <= j < n && 0 <= last && 0 <= q
    requires last % n != j
    requires j + q * n >= last
    ensures j + q * n >= last + 1
  {
    ModOfStride(q, n, j);
  }

  /** With key length 1 (a Caesar shift) the only group is the whole text. */
  lemma {:induction false} GroupOfKeyLengthOne(c: AsciiString)
    ensures Group(c, 1, 0) == c
  {
    if |c| > 0 {
      GroupOfKeyLengthOne(c[..|c| - 1]);
    }
  }

  /** The sum of the lengths of groups 0 to m - 1. */
  function GroupLengths(c: AsciiString, n: int, m: int): int
    requires n > 0 && m >= 0
  {
    if m == 0 then 0 else GroupLengths(c, n, m - 1) + |Group(c, n, m - 1)|
  }

  lemma {:induction false} GroupLengthsSnoc(c: AsciiString, n: int, m: int)
    requires n > 0 && m >= 0 && |c| > 0
    ensures GroupLengths(c, n, m)
         == GroupLengths(c[..|c| - 1], n, m) + (if (|c| - 1) % n < m then 1 else 0)
  {
    if m > 0 {
      GroupLengthsSnoc(c, n, m - 1);
    }
  }

  lemma {:induction false} GroupLengthsEmpty(n: int, m: int)
    requires n > 0 && m >= 0
    ensures GroupLengths([], n, m) == 0
  {
    if m > 0 {
      GroupLengthsEmpty(n, m - 1);
    }
  }

  /** The groups together hold every character of the ciphertext once:
      their lengths add up to its length. */
  lemma {:induction false} GroupLengthsSum(c: AsciiString, n: int)
    requires n > 0
    ensures GroupLengths(c, n, n) == |c|
  {
    if |c| == 0 {
      GroupLengthsEmpty(n, n);
    } else {
      GroupLengthsSum(c[..|c| - 1], n);
      GroupLengthsSnoc(c, n, n);
    }
  }

  /** The splitting loop of `guessVigenereKey`: a vector of `n` empty
      strings, and each character appended to the string at index `i % n`. */
  method SplitIntoGroups(ciphertext: AsciiString, n: int) returns (groups: seq<AsciiString>)
    requires n > 0
    ensures |groups| == n
    ensures forall j :: 0 <= j < n ==> groups[j] == Group(ciphertext, n, j)
  {
    var substrings := new AsciiString[n](_ => []);
    for i := 0 to |ciphertext|
      invariant forall j :: 0 <= j < n ==> substrings[j] == Group(ciphertext[..i], n, j)
    {
      assert ciphertext[..i + 1][..i] == ciphertext[..i];
      substrings[i % n] := substrings[i % n] + [ciphertext[i]];
    }
    assert ciphertext[..|ciphertext|] == ciphertext;
    groups := substrings[..];
  }

  // ---------------------------------------------------------------------
  // Choosing the most frequent letter
  // ---------------------------------------------------------------------

  /** `std::max_element` over a `std::map<char, int>` with the comparator
      `a.second < b.second`: the map is visited in ascending key order and
      the current best is replaced only by a strictly larger count, so the
      result is the smallest key among those with the largest count. */
  method MaxElement(frequency: map<AsciiChar, int>) returns (m: AsciiChar)
    requires frequency != map[]
    ensures m in frequency
    ensures forall k :: k in frequency ==> frequency[k] <= frequency[m]
    ensures forall k :: k in frequency && frequency[k] == frequency[m] ==> m <= k
  {
    var found := false;
    m := 'A';
    for i := 0 to 128
      invariant found <==> exists k :: k in frequency && (k as int) < i
      invariant found ==> m in frequency && (m as int) < i
      invariant found ==> forall k :: k in frequency && (k as int) < i ==>
        frequency[k] <= frequency[m] && (frequency[k] == frequency[m] ==> m <= k)
    {
      var k := i as char;
      if k in frequency && (!found || frequency[m] < frequency[k]) {
        m := k;
        found := true;
      }
    }
    ghost var some :| some in frequency;
    assert (some as int) < 128;
  }

  /** The letter the scan over the first `j` letters of the alphabet ends
      on, starting from 'A' and moving only to a strictly larger count. */
  ghost function BestAmong(g: AsciiString, j: int): (b: AsciiChar)
    requires 1 <= j <= 26
    ensures IsUpper(b) && LetterIndex(b) < j
    ensures forall L: AsciiChar :: IsUpper(L) && LetterIndex(L) < j ==>
      Count(g, L) <= Count(g, b) && (Count(g, L) == Count(g, b) ==> b <= L)
  {
    if j == 1 then 'A'
    else
      var b := BestAmong(g, j - 1);
      if Count(g, b) < Count(g, Letter(j - 1)) then Letter(j - 1) else b
  }

  /** `m` is a dominant letter of `g`: an upper-case letter that no letter
      outnumbers in `g`, and that comes first in the alphabet among the
      letters counted as often. */
  ghost predicate IsDominant(g: AsciiString, m: char)
  {
    && IsUpper(m)
    && forall L: AsciiChar :: IsUpper(L) ==>
         Count(g, L) <= Count(g, m) && (Count(g, L) == Count(g, m) ==> m <= L)
  }

  /** The scan over the whole alphabet ends on a dominant letter. */
  lemma ScanFindsDominant(g: AsciiString)
    ensures IsDominant(g, BestAmong(g, 26))
  {
  }

  /** A text has at most one dominant letter. */
  lemma DominantUnique(g: AsciiString, m1: char, m2: char)
    requires IsDominant(g, m1) && IsDominant(g, m2)
    ensures m1 == m2
  {
    assert Count(g, m1) == Count(g, m2);
  }

  /** The dominant letter of a group: largest count, alphabetically
      smallest among ties. */
  ghost function Dominant(g: AsciiString): (m: AsciiChar)
    ensures IsDominant(g, m)
  {
    ScanFindsDominant(g);
    var m: char :| IsDominant(g, m); m as AsciiChar
  }

  /** The dominant letter is what the alphabet scan finds, and it occurs in
      any group that holds a letter. */
  lemma DominantIsMostFrequent(g: AsciiString)
    ensures Dominant(g) == BestAmong(g, 26)
    ensures Letters(g) > 0 ==> Count(g, Dominant(g)) > 0
  {
    ScanFindsDominant(g);
    DominantUnique(g, Dominant(g), BestAmong(g, 26));
    if Letters(g) > 0 {
      EmptyTableIffNoLetters(g);
      var L :| L in FrequencyOf(g);
      assert Count(g, L) > 0;
    }
  }

  /** What `MaxElement` picks from the table of a group is the group's
      dominant letter. */
  lemma MaxElementIsDominant(g: AsciiString, frequency: map<AsciiChar, int>, m: AsciiChar)
    requires frequency == FrequencyOf(g)
    requires m in frequency
    requires forall k :: k in frequency ==> frequency[k] <= frequency[m]
    requires forall k :: k in frequency && frequency[k] == frequency[m] ==> m <= k
    ensures m == Dominant(g)
  {
    var d := Dominant(g);
    assert Count(g, d) >= Count(g, m) > 0;
    assert d in frequency;
    DominantUnique(g, m, d);
  }

  // ---------------------------------------------------------------------
  // From the dominant letter to a key letter
  // ---------------------------------------------------------------------

  /** The key letter for a group whose most frequent letter is `m`,
      `((m - 'E' + 26) % 26) + 'A'` with the C++ `%`: the shift that
      carries plaintext 'E' onto `m`. */
  function KeyChar(m: AsciiChar): (k: AsciiChar)
    ensures IsUpper(m) ==> IsUpper(k)
  {
    (Rem26(m as int - 'E' as int + 26) + 'A' as int) as char
  }

  /** The key letter guessed from an upper-case letter `m` is the one under
      which `m` decrypts to 'E', and under which 'E' encrypts to `m`. */
  lemma KeyCharMapsEToDominant(m: AsciiChar)
    requires IsUpper(m)
    ensures DecryptChar(m, KeyChar(m)) == 'E'
    ensures EncryptChar('E', KeyChar(m)) == m
  {
  }

  /** The body of the loop over groups in `guessVigenereKey`: tabulate the
      group, take its most frequent letter and turn it into a key letter.
      A group without letters has nothing for `max_element` to return. */
  method GroupKeyChar(group: AsciiString) returns (r: Option<AsciiChar>)
    ensures r.None? <==> Letters(group) == 0
    ensures r.Some? ==> IsUpper(r.value) && r.value == KeyChar(Dominant(group))
  {
    var frequency := CalculateFrequency(group);
    EmptyTableIffNoLetters(group);
    if frequency == map[] {
      return None;
    }
    var mostFrequentCipherChar := MaxElement(frequency);
    MaxElementIsDominant(group, frequency, mostFrequentCipherChar);
    DominantIsMostFrequent(group);
    r := Some(KeyChar(mostFrequentCipherChar));
  }

  /** `guessVigenereKey`. A negative key length makes the vector
      constructor throw, and a zero key length reaches `i % 0` as soon as
      there is a character to place; both are errors here. With key length
      zero and no ciphertext neither loop runs and the key is empty. A
      group with no letter for `max_element` to find is undefined
      behaviour too; the error names the first letter-free group. */
  method GuessKey(ciphertext: AsciiString, keyLength: int) returns (r: Result<AsciiString, KeyError>)
    ensures r == Failure(InvalidKeyLength) <==> keyLength < 0 || (keyLength == 0 && |ciphertext| > 0)
    ensures keyLength == 0 && |ciphertext| == 0 ==> r == Success([])
    ensures keyLength > 0 ==>
      (r.Failure? <==> exists j :: 0 <= j < keyLength && Letters(Group(ciphertext, keyLength, j)) == 0)
    ensures keyLength > 0 && r.Failure? ==>
      r.error.EmptyFrequencyGroup? && r.error.group < keyLength
    ensures keyLength > 0 && r.Failure? ==>
      Letters(Group(ciphertext, keyLength, r.error.group)) == 0
    ensures keyLength > 0 && r.Failure? ==>
      forall j :: 0 <= j < r.error.group ==> Letters(Group(ciphertext, keyLength, j)) > 0
    ensures r.Success? ==> keyLength >= 0 && |r.value| == keyLength
    ensures r.Success? ==> forall j :: 0 <= j < keyLength ==>
      IsUpper(r.value[j]) && r.value[j] == KeyChar(Dominant(Group(ciphertext, keyLength, j)))
  {
    if keyLength < 0 || (keyLength == 0 && |ciphertext| > 0) {
      return Failure(InvalidKeyLength);
    }
    if keyLength == 0 {
      return Success([]);
    }
    var substrings := SplitIntoGroups(ciphertext, keyLength);
    var key: AsciiString := [];
    for j := 0 to keyLength
      invariant |key| == j
      invariant forall i :: 0 <= i < j ==> Letters(Group(ciphertext, keyLength, i)) > 0
      invariant forall i :: 0 <= i < j ==>
        IsUpper(key[i]) && key[i] == KeyChar(Dominant(Group(ciphertext, keyLength, i)))
    {
      assert substrings[j] == Group(ciphertext, keyLength, j);
      var keyChar := GroupKeyChar(substrings[j]);
      if keyChar.None? {
        assert Letters(Group(ciphertext, keyLength, j)) == 0;
        return Failure(EmptyFrequencyGroup(j));
      }
      key := key + [keyChar.value];
    }
    r := Success(key);
  }

  /** Decrypting a group's dominant letter under the key letter guessed for
      that group yields 'E', the letter the estimator assumes dominates
      English plaintext. */
  lemma GuessedKeyMapsDominantToE(ciphertext: AsciiString, keyLength: int, key: AsciiString, j: int)
    requires keyLength > 0 && |key| == keyLength && 0 <= j < keyLength
    requires key[j] == KeyChar(Dominant(Group(ciphertext, keyLength, j)))
    ensures DecryptChar(Dominant(Group(ciphertext, keyLength, j)), key[j]) == 'E'
  {
    DominantIsMostFrequent(Group(ciphertext, keyLength, j));
    KeyCharMapsEToDominant(Dominant(Group(ciphertext, keyLength, j)));
  }

}
