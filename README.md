# Vigenère key estimation and decryption

A Dafny model of the cryptanalytic core of `Vigenere.cpp`. That core is a small pipeline for attacking a Vigenère cipher whose key length is known:

- **Frequency analyzer** (`calculateFrequency`). It builds a letter-count table for a span of text. Letters are folded to upper case and non-letters are ignored.
- **Key estimator** (`guessVigenereKey`). It splits the ciphertext into `keyLength` interleaved groups by raw position `i % keyLength`. It takes the most frequent letter of each group's table and turns it into the key letter that would carry plaintext `'E'` onto that letter.
- **Cipher transformer** (`vigenereDecrypt`). It decrypts each letter as `((toupper(c) - toupper(key[i % |key|]) + 26) % 26) + 'A'` and copies every other character unchanged. The key is indexed by absolute position, so non-letters also use up key characters.

The files follow the program's structure:

- `ascii.dfy` (module `Ascii`): characters as the C++ code sees them under the "C" locale. It covers `isalpha`, `toupper`, alphabet positions, and the truncating `%` of C++ (`Rem26`).
- `frequency.dfy` (module `Frequency`): the counting loop, proved against `Count` and `FrequencyOf`.
- `cipher.dfy` (module `Cipher`): the decryption loop, proved against `Decipher`, and the encryption it inverts.
- `keyguess.dfy` (module `KeyGuess`): the grouping loop, the `max_element` scan, the key-letter formula and the loop over groups.
- `scenarios.dfy` (module `Scenarios`): hand-computable inputs.
- `wrappers.dfy` (module `Wrappers`): the `Option` and `Result` types.

Each C++ loop is a Dafny method with a loop and its invariants. The `std::map<char,int>` counter is a `map` that the method reassigns. The `std::vector<std::string>` of groups is an `array` of strings that the method appends to by index. Each method's `ensures` ties its result to a recursive specification function (`FrequencyOf`, `Decipher`, `Group`, `Dominant`). The lemmas then prove what the code promises about those functions.

Inputs on which the C++ has undefined behaviour or throws become explicit error results:

- `Decrypt` returns `Failure(EmptyKey)` for an empty key, but only once a letter is reached, because that is where `i % 0` happens.
- `GuessKey` returns `Failure(InvalidKeyLength)` for a negative `keyLength`, where the `std::vector` constructor throws.
- `GuessKey` also returns `Failure(InvalidKeyLength)` for `keyLength == 0` with a non-empty ciphertext, where the splitting loop reaches `i % 0`. With `keyLength == 0` and an empty ciphertext neither loop runs, and the code and the model both return the empty key.
- `GuessKey` returns `Failure(EmptyFrequencyGroup(j))` for the first group `j` that has no letters. For such a group, `max_element` would return the end iterator, and the code dereferences it.

The tie-break is modelled exactly. `std::map` iterates in ascending key order, and `max_element` with a strict `<` keeps the first maximum. So among letters with the same count, the alphabetically smallest wins.

## Model

| member | source | states |
|---|---|---|
| Frequency.CalculateFrequency | Vigenere.cpp:15-23 | the table is the specification table of the text; every key is an upper-case letter with a positive count; a letter is a key exactly when it occurs (in either case); its value is its number of occurrences; the values add up to the number of letters in the text |
| Frequency.TotalIsLetters | Vigenere.cpp:15-23 | summed over the alphabet, the table's counts equal the number of alphabetic characters |
| Frequency.CountAppend | Vigenere.cpp:17-21 | counting is additive over concatenation |
| Frequency.NonLetterIgnored | Vigenere.cpp:18 | inserting a non-letter anywhere changes no count and leaves the table equal |
| Frequency.CaseIgnored | Vigenere.cpp:19 | a lower-case letter and its upper-case form contribute identically to the table |
| Frequency.EmptyTableIffNoLetters | Vigenere.cpp:15-23 | the table is empty exactly when the text has no letters |
| Frequency.FrequencyOfSnoc | Vigenere.cpp:18-20 | appending a letter increments its upper-case entry (inserting it with 1 when absent); appending a non-letter leaves the table unchanged |
| Ascii.IsAlphaLetters | Vigenere.cpp:18 | `Ascii.IsAlpha`, the `isalpha` of the "C" locale: a character is a letter exactly when it is one of the 26 upper-case letters or one of those 32 code points higher (`'a'` to `'z'`) |
| Ascii.ToUpper | Vigenere.cpp:19 | `toupper`: letters map to upper-case letters, lower-case ones by an offset of 32, every other character is unchanged |
| Ascii.Rem26 | Vigenere.cpp:40 | the C++ remainder by 26: same residue class as the dividend, magnitude below 26, sign of the dividend |
| Cipher.DecryptChar | Vigenere.cpp:40 | under a letter key the decrypted character is an upper-case letter whose alphabet position is the ciphertext letter's position minus the key letter's, modulo 26 |
| Cipher.Decrypt | Vigenere.cpp:35-47 | fails (with `EmptyKey`) exactly when the key is empty and the ciphertext holds a letter; otherwise the plaintext has the ciphertext's length, copies every non-letter, decrypts every letter under the key character of its absolute position, and equals `Decipher` |
| Cipher.DecipherAt | Vigenere.cpp:38-45 | position by position: non-letters pass through, letters become `DecryptChar` of the key character `i % |key|` |
| Cipher.DecipherRange | Vigenere.cpp:39-43 | under a key of letters, an output character is an upper-case letter exactly when the input character is a letter |
| Cipher.EncryptChar | Vigenere.cpp:40 | the inverse shift used for encryption always yields an upper-case letter |
| Cipher.DecryptEncryptChar | Vigenere.cpp:40 | decrypting a letter encrypted under the same letter key gives the upper-cased plaintext letter |
| Cipher.DecipherEncipher | Vigenere.cpp:35-47 | round trip: under a key of letters, decrypting the Vigenère encryption of any text gives the text with its letters upper-cased and its non-letters unchanged |
| KeyGuess.SplitIntoGroups | Vigenere.cpp:61-64 | there are `n` groups and group `j` is `Group(ciphertext, n, j)` |
| KeyGuess.GroupIsStride | Vigenere.cpp:62-64 | group `j` is exactly the characters at positions `j, j + n, j + 2n, …`, in order, up to the end of the ciphertext |
| KeyGuess.GroupReach | Vigenere.cpp:62-64 | group `j`'s next stride position lies past the end, its last one within it |
| KeyGuess.GroupAt | Vigenere.cpp:62-64 | the `k`-th character of group `j` is the ciphertext character at `j + k * n` |
| KeyGuess.GroupLengthsSum | Vigenere.cpp:61-64 | the group lengths sum to the ciphertext length |
| KeyGuess.GroupOfKeyLengthOne | Vigenere.cpp:61-64 | with key length 1 the only group is the whole ciphertext |
| KeyGuess.MaxElement | Vigenere.cpp:74-75 | on a non-empty table: returns a key of the table with the largest count, and the smallest key among those tied for it |
| KeyGuess.BestAmong | Vigenere.cpp:74-75 | the ascending scan over the first `j` letters ends on an upper-case letter no earlier letter outnumbers, the first of those tied with it |
| KeyGuess.Dominant | Vigenere.cpp:74-75 | the dominant letter is upper-case, outnumbered by no letter, and first among the letters with its count |
| KeyGuess.DominantUnique | Vigenere.cpp:74-75 | a text has at most one dominant letter |
| KeyGuess.DominantIsMostFrequent | Vigenere.cpp:74-75 | the dominant letter is what the alphabet scan finds, and it occurs in any group that contains a letter |
| KeyGuess.MaxElementIsDominant | Vigenere.cpp:73-75 | what `max_element` picks from a group's table is that group's dominant letter |
| KeyGuess.KeyChar | Vigenere.cpp:76 | the key letter computed from an upper-case letter is upper-case |
| KeyGuess.KeyCharMapsEToDominant | Vigenere.cpp:71-76 | the guessed key letter decrypts the dominant letter to 'E', and encrypts 'E' to the dominant letter |
| KeyGuess.GroupKeyChar | Vigenere.cpp:72-77 | yields no key letter exactly when the group has no letters; otherwise an upper-case key letter derived from the group's dominant letter |
| KeyGuess.GuessKey | Vigenere.cpp:59-80 | fails with `InvalidKeyLength` exactly when `keyLength` is negative, or zero with a non-empty ciphertext; returns the empty key for key length zero and an empty ciphertext; for a positive key length fails exactly when some group has no letters, naming the first such group; on success the key has `keyLength` upper-case letters, letter `j` being the key letter for group `j`'s dominant letter |
| KeyGuess.GuessedKeyMapsDominantToE | Vigenere.cpp:71-79 | decrypting group `j`'s dominant letter under key letter `j` yields 'E' |
| Scenarios.PunctuationPassesThrough | Vigenere.cpp:38-45 | `"ABC, 123!"` under the key `"KEY"` decrypts to `"QXE, 123!"`: only the letters change |
| Scenarios.CaesarDecrypts | Vigenere.cpp:35-47 | `"KHOOR ZRUOG"` under the key `"D"` decrypts to `"HELLO WORLD"` |
| Scenarios.CaesarTextCounts | Vigenere.cpp:15-23 | the letter counts of `"KHOOR ZRUOG"`: O three times, R twice, K, H, Z, U and G once |
| Scenarios.CaesarKeyGuess | Vigenere.cpp:61-75 | with key length 1 the group is the whole text and its dominant letter is 'O' |
| Scenarios.KeyForO | Vigenere.cpp:76 | the key letter guessed from 'O' is 'K' |

## Left out

- `main` (file reading, console output, the fixed key length 5) is I/O. The ciphertext and key length are parameters of `GuessKey`, and the key is a parameter of `Decrypt`.
- The `englishLetterFrequencies` vector (Vigenere.cpp:66-69) is built but never read. It would add floating point and no behaviour. No frequency profile is compared: the code only assumes that the plaintext's most frequent letter is 'E' (Vigenere.cpp:71), and the model does the same.
- Locale-dependent `isalpha` and `toupper`, and signed or non-ASCII `char` values, are out of scope. Characters are 7-bit ASCII (`Ascii.AsciiChar`), and the two functions follow the "C" locale.
- The `int` counters of the table and the `int` loop index are unbounded integers. Overflow would need more than 2^31 characters.
- Undefined behaviour and the exception thrown by the `std::vector` constructor are modelled as error results, not as output values: the empty key with a letter, a negative key length, a zero key length with a character to place, and a group without letters.
- KeyGuess.GuessKey: a negative key length makes the `std::vector` constructor throw, and a zero key length with a non-empty ciphertext reaches `i % 0`. The model returns `InvalidKeyLength` for both and does not tell the exception from the undefined behaviour. For key length zero and an empty ciphertext it returns the empty key, as the code does.
- `Cipher.Decrypt`: the code fails on an empty key only once it meets a letter. A letter-free text comes back unchanged under an empty key, and the model follows the code here. A design that rejects every empty key would be stricter.
- `Scenarios.KeyForO`: for `"KHOOR ZRUOG"` with key length 1, the code's formula gives the key `"K"`, not `"D"`. The dominant letter of the ciphertext is 'O', and 'O' − 'E' = 10. `"D"` would be the key only if the plaintext's most frequent letter were 'E', but in `"HELLO WORLD"` it is 'L'. The model states what the code computes.
- `Frequency.TotalIsLetters`: the table total is a sum over the 26 upper-case letters, not a fold over the map's entries. The two agree because every key is an upper-case letter (`Frequency.CalculateFrequency`).
- Key-length detection is absent from the code.
