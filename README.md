# Vigenère cryptanalysis, modelled in Dafny

This project models `vigenere_cryptanalysis.py`, a small Vigenère cipher breaker, and proves
properties of the model. The breaker works in four stages:

- **Key length.** It guesses the key length `L` in `2 .. MAX_KEY_LENGTH - 1`. For each trial length
  it splits the cyphertext into `L` interleaved pieces. It keeps the first length whose mean index of
  coincidence is strictly higher than every earlier one and than 0.0, so a tie keeps the smaller
  length. It returns 0 when no mean exceeds 0.0.
- **Key letters.** For every piece it picks the Caesar shift whose decryption is closest, by the
  chi-squared distance, to English letter frequencies.
- **Key.** The key is the sequence of letters recorded for those shifts.
- **Decryption.** `vigenere_decrypt` undoes the cipher with a given key.

Every Python function loops over local state, so each one is a Dafny `method` with a loop. Each
method is proved against a pure specification function or predicate, and lemmas prove what those
specifications mean.

| module (file) | models |
|---|---|
| `Letters` (letters.dfy) | `ALPHABET`, `MAX_KEY_LENGTH`, and letter counting in place of `collections.Counter` |
| `Outcomes` (outcomes.dfy) | the three `ZeroDivisionError`s the program can raise, as a `Result` |
| `Caesar` (caesar.dfy) | `__caesar_decrypt` |
| `Interleave` (interleave.dfy) | the `pieces[j % L].append(c)` split shared by `__determine_key_length` and `crack` |
| `Statistics` (statistics.dfy) | `__index_of_coincidence`, `ENGLISH_FREQUENCIES`, `__chi_squared` |
| `Selection` (selection.dfy) | the two first-best scans (`>` over key lengths, `<` over shifts), over any sequence of scores |
| `KeyLength` (key_length.dfy) | `__determine_key_length`, including `statistics.mean` over the pieces |
| `Cracker` (cracker.dfy) | `crack` |
| `Vigenere` (vigenere.dfy) | `vigenere_decrypt` |

**Failures.** Where the program raises `ZeroDivisionError`, the model returns a
`Failure(...)`. Each method states exactly when that happens:

- The index of coincidence of a text shorter than 2 letters fails (`N * (N - 1)` is 0). So
  `__determine_key_length` fails exactly when the cyphertext has fewer than
  `2 * (MAX_KEY_LENGTH - 1) = 14` letters. Some trial length then has a piece shorter than 2 letters.
- The chi-squared score of an empty text fails.
- `crack` fails at `i % key_len` exactly when the chosen key length is 0.
- `vigenere_decrypt` fails at `i % len(key)` for a non-empty cyphertext and an empty key.

**How `crack` picks a key letter.** The model keeps the code's shift scan as written:

- It never scores shift 0.
- Its starting candidate scores shift 1 but records the letter 'A'. Shifts 2 .. 25 record
  `ALPHABET[i]`.
- The letter 'B' is therefore never produced (`RecoverKeyLetter`).
- When shift 1 wins, decrypting with the recorded 'A' applies shift 0 instead. The result differs
  from the best-scoring decryption (`ShiftChoiceDecryption`).

**Scores are exact reals.** The index of coincidence is the exact ratio of two integers. Each
entry of `ENGLISH_FREQUENCIES` has five decimals, so `EnglishFrequencies` stores it exactly as an
integer count of hundred-thousandths: `e_i = w_i / 100000`. Each chi-squared term
`(c_i - N e_i)^2 / (N e_i)` is computed as the equal ratio `(100000 c_i - N w_i)^2 / (100000 N w_i)`
(`TermIsChiTerm`).

**Where the code crashes.** The code does not guard against pieces shorter than 2 letters. The
resulting `ZeroDivisionError` is modelled as `Failure(IcDivisionByZero)`. The key-length scan
starts from `(0, 0.0)`, so it returns 0 when no mean exceeds 0.0 (`KeyLengthZeroIff`), and `crack`
then fails at the modulo.

## Model

| member | source | states |
|---|---|---|
| `Letters.LetterIndex` | vigenere_cryptanalysis.py:88 | `ord(c) - ord('A')` lies in `0 .. 25` exactly for upper-case letters |
| `Letters.Letter` | vigenere_cryptanalysis.py:5 | the letter at alphabet position `k` is upper case and has index `k` |
| `Letters.AlphabetAt` | vigenere_cryptanalysis.py:5 | `ALPHABET` has 26 letters and position `k` holds the letter with index `k` |
| `Letters.Count` | vigenere_cryptanalysis.py:17 | the `Counter` entry of a letter never exceeds the text length |
| `Letters.LetterTotalIsLength` | vigenere_cryptanalysis.py:17-21 | the 26 counts add up to at most `N`, and to exactly `N` for an upper-case text |
| `Caesar.UnshiftLetter` | vigenere_cryptanalysis.py:41-45 | subtracting the shift and wrapping once gives an upper-case letter with index `(index - k) mod 26` |
| `Caesar.Unshift` | vigenere_cryptanalysis.py:38-47 | the decrypted text has the input's length, is upper case, and letter `i` has index `(index of s_i - k) mod 26` |
| `Caesar.ShiftLetter` | vigenere_cryptanalysis.py:41-45 | the encryption step that the decrypt step inverts stays within `A..Z` |
| `Caesar.UnshiftShiftLetter` | vigenere_cryptanalysis.py:41-45 | decrypting an encrypted letter with the same shift gives the letter back |
| `Caesar.UnshiftComplementLetter` | vigenere_cryptanalysis.py:41-45 | decrypting by `k` and then by `26 - k` gives the letter back |
| `Caesar.UnshiftShift` | vigenere_cryptanalysis.py:38-47 | Caesar decryption inverts Caesar encryption with the same shift |
| `Caesar.UnshiftComplement` | vigenere_cryptanalysis.py:38-47 | decrypting by `k` then by `26 - k` is the identity on upper-case texts |
| `Caesar.CaesarDecrypt` | vigenere_cryptanalysis.py:38-47 | the output has the input's length, is upper case, and letter `i` has index `(index of c_i - k) mod 26` |
| `Interleave.Pieces` | vigenere_cryptanalysis.py:28 | there is one piece per offset `0 .. L - 1` |
| `Interleave.Piece` | vigenere_cryptanalysis.py:29-30 | a piece is no longer than the text and is upper case when the text is |
| `Interleave.PieceLength` | vigenere_cryptanalysis.py:29-30 | piece `j` has `(N - j + L - 1) / L` characters |
| `Interleave.PieceAt` | vigenere_cryptanalysis.py:29-30 | element `m` of piece `j` is the character at position `j + m L`, a position with remainder `j` and quotient `m` |
| `Interleave.PositionInPiece` | vigenere_cryptanalysis.py:29-30 | the character at position `p` is element `p / L` of piece `p % L`, so every position lands in a piece |
| `Interleave.PiecesCoverText` | vigenere_cryptanalysis.py:28-30 | the piece lengths add up to `N`, so no position is lost or counted twice |
| `Interleave.ShortPieceIff` | vigenere_cryptanalysis.py:28-32 | some piece has fewer than 2 characters exactly when `N < 2 L` |
| `Interleave.PiecesLengths` | vigenere_cryptanalysis.py:28-30 | the lengths of all pieces of the split |
| `Interleave.PiecesElements` | vigenere_cryptanalysis.py:28-30 | the elements of all pieces of the split, position by position |
| `Interleave.Split` | vigenere_cryptanalysis.py:28-30 | the append loop builds exactly the interleaved pieces, with their lengths and elements |
| `Statistics.Pairs` | vigenere_cryptanalysis.py:22 | `f (f - 1)` is zero exactly when a letter occurs at most once |
| `Statistics.PairCount` | vigenere_cryptanalysis.py:20-22 | the running sum of `f (f - 1)` over the first `k` letters is 0 exactly when none of them occurs twice |
| `Statistics.PairCountBound` | vigenere_cryptanalysis.py:20-22 | the sum of `f (f - 1)` is at most `T (T - 1)` for the total count `T` |
| `Statistics.Coincidence` | vigenere_cryptanalysis.py:15-23 | the index of coincidence lies in `[0, 1]` and is 0 exactly when no letter occurs twice |
| `Statistics.CoincidenceRatio` | vigenere_cryptanalysis.py:23 | the divisor `N (N - 1)` is the positive pair count of the whole text, so the index is 1 when every pair of positions holds equal letters |
| `Statistics.CoincidenceOfDistinct` | vigenere_cryptanalysis.py:15-23 | a text of pairwise distinct letters has index 0 |
| `Statistics.CoincidenceOfRepeated` | vigenere_cryptanalysis.py:15-23 | a text of one repeated letter has index 1 |
| `Statistics.IndexOfCoincidence` | vigenere_cryptanalysis.py:15-23 | fails exactly for texts shorter than 2; otherwise returns the index, which lies in `[0, 1]` |
| `Statistics.EnglishFrequenciesValid` | vigenere_cryptanalysis.py:6-11 | the frequency table has 26 entries, all positive |
| `Statistics.Term` | vigenere_cryptanalysis.py:58 | each term is non-negative and is 0 exactly when `c_i = N e_i` |
| `Statistics.TermIsChiTerm` | vigenere_cryptanalysis.py:58 | the integer-scaled term equals `(c_i - N e_i)^2 / (N e_i)` with `e_i = w_i / 100000` |
| `Statistics.ChiSum` | vigenere_cryptanalysis.py:54-58 | a partial sum is non-negative and is 0 exactly when every letter so far has `c_i = N e_i` |
| `Statistics.ChiSquare` | vigenere_cryptanalysis.py:49-60 | the chi-squared distance is non-negative and is 0 exactly when `c_i = N e_i` for all 26 letters |
| `Statistics.ChiSquared` | vigenere_cryptanalysis.py:49-60 | fails exactly for the empty text; otherwise returns the distance, which is non-negative |
| `Selection.IsRunningMax` | vigenere_cryptanalysis.py:26-34 | the kept position is 0 when no score is positive, otherwise a position in range whose positive score no scanned score exceeds |
| `Selection.RunningMaxStep` | vigenere_cryptanalysis.py:33-34 | replacing the kept length exactly when the new score is strictly greater keeps the scan's rule |
| `Selection.RunningMaxIsMaximum` | vigenere_cryptanalysis.py:26-34 | no scanned score exceeds the score held, and earlier scores are strictly below the kept one |
| `Selection.RunningMaxUnique` | vigenere_cryptanalysis.py:33-34 | the rule determines a single length, so a tie keeps the smaller length |
| `Selection.IsRunningMin` | vigenere_cryptanalysis.py:71-76 | the kept position lies in range and no scanned score is lower than its score |
| `Selection.RunningMinStep` | vigenere_cryptanalysis.py:75-76 | replacing the kept shift exactly when the new score is strictly lower keeps the scan's rule |
| `Selection.RunningMinIsMinimum` | vigenere_cryptanalysis.py:71-76 | the kept shift scores no worse than any scanned shift, and strictly better than earlier ones |
| `Selection.RunningMinUnique` | vigenere_cryptanalysis.py:75-76 | the rule determines a single shift, so a tie keeps the smaller shift |
| `KeyLength.CoincidenceTotal` | vigenere_cryptanalysis.py:32 | `k` indices add up to a value in `[0, k]` that is 0 exactly when none of those pieces repeats a letter |
| `KeyLength.MeanCoincidence` | vigenere_cryptanalysis.py:32 | the mean index lies in `[0, 1]` and is 0 exactly when no piece holds a repeated letter |
| `KeyLength.AverageCoincidence` | vigenere_cryptanalysis.py:32 | fails exactly when some piece is shorter than 2; otherwise returns the mean, which lies in `[0, 1]` |
| `KeyLength.TrialScore` | vigenere_cryptanalysis.py:28-32 | the score of a trial length lies in `[0, 1]` |
| `KeyLength.TrialScores` | vigenere_cryptanalysis.py:27-32 | one score per trial length below `MAX_KEY_LENGTH` |
| `KeyLength.IsKeyLengthChoice` | vigenere_cryptanalysis.py:25-36 | the chosen length is 0 or a trial length in `2 .. 7` whose positive score no other trial exceeds |
| `KeyLength.DetermineKeyLength` | vigenere_cryptanalysis.py:25-36 | fails exactly for fewer than 14 letters; otherwise returns 0 when no score exceeds 0, else the first length whose positive score is strictly above every earlier score and at least every later one |
| `KeyLength.TrialScoreZeroIff` | vigenere_cryptanalysis.py:28-33 | a trial scores 0 exactly when none of its pieces repeats a letter |
| `KeyLength.KeyLengthZeroIff` | vigenere_cryptanalysis.py:26-36 | the key length is 0 exactly when no piece of any trial repeats a letter |
| `KeyLength.LetterTotalOfDistinct` | vigenere_cryptanalysis.py:17-21 | when each of `k` letters occurs at most once, the counts add up to at most `k` |
| `KeyLength.LongTextRepeats` | vigenere_cryptanalysis.py:15-23 | an upper-case text of more than 26 letters has a positive index of coincidence |
| `KeyLength.LongCypherHasKeyLength` | vigenere_cryptanalysis.py:25-36 | an upper-case cyphertext of more than 52 letters never gets key length 0 |
| `Cracker.ShiftScore` | vigenere_cryptanalysis.py:73-74 | the score of a shift is the non-negative chi-squared distance of the decrypted piece |
| `Cracker.ShiftLabel` | vigenere_cryptanalysis.py:71-76 | the recorded letter is 'A' for shift 1 and the letter with index `i` for shift `i` in `2 .. 25`, never 'B' |
| `Cracker.ShiftScores` | vigenere_cryptanalysis.py:71-74 | one score per shift `0 .. 25` |
| `Cracker.IsShiftChoice` | vigenere_cryptanalysis.py:71-77 | a recorded key letter is upper case and never 'B', and its piece is a non-empty upper-case text |
| `Cracker.ShiftChoiceIsLabel` | vigenere_cryptanalysis.py:71-77 | the recorded letter is the label of the best shift, and is never 'B' |
| `Cracker.ShiftChoiceDecryption` | vigenere_cryptanalysis.py:71-76 | a recorded letter other than 'A' decrypts with the best shift; 'A' records shift 1 but decrypts with shift 0, which gives a different text |
| `Cracker.RecoverKeyLetter` | vigenere_cryptanalysis.py:69-77 | fails exactly for an empty piece; otherwise the letter is 'A' when shift 1 is no worse than shifts 2 .. 25, else the letter of the first strictly best shift, and never 'B' |
| `Cracker.RecoverKey` | vigenere_cryptanalysis.py:65-77 | one recorded letter per piece, in offset order |
| `Cracker.Crack` | vigenere_cryptanalysis.py:62-79 | fails in the index of coincidence for fewer than 14 letters, and at the modulo exactly when the key length is 0; otherwise the key has the chosen length in `2 .. 7` and letter `j` is the recorded letter of piece `j` |
| `Vigenere.KeyShift` | vigenere_cryptanalysis.py:88 | a key letter stands for a shift in `0 .. 25` |
| `Vigenere.Decipher` | vigenere_cryptanalysis.py:82-95 | the decryption has the cyphertext's length, is upper case, and letter `i` has index `(index of c_i - shift of key[i % len(key)]) mod 26` |
| `Vigenere.DecipherEncipher` | vigenere_cryptanalysis.py:82-95 | decrypting with the key that encrypted gives the plaintext back |
| `Vigenere.DecipherWithAs` | vigenere_cryptanalysis.py:82-95 | a key made only of 'A' leaves the text unchanged |
| `Vigenere.DecipherActsPerPiece` | vigenere_cryptanalysis.py:82-95 | piece `j` of the decryption is piece `j` of the cyphertext Caesar-decrypted with the shift of `key[j]` |
| `Vigenere.PieceOfCyclicUnshift` | vigenere_cryptanalysis.py:82-95 | any text built letter by letter from the repeating key splits into Caesar decryptions of the cyphertext's pieces |
| `Vigenere.DecipherWithShiftChoice` | vigenere_cryptanalysis.py:71-76 | decrypting with a recorded letter other than 'A' turns piece `j` into its decryption closest to English among shifts 1 .. 25 |
| `Vigenere.ShiftChoiceOfPiece` | vigenere_cryptanalysis.py:71-76 | a piece decrypted with its recorded letter other than 'A' scores no worse than any of its decryptions by shifts 1 .. 25 |
| `Vigenere.VigenereDecrypt` | vigenere_cryptanalysis.py:82-95 | fails exactly for a non-empty cyphertext and an empty key; otherwise returns `Decipher`, of the same length and upper case, with letter `i` at `(index of c_i - shift of key[i % len(key)]) mod 26` |

## Left out

- The `__main__` driver (vigenere_cryptanalysis.py:98-105): the hard-coded cyphertext, `.upper()` and
  the `print` calls are demo input and output.
- Floating-point rounding. Scores are exact reals, and the five-decimal table is stored exactly in
  hundred-thousandths. A tie or a near-tie that floating point would break differently is not
  modelled, nor is the inexactness of the binary float literals.
- `collections.Counter` and `statistics.mean` internals. They are replaced by a letter count and by
  an exact sum divided by the number of pieces.
- The claim that `crack` finds the true key of a long enough English text. It depends on the
  statistics of the language and is not a property of the code.
- The cost of growing strings with `+=` and Python string immutability. Strings are `seq<char>`
  values grown by appending.
- Caesar.CaesarDecrypt: requires an upper-case text. The Python code also shifts other characters
  (their codes are only moved, never checked), but the wrapped code can leave the range of valid
  characters, so the model is restricted to `A..Z`, the alphabet the program is written for.
- Vigenere.VigenereDecrypt: requires an upper-case cyphertext and key, for the same reason.
- Cracker.Crack: requires an upper-case cyphertext, for the same reason. The scores themselves
  (`IndexOfCoincidence`, `ChiSquared`) accept any text, as `Counter` does.
