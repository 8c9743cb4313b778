/**
 * `VigenereCracker.crack`: the key length is estimated, the cyphertext is split
 * into that many pieces, and for every piece the shift whose decryption is
 * closest to English (lowest chi-squared distance) gives one key letter.
 *
 * The shift scan is modelled as written: shift 0 is never scored, the starting
 * candidate scores shift 1 but carries the letter 'A', and shifts 2 .. 25
 * carry `ALPHABET[i]`. The letter 'B' is therefore never produced, and 'A'
 * stands for shift 1 although decrypting with 'A' applies shift 0.
 */
module Cracker {
  import opened Letters
  import opened Outcomes
  import opened Caesar
  import opened Interleave
  import opened Statistics
  import opened KeyLength
  import opened Selection

  /** How far `piece`, decrypted with shift `k`, is from English letter frequencies. */
  function ShiftScore(piece: string, k: int): (score: real)
    requires IsUpperText(piece) && |piece| >= 1 && 0 <= k <= AlphabetSize
    ensures score >= 0.0
  {
    EnglishFrequenciesValid();
    ChiSquare(Unshift(piece, k), EnglishFrequencies)
  }

  /** The scores indexed by shift, for a piece that can be scored. */
  function ShiftScores(piece: string): (scores: seq<real>)
    ensures |scores| == AlphabetSize
  {
    seq(AlphabetSize, k requires 0 <= k < AlphabetSize =>
      if IsUpperText(piece) && |piece| >= 1 then ShiftScore(piece, k) else 0.0)
  }

  /** The letter the scan records for shift `k`: 'A' for the starting shift 1, `ALPHABET[k]` after. */
  function ShiftLabel(k: int): (c: char)
    requires 1 <= k < AlphabetSize
    ensures IsUpper(c) && c != 'B'
    ensures k == 1 ==> c == 'A'
    ensures k >= 2 ==> LetterIndex(c) == k
  {
    if k == 1 then 'A' else Letter(k)
  }

  /** `ch` is the key letter `crack` records for `piece`: the label of the shift kept by the scan
      over shifts `1 .. 25`. Such a letter is upper-case and never 'B', and the piece is not empty. */
  predicate IsShiftChoice(piece: string, ch: char)
    ensures IsShiftChoice(piece, ch) ==> IsUpper(ch) && ch != 'B' && IsUpperText(piece) && |piece| >= 1
  {
    IsUpperText(piece) && |piece| >= 1
    && ((ch == 'A' && IsRunningMin(ShiftScores(piece), 1, AlphabetSize, 1))
        || (2 <= LetterIndex(ch) < AlphabetSize && IsRunningMin(ShiftScores(piece), 1, AlphabetSize, LetterIndex(ch))))
  }

  /** A recorded key letter is the label of the kept shift, so a piece has exactly one key letter;
      it is never 'B'. */
  lemma ShiftChoiceIsLabel(piece: string, ch: char, best: nat)
    requires IsShiftChoice(piece, ch) && IsRunningMin(ShiftScores(piece), 1, AlphabetSize, best)
    ensures ch == ShiftLabel(best) && ch != 'B'
  {
    if ch == 'A' {
      RunningMinUnique(ShiftScores(piece), 1, AlphabetSize, 1, best);
    } else {
      RunningMinUnique(ShiftScores(piece), 1, AlphabetSize, LetterIndex(ch), best);
    }
  }

  /** Decrypting with a recorded letter other than 'A' applies exactly the kept shift, whose score
      is the lowest of shifts 1 .. 25; 'A' records shift 1 but decrypts with shift 0, which gives a
      different text. */
  lemma ShiftChoiceDecryption(piece: string, ch: char)
    requires IsShiftChoice(piece, ch)
    ensures ch != 'A' ==> IsRunningMin(ShiftScores(piece), 1, AlphabetSize, LetterIndex(ch))
    ensures ch != 'A' ==> forall k :: 1 <= k < AlphabetSize ==> ShiftScore(piece, LetterIndex(ch)) <= ShiftScore(piece, k)
    ensures ch == 'A' ==>
              IsRunningMin(ShiftScores(piece), 1, AlphabetSize, 1) && LetterIndex(ch) == 0
              && Unshift(piece, LetterIndex(ch)) != Unshift(piece, 1)
  {
    if ch == 'A' {
      assert Unshift(piece, 0)[0] != Unshift(piece, 1)[0];
    } else {
      forall k | 1 <= k < AlphabetSize ensures ShiftScore(piece, LetterIndex(ch)) <= ShiftScore(piece, k) {
        RunningMinIsMinimum(ShiftScores(piece), 1, AlphabetSize, LetterIndex(ch), k);
      }
    }
  }

  /** Lines 71-77 of `crack` for one piece: a running best `(letter, score)` that starts with
      ('A', score of shift 1) and is replaced only by a strictly lower score. An empty piece makes
      the first chi-squared score fail. */
  method RecoverKeyLetter(piece: string) returns (r: Result<char>)
    requires IsUpperText(piece)
    ensures r.Failure? <==> |piece| == 0
    ensures r.Failure? ==> r.error == ChiDivisionByZero
    ensures r.Success? ==> IsShiftChoice(piece, r.value) && IsUpper(r.value) && r.value != 'B'
  {
    EnglishFrequenciesValid();
    var first := CaesarDecrypt(piece, 1);
    var firstScore := ChiSquared(first, EnglishFrequencies);
    if firstScore.Failure? {
      return Failure(firstScore.error);
    }
    var bestLetter, bestScore := 'A', firstScore.value;
    ghost var scores := ShiftScores(piece);
    ghost var bestShift: nat := 1;
    for i := 2 to AlphabetSize
      invariant IsRunningMin(scores, 1, i, bestShift)
      invariant bestScore == scores[bestShift]
      invariant bestLetter == ShiftLabel(bestShift)
    {
      var caesar := CaesarDecrypt(piece, i);
      var chi := ChiSquared(caesar, EnglishFrequencies);
      RunningMinStep(scores, 1, i, bestShift);
      if chi.value < bestScore {
        AlphabetAt(i);
        bestLetter, bestScore := Alphabet[i], chi.value;
        bestShift := i;
      }
    }
    r := Success(bestLetter);
  }

  /** `crack`: the key is one recorded letter per piece, in offset order. It fails in the
      key-length scan for a cyphertext shorter than `2 * (MaxKeyLength - 1)` letters, and at the
      modulo of the split when the key length is 0. */
  method Crack(cypher: string) returns (r: Result<string>)
    requires IsUpperText(cypher)
    ensures r.Failure? <==> !TrialsFit(cypher, MaxKeyLength) || IsKeyLengthChoice(cypher, 0)
    ensures !TrialsFit(cypher, MaxKeyLength) ==> r == Failure(IcDivisionByZero)
    ensures TrialsFit(cypher, MaxKeyLength) && IsKeyLengthChoice(cypher, 0) ==> r == Failure(ModuloByZero)
    ensures r.Success? ==> TrialsFit(cypher, MaxKeyLength) && IsKeyLengthChoice(cypher, |r.value|)
                           && 2 <= |r.value| < MaxKeyLength
    ensures r.Success? ==> forall j :: 0 <= j < |r.value| ==> IsShiftChoice(Piece(cypher, j, |r.value|), r.value[j])
  {
    var keyLength := DetermineKeyLength(cypher);
    if keyLength.Failure? {
      return Failure(keyLength.error);
    }
    var L := keyLength.value;
    if L == 0 {
      // the cyphertext is not empty here, so `i % key_len` is evaluated and fails
      return Failure(ModuloByZero);
    }
    var key := RecoverKey(cypher, L);
    r := Success(key);
  }

  /** Lines 65-77 of `crack` once the key length `L` is known and positive: the split, then one
      recorded letter per piece. Every piece has at least 2 letters here. */
  method RecoverKey(cypher: string, L: nat) returns (key: string)
    requires IsUpperText(cypher) && 1 <= L && 2 * L <= |cypher|
    ensures |key| == L
    ensures forall j :: 0 <= j < L ==> IsShiftChoice(Piece(cypher, j, L), key[j])
  {
    var pieces := Split(cypher, L);
    ShortPieceIff(cypher, L);
    key := "";
    for j := 0 to L
      invariant |key| == j
      invariant forall m :: 0 <= m < j ==> IsShiftChoice(Piece(cypher, m, L), key[m])
    {
      var letter := RecoverKeyLetter(pieces[j]);
      key := key + [letter.value];
    }
  }
}
