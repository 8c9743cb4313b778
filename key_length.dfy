/**
 * `VigenereCracker.__determine_key_length`: every trial length `L` in
 * `2 .. MaxKeyLength - 1` splits the cyphertext into `L` pieces and scores it
 * by the mean index of coincidence of the pieces; the first strictly highest
 * score above 0 wins, and 0 is returned when no score exceeds 0.
 */
module KeyLength {
  import opened Letters
  import opened Outcomes
  import opened Interleave
  import opened Statistics
  import opened Selection

  /** The first `k` pieces can be scored: none is shorter than 2 letters. */
  predicate Scorable(pieces: seq<string>, k: nat)
    requires k <= |pieces|
  {
    forall j :: 0 <= j < k ==> |pieces[j]| >= 2
  }

  /** Sum of the indices of coincidence of the first `k` pieces. Each lies in `[0, 1]`, so the
      sum lies in `[0, k]`, and it is 0 exactly when none of those pieces repeats a letter. */
  function CoincidenceTotal(pieces: seq<string>, k: nat): (total: real)
    requires k <= |pieces| && Scorable(pieces, k)
    ensures 0.0 <= total <= k as real
    ensures total == 0.0 <==> forall j :: 0 <= j < k ==> NoRepeatedLetter(pieces[j])
  {
    if k == 0 then 0.0 else CoincidenceTotal(pieces, k - 1) + Coincidence(pieces[k - 1])
  }

  /** `mean(...)` of the indices of coincidence of all pieces: it lies in `[0, 1]` and is 0
      exactly when no piece holds a repeated letter. */
  function MeanCoincidence(pieces: seq<string>): (mean: real)
    requires |pieces| >= 1 && Scorable(pieces, |pieces|)
    ensures 0.0 <= mean <= 1.0
    ensures mean == 0.0 <==> forall j :: 0 <= j < |pieces| ==> NoRepeatedLetter(pieces[j])
  {
    Ratio(CoincidenceTotal(pieces, |pieces|), |pieces| as real);
    CoincidenceTotal(pieces, |pieces|) / |pieces| as real
  }

  /** `mean(list(map(__index_of_coincidence, pieces)))`: the scores are taken in order, and the
      first piece shorter than 2 letters makes the whole expression fail. */
  method AverageCoincidence(pieces: seq<string>) returns (r: Result<real>)
    requires |pieces| >= 1
    ensures r.Failure? <==> !Scorable(pieces, |pieces|)
    ensures r.Failure? ==> r.error == IcDivisionByZero
    ensures r.Success? ==> r.value == MeanCoincidence(pieces) && 0.0 <= r.value <= 1.0
  {
    var total := 0.0;
    for j := 0 to |pieces|
      invariant Scorable(pieces, j)
      invariant total == CoincidenceTotal(pieces, j)
    {
      var ic := IndexOfCoincidence(pieces[j]);
      if ic.Failure? {
        return Failure(ic.error);
      }
      total := total + ic.value;
    }
    r := Success(total / |pieces| as real);
  }

  /** Every trial length below `bound` leaves pieces of at least 2 letters. */
  predicate TrialsFit(cypher: string, bound: nat) {
    bound <= 2 || 2 * (bound - 1) <= |cypher|
  }

  /** The score of trial length `L`: the mean coincidence of the `L` pieces. */
  function TrialScore(cypher: string, L: nat): (score: real)
    requires 2 <= L && 2 * L <= |cypher|
    ensures 0.0 <= score <= 1.0
  {
    ShortPieceIff(cypher, L);
    MeanCoincidence(Pieces(cypher, L))
  }

  /** The scores indexed by trial length: entry `L` is the score of `L` for every trial length that
      leaves pieces of at least 2 letters, and 0 at the positions the scan never reads. */
  function TrialScores(cypher: string): (scores: seq<real>)
    ensures |scores| == MaxKeyLength
  {
    seq(MaxKeyLength, L requires 0 <= L < MaxKeyLength =>
      if 2 <= L && 2 * L <= |cypher| then TrialScore(cypher, L) else 0.0)
  }

  /** The result of `__determine_key_length` for a cyphertext long enough to score every trial:
      0, or a trial length whose score is positive and not exceeded by any other trial. */
  predicate IsKeyLengthChoice(cypher: string, r: nat)
    requires TrialsFit(cypher, MaxKeyLength)
    ensures IsKeyLengthChoice(cypher, r) ==> r == 0 || 2 <= r < MaxKeyLength
    ensures IsKeyLengthChoice(cypher, r) && r != 0 ==>
              0.0 < TrialScore(cypher, r) && forall L :: 2 <= L < MaxKeyLength ==> TrialScore(cypher, L) <= TrialScore(cypher, r)
  {
    assert forall L :: 2 <= L < MaxKeyLength ==> TrialScores(cypher)[L] == TrialScore(cypher, L);
    IsRunningMax(TrialScores(cypher), 2, MaxKeyLength, r)
  }

  /** `__determine_key_length`: a running best `(bestLength, bestScore)` starting at `(0, 0.0)`,
      replaced only by a strictly higher mean. A cyphertext shorter than `2 * (MaxKeyLength - 1)`
      letters leaves a piece shorter than 2 letters for some trial length, and the scan fails there. */
  method DetermineKeyLength(cypher: string) returns (r: Result<nat>)
    ensures r.Failure? <==> !TrialsFit(cypher, MaxKeyLength)
    ensures r.Failure? ==> r.error == IcDivisionByZero
    ensures r.Success? ==> IsKeyLengthChoice(cypher, r.value)
    ensures r.Success? ==> r.value == 0 || 2 <= r.value < MaxKeyLength
  {
    ghost var scores := TrialScores(cypher);
    var bestLength: nat, bestScore := 0, 0.0;
    for L := 2 to MaxKeyLength
      invariant TrialsFit(cypher, L)
      invariant IsRunningMax(scores, 2, L, bestLength)
      invariant bestLength < MaxKeyLength && bestScore == RunningMaxScore(scores, bestLength)
    {
      var pieces := Split(cypher, L);
      var average := AverageCoincidence(pieces);
      ShortPieceIff(cypher, L);
      if average.Failure? {
        return Failure(average.error);
      }
      assert average.value == scores[L];
      RunningMaxStep(scores, 2, L, bestLength);
      if average.value > bestScore {
        bestLength, bestScore := L, average.value;
      }
    }
    r := Success(bestLength);
  }

  // ---------------------------------------------------------------------------
  // When the key length is 0

  /** A trial scores 0 (and never less) exactly when none of its pieces holds a repeated letter. */
  lemma TrialScoreZeroIff(cypher: string, L: nat)
    requires 2 <= L && 2 * L <= |cypher|
    ensures TrialScore(cypher, L) <= 0.0 <==> forall j :: 0 <= j < L ==> NoRepeatedLetter(Pieces(cypher, L)[j])
  {
    var ps := Pieces(cypher, L);
    ShortPieceIff(cypher, L);
    assert TrialScore(cypher, L) == MeanCoincidence(ps);
  }

  /** Key length 0 is chosen exactly when no piece of any trial holds a repeated letter. */
  lemma KeyLengthZeroIff(cypher: string)
    requires TrialsFit(cypher, MaxKeyLength)
    ensures IsKeyLengthChoice(cypher, 0) <==>
              forall L, j :: 2 <= L < MaxKeyLength && 0 <= j < L ==> NoRepeatedLetter(Pieces(cypher, L)[j])
  {
    forall L | 2 <= L < MaxKeyLength
      ensures TrialScores(cypher)[L] <= 0.0 <==> forall j :: 0 <= j < L ==> NoRepeatedLetter(Pieces(cypher, L)[j])
    {
      TrialScoreZeroIff(cypher, L);
    }
  }

  /** A letter total of `k` letters that each occur at most once is at most `k`. */
  lemma {:induction false} LetterTotalOfDistinct(s: string, k: nat)
    requires k <= AlphabetSize
    requires forall m :: 0 <= m < k ==> Count(s, Letter(m)) <= 1
    ensures LetterTotal(s, k) <= k
  {
    if k > 0 {
      LetterTotalOfDistinct(s, k - 1);
    }
  }

  /** An upper-case text of more than 26 letters repeats a letter, so its coincidence is positive. */
  lemma LongTextRepeats(text: string)
    requires IsUpperText(text) && |text| > AlphabetSize
    ensures Coincidence(text) > 0.0
  {
    if Coincidence(text) == 0.0 {
      LetterTotalOfDistinct(text, AlphabetSize);
      LetterTotalIsLength(text);
    }
  }

  /** An upper-case cyphertext of more than 52 letters never gets key length 0: its first piece for
      `L = 2` has more than 26 letters. */
  lemma LongCypherHasKeyLength(cypher: string)
    requires IsUpperText(cypher) && |cypher| > 2 * AlphabetSize
    ensures TrialsFit(cypher, MaxKeyLength) && !IsKeyLengthChoice(cypher, 0)
  {
    PieceLength(cypher, 0, 2);
    DivLowerBound(|cypher| + 1, 2, AlphabetSize + 1);
    LongTextRepeats(Pieces(cypher, 2)[0]);
    KeyLengthZeroIff(cypher);
  }
}
