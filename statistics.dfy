/**
 * The two scoring primitives of the cracker: the index of coincidence
 * (`VigenereCracker.__index_of_coincidence`) and the chi-squared distance to
 * a letter-frequency table (`VigenereCracker.__chi_squared`). Scores are
 * exact reals; the original computes them in floating point.
 */
module Statistics {
  import opened Letters
  import opened Outcomes

  // ---------------------------------------------------------------------------
  // Index of coincidence

  /** Ordered pairs of equal letters contributed by a letter that occurs `f` times. */
  function Pairs(f: nat): (n: nat)
    ensures n == 0 <==> f <= 1
  {
    if f == 0 then 0 else f * (f - 1)
  }

  /** `Σ f(f - 1)` over the first `k` letters of the alphabet; it vanishes exactly when none of
      those letters repeats. */
  function PairCount(s: string, k: nat): (n: nat)
    requires k <= AlphabetSize
    ensures n == 0 <==> forall m :: 0 <= m < k ==> Count(s, Letter(m)) <= 1
  {
    if k == 0 then 0 else PairCount(s, k - 1) + Pairs(Count(s, Letter(k - 1)))
  }

  /** The index of coincidence `Σ f_c (f_c - 1) / (N (N - 1))`: a probability, which is 0
      exactly when no letter occurs twice. */
  function Coincidence(text: string): (ic: real)
    requires |text| >= 2
    ensures 0.0 <= ic <= 1.0
    ensures ic == 0.0 <==> NoRepeatedLetter(text)
  {
    var n := |text|;
    MulAtLeastOne(n, n - 1);
    PairCountBound(text, AlphabetSize);
    LetterTotalIsLength(text);
    PairsMonotone(LetterTotal(text, AlphabetSize), n);
    Ratio(PairCount(text, AlphabetSize) as real, (n * (n - 1)) as real);
    PairCount(text, AlphabetSize) as real / (n * (n - 1)) as real
  }

  /** No letter of the alphabet occurs twice in `s`. */
  predicate NoRepeatedLetter(s: string) {
    forall m :: 0 <= m < AlphabetSize ==> Count(s, Letter(m)) <= 1
  }

  /** Facts about `a / b` for a positive divisor. */
  lemma Ratio(a: real, b: real)
    requires b > 0.0
    ensures a >= 0.0 ==> a / b >= 0.0
    ensures a / b == 0.0 <==> a == 0.0
    ensures a <= b ==> a / b <= 1.0
    ensures a == b ==> a / b == 1.0
  {
    var q := a / b;
    assert q * b == a;
  }

  lemma PairsOfSum(a: nat, b: nat)
    ensures Pairs(a) + Pairs(b) <= Pairs(a + b)
  {
    if a > 0 && b > 0 {
      assert (a + b) * (a + b - 1) == a * (a - 1) + b * (b - 1) + 2 * a * b;
    }
  }

  lemma PairsMonotone(a: nat, b: nat)
    requires a <= b
    ensures Pairs(a) <= Pairs(b)
  {
    PairsOfSum(a, b - a);
  }

  /** No more pairs of equal letters than pairs of counted letters. */
  lemma {:induction false} PairCountBound(s: string, k: nat)
    requires k <= AlphabetSize
    ensures PairCount(s, k) <= Pairs(LetterTotal(s, k))
  {
    if k > 0 {
      PairCountBound(s, k - 1);
      PairsOfSum(LetterTotal(s, k - 1), Count(s, Letter(k - 1)));
    }
  }

  /** The index of coincidence is the pair count over the positive `Pairs(N)`. */
  lemma CoincidenceRatio(text: string)
    requires |text| >= 2
    ensures Pairs(|text|) > 0
    ensures Coincidence(text) == PairCount(text, AlphabetSize) as real / Pairs(|text|) as real
    ensures Coincidence(text) == 1.0 <== PairCount(text, AlphabetSize) == Pairs(|text|)
  {
    var n := |text|;
    assert n * (n - 1) >= n by {
      MulAtLeastOne(n, n - 1);
    }
    assert Pairs(n) == n * (n - 1);
    Ratio(PairCount(text, AlphabetSize) as real, Pairs(n) as real);
  }

  lemma MulAtLeastOne(a: int, b: int)
    requires a >= 0 && b >= 1
    ensures a * b >= a
  {
  }

  lemma {:induction false} CountOfAbsent(s: string, c: char)
    requires forall i :: 0 <= i < |s| ==> s[i] != c
    ensures Count(s, c) == 0
  {
    if s != [] {
      CountOfAbsent(s[1..], c);
    }
  }

  lemma {:induction false} CountOfDistinct(s: string, c: char)
    requires forall i, j :: 0 <= i < j < |s| ==> s[i] != s[j]
    ensures Count(s, c) <= 1
  {
    if s != [] {
      if s[0] == c {
        CountOfAbsent(s[1..], c);
      } else {
        CountOfDistinct(s[1..], c);
      }
    }
  }

  /** A text whose letters are pairwise distinct (all 26 letters once each, say) has coincidence 0. */
  lemma CoincidenceOfDistinct(text: string)
    requires |text| >= 2
    requires forall i, j :: 0 <= i < j < |text| ==> text[i] != text[j]
    ensures Coincidence(text) == 0.0
  {
    forall m | 0 <= m < AlphabetSize ensures Count(text, Letter(m)) <= 1 {
      CountOfDistinct(text, Letter(m));
    }
  }

  lemma {:induction false} CountOfRepeated(s: string, c: char, d: char)
    requires forall i :: 0 <= i < |s| ==> s[i] == c
    ensures Count(s, d) == if d == c then |s| else 0
  {
    if s != [] {
      CountOfRepeated(s[1..], c, d);
    }
  }

  lemma {:induction false} PairCountOfRepeated(s: string, c: char, k: nat)
    requires IsUpper(c) && k <= AlphabetSize
    requires forall i :: 0 <= i < |s| ==> s[i] == c
    ensures PairCount(s, k) == if LetterIndex(c) < k then Pairs(|s|) else 0
  {
    if k > 0 {
      PairCountOfRepeated(s, c, k - 1);
      CountOfRepeated(s, c, Letter(k - 1));
    }
  }

  /** A single letter repeated has coincidence 1. */
  lemma CoincidenceOfRepeated(text: string, c: char)
    requires |text| >= 2 && IsUpper(c)
    requires forall i :: 0 <= i < |text| ==> text[i] == c
    ensures Coincidence(text) == 1.0
  {
    PairCountOfRepeated(text, c, AlphabetSize);
    CoincidenceRatio(text);
  }

  /** `__index_of_coincidence`: a running sum over the alphabet, divided by `N (N - 1)`.
      The division fails for a text shorter than 2 letters, whose divisor is zero. */
  method IndexOfCoincidence(text: string) returns (r: Result<real>)
    ensures r.Failure? <==> |text| < 2
    ensures r.Failure? ==> r.error == IcDivisionByZero
    ensures r.Success? ==> r.value == Coincidence(text) && 0.0 <= r.value <= 1.0
  {
    var n := |text|;
    var sum := 0.0;
    for k := 0 to AlphabetSize
      invariant sum == PairCount(text, k) as real
    {
      AlphabetAt(k);
      var f := Count(text, Alphabet[k]);
      sum := sum + Pairs(f) as real;
    }
    assert n * (n - 1) == 0 <==> n < 2 by {
      if n >= 2 {
        MulAtLeastOne(n, n - 1);
      }
    }
    if n * (n - 1) == 0 {
      return Failure(IcDivisionByZero);
    }
    assert sum == PairCount(text, AlphabetSize) as real;
    r := Success(sum / (n * (n - 1)) as real);
  }

  // ---------------------------------------------------------------------------
  // Chi-squared distance

  /** Table entries are frequencies in units of 1/100000: every literal of the original table
      has five decimals, so `e_k == weights[k] / FrequencyScale` exactly. */
  const FrequencyScale: nat := 100000

  /** `ENGLISH_FREQUENCIES`, scaled by `FrequencyScale` (0.08167 for 'A' is 8167, ...). */
  const EnglishFrequencies: seq<nat> := [
    8167, 1492, 2782, 4253, 12702, 2228, 2015,
    6094, 6966, 153, 772, 4025, 2406, 6749,
    7507, 1929, 95, 5987, 6327, 9056, 2758,
    978, 2360, 150, 1974, 74
  ]

  /** A frequency table that the chi-squared score can divide by: one positive entry per letter. */
  predicate ValidTable(weights: seq<nat>) {
    |weights| == AlphabetSize && forall k :: 0 <= k < AlphabetSize ==> weights[k] > 0
  }

  lemma EnglishFrequenciesValid()
    ensures ValidTable(EnglishFrequencies)
  {
  }

  /** `x ** 2`: a square, which is 0 only for 0. */
  function Square(x: int): (r: nat)
    ensures r == x * x
    ensures r == 0 <==> x == 0
  {
    if x < 0 then
      assert (-x) * (-x) >= -x;
      (-x) * (-x)
    else
      assert x > 0 ==> x * x >= x;
      x * x
  }

  /** `(c - N e)^2 / (N e)` for a count `c`, a text length `N` and a table entry `e = w / S`,
      written as `(S c - N w)^2 / (S N w)` (`TermIsChiTerm`). A term is never negative, and it
      vanishes exactly when the count is the expected one. */
  function Term(c: int, n: int, w: int): (t: real)
    requires n > 0 && w > 0
    ensures t >= 0.0
    ensures t == 0.0 <==> FrequencyScale * c == n * w
  {
    PositiveProduct(n, w);
    Ratio(Square(FrequencyScale * c - n * w) as real, (FrequencyScale * n * w) as real);
    Square(FrequencyScale * c - n * w) as real / (FrequencyScale * n * w) as real
  }

  /** The integer-scaled term equals the textbook `(c - N e)^2 / (N e)` with `e = w / S`. */
  lemma TermIsChiTerm(c: int, n: int, w: int)
    requires n > 0 && w > 0
    ensures var e := w as real / FrequencyScale as real;
            Term(c, n, w) == (c as real - n as real * e) * (c as real - n as real * e) / (n as real * e)
  {
    var S := FrequencyScale as real;
    var e := w as real / S;
    var d := c as real - n as real * e;
    var D := (FrequencyScale * c - n * w) as real;
    var P := Square(FrequencyScale * c - n * w) as real;
    var Q := (FrequencyScale * n * w) as real;
    var K := S * S;
    var ne := n as real * e;
    assert Term(c, n, w) == P / Q;
    assert D == S * d;
    assert P == K * (d * d);
    assert Q == K * ne;
    DivCancel(d * d, ne, K);
  }

  /** A common non-zero factor cancels from a quotient. */
  lemma DivCancel(a: real, b: real, k: real)
    requires b != 0.0 && k != 0.0
    ensures (k * a) / (k * b) == a / b
  {
    var q := a / b;
    assert q * b == a;
    assert q * (k * b) == k * a;
  }

  /** Term `k` of the statistic, for the letter `Letter(k)`. */
  function ChiTerm(text: string, weights: seq<nat>, k: nat): (t: real)
    requires ValidTable(weights) && |text| >= 1 && k < AlphabetSize
  {
    Term(Count(text, Letter(k)), |text|, weights[k])
  }

  /** Sum of the first `k` terms: never negative, and 0 exactly when each of the first `k`
      letters occurs as often as the table predicts. */
  function ChiSum(text: string, weights: seq<nat>, k: nat): (sum: real)
    requires ValidTable(weights) && |text| >= 1 && k <= AlphabetSize
    ensures sum >= 0.0
    ensures sum == 0.0 <==>
              forall m :: 0 <= m < k ==> FrequencyScale * Count(text, Letter(m)) == |text| * weights[m]
  {
    if k == 0 then 0.0 else ChiSum(text, weights, k - 1) + ChiTerm(text, weights, k - 1)
  }

  /** The chi-squared distance of the letter counts of `text` from the table. It is never
      negative, and it is 0 exactly when every letter occurs as often as the table predicts
      (`c_k == N e_k` for all 26 letters). */
  function ChiSquare(text: string, weights: seq<nat>): (d: real)
    requires ValidTable(weights) && |text| >= 1
    ensures d >= 0.0
    ensures d == 0.0 <==>
              forall m :: 0 <= m < AlphabetSize ==> FrequencyScale * Count(text, Letter(m)) == |text| * weights[m]
  {
    ChiSum(text, weights, AlphabetSize)
  }

  lemma PositiveProduct(a: int, b: int)
    requires a > 0 && b > 0
    ensures a * b > 0
  {
  }

  /** `__chi_squared`: a running sum over the alphabet of `((c_i - N e_i) ** 2) / (N e_i)`, each
      computed exactly as `Term` (equal to the textbook term by `TermIsChiTerm`). The divisions
      fail for an empty text, for which every divisor `N * e_i` is zero. */
  method ChiSquared(text: string, weights: seq<nat>) returns (r: Result<real>)
    requires ValidTable(weights)
    ensures r.Failure? <==> |text| == 0
    ensures r.Failure? ==> r.error == ChiDivisionByZero
    ensures r.Success? ==> r.value == ChiSquare(text, weights) && r.value >= 0.0
  {
    var n := |text|;
    if n == 0 {
      return Failure(ChiDivisionByZero);
    }
    var result := 0.0;
    for k := 0 to AlphabetSize
      invariant result == ChiSum(text, weights, k)
    {
      AlphabetAt(k);
      var observed := Count(text, Alphabet[k]);
      result := result + Term(observed, n, weights[k]);
    }
    r := Success(result);
  }
}
