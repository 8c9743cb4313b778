/**
 * The fixed 26-letter alphabet, the configuration constants of the cracker
 * and letter counting (the stand-in for `collections.Counter`).
 */
module Letters {

  /** Number of symbols in the alphabet. */
  const AlphabetSize: nat := 26

  /** Key lengths 2 .. MaxKeyLength - 1 are tried. */
  const MaxKeyLength: nat := 8

  const Alphabet: string := "ABCDEFGHIJKLMNOPQRSTUVWXYZ"

  predicate IsUpper(c: char) {
    'A' <= c <= 'Z'
  }

  predicate IsUpperText(s: string) {
    forall i :: 0 <= i < |s| ==> IsUpper(s[i])
  }

  /** `ord(c) - ord('A')`: the position of an upper-case letter in the alphabet. */
  function LetterIndex(c: char): (k: int)
    ensures IsUpper(c) <==> 0 <= k < AlphabetSize
  {
    c as int - 'A' as int
  }

  /** The letter at position `k` of the alphabet. */
  function Letter(k: int): (c: char)
    requires 0 <= k < AlphabetSize
    ensures IsUpper(c) && LetterIndex(c) == k
  {
    ('A' as int + k) as char
  }

  /** The constant string spells the alphabet in order. */
  lemma AlphabetAt(k: int)
    requires 0 <= k < AlphabetSize
    ensures |Alphabet| == AlphabetSize && Alphabet[k] == Letter(k)
  {
  }

  /** Number of occurrences of `c` in `s`. */
  function Count(s: string, c: char): (n: nat)
    ensures n <= |s|
  {
    if s == [] then 0 else (if s[0] == c then 1 else 0) + Count(s[1..], c)
  }

  /** Sum of the counts of the first `k` letters of the alphabet. */
  function LetterTotal(s: string, k: nat): (n: nat)
    requires k <= AlphabetSize
  {
    if k == 0 then 0 else LetterTotal(s, k - 1) + Count(s, Letter(k - 1))
  }

  /** Dropping the first character of `s` removes it from the total when it is one of the first `k` letters. */
  lemma {:induction false} LetterTotalStep(s: string, k: nat)
    requires s != [] && k <= AlphabetSize
    ensures LetterTotal(s, k)
         == LetterTotal(s[1..], k) + (if IsUpper(s[0]) && LetterIndex(s[0]) < k then 1 else 0)
  {
    if k > 0 {
      LetterTotalStep(s, k - 1);
    }
  }

  lemma {:induction false} LetterTotalOfEmpty(k: nat)
    requires k <= AlphabetSize
    ensures LetterTotal([], k) == 0
  {
    if k > 0 {
      LetterTotalOfEmpty(k - 1);
    }
  }

  /** The letters of `s` are counted at most once each: the counts add up to no more than `|s|`,
      and to exactly `|s|` when `s` is upper-case. */
  lemma {:induction false} LetterTotalIsLength(s: string)
    ensures LetterTotal(s, AlphabetSize) <= |s|
    ensures IsUpperText(s) ==> LetterTotal(s, AlphabetSize) == |s|
  {
    if s == [] {
      LetterTotalOfEmpty(AlphabetSize);
    } else {
      LetterTotalStep(s, AlphabetSize);
      LetterTotalIsLength(s[1..]);
      assert IsUpperText(s) ==> IsUpperText(s[1..]) by {
        if IsUpperText(s) {
          forall i | 0 <= i < |s[1..]| ensures IsUpper(s[1..][i]) {
            assert s[1..][i] == s[i + 1];
          }
        }
      }
    }
  }
}
