/**
 * The Caesar shift primitive `VigenereCracker.__caesar_decrypt`: every
 * letter is moved back by a fixed shift and wrapped once into `A..Z`.
 */
module Caesar {
  import opened Letters

  /** One step of the decrypt loop: subtract the shift from the character code
      and add the alphabet size back once when the code falls below `'A'`. */
  function UnshiftLetter(c: char, k: int): (r: char)
    requires IsUpper(c) && 0 <= k <= AlphabetSize
    ensures IsUpper(r)
    ensures LetterIndex(r) == (LetterIndex(c) - k) % AlphabetSize
  {
    var code := c as int - k;
    if code < 'A' as int then (code + ('Z' as int - 'A' as int + 1)) as char else code as char
  }

  /** The encryption step that `UnshiftLetter` undoes. */
  function ShiftLetter(c: char, k: int): (r: char)
    requires IsUpper(c) && 0 <= k <= AlphabetSize
    ensures IsUpper(r)
  {
    Letter((LetterIndex(c) + k) % AlphabetSize)
  }

  lemma UnshiftShiftLetter(c: char, k: int)
    requires IsUpper(c) && 0 <= k <= AlphabetSize
    ensures UnshiftLetter(ShiftLetter(c, k), k) == c
  {
    var x := LetterIndex(c);
    var y := LetterIndex(ShiftLetter(c, k));
    assert y == (x + k) % AlphabetSize;
    assert LetterIndex(UnshiftLetter(ShiftLetter(c, k), k)) == x;
  }

  /** Unshifting by `k` and then by `26 - k` gives the letter back. */
  lemma UnshiftComplementLetter(c: char, k: int)
    requires IsUpper(c) && 0 <= k <= AlphabetSize
    ensures UnshiftLetter(UnshiftLetter(c, k), AlphabetSize - k) == c
  {
    var x := LetterIndex(c);
    assert LetterIndex(UnshiftLetter(c, k)) == (x - k) % AlphabetSize;
    assert LetterIndex(UnshiftLetter(UnshiftLetter(c, k), AlphabetSize - k)) == x;
  }

  /** `s` decrypted with the subtracted shift `k`: every letter moves `k` places back,
      wrapping around the alphabet. */
  function Unshift(s: string, k: int): (r: string)
    requires IsUpperText(s) && 0 <= k <= AlphabetSize
    ensures |r| == |s| && IsUpperText(r)
    ensures forall i :: 0 <= i < |s| ==> LetterIndex(r[i]) == (LetterIndex(s[i]) - k) % AlphabetSize
  {
    seq(|s|, i requires 0 <= i < |s| => UnshiftLetter(s[i], k))
  }

  /** `s` encrypted with the shift `k`. */
  function Shift(s: string, k: int): (r: string)
    requires IsUpperText(s) && 0 <= k <= AlphabetSize
  {
    seq(|s|, i requires 0 <= i < |s| => ShiftLetter(s[i], k))
  }

  /** Decrypting what was encrypted with the same shift gives the plaintext back. */
  lemma UnshiftShift(s: string, k: int)
    requires IsUpperText(s) && 0 <= k <= AlphabetSize
    ensures IsUpperText(Shift(s, k)) && Unshift(Shift(s, k), k) == s
  {
    forall i | 0 <= i < |s| ensures Unshift(Shift(s, k), k)[i] == s[i] {
      UnshiftShiftLetter(s[i], k);
    }
  }

  /** Applying shift `k` and then shift `26 - k` is the identity. */
  lemma UnshiftComplement(s: string, k: int)
    requires IsUpperText(s) && 0 <= k <= AlphabetSize
    ensures IsUpperText(Unshift(s, k)) && Unshift(Unshift(s, k), AlphabetSize - k) == s
  {
    forall i | 0 <= i < |s| ensures Unshift(Unshift(s, k), AlphabetSize - k)[i] == s[i] {
      UnshiftComplementLetter(s[i], k);
    }
  }

  /** `__caesar_decrypt(cypher, key)`: the result is grown one letter at a time. */
  method CaesarDecrypt(cypher: string, key: int) returns (result: string)
    requires IsUpperText(cypher) && 0 <= key <= AlphabetSize
    ensures result == Unshift(cypher, key)
    ensures |result| == |cypher| && IsUpperText(result)
    ensures forall i :: 0 <= i < |cypher| ==>
              LetterIndex(result[i]) == (LetterIndex(cypher[i]) - key) % AlphabetSize
  {
    result := "";
    for i := 0 to |cypher|
      invariant |result| == i
      invariant forall m :: 0 <= m < i ==> result[m] == UnshiftLetter(cypher[m], key)
    {
      var shift := cypher[i] as int - key;
      if shift < 'A' as int {
        shift := shift + ('Z' as int - 'A' as int + 1);
      }
      result := result + [shift as char];
    }
  }
}
