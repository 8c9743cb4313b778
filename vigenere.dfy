/**
 * The module function `vigenere_decrypt`: position `i` of the cyphertext is
 * moved back by the shift of key letter `i % len(key)` ('A' is shift 0).
 */
module Vigenere {
  import opened Letters
  import opened Outcomes
  import opened Caesar
  import opened Interleave
  import opened Statistics
  import opened Cracker

  /** The shift a key letter stands for. */
  function KeyShift(c: char): (k: int)
    requires IsUpper(c)
    ensures 0 <= k < AlphabetSize
  {
    LetterIndex(c)
  }

  /** `cypher` decrypted with the repeating `key`: letter `i` moves back by the shift of key
      letter `i % |key|`, wrapping around the alphabet. */
  function Decipher(cypher: string, key: string): (r: string)
    requires IsUpperText(cypher) && IsUpperText(key) && |key| >= 1
    ensures |r| == |cypher| && IsUpperText(r)
    ensures forall i :: 0 <= i < |cypher| ==>
              LetterIndex(r[i]) == (LetterIndex(cypher[i]) - KeyShift(key[i % |key|])) % AlphabetSize
  {
    seq(|cypher|, i requires 0 <= i < |cypher| => UnshiftLetter(cypher[i], KeyShift(key[i % |key|])))
  }

  /** `plain` encrypted with the repeating `key`. */
  function Encipher(plain: string, key: string): (r: string)
    requires IsUpperText(plain) && IsUpperText(key) && |key| >= 1
  {
    seq(|plain|, i requires 0 <= i < |plain| => ShiftLetter(plain[i], KeyShift(key[i % |key|])))
  }

  /** Decrypting with the key that encrypted gives the plaintext back. */
  lemma DecipherEncipher(plain: string, key: string)
    requires IsUpperText(plain) && IsUpperText(key) && |key| >= 1
    ensures IsUpperText(Encipher(plain, key)) && Decipher(Encipher(plain, key), key) == plain
  {
    var cypher := Encipher(plain, key);
    forall i | 0 <= i < |plain| ensures Decipher(cypher, key)[i] == plain[i] {
      UnshiftShiftLetter(plain[i], KeyShift(key[i % |key|]));
    }
  }

  /** A key made only of 'A' leaves the text unchanged. */
  lemma DecipherWithAs(cypher: string, key: string)
    requires IsUpperText(cypher) && |key| >= 1
    requires forall m :: 0 <= m < |key| ==> key[m] == 'A'
    ensures Decipher(cypher, key) == cypher
  {
    forall i | 0 <= i < |cypher| ensures Decipher(cypher, key)[i] == cypher[i] {
      assert key[i % |key|] == 'A';
    }
  }

  /** Seen piece by piece, Vigenère decryption is a Caesar decryption: piece `j` of the
      decrypted text is piece `j` of the cyphertext moved back by the shift of `key[j]`. */
  lemma DecipherActsPerPiece(cypher: string, key: string, j: nat)
    requires IsUpperText(cypher) && IsUpperText(key) && j < |key|
    ensures IsUpperText(Piece(cypher, j, |key|))
    ensures Piece(Decipher(cypher, key), j, |key|) == Unshift(Piece(cypher, j, |key|), KeyShift(key[j]))
  {
    PieceOfCyclicUnshift(cypher, key, Decipher(cypher, key), j);
  }

  /** The per-piece argument for any text `plain` whose letter `i` is letter `i` of `cypher`
      moved back by the shift of `key[i % |key|]`. */
  lemma PieceOfCyclicUnshift(cypher: string, key: string, plain: string, j: nat)
    requires IsUpperText(cypher) && IsUpperText(key) && j < |key| && |plain| == |cypher|
    requires forall i :: 0 <= i < |cypher| ==> plain[i] == UnshiftLetter(cypher[i], KeyShift(key[i % |key|]))
    ensures Piece(plain, j, |key|) == Unshift(Piece(cypher, j, |key|), KeyShift(key[j]))
  {
    var L := |key|;
    var p := Piece(plain, j, L);
    var q := Unshift(Piece(cypher, j, L), KeyShift(key[j]));
    PieceLength(plain, j, L);
    PieceLength(cypher, j, L);
    forall m | 0 <= m < |p| ensures p[m] == q[m] {
      PieceAt(plain, j, L, m);
      PieceAt(cypher, j, L, m);
    }
  }

  /** Decrypting with a key letter that `crack` recorded for piece `j`, other than 'A', turns that
      piece into the closest to English of its decryptions by shifts 1 .. 25. */
  lemma DecipherWithShiftChoice(cypher: string, key: string, j: nat)
    requires IsUpperText(cypher) && IsUpperText(key) && j < |key|
    requires IsShiftChoice(Piece(cypher, j, |key|), key[j]) && key[j] != 'A'
    ensures ValidTable(EnglishFrequencies) && |Piece(Decipher(cypher, key), j, |key|)| >= 1
    ensures forall k :: 1 <= k < AlphabetSize ==>
              ChiSquare(Piece(Decipher(cypher, key), j, |key|), EnglishFrequencies) <= ShiftScore(Piece(cypher, j, |key|), k)
  {
    DecipherActsPerPiece(cypher, key, j);
    ShiftChoiceOfPiece(Piece(cypher, j, |key|), Piece(Decipher(cypher, key), j, |key|), key[j]);
  }

  /** The scoring argument for one piece, whatever text the decrypted piece came from. */
  lemma ShiftChoiceOfPiece(piece: string, plain: string, ch: char)
    requires IsShiftChoice(piece, ch) && ch != 'A'
    requires plain == Unshift(piece, KeyShift(ch))
    ensures ValidTable(EnglishFrequencies) && |plain| >= 1
    ensures forall k :: 1 <= k < AlphabetSize ==> ChiSquare(plain, EnglishFrequencies) <= ShiftScore(piece, k)
  {
    ShiftChoiceDecryption(piece, ch);
  }

  /** `vigenere_decrypt`: the result is grown one letter at a time while a counter `i` walks the
      key cyclically. A non-empty cyphertext with an empty key fails at `i % len(key)`. */
  method VigenereDecrypt(cypher: string, key: string) returns (r: Result<string>)
    requires IsUpperText(cypher) && IsUpperText(key)
    ensures r.Failure? <==> |cypher| >= 1 && |key| == 0
    ensures r.Failure? ==> r.error == ModuloByZero
    ensures r.Success? && |key| >= 1 ==> r.value == Decipher(cypher, key)
    ensures r.Success? ==> |r.value| == |cypher| && IsUpperText(r.value)
    ensures r.Success? ==> forall i :: 0 <= i < |cypher| ==>
              LetterIndex(r.value[i]) == (LetterIndex(cypher[i]) - KeyShift(key[i % |key|])) % AlphabetSize
  {
    var i := 0;
    var n := |key|;
    var result := "";
    while i < |cypher|
      invariant 0 <= i <= |cypher|
      invariant |result| == i
      invariant n == 0 ==> i == 0
      invariant n >= 1 ==> forall m :: 0 <= m < i ==> result[m] == UnshiftLetter(cypher[m], KeyShift(key[m % n]))
    {
      if n == 0 {
        return Failure(ModuloByZero);
      }
      var shift := cypher[i] as int - (key[i % n] as int - 'A' as int);
      if shift < 'A' as int {
        shift := shift + ('Z' as int - 'A' as int + 1);
      }
      result := result + [shift as char];
      i := i + 1;
    }
    r := Success(result);
  }
}
