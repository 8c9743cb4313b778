/**
 * The interleaved split shared by `__determine_key_length` and `crack`:
 * the character at position `p` goes to piece `p % L`.
 */
module Interleave {
  import opened Letters

  /** Piece `j` of `s` for key length `L`: the characters of `s` at the
      positions congruent to `j` modulo `L`, in their original order. It is no longer than `s`,
      and upper-case when `s` is. */
  function Piece(s: string, j: nat, L: nat): (p: string)
    requires j < L
    ensures |p| <= |s|
    ensures IsUpperText(s) ==> IsUpperText(p)
  {
    if s == [] then []
    else Piece(s[..|s| - 1], j, L) + (if (|s| - 1) % L == j then [s[|s| - 1]] else [])
  }

  /** The `L` pieces in offset order. */
  function Pieces(s: string, L: nat): (ps: seq<string>)
    ensures |ps| == L
  {
    seq(L, j requires 0 <= j < L => Piece(s, j, L))
  }

  /** Position in the text of element `m` of piece `j`. */
  function Origin(j: nat, m: nat, L: nat): (p: nat) {
    j + m * L
  }

  /** Sum of the lengths of pieces `0 .. k - 1`. */
  function LengthSum(s: string, L: nat, k: nat): (total: nat)
    requires k <= L
  {
    if k == 0 then 0 else LengthSum(s, L, k - 1) + |Piece(s, k - 1, L)|
  }

  // Division facts; Dafny's `/` and `%` agree with Python's here since every operand is non-negative.

  lemma MulAtLeast(d: int, L: int)
    requires d >= 1 && L >= 1
    ensures d * L >= L
  {
  }

  /** Quotient and remainder are determined by `x == q * L + r` with `0 <= r < L`. */
  lemma DivUnique(x: int, L: int, q: int, r: int)
    requires L >= 1 && 0 <= r < L && x == q * L + r
    ensures x / L == q && x % L == r
  {
    var q', r' := x / L, x % L;
    assert x == q' * L + r' && 0 <= r' < L;
    assert (q - q') * L == r' - r by {
      assert q * L - q' * L == (q - q') * L;
    }
    if q > q' {
      MulAtLeast(q - q', L);
    } else if q' > q {
      MulAtLeast(q' - q, L);
    }
  }

  lemma MulMonotone(a: int, b: int, L: int)
    requires a <= b && L >= 1
    ensures a * L <= b * L
  {
    assert b * L - a * L == (b - a) * L;
  }

  /** A lower bound `q * L <= x` carries over to the quotient. */
  lemma DivLowerBound(x: int, L: int, q: int)
    requires L >= 1 && q * L <= x
    ensures q <= x / L
  {
    var d := x / L;
    DivUnique(x, L, d, x % L);
    if d < q {
      MulMonotone(d + 1, q, L);
    }
  }

  lemma PieceLengthStep(n: nat, j: nat, L: nat)
    requires j < L
    ensures (n + 1 - j + L - 1) / L == (n - j + L - 1) / L + (if n % L == j then 1 else 0)
  {
    var q, r := n / L, n % L;
    assert n == q * L + r;
    if r == j {
      DivUnique(n - j + L - 1, L, q, L - 1);
      DivUnique(n + 1 - j + L - 1, L, q + 1, 0);
    } else if r > j {
      DivUnique(n - j + L - 1, L, q + 1, r - j - 1);
      DivUnique(n + 1 - j + L - 1, L, q + 1, r - j);
    } else {
      DivUnique(n - j + L - 1, L, q, L - 1 - (j - r));
      DivUnique(n + 1 - j + L - 1, L, q, L - (j - r));
    }
  }

  /** Piece `j` holds `(N - j + L - 1) / L` characters. */
  lemma {:induction false} PieceLength(s: string, j: nat, L: nat)
    requires j < L
    ensures |Piece(s, j, L)| == (|s| - j + L - 1) / L
  {
    if s == [] {
      DivUnique(L - 1 - j, L, 0, L - 1 - j);
    } else {
      PieceLength(s[..|s| - 1], j, L);
      PieceLengthStep(|s| - 1, j, L);
    }
  }

  /** Element `m` of piece `j` is the character at position `j + m * L`. */
  lemma {:induction false} PieceAt(s: string, j: nat, L: nat, m: nat)
    requires j < L && m < |Piece(s, j, L)|
    ensures j + m * L < |s| && Piece(s, j, L)[m] == s[j + m * L]
    ensures (j + m * L) % L == j && (j + m * L) / L == m
  {
    DivUnique(j + m * L, L, m, j);
    var n := |s| - 1;
    var init := s[..n];
    assert Piece(s, j, L) == Piece(init, j, L) + (if n % L == j then [s[n]] else []);
    PieceLength(init, j, L);
    if m < |Piece(init, j, L)| {
      PieceAt(init, j, L, m);
    } else {
      // the element is the one appended for the last position
      assert n % L == j;
      PositionArith(|s|, L, n);
      DivUnique(n, L, n / L, j);
      DivUnique(n - j + L - 1, L, n / L, L - 1);
      assert m == n / L;
    }
  }

  /** Position `p` lands in piece `p % L` at index `p / L`. With `PieceAt`, which puts element `m` of
      piece `j` back at position `j + m * L`, this makes the split a one-to-one map of the positions. */
  lemma PositionInPiece(s: string, L: nat, p: nat)
    requires L >= 1 && p < |s|
    ensures p / L < |Piece(s, p % L, L)| && Piece(s, p % L, L)[p / L] == s[p]
  {
    var j, m := p % L, p / L;
    PositionArith(|s|, L, p);
    PieceLength(s, j, L);
    PieceAt(s, j, L, m);
  }

  lemma PositionArith(n: int, L: int, p: int)
    requires L >= 1 && 0 <= p < n
    ensures 0 <= p % L < L && 0 <= p / L < (n - p % L + L - 1) / L && p % L + p / L * L == p
  {
    var q, r := p / L, p % L;
    DivUnique(p, L, q, r);
    assert (q + 1) * L <= n - r + L - 1 by {
      assert (q + 1) * L == q * L + L;
    }
    DivLowerBound(n - r + L - 1, L, q + 1);
  }

  /** Appending a character to `s` extends exactly piece `|s| % L`. */
  lemma {:induction false} LengthSumStep(s: string, L: nat, k: nat)
    requires s != [] && 1 <= L && k <= L
    ensures LengthSum(s, L, k) == LengthSum(s[..|s| - 1], L, k) + (if (|s| - 1) % L < k then 1 else 0)
  {
    if k > 0 {
      LengthSumStep(s, L, k - 1);
    }
  }

  lemma {:induction false} LengthSumOfEmpty(L: nat, k: nat)
    requires k <= L
    ensures LengthSum([], L, k) == 0
  {
    if k > 0 {
      LengthSumOfEmpty(L, k - 1);
    }
  }

  /** The piece lengths add up to the length of the text: no position is lost or duplicated. */
  lemma {:induction false} PiecesCoverText(s: string, L: nat)
    requires L >= 1
    ensures LengthSum(s, L, L) == |s|
  {
    if s == [] {
      LengthSumOfEmpty(L, L);
    } else {
      LengthSumStep(s, L, L);
      PiecesCoverText(s[..|s| - 1], L);
    }
  }

  /** Some piece is shorter than 2 characters exactly when the text is shorter than `2 * L`. */
  lemma ShortPieceIff(s: string, L: nat)
    requires L >= 1
    ensures (exists j :: 0 <= j < L && |Pieces(s, L)[j]| < 2) <==> |s| < 2 * L
  {
    PieceLength(s, L - 1, L);
    assert |s| - (L - 1) + L - 1 == |s|;
    if |s| < 2 * L {
      if |s| < L {
        DivUnique(|s|, L, 0, |s|);
      } else {
        DivUnique(|s|, L, 1, |s| - L);
      }
      assert |Pieces(s, L)[L - 1]| < 2;
    } else {
      forall j | 0 <= j < L ensures |Pieces(s, L)[j]| >= 2 {
        PieceLength(s, j, L);
        DivLowerBound(|s| - j + L - 1, L, 2);
      }
    }
  }

  /** Piece `j` of the split holds `(N - j + L - 1) / L` characters. */
  lemma PiecesLengths(s: string, L: nat)
    requires L >= 1
    ensures forall j :: 0 <= j < L ==> |Pieces(s, L)[j]| == (|s| - j + L - 1) / L
  {
    forall j | 0 <= j < L ensures |Pieces(s, L)[j]| == (|s| - j + L - 1) / L {
      PieceLength(s, j, L);
    }
  }

  /** Element `m` of piece `j` of the split is the character at position `j + m * L`. */
  lemma PiecesElements(s: string, L: nat)
    requires L >= 1
    ensures forall j: nat, m: nat :: j < L && m < |Pieces(s, L)[j]| ==>
              Origin(j, m, L) < |s| && Pieces(s, L)[j][m] == s[Origin(j, m, L)]
  {
    var ps := Pieces(s, L);
    forall j: nat, m: nat | j < L && m < |ps[j]|
      ensures Origin(j, m, L) < |s| && ps[j][m] == s[Origin(j, m, L)]
    {
      PieceAt(s, j, L, m);
    }
  }

  /** The split loop: each character is appended to the piece of its position. */
  method Split(s: string, L: nat) returns (pieces: seq<string>)
    requires L >= 1
    ensures pieces == Pieces(s, L)
    ensures forall j :: 0 <= j < L ==> |pieces[j]| == (|s| - j + L - 1) / L
    ensures forall j: nat, m: nat :: j < L && m < |pieces[j]| ==> Origin(j, m, L) < |s| && pieces[j][m] == s[Origin(j, m, L)]
  {
    pieces := seq(L, _ => []);
    for i := 0 to |s|
      invariant |pieces| == L
      invariant forall j :: 0 <= j < L ==> pieces[j] == Piece(s[..i], j, L)
    {
      assert s[..i + 1][..i] == s[..i];
      pieces := pieces[i % L := pieces[i % L] + [s[i]]];
    }
    assert s[..|s|] == s;
    PiecesLengths(s, L);
    PiecesElements(s, L);
  }
}
