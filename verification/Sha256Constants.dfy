/** The constant tables are the ones FIPS 180-4 prescribes: the first 32 fractional
    bits of square roots (section 5.3.3) and cube roots (section 4.2.2) of primes. */
module Sha256Constants {
  import opened Sha256Spec

  /** The first 64 primes. */
  const PRIME_ROWS: seq<seq<nat>> := [
    [2, 3, 5, 7, 11, 13, 17, 19],
    [23, 29, 31, 37, 41, 43, 47, 53],
    [59, 61, 67, 71, 73, 79, 83, 89],
    [97, 101, 103, 107, 109, 113, 127, 131],
    [137, 139, 149, 151, 157, 163, 167, 173],
    [179, 181, 191, 193, 197, 199, 211, 223],
    [227, 229, 233, 239, 241, 251, 257, 263],
    [269, 271, 277, 281, 283, 293, 307, 311]]

  const SCALE: nat := 0x1_0000_0000

  lemma RowLength(r: nat)
    requires r < 8
    ensures |PRIME_ROWS[r]| == 8
  {
  }

  function Prime(t: nat): nat
    requires t < 64
  {
    RowLength(t / 8);
    PRIME_ROWS[t / 8][t % 8]
  }

  /** `fraction / 2^32` is the fractional part of the square root of p, truncated. */
  ghost predicate SquareRootBits(p: nat, whole: nat, fraction: nat) {
    var root := whole * SCALE + fraction;
    fraction < SCALE && root * root <= p * SCALE * SCALE < (root + 1) * (root + 1)
  }

  ghost predicate CubeRootBits(p: nat, whole: nat, fraction: nat) {
    var root := whole * SCALE + fraction;
    fraction < SCALE && root * root * root <= p * SCALE * SCALE * SCALE < (root + 1) * (root + 1) * (root + 1)
  }

  function CubeRoot(p: nat): nat {
    if p < 8 then 1 else if p < 27 then 2 else if p < 64 then 3 else if p < 125 then 4 else if p < 216 then 5 else 6
  }

  function SquareRoot(p: nat): nat {
    if p < 4 then 1 else if p < 9 then 2 else if p < 16 then 3 else 4
  }

  ghost predicate SquareEntry(i: nat)
    requires i < 8
  {
    RowLength(0);
    SquareRootBits(PRIME_ROWS[0][i], SquareRoot(PRIME_ROWS[0][i]), H0[i] as nat)
  }

  lemma SquareEntries01()
    ensures SquareEntry(0) && SquareEntry(1)
  {
  }

  lemma SquareEntries23()
    ensures SquareEntry(2) && SquareEntry(3)
  {
  }

  lemma SquareEntries45()
    ensures SquareEntry(4) && SquareEntry(5)
  {
  }

  lemma SquareEntries67()
    ensures SquareEntry(6) && SquareEntry(7)
  {
  }

  lemma InitialHashIsSquareRoots(i: nat)
    requires i < 8
    ensures SquareRootBits(Prime(i), SquareRoot(Prime(i)), H0[i] as nat)
  {
    hide SquareRootBits, SquareRoot;
    SquareEntries01();
    SquareEntries23();
    SquareEntries45();
    SquareEntries67();
    assert SquareEntry(i);
  }

  ghost predicate CubeEntry(r: nat, c: nat)
    requires r < 8 && c < 8
  {
    RowLength(r);
    var p := PRIME_ROWS[r][c];
    CubeRootBits(p, CubeRoot(p), K_ROWS[r][c] as nat)
  }

  lemma CubeRow0(c: nat)
    requires c < 8
    ensures CubeEntry(0, c)
  {
  }

  lemma CubeRow1(c: nat)
    requires c < 8
    ensures CubeEntry(1, c)
  {
  }

  lemma CubeRow2(c: nat)
    requires c < 8
    ensures CubeEntry(2, c)
  {
  }

  lemma CubeRow3(c: nat)
    requires c < 8
    ensures CubeEntry(3, c)
  {
  }

  lemma CubeRow4(c: nat)
    requires c < 8
    ensures CubeEntry(4, c)
  {
  }

  lemma CubeRow5(c: nat)
    requires c < 8
    ensures CubeEntry(5, c)
  {
  }

  lemma CubeRow6(c: nat)
    requires c < 8
    ensures CubeEntry(6, c)
  {
  }

  lemma CubeRow7(c: nat)
    requires c < 8
    ensures CubeEntry(7, c)
  {
  }

  lemma RoundConstantsAreCubeRoots(t: nat)
    requires t < 64
    ensures CubeRootBits(Prime(t), CubeRoot(Prime(t)), K(t) as nat)
  {
    hide CubeRootBits;
    var c := t % 8;
    assert CubeEntry(t / 8, c) by {
      match t / 8
      case 0 => CubeRow0(c);
      case 1 => CubeRow1(c);
      case 2 => CubeRow2(c);
      case 3 => CubeRow3(c);
      case 4 => CubeRow4(c);
      case 5 => CubeRow5(c);
      case 6 => CubeRow6(c);
      case _ => CubeRow7(c);
    }
  }
}
