/** Where the tables of SHA-256 come from (sections 4.2.2 and 5.3.3 of FIPS 180-4): the first 32 bits of the fractional
    parts of the cube roots of the first 64 primes, and of the square roots of the first eight. */
module Sha256Tables {
  import opened Sha256Spec

  /** The first 64 primes, eight to a row. */
  function PrimeRow(row: nat): (r: seq<nat>)
    requires row < 8
    ensures |r| == 8
  {
    if row == 0 then [2, 3, 5, 7, 11, 13, 17, 19]
    else if row == 1 then [23, 29, 31, 37, 41, 43, 47, 53]
    else if row == 2 then [59, 61, 67, 71, 73, 79, 83, 89]
    else if row == 3 then [97, 101, 103, 107, 109, 113, 127, 131]
    else if row == 4 then [137, 139, 149, 151, 157, 163, 167, 173]
    else if row == 5 then [179, 181, 191, 193, 197, 199, 211, 223]
    else if row == 6 then [227, 229, 233, 239, 241, 251, 257, 263]
    else [269, 271, 277, 281, 283, 293, 307, 311]
  }

  /** The rows list their numbers in increasing order. */
  lemma PrimesAscend(row: nat, col: nat)
    requires row < 8 && col < 8
    ensures col < 7 ==> PrimeRow(row)[col] < PrimeRow(row)[col + 1]
    ensures row < 7 ==> PrimeRow(row)[7] < PrimeRow(row + 1)[0]
  {
  }

  // ----- The primes -----

  predicate IsProduct(n: nat, a: nat, b: nat) {
    a >= 2 && b >= 2 && a * b == n
  }

  ghost predicate IsPrime(n: nat) {
    n >= 2 && forall a: nat, b: nat :: !IsProduct(n, a, b)
  }

  predicate HasSmallFactor(n: nat) {
    n % 2 == 0 || n % 3 == 0 || n % 5 == 0 || n % 7 == 0 || n % 11 == 0 || n % 13 == 0 || n % 17 == 0
  }

  lemma ProductGrows(a: nat, b: nat, c: nat, d: nat)
    requires a >= c && b >= d
    ensures a * b >= c * d
  {
    assert a * b == c * d + c * (b - d) + (a - c) * b;
  }

  lemma MultipleHasSmallFactor(n: nat, t: nat)
    requires n == 2 * t || n == 3 * t || n == 5 * t || n == 7 * t || n == 11 * t || n == 13 * t || n == 17 * t
    ensures HasSmallFactor(n)
  {
    var p := if n == 2 * t then 2 else if n == 3 * t then 3 else if n == 5 * t then 5 else if n == 7 * t then 7
      else if n == 11 * t then 11 else if n == 13 * t then 13 else 17;
    RemainderOfMultiple(n, p, t);
  }

  lemma RemainderOfMultiple(n: nat, p: nat, t: nat)
    requires n == p * t && p > 0
    ensures n % p == 0
  {
    var q, r := n / p, n % p;
    assert n == p * q + r;
    if t > q {
      ProductGrows(p, t, p, q + 1);
    } else if t < q {
      ProductGrows(p, q, p, t + 1);
    }
  }

  lemma Associates(p: nat, k: nat, b: nat)
    ensures (p * k) * b == p * (k * b)
  {
  }

  lemma FactorOf(a: nat) returns (p: nat, k: nat)
    requires 2 <= a < 18
    ensures p * k == a && (p == 2 || p == 3 || p == 5 || p == 7 || p == 11 || p == 13 || p == 17)
  {
    p := if a % 2 == 0 then 2 else if a % 3 == 0 then 3 else if a % 5 == 0 then 5 else a;
    k := a / p;
  }

  /** A composite number below 18 times 18 has a factor up to 17. */
  lemma CompositeHasSmallFactor(n: nat, a: nat, b: nat)
    requires IsProduct(n, a, b) && a <= b && n < 324
    ensures HasSmallFactor(n)
  {
    if a >= 18 {
      ProductGrows(a, b, 18, 18);
    } else {
      var p, k := FactorOf(a);
      Associates(p, k, b);
      MultipleHasSmallFactor(n, k * b);
    }
  }

  /** The row in whose range a number lies. */
  function RowOf(n: nat): (row: nat)
    ensures row < 8
  {
    if n <= 19 then 0 else if n <= 53 then 1 else if n <= 89 then 2 else if n <= 131 then 3
    else if n <= 173 then 4 else if n <= 223 then 5 else if n <= 263 then 6 else 7
  }

  /** What is left of 30 numbers when the multiples of 2, 3 and 5 are struck out. */
  predicate IsSpoke(r: nat) {
    r == 1 || r == 7 || r == 11 || r == 13 || r == 17 || r == 19 || r == 23 || r == 29
  }

  lemma OnSpoke(n: nat)
    requires n % 2 != 0 && n % 3 != 0 && n % 5 != 0
    ensures IsSpoke(n % 30)
  {
    var q, r := n / 30, n % 30;
    if r % 2 == 0 {
      RemainderOfMultiple(n, 2, 15 * q + r / 2);
    } else if r % 3 == 0 {
      RemainderOfMultiple(n, 3, 10 * q + r / 3);
    } else if r % 5 == 0 {
      RemainderOfMultiple(n, 5, 6 * q + r / 5);
    }
    SpokeBelowThirty(r);
  }

  lemma SpokeBelowThirty(r: nat)
    requires r < 30 && r % 2 != 0 && r % 3 != 0 && r % 5 != 0
    ensures IsSpoke(r)
  {
  }

  lemma FirstTurns(n: nat, turn: nat, r: nat)
    requires n >= 20 && turn < 5 && IsSpoke(r) && n == 30 * turn + r && !HasSmallFactor(n)
    ensures n in PrimeRow(RowOf(n))
  {
  }

  lemma MiddleTurns(n: nat, turn: nat, r: nat)
    requires 5 <= turn < 8 && IsSpoke(r) && n == 30 * turn + r && !HasSmallFactor(n)
    ensures n in PrimeRow(RowOf(n))
  {
  }

  lemma LastTurns(n: nat, turn: nat, r: nat)
    requires n <= 311 && turn >= 8 && IsSpoke(r) && n == 30 * turn + r && !HasSmallFactor(n)
    ensures n in PrimeRow(RowOf(n))
  {
  }

  predicate HaveNoSmallFactor(row: seq<nat>)
    requires |row| == 8
  {
    && !HasSmallFactor(row[0]) && !HasSmallFactor(row[1]) && !HasSmallFactor(row[2]) && !HasSmallFactor(row[3])
    && !HasSmallFactor(row[4]) && !HasSmallFactor(row[5]) && !HasSmallFactor(row[6]) && !HasSmallFactor(row[7])
  }

  lemma RowsHaveNoSmallFactor(row: nat)
    requires 1 <= row < 8
    ensures HaveNoSmallFactor(PrimeRow(row))
  {
  }

  /** Sifting the numbers up to 311 by the primes up to 17. */
  lemma Sieve(n: nat)
    requires 20 <= n <= 311
    ensures n in PrimeRow(RowOf(n)) <==> !HasSmallFactor(n)
  {
    if n in PrimeRow(RowOf(n)) {
      RowsHaveNoSmallFactor(RowOf(n));
    } else if !HasSmallFactor(n) {
      OnSpoke(n);
      if n < 150 {
        FirstTurns(n, n / 30, n % 30);
      } else if n < 240 {
        MiddleTurns(n, n / 30, n % 30);
      } else {
        LastTurns(n, n / 30, n % 30);
      }
    }
  }

  lemma FactorIsProduct(n: nat, p: nat)
    requires n > p >= 2 && n % p == 0
    ensures IsProduct(n, p, n / p)
  {
    var q := n / p;
    assert n == p * q;
    if q < 2 {
      ProductGrows(p, 1, p, q);
    }
  }

  lemma LargerPrimes(n: nat)
    requires 20 <= n <= 311
    ensures n in PrimeRow(RowOf(n)) <==> IsPrime(n)
  {
    Sieve(n);
    if HasSmallFactor(n) {
      var p := if n % 2 == 0 then 2 else if n % 3 == 0 then 3 else if n % 5 == 0 then 5 else if n % 7 == 0 then 7
        else if n % 11 == 0 then 11 else if n % 13 == 0 then 13 else 17;
      FactorIsProduct(n, p);
    } else {
      forall a: nat, b: nat ensures !IsProduct(n, a, b) {
        if IsProduct(n, a, b) && a <= b {
          CompositeHasSmallFactor(n, a, b);
        } else if IsProduct(n, a, b) {
          CompositeHasSmallFactor(n, b, a);
        }
      }
    }
  }

  lemma PrimesBelowTwenty(n: nat)
    requires n < 20
    ensures n in PrimeRow(0) <==> IsPrime(n)
  {
    if n in PrimeRow(0) {
      forall a: nat, b: nat ensures !IsProduct(n, a, b) {
        if IsProduct(n, a, b) {
          SmallProduct(n, a, b);
        }
      }
    } else if n >= 2 {
      assert if n % 2 == 0 then IsProduct(n, 2, n / 2) else IsProduct(n, 3, n / 3);
    }
  }

  lemma SmallProduct(n: nat, a: nat, b: nat)
    requires n < 20 && IsProduct(n, a, b)
    ensures n !in PrimeRow(0)
  {
    if a >= 5 && b >= 5 {
      ProductGrows(a, b, 5, 5);
    } else {
      var c, d := if a <= 4 then a else b, if a <= 4 then b else a;
      assert c * d == n && n == if c == 2 then 2 * d else if c == 3 then 3 * d else 4 * d;
    }
  }

  /** The rows hold exactly the primes up to 311. */
  lemma PrimesAreListed(n: nat)
    requires n <= 311
    ensures n in PrimeRow(RowOf(n)) <==> IsPrime(n)
  {
    if n < 20 {
      PrimesBelowTwenty(n);
    } else {
      LargerPrimes(n);
    }
  }

  // ----- The roots -----

  const TWO_TO_THE_32 := 0x1_0000_0000

  /** k is made of the first 32 bits behind the point of the cube root of p. */
  predicate IsCubeRoot(p: nat, k: nat) {
    var root := CubeFloor(p) * TWO_TO_THE_32 + k;
    && k < TWO_TO_THE_32
    && root * root * root <= p * TWO_TO_THE_32 * TWO_TO_THE_32 * TWO_TO_THE_32 < (root + 1) * (root + 1) * (root + 1)
  }

  /** What stands before the point, for numbers below 343. */
  function CubeFloor(p: nat): nat {
    if p < 8 then 1 else if p < 27 then 2 else if p < 64 then 3 else if p < 125 then 4 else if p < 216 then 5 else 6
  }

  predicate IsSquareRoot(p: nat, k: nat) {
    var root := (if p < 4 then 1 else if p < 9 then 2 else if p < 16 then 3 else 4) * TWO_TO_THE_32 + k;
    k < TWO_TO_THE_32 && root * root <= p * TWO_TO_THE_32 * TWO_TO_THE_32 < (root + 1) * (root + 1)
  }

  predicate AreCubeRoots(primes: seq<nat>, row: seq<Word>) {
    && |primes| == |row| == 8
    && IsCubeRoot(primes[0], row[0] as nat) && IsCubeRoot(primes[1], row[1] as nat)
    && IsCubeRoot(primes[2], row[2] as nat) && IsCubeRoot(primes[3], row[3] as nat)
    && IsCubeRoot(primes[4], row[4] as nat) && IsCubeRoot(primes[5], row[5] as nat)
    && IsCubeRoot(primes[6], row[6] as nat) && IsCubeRoot(primes[7], row[7] as nat)
  }

  lemma Row0()
    ensures AreCubeRoots(PrimeRow(0), RoundConstantRow(0))
  {
  }

  lemma Row1()
    ensures AreCubeRoots(PrimeRow(1), RoundConstantRow(1))
  {
  }

  lemma Row2()
    ensures AreCubeRoots(PrimeRow(2), RoundConstantRow(2))
  {
  }

  lemma Row3()
    ensures AreCubeRoots(PrimeRow(3), RoundConstantRow(3))
  {
  }

  lemma Row4()
    ensures AreCubeRoots(PrimeRow(4), RoundConstantRow(4))
  {
  }

  lemma Row5()
    ensures AreCubeRoots(PrimeRow(5), RoundConstantRow(5))
  {
  }

  lemma Row6()
    ensures AreCubeRoots(PrimeRow(6), RoundConstantRow(6))
  {
  }

  lemma Row7()
    ensures AreCubeRoots(PrimeRow(7), RoundConstantRow(7))
  {
  }

  /** The round constants are the cube roots of the 64 primes, in order. */
  lemma RoundConstantsAreCubeRoots(row: nat)
    requires row < 8
    ensures AreCubeRoots(PrimeRow(row), RoundConstantRow(row))
    ensures forall col: nat :: col < 8 ==> K()[8 * row + col] == RoundConstantRow(row)[col]
  {
    if row == 0 {
      Row0();
    } else if row == 1 {
      Row1();
    } else if row == 2 {
      Row2();
    } else if row == 3 {
      Row3();
    } else if row == 4 {
      Row4();
    } else if row == 5 {
      Row5();
    } else if row == 6 {
      Row6();
    } else {
      Row7();
    }
    forall col: nat | col < 8 ensures K()[8 * row + col] == RoundConstantRow(row)[col] {
      ConstantInRow(row, col);
    }
  }

  lemma ConstantInRow(row: nat, col: nat)
    requires row < 8 && col < 8
    ensures K()[8 * row + col] == RoundConstantRow(row)[col]
  {
    assert (8 * row + col) / 8 == row && (8 * row + col) % 8 == col;
  }

  /** The initial hash value is that of the square roots of the first eight. */
  lemma InitialValueIsSquareRoots()
    ensures IsSquareRoot(2, INITIAL[0] as nat) && IsSquareRoot(3, INITIAL[1] as nat)
    ensures IsSquareRoot(5, INITIAL[2] as nat) && IsSquareRoot(7, INITIAL[3] as nat)
    ensures IsSquareRoot(11, INITIAL[4] as nat) && IsSquareRoot(13, INITIAL[5] as nat)
    ensures IsSquareRoot(17, INITIAL[6] as nat) && IsSquareRoot(19, INITIAL[7] as nat)
  {
  }
}
