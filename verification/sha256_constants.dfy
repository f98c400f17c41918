/**
 * The constants of SHA-256 are what sections 4.2.2 and 5.3.3 of FIPS 180-4 say they are: the first
 * 32 bits of the fractional parts of the cube roots of the first 64 primes, and of the square roots
 * of the first eight.
 */
module Sha256Constants {
  import opened Base
  import opened Words
  import opened BlockIteration
  import opened Sha256Spec

  // ---------------------------------------------------------------- primes

  ghost predicate IsPrime(n: nat) {
    n >= 2 && forall d :: 2 <= d < n ==> n % d != 0
  }

  // The primes below the square root of 361, which are enough to tell the primes below 361.
  predicate Sieved(n: nat) {
    && (n % 2 != 0 || n == 2) && (n % 3 != 0 || n == 3) && (n % 5 != 0 || n == 5) && (n % 7 != 0 || n == 7)
    && (n % 11 != 0 || n == 11) && (n % 13 != 0 || n == 13) && (n % 17 != 0 || n == 17)
  }

  lemma SieveTells(n: nat)
    requires 2 <= n < 361
    ensures IsPrime(n) <==> Sieved(n)
  {
    if Sieved(n) {
      forall d | 2 <= d < n ensures n % d != 0 {
        if n % d == 0 {
          Cofactor(n, d);
        }
      }
    }
  }

  // A proper divisor of a number below 361 comes with one below 19, and that one with a prime.
  lemma Cofactor(n: nat, d: nat)
    requires 2 <= d < n < 361 && n % d == 0
    ensures !Sieved(n)
  {
    var e := n / d;
    assert n == d * e;
    Sizes(n, d, e);
    if d < 19 {
      SmallDivisor(n, d, e);
    } else {
      assert n == e * d;
      SmallDivisor(n, e, d);
    }
    hide Sieved;
  }

  lemma Sizes(n: nat, d: nat, e: nat)
    requires 2 <= d < n < 361 && n == d * e
    ensures e >= 2 && (d < 19 || e < 19)
  {
    Grows(d, e, if e < 2 then 1 else 19);
  }

  lemma Grows(d: nat, e: nat, f: nat)
    ensures e >= f ==> d * e >= d * f
    ensures e <= f ==> d * e <= d * f
  {
    assert d * (e - f) == d * e - d * f;
    if e >= f {
      assert d * (e - f) >= 0;
    } else {
      assert d * (f - e) >= 0;
    }
  }

  lemma SmallDivisor(n: nat, d: nat, e: nat)
    requires 2 <= d < 19 && e >= 2 && n == d * e && n < 361
    ensures !Sieved(n)
  {
    match d
    case 4 => Multiple(n, 2, 2 * e);
    case 6 => Multiple(n, 2, 3 * e);
    case 8 => Multiple(n, 2, 4 * e);
    case 9 => Multiple(n, 3, 3 * e);
    case 10 => Multiple(n, 2, 5 * e);
    case 12 => Multiple(n, 2, 6 * e);
    case 14 => Multiple(n, 2, 7 * e);
    case 15 => Multiple(n, 3, 5 * e);
    case 16 => Multiple(n, 2, 8 * e);
    case 18 => Multiple(n, 2, 9 * e);
    case _ => Multiple(n, d, e);
  }

  // A multiple of one of the seven primes.
  lemma Multiple(n: nat, d: nat, e: nat)
    requires d in {2, 3, 5, 7, 11, 13, 17} && e >= 2 && n == d * e
    ensures !Sieved(n)
  {
    Remainder(n, d, e);
  }

  lemma Remainder(n: nat, d: nat, e: nat)
    requires d > 0 && e >= 2 && n == d * e
    ensures n % d == 0 && n != d
  {
    Grows(d, 2, e);
    Quotient(n, d, e, n / d, n % d);
  }

  // Only one multiple of d is at most n and less than d away.
  lemma Quotient(n: nat, d: nat, e: nat, q: nat, r: nat)
    requires n == d * e && n == d * q + r && r < d
    ensures r == 0
  {
    if q < e {
      Grows(d, q + 1, e);
    } else {
      Grows(d, e, q);
    }
  }

  /** q is the next prime after p. */
  ghost predicate NextPrime(p: nat, q: nat) {
    p < q && IsPrime(q) && forall n :: p < n < q ==> !IsPrime(n)
  }

  // None of the numbers between p and q, at most 13, passes the sieve.
  predicate Gap(p: nat, q: nat) {
    && q <= p + 14
    && Out(p + 1, q) && Out(p + 2, q) && Out(p + 3, q) && Out(p + 4, q) && Out(p + 5, q) && Out(p + 6, q)
    && Out(p + 7, q) && Out(p + 8, q) && Out(p + 9, q) && Out(p + 10, q) && Out(p + 11, q) && Out(p + 12, q)
    && Out(p + 13, q)
  }

  predicate Out(n: nat, q: nat) {
    n >= q || !Sieved(n)
  }

  lemma Next(p: nat, q: nat)
    requires 2 <= p < q < 361 && Sieved(q) && Gap(p, q)
    ensures NextPrime(p, q)
  {
    hide IsPrime, Sieved;
    SieveTells(q);
    forall n | p < n < q ensures !IsPrime(n) {
      SieveTells(n);
    }
  }

  function PrimeRow(r: nat): (row: seq<nat>)
    requires r < 8
    ensures |row| == 8
  {
    match r
    case 0 => [2, 3, 5, 7, 11, 13, 17, 19]
    case 1 => [23, 29, 31, 37, 41, 43, 47, 53]
    case 2 => [59, 61, 67, 71, 73, 79, 83, 89]
    case 3 => [97, 101, 103, 107, 109, 113, 127, 131]
    case 4 => [137, 139, 149, 151, 157, 163, 167, 173]
    case 5 => [179, 181, 191, 193, 197, 199, 211, 223]
    case 6 => [227, 229, 233, 239, 241, 251, 257, 263]
    case _ => [269, 271, 277, 281, 283, 293, 307, 311]
  }

  function Prime(i: nat): nat
    requires i < 64
  {
    PrimeRow(i / 8)[i % 8]
  }

  // ---------------------------------------------------------------- roots

  // c / 2^32 is the root of p, cut off after 32 bits behind the point.
  predicate CubeRoot(p: nat, c: nat) {
    c * c * c <= p * 0x1_0000_0000_0000_0000_0000_0000 < (c + 1) * (c + 1) * (c + 1)
  }

  predicate SquareRoot(p: nat, c: nat) {
    c * c <= p * 0x1_0000_0000_0000_0000 < (c + 1) * (c + 1)
  }

  // The first 32 bits of the fractional part of the root.
  ghost predicate FractionOfCubeRoot(p: nat, k: word) {
    exists c: nat :: CubeRoot(p, c) && c % 0x1_0000_0000 == k
  }

  ghost predicate FractionOfSquareRoot(p: nat, k: word) {
    exists c: nat :: SquareRoot(p, c) && c % 0x1_0000_0000 == k
  }

  lemma Cube(p: nat, c: nat, k: word)
    requires CubeRoot(p, c) && c % 0x1_0000_0000 == k
    ensures FractionOfCubeRoot(p, k)
  {
  }

  lemma Square(p: nat, c: nat, k: word)
    requires SquareRoot(p, c) && c % 0x1_0000_0000 == k
    ensures FractionOfSquareRoot(p, k)
  {
  }

  // ---------------------------------------------------------------- the tables

  // What the standard says of the i-th constant.
  ghost predicate Standard(i: nat, k: word)
    requires i < 64
  {
    && (if i == 0 then Prime(0) == 2 && IsPrime(2) else NextPrime(Prime(i - 1), Prime(i)))
    && FractionOfCubeRoot(Prime(i), k)
  }

  lemma {:induction false} KRowsAt(n: nat, i: nat)
    requires n <= 8 && i < 8 * n
    ensures i / 8 < n && KRows(n)[i] == KRow(i / 8)[i % 8]
  {
    hide KRow;
    if i < 8 * (n - 1) {
      KRowsAt(n - 1, i);
    } else {
      assert i / 8 == n - 1 && i % 8 == i - 8 * (n - 1);
    }
  }

  /**
   * K[i] holds the first 32 bits after the point of the cube root of the i-th prime: the first is
   * 2, and each is the next prime after the one before it.
   */
  lemma KIsStandard(i: nat)
    requires i < 64
    ensures |K| == 64 && Standard(i, K[i])
  {
    hide Standard, KRow;
    KRowsAt(8, i);
    match i / 8
    case 0 => Row0(i);
    case 1 => Row1(i);
    case 2 => Row2(i);
    case 3 => Row3(i);
    case 4 => Row4(i);
    case 5 => Row5(i);
    case 6 => Row6(i);
    case _ => Row7(i);
  }

  // One entry of both tables, given as numbers.
  lemma Entry(i: nat, p: nat, q: nat, c: nat, k: word)
    requires 0 < i < 64 && Prime(i - 1) == p && Prime(i) == q && 2 <= p < q < 361
    requires Sieved(q) && Gap(p, q) && CubeRoot(q, c) && c % 0x1_0000_0000 == k
    ensures Standard(i, k)
  {
    Next(p, q);
    Cube(q, c, k);
    hide Prime, NextPrime, Gap, Sieved, CubeRoot, IsPrime, FractionOfCubeRoot;
  }

  lemma Row0(i: nat)
    requires i / 8 == 0
    ensures i < 64 && Standard(i, KRow(0)[i % 8])
  {
    hide Standard;
    match i % 8
    case 0 => FirstEntry(i);
    case 1 => Entry(i, 2, 3, 0x1_71374491, 0x71374491);
    case 2 => Entry(i, 3, 5, 0x1_b5c0fbcf, 0xb5c0fbcf);
    case 3 => Entry(i, 5, 7, 0x1_e9b5dba5, 0xe9b5dba5);
    case 4 => Entry(i, 7, 11, 0x2_3956c25b, 0x3956c25b);
    case 5 => Entry(i, 11, 13, 0x2_59f111f1, 0x59f111f1);
    case 6 => Entry(i, 13, 17, 0x2_923f82a4, 0x923f82a4);
    case _ => Entry(i, 17, 19, 0x2_ab1c5ed5, 0xab1c5ed5);
  }

  lemma Row1(i: nat)
    requires i / 8 == 1
    ensures i < 64 && Standard(i, KRow(1)[i % 8])
  {
    hide Standard;
    match i % 8
    case 0 => Entry(i, 19, 23, 0x2_d807aa98, 0xd807aa98);
    case 1 => Entry(i, 23, 29, 0x3_12835b01, 0x12835b01);
    case 2 => Entry(i, 29, 31, 0x3_243185be, 0x243185be);
    case 3 => Entry(i, 31, 37, 0x3_550c7dc3, 0x550c7dc3);
    case 4 => Entry(i, 37, 41, 0x3_72be5d74, 0x72be5d74);
    case 5 => Entry(i, 41, 43, 0x3_80deb1fe, 0x80deb1fe);
    case 6 => Entry(i, 43, 47, 0x3_9bdc06a7, 0x9bdc06a7);
    case _ => Entry(i, 47, 53, 0x3_c19bf174, 0xc19bf174);
  }

  lemma Row2(i: nat)
    requires i / 8 == 2
    ensures i < 64 && Standard(i, KRow(2)[i % 8])
  {
    hide Standard;
    match i % 8
    case 0 => Entry(i, 53, 59, 0x3_e49b69c1, 0xe49b69c1);
    case 1 => Entry(i, 59, 61, 0x3_efbe4786, 0xefbe4786);
    case 2 => Entry(i, 61, 67, 0x4_0fc19dc6, 0x0fc19dc6);
    case 3 => Entry(i, 67, 71, 0x4_240ca1cc, 0x240ca1cc);
    case 4 => Entry(i, 71, 73, 0x4_2de92c6f, 0x2de92c6f);
    case 5 => Entry(i, 73, 79, 0x4_4a7484aa, 0x4a7484aa);
    case 6 => Entry(i, 79, 83, 0x4_5cb0a9dc, 0x5cb0a9dc);
    case _ => Entry(i, 83, 89, 0x4_76f988da, 0x76f988da);
  }

  lemma Row3(i: nat)
    requires i / 8 == 3
    ensures i < 64 && Standard(i, KRow(3)[i % 8])
  {
    hide Standard;
    match i % 8
    case 0 => Entry(i, 89, 97, 0x4_983e5152, 0x983e5152);
    case 1 => Entry(i, 97, 101, 0x4_a831c66d, 0xa831c66d);
    case 2 => Entry(i, 101, 103, 0x4_b00327c8, 0xb00327c8);
    case 3 => Entry(i, 103, 107, 0x4_bf597fc7, 0xbf597fc7);
    case 4 => Entry(i, 107, 109, 0x4_c6e00bf3, 0xc6e00bf3);
    case 5 => Entry(i, 109, 113, 0x4_d5a79147, 0xd5a79147);
    case 6 => Entry(i, 113, 127, 0x5_06ca6351, 0x06ca6351);
    case _ => Entry(i, 127, 131, 0x5_14292967, 0x14292967);
  }

  lemma Row4(i: nat)
    requires i / 8 == 4
    ensures i < 64 && Standard(i, KRow(4)[i % 8])
  {
    hide Standard;
    match i % 8
    case 0 => Entry(i, 131, 137, 0x5_27b70a85, 0x27b70a85);
    case 1 => Entry(i, 137, 139, 0x5_2e1b2138, 0x2e1b2138);
    case 2 => Entry(i, 139, 149, 0x5_4d2c6dfc, 0x4d2c6dfc);
    case 3 => Entry(i, 149, 151, 0x5_53380d13, 0x53380d13);
    case 4 => Entry(i, 151, 157, 0x5_650a7354, 0x650a7354);
    case 5 => Entry(i, 157, 163, 0x5_766a0abb, 0x766a0abb);
    case 6 => Entry(i, 163, 167, 0x5_81c2c92e, 0x81c2c92e);
    case _ => Entry(i, 167, 173, 0x5_92722c85, 0x92722c85);
  }

  lemma Row5(i: nat)
    requires i / 8 == 5
    ensures i < 64 && Standard(i, KRow(5)[i % 8])
  {
    hide Standard;
    match i % 8
    case 0 => Entry(i, 173, 179, 0x5_a2bfe8a1, 0xa2bfe8a1);
    case 1 => Entry(i, 179, 181, 0x5_a81a664b, 0xa81a664b);
    case 2 => Entry(i, 181, 191, 0x5_c24b8b70, 0xc24b8b70);
    case 3 => Entry(i, 191, 193, 0x5_c76c51a3, 0xc76c51a3);
    case 4 => Entry(i, 193, 197, 0x5_d192e819, 0xd192e819);
    case 5 => Entry(i, 197, 199, 0x5_d6990624, 0xd6990624);
    case 6 => Entry(i, 199, 211, 0x5_f40e3585, 0xf40e3585);
    case _ => Entry(i, 211, 223, 0x6_106aa070, 0x106aa070);
  }

  lemma Row6(i: nat)
    requires i / 8 == 6
    ensures i < 64 && Standard(i, KRow(6)[i % 8])
  {
    hide Standard;
    match i % 8
    case 0 => Entry(i, 223, 227, 0x6_19a4c116, 0x19a4c116);
    case 1 => Entry(i, 227, 229, 0x6_1e376c08, 0x1e376c08);
    case 2 => Entry(i, 229, 233, 0x6_2748774c, 0x2748774c);
    case 3 => Entry(i, 233, 239, 0x6_34b0bcb5, 0x34b0bcb5);
    case 4 => Entry(i, 239, 241, 0x6_391c0cb3, 0x391c0cb3);
    case 5 => Entry(i, 241, 251, 0x6_4ed8aa4a, 0x4ed8aa4a);
    case 6 => Entry(i, 251, 257, 0x6_5b9cca4f, 0x5b9cca4f);
    case _ => Entry(i, 257, 263, 0x6_682e6ff3, 0x682e6ff3);
  }

  lemma Row7(i: nat)
    requires i / 8 == 7
    ensures i < 64 && Standard(i, KRow(7)[i % 8])
  {
    hide Standard;
    match i % 8
    case 0 => Entry(i, 263, 269, 0x6_748f82ee, 0x748f82ee);
    case 1 => Entry(i, 269, 271, 0x6_78a5636f, 0x78a5636f);
    case 2 => Entry(i, 271, 277, 0x6_84c87814, 0x84c87814);
    case 3 => Entry(i, 277, 281, 0x6_8cc70208, 0x8cc70208);
    case 4 => Entry(i, 281, 283, 0x6_90befffa, 0x90befffa);
    case 5 => Entry(i, 283, 293, 0x6_a4506ceb, 0xa4506ceb);
    case 6 => Entry(i, 293, 307, 0x6_bef9a3f7, 0xbef9a3f7);
    case _ => Entry(i, 307, 311, 0x6_c67178f2, 0xc67178f2);
  }

  lemma FirstEntry(i: nat)
    requires i == 0
    ensures Standard(i, KRow(0)[0])
  {
    SieveTells(2);
    Cube(2, 0x1_428a2f98, 0x428a2f98);
    hide NextPrime, Gap, Sieved, CubeRoot, IsPrime, FractionOfCubeRoot;
  }

  /** H0[i] holds those of the square root of the i-th prime. */
  lemma H0IsStandard(i: nat)
    requires i < 8
    ensures FractionOfSquareRoot(Prime(i), H0[i])
  {
    hide FractionOfSquareRoot;
    match i
    case 0 => Square(2, 0x1_6a09e667, 0x6a09e667);
    case 1 => Square(3, 0x1_bb67ae85, 0xbb67ae85);
    case 2 => Square(5, 0x2_3c6ef372, 0x3c6ef372);
    case 3 => Square(7, 0x2_a54ff53a, 0xa54ff53a);
    case 4 => Square(11, 0x3_510e527f, 0x510e527f);
    case 5 => Square(13, 0x3_9b05688c, 0x9b05688c);
    case 6 => Square(17, 0x4_1f83d9ab, 0x1f83d9ab);
    case _ => Square(19, 0x4_5be0cd19, 0x5be0cd19);
  }
}
