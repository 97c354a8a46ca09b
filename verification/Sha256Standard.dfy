/**
 * What FIPS 180-4 says of the constants and functions of SHA-256: the constant words are square roots
 * (section 5.3.3) and cube roots (section 4.2.2) of the first prime numbers, the functions work on bits
 * (section 4.1.2), and rounds and schedule are sums modulo 2^32 (section 6.2.2).
 */
module Sha256Standard {
  import opened Bytes
  import opened Sha256Spec
  import opened Programming

  // ----- The first primes

  ghost predicate IsPrime(n: nat) {
    n >= 2 && forall d :: 2 <= d < n ==> n % d != 0
  }

  const PRIMES: seq<seq<nat>> := [
    [2, 3, 5, 7, 11, 13, 17, 19],
    [23, 29, 31, 37, 41, 43, 47, 53],
    [59, 61, 67, 71, 73, 79, 83, 89],
    [97, 101, 103, 107, 109, 113, 127, 131],
    [137, 139, 149, 151, 157, 163, 167, 173],
    [179, 181, 191, 193, 197, 199, 211, 223],
    [227, 229, 233, 239, 241, 251, 257, 263],
    [269, 271, 277, 281, 283, 293, 307, 311]
  ]

  /** Prime number `t`, counted from 0. */
  function Prime(t: nat): nat
    requires t < 64
  {
    PRIMES[t / 8][t % 8]
  }

  /** Without a divisor among the primes below 18, which is enough up to 18 * 18. */
  predicate Sieved(n: nat) {
    n % 2 != 0 && n % 3 != 0 && n % 5 != 0 && n % 7 != 0 && n % 11 != 0 && n % 13 != 0 && n % 17 != 0
  }

  lemma SmallDivisor(n: nat, d: nat, q: nat)
    requires 2 <= d < 18 && n == d * q
    ensures !Sieved(n)
  {
    if d == 2 || d == 4 || d == 6 || d == 8 || d == 10 || d == 12 || d == 14 || d == 16 {
      EvenDivisor(n, d, q);
    } else {
      OddDivisor(n, d, q);
    }
  }

  lemma EvenDivisor(n: nat, d: nat, q: nat)
    requires d % 2 == 0 && n == d * q
    ensures n % 2 == 0
  {
    assert n == 2 * (d / 2 * q);
  }

  lemma OddDivisor(n: nat, d: nat, q: nat)
    requires d == 3 || d == 5 || d == 7 || d == 9 || d == 11 || d == 13 || d == 15 || d == 17
    requires n == d * q
    ensures n % 3 == 0 || n % 5 == 0 || n % 7 == 0 || n % 11 == 0 || n % 13 == 0 || n % 17 == 0
  {
    var p := if d == 9 || d == 15 then 3 else d;
    assert n == d / p * q * p;
    RestOfFrame(d / p * q, 0, p);
  }

  lemma SievedIsPrime(n: nat)
    requires 18 <= n < 324 && Sieved(n)
    ensures IsPrime(n)
  {
    hide Sieved;
    forall d | 2 <= d < n
      ensures n % d != 0
    {
      if n % d == 0 { NoDivisor(n, d, n / d); }
    }
  }

  lemma NoDivisor(n: nat, d: nat, q: nat)
    requires n < 324 && Sieved(n) && 2 <= d < n
    ensures n != d * q
  {
    hide Sieved;
    if n == d * q {
      if d < 18 {
        SmallDivisor(n, d, q);
      } else {
        BothLarge(d, q);
        SmallDivisor(n, q, d);
      }
    }
  }

  lemma BothLarge(d: nat, q: nat)
    requires 18 <= d && d < d * q < 324
    ensures 2 <= q < 18
  {
    if q >= 18 { Distribute(q - 18, 18, d); }
  }

  /** No prime number from `a` up to but not including `b`. */
  predicate NoneSieved(a: nat, b: nat)
    decreases b - a
  {
    a >= b || (!Sieved(a) && NoneSieved(a + 1, b))
  }

  predicate Follows(p: nat, q: nat) { p < q && Sieved(q) && NoneSieved(p + 1, q) }

  predicate RowFollows(before: nat, row: seq<nat>) {
    && |row| == 8
    && Follows(before, row[0]) && Follows(row[0], row[1]) && Follows(row[1], row[2]) && Follows(row[2], row[3])
    && Follows(row[3], row[4]) && Follows(row[4], row[5]) && Follows(row[5], row[6]) && Follows(row[6], row[7])
  }

  lemma Row1()
    ensures RowFollows(19, PRIMES[1])
  {
    assert PRIMES[1] == [23, 29, 31, 37, 41, 43, 47, 53];
  }

  lemma Row2()
    ensures RowFollows(53, PRIMES[2])
  {
    assert PRIMES[2] == [59, 61, 67, 71, 73, 79, 83, 89];
  }

  lemma Row3()
    ensures RowFollows(89, PRIMES[3])
  {
    assert PRIMES[3] == [97, 101, 103, 107, 109, 113, 127, 131];
  }

  lemma Row4()
    ensures RowFollows(131, PRIMES[4])
  {
    assert PRIMES[4] == [137, 139, 149, 151, 157, 163, 167, 173];
  }

  lemma Row5()
    ensures RowFollows(173, PRIMES[5])
  {
    assert PRIMES[5] == [179, 181, 191, 193, 197, 199, 211, 223];
  }

  lemma Row6()
    ensures RowFollows(223, PRIMES[6])
  {
    assert PRIMES[6] == [227, 229, 233, 239, 241, 251, 257, 263];
  }

  lemma Row7()
    ensures RowFollows(263, PRIMES[7])
  {
    assert PRIMES[7] == [269, 271, 277, 281, 283, 293, 307, 311];
  }

  /** `q` is the first prime number behind `p`. */
  ghost predicate NextPrime(p: nat, q: nat) {
    p < q && IsPrime(q) && forall n :: p < n < q ==> !IsPrime(n)
  }

  lemma {:induction false} NoPrimeAmong(a: nat, b: nat, n: nat)
    requires 18 <= a <= n < b && NoneSieved(a, b)
    ensures !IsPrime(n)
    decreases n - a
  {
    if a < n { NoPrimeAmong(a + 1, b, n); }
  }

  lemma FollowingPrime(p: nat, q: nat)
    requires 17 <= p && q < 324 && Follows(p, q)
    ensures NextPrime(p, q)
  {
    hide IsPrime, Sieved;
    SievedIsPrime(q);
    forall n | p < n < q ensures !IsPrime(n) { NoPrimeAmong(p + 1, q, n); }
  }

  lemma FirstRow()
    ensures NextPrime(0, 2) && NextPrime(2, 3) && NextPrime(3, 5) && NextPrime(5, 7)
    ensures NextPrime(7, 11) && NextPrime(11, 13) && NextPrime(13, 17) && NextPrime(17, 19)
  {
    assert 4 % 2 == 6 % 2 == 8 % 2 == 9 % 3 == 10 % 2 == 12 % 2 == 14 % 2 == 15 % 3 == 16 % 2 == 18 % 2 == 0;
  }

  lemma RowInOrder(before: nat, row: seq<nat>, i: nat)
    requires i < 8 && RowFollows(before, row) && before >= 17 && row[7] < 324
    ensures NextPrime(if i == 0 then before else row[i - 1], row[i])
  {
    hide NextPrime, NoneSieved, Sieved;
    FollowingPrime(if i == 0 then before else row[i - 1], row[i]);
  }

  lemma RowsFollow(r: nat)
    requires 1 <= r < 8
    ensures RowFollows(PRIMES[r - 1][7], PRIMES[r])
    ensures PRIMES[r - 1][7] >= 17 && PRIMES[r][7] < 324
  {
    hide Follows;
    match r {
      case 1 => Row1();
      case 2 => Row2();
      case 3 => Row3();
      case 4 => Row4();
      case 5 => Row5();
      case 6 => Row6();
      case 7 => Row7();
    }
  }

  /** The table has the first 64 prime numbers, in order. */
  lemma PrimesInOrder(t: nat)
    requires t < 64
    ensures NextPrime(if t == 0 then 0 else Prime(t - 1), Prime(t))
  {
    hide NextPrime, RowFollows;
    if t < 8 {
      FirstRow();
    } else {
      hide PRIMES;
      RowsFollow(t / 8);
      RowInOrder(PRIMES[t / 8 - 1][7], PRIMES[t / 8], t % 8);
      assert t % 8 > 0 ==> (t - 1) / 8 == t / 8 && (t - 1) % 8 == t % 8 - 1;
      assert t % 8 == 0 ==> (t - 1) / 8 == t / 8 - 1 && (t - 1) % 8 == 7;
    }
  }

  // ----- The constants

  ghost predicate IsSquareRoot(p: nat, w: word) { exists n: nat :: SquareRoot(p, n, w) }

  ghost predicate IsCubeRoot(p: nat, w: word) { exists n: nat :: CubeRoot(p, n, w) }

  /** `n` is the whole part and `w` the first 32 bits of the fraction of the square root of `p`. */
  predicate SquareRoot(p: nat, n: nat, w: word) {
    var c := 0x1_0000_0000 * n + w;
    c * c <= p * 0x1_0000_0000_0000_0000 < (c + 1) * (c + 1)
  }

  /** `n` is the whole part and `w` the first 32 bits of the fraction of the cube root of `p`. */
  predicate CubeRoot(p: nat, n: nat, w: word) {
    var c := 0x1_0000_0000 * n + w;
    c * c * c <= p * 0x1_0000_0000_0000_0000_0000_0000 < (c + 1) * (c + 1) * (c + 1)
  }

  /** The initial hash value of section 5.3.3: the square roots of the first eight primes. */
  lemma InitialHashIsSquareRoots(i: nat)
    requires i < 8
    ensures |INITIAL_HASH| == 8 && IsSquareRoot(Prime(i), INITIAL_HASH[i])
  {
    assert SquareRoot(2, 1, 0x6a09e667);
    assert SquareRoot(3, 1, 0xbb67ae85);
    assert SquareRoot(5, 2, 0x3c6ef372);
    assert SquareRoot(7, 2, 0xa54ff53a);
    assert SquareRoot(11, 3, 0x510e527f);
    assert SquareRoot(13, 3, 0x9b05688c);
    assert SquareRoot(17, 4, 0x1f83d9ab);
    assert SquareRoot(19, 4, 0x5be0cd19);
    hide SquareRoot;
    assert PRIMES[0] == [2, 3, 5, 7, 11, 13, 17, 19];
  }

  ghost predicate CubeRoots(primes: seq<nat>, words: seq<word>) {
    |primes| == |words| == 8 && forall i :: 0 <= i < 8 ==> IsCubeRoot(primes[i], words[i])
  }

  lemma CubeRoots0()
    ensures CubeRoots(PRIMES[0], K256[0])
  {
    assert CubeRoot(2, 1, 0x428a2f98);
    assert CubeRoot(3, 1, 0x71374491);
    assert CubeRoot(5, 1, 0xb5c0fbcf);
    assert CubeRoot(7, 1, 0xe9b5dba5);
    assert CubeRoot(11, 2, 0x3956c25b);
    assert CubeRoot(13, 2, 0x59f111f1);
    assert CubeRoot(17, 2, 0x923f82a4);
    assert CubeRoot(19, 2, 0xab1c5ed5);
    hide CubeRoot;
  }

  lemma CubeRoots1()
    ensures CubeRoots(PRIMES[1], K256[1])
  {
    assert CubeRoot(23, 2, 0xd807aa98);
    assert CubeRoot(29, 3, 0x12835b01);
    assert CubeRoot(31, 3, 0x243185be);
    assert CubeRoot(37, 3, 0x550c7dc3);
    assert CubeRoot(41, 3, 0x72be5d74);
    assert CubeRoot(43, 3, 0x80deb1fe);
    assert CubeRoot(47, 3, 0x9bdc06a7);
    assert CubeRoot(53, 3, 0xc19bf174);
    hide CubeRoot;
  }

  lemma CubeRoots2()
    ensures CubeRoots(PRIMES[2], K256[2])
  {
    assert CubeRoot(59, 3, 0xe49b69c1);
    assert CubeRoot(61, 3, 0xefbe4786);
    assert CubeRoot(67, 4, 0xfc19dc6);
    assert CubeRoot(71, 4, 0x240ca1cc);
    assert CubeRoot(73, 4, 0x2de92c6f);
    assert CubeRoot(79, 4, 0x4a7484aa);
    assert CubeRoot(83, 4, 0x5cb0a9dc);
    assert CubeRoot(89, 4, 0x76f988da);
    hide CubeRoot;
  }

  lemma CubeRoots3()
    ensures CubeRoots(PRIMES[3], K256[3])
  {
    assert CubeRoot(97, 4, 0x983e5152);
    assert CubeRoot(101, 4, 0xa831c66d);
    assert CubeRoot(103, 4, 0xb00327c8);
    assert CubeRoot(107, 4, 0xbf597fc7);
    assert CubeRoot(109, 4, 0xc6e00bf3);
    assert CubeRoot(113, 4, 0xd5a79147);
    assert CubeRoot(127, 5, 0x6ca6351);
    assert CubeRoot(131, 5, 0x14292967);
    hide CubeRoot;
  }

  lemma CubeRoots4()
    ensures CubeRoots(PRIMES[4], K256[4])
  {
    assert CubeRoot(137, 5, 0x27b70a85);
    assert CubeRoot(139, 5, 0x2e1b2138);
    assert CubeRoot(149, 5, 0x4d2c6dfc);
    assert CubeRoot(151, 5, 0x53380d13);
    assert CubeRoot(157, 5, 0x650a7354);
    assert CubeRoot(163, 5, 0x766a0abb);
    assert CubeRoot(167, 5, 0x81c2c92e);
    assert CubeRoot(173, 5, 0x92722c85);
    hide CubeRoot;
  }

  lemma CubeRoots5()
    ensures CubeRoots(PRIMES[5], K256[5])
  {
    assert CubeRoot(179, 5, 0xa2bfe8a1);
    assert CubeRoot(181, 5, 0xa81a664b);
    assert CubeRoot(191, 5, 0xc24b8b70);
    assert CubeRoot(193, 5, 0xc76c51a3);
    assert CubeRoot(197, 5, 0xd192e819);
    assert CubeRoot(199, 5, 0xd6990624);
    assert CubeRoot(211, 5, 0xf40e3585);
    assert CubeRoot(223, 6, 0x106aa070);
    hide CubeRoot;
  }

  lemma CubeRoots6()
    ensures CubeRoots(PRIMES[6], K256[6])
  {
    assert CubeRoot(227, 6, 0x19a4c116);
    assert CubeRoot(229, 6, 0x1e376c08);
    assert CubeRoot(233, 6, 0x2748774c);
    assert CubeRoot(239, 6, 0x34b0bcb5);
    assert CubeRoot(241, 6, 0x391c0cb3);
    assert CubeRoot(251, 6, 0x4ed8aa4a);
    assert CubeRoot(257, 6, 0x5b9cca4f);
    assert CubeRoot(263, 6, 0x682e6ff3);
    hide CubeRoot;
  }

  lemma CubeRoots7()
    ensures CubeRoots(PRIMES[7], K256[7])
  {
    assert CubeRoot(269, 6, 0x748f82ee);
    assert CubeRoot(271, 6, 0x78a5636f);
    assert CubeRoot(277, 6, 0x84c87814);
    assert CubeRoot(281, 6, 0x8cc70208);
    assert CubeRoot(283, 6, 0x90befffa);
    assert CubeRoot(293, 6, 0xa4506ceb);
    assert CubeRoot(307, 6, 0xbef9a3f7);
    assert CubeRoot(311, 6, 0xc67178f2);
    hide CubeRoot;
  }

  /** The constants of section 4.2.2: the cube roots of the first 64 primes. */
  lemma KIsCubeRoots(t: nat)
    requires t < 64
    ensures IsCubeRoot(Prime(t), K(t))
  {
    hide CubeRoot;
    match t / 8 {
      case 0 => CubeRoots0();
      case 1 => CubeRoots1();
      case 2 => CubeRoots2();
      case 3 => CubeRoots3();
      case 4 => CubeRoots4();
      case 5 => CubeRoots5();
      case 6 => CubeRoots6();
      case 7 => CubeRoots7();
    }
    assert IsCubeRoot(PRIMES[t / 8][t % 8], K256[t / 8][t % 8]);
  }

  // ----- The functions, on bits

  lemma WordKeepsBits(b: bv32)
    ensures Bits(Word(b)) == b
  {
  }

  lemma XorBits(x: word, y: word)
    ensures Bits(Xor(x, y)) == Bits(x) ^ Bits(y)
  {
    hide Bits, Word;
    WordKeepsBits(Bits(x) ^ Bits(y));
  }

  lemma RotrBits(x: word, n: nat)
    requires 0 < n < 32
    ensures Bits(Rotr(x, n)) == Rotated(Bits(x), n)
  {
    hide Bits, Word, Rotated;
    WordKeepsBits(Rotated(Bits(x), n));
  }

  /** What is shifted out on the right comes in on the left. */
  lemma Rotations(b: bv32)
    ensures Rotated(b, 2) == b.RotateRight(2) && Rotated(b, 13) == b.RotateRight(13)
    ensures Rotated(b, 22) == b.RotateRight(22) && Rotated(b, 6) == b.RotateRight(6)
    ensures Rotated(b, 11) == b.RotateRight(11) && Rotated(b, 25) == b.RotateRight(25)
    ensures Rotated(b, 7) == b.RotateRight(7) && Rotated(b, 18) == b.RotateRight(18)
    ensures Rotated(b, 17) == b.RotateRight(17) && Rotated(b, 19) == b.RotateRight(19)
  {
  }

  lemma ShrBits(x: word, n: nat)
    requires n < 32
    ensures Bits(Shr(x, n)) == Bits(x) >> n
  {
    hide Bits, Word;
    WordKeepsBits(Bits(x) >> n);
  }

  lemma Mixed(a: word, b: word, c: word, p: bv32, q: bv32, r: bv32)
    requires Bits(a) == p && Bits(b) == q && Bits(c) == r
    ensures Bits(Xor(Xor(a, b), c)) == p ^ q ^ r
  {
    hide *;
    XorBits(a, b);
    XorBits(Xor(a, b), c);
  }

  lemma BigSigma0Is(x: word)
    ensures BigSigma0(x) == Xor(Xor(Rotr(x, 2), Rotr(x, 13)), Rotr(x, 22))
  {
    hide Xor, Rotr, Shr;
  }

  lemma BigSigma0Bits(x: word)
    ensures Bits(BigSigma0(x)) == Rotated(Bits(x), 2) ^ Rotated(Bits(x), 13) ^ Rotated(Bits(x), 22)
  {
    hide *;
    BigSigma0Is(x);
    RotrBits(x, 2);
    RotrBits(x, 13);
    RotrBits(x, 22);
    Mixed(Rotr(x, 2), Rotr(x, 13), Rotr(x, 22), Rotated(Bits(x), 2), Rotated(Bits(x), 13), Rotated(Bits(x), 22));
  }

  lemma BigSigma1Is(x: word)
    ensures BigSigma1(x) == Xor(Xor(Rotr(x, 6), Rotr(x, 11)), Rotr(x, 25))
  {
    hide Xor, Rotr, Shr;
  }

  lemma BigSigma1Bits(x: word)
    ensures Bits(BigSigma1(x)) == Rotated(Bits(x), 6) ^ Rotated(Bits(x), 11) ^ Rotated(Bits(x), 25)
  {
    hide *;
    BigSigma1Is(x);
    RotrBits(x, 6);
    RotrBits(x, 11);
    RotrBits(x, 25);
    Mixed(Rotr(x, 6), Rotr(x, 11), Rotr(x, 25), Rotated(Bits(x), 6), Rotated(Bits(x), 11), Rotated(Bits(x), 25));
  }

  lemma SmallSigma0Is(x: word)
    ensures SmallSigma0(x) == Xor(Xor(Rotr(x, 7), Rotr(x, 18)), Shr(x, 3))
  {
    hide Xor, Rotr, Shr;
  }

  lemma SmallSigma0Bits(x: word)
    ensures Bits(SmallSigma0(x)) == Rotated(Bits(x), 7) ^ Rotated(Bits(x), 18) ^ Bits(Shr(x, 3))
  {
    hide *;
    SmallSigma0Is(x);
    RotrBits(x, 7);
    RotrBits(x, 18);
    Mixed(Rotr(x, 7), Rotr(x, 18), Shr(x, 3), Rotated(Bits(x), 7), Rotated(Bits(x), 18), Bits(Shr(x, 3)));
  }

  lemma SmallSigma1Is(x: word)
    ensures SmallSigma1(x) == Xor(Xor(Rotr(x, 17), Rotr(x, 19)), Shr(x, 10))
  {
    hide Xor, Rotr, Shr;
  }

  lemma SmallSigma1Bits(x: word)
    ensures Bits(SmallSigma1(x)) == Rotated(Bits(x), 17) ^ Rotated(Bits(x), 19) ^ Bits(Shr(x, 10))
  {
    hide *;
    SmallSigma1Is(x);
    RotrBits(x, 17);
    RotrBits(x, 19);
    Mixed(Rotr(x, 17), Rotr(x, 19), Shr(x, 10), Rotated(Bits(x), 17), Rotated(Bits(x), 19), Bits(Shr(x, 10)));
  }

  /** Each bit of Ch is y's where x has a one and z's elsewhere. */
  lemma ChBits(x: word, y: word, z: word)
    ensures Bits(Ch(x, y, z)) == (Bits(x) & Bits(y)) | (!Bits(x) & Bits(z))
  {
    hide Bits, Word;
    Chosen(Bits(x), Bits(y), Bits(z));
    WordKeepsBits((Bits(x) & Bits(y)) ^ (!Bits(x) & Bits(z)));
  }

  lemma Chosen(x: bv32, y: bv32, z: bv32)
    ensures (x & y) ^ (!x & z) == (x & y) | (!x & z)
  {
  }

  /** Each bit of Maj is one where at least two of the three have a one. */
  lemma MajBits(x: word, y: word, z: word)
    ensures Bits(Maj(x, y, z)) == (Bits(x) & Bits(y)) | (Bits(z) & (Bits(x) | Bits(y)))
  {
    hide Bits, Word;
    Majority(Bits(x), Bits(y), Bits(z));
    WordKeepsBits((Bits(x) & Bits(y)) ^ (Bits(x) & Bits(z)) ^ (Bits(y) & Bits(z)));
  }

  lemma Majority(x: bv32, y: bv32, z: bv32)
    ensures (x & y) ^ (x & z) ^ (y & z) == (x & y) | (z & (x | y))
  {
  }

  // ----- Rounds and schedule, as sums

  lemma SumOn(t: int, u: int, a: int)
    requires u == t % 0x1_0000_0000
    ensures (u + a) % 0x1_0000_0000 == (t + a) % 0x1_0000_0000
  {
  }

  lemma Sums(a: word, b: word, c: word, d: word)
    ensures Add(Add(Add(a, b), c), d) == (a + b + c + d) % 0x1_0000_0000
  {
    SumOn(a + b, Add(a, b), c);
    SumOn(a + b + c, Add(Add(a, b), c), d);
  }

  /** A round, whatever the order of its additions. */
  lemma RoundSums(r: Registers, k: word, w: word)
    ensures var t, r' := r.h + BigSigma1(r.e) + Ch(r.e, r.f, r.g) + k + w, Round(r, k, w);
            && r'.a == (t + BigSigma0(r.a) + Maj(r.a, r.b, r.c)) % 0x1_0000_0000 && r'.b == r.a && r'.c == r.b
            && r'.d == r.c && r'.e == (r.d + t) % 0x1_0000_0000 && r'.f == r.e && r'.g == r.f && r'.h == r.g
  {
    hide BigSigma0, BigSigma1, Ch, Maj;
    var t, t2 := r.h + BigSigma1(r.e) + Ch(r.e, r.f, r.g) + k + w, BigSigma0(r.a) + Maj(r.a, r.b, r.c);
    T1Sums(r.e, r.f, r.g, r.h, k, w);
    hide T1;
    SumOn(t2, T2(r.a, r.b, r.c), T1(r.e, r.f, r.g, r.h, k, w));
    SumOn(t, T1(r.e, r.f, r.g, r.h, k, w), t2);
    SumOn(t, T1(r.e, r.f, r.g, r.h, k, w), r.d);
  }

  lemma T1Sums(e: word, f: word, g: word, h: word, k: word, w: word)
    ensures T1(e, f, g, h, k, w) == (h + BigSigma1(e) + Ch(e, f, g) + k + w) % 0x1_0000_0000
  {
    hide BigSigma1, Ch;
    Sums(h, BigSigma1(e), Ch(e, f, g), k);
    SumOn(h + BigSigma1(e) + Ch(e, f, g) + k, Add(Add(Add(h, BigSigma1(e)), Ch(e, f, g)), k), w);
  }

  /** The message schedule: the block's words, then sums of the words 2, 7, 15 and 16 places before. */
  lemma ScheduleSums(block: bytes, t: nat)
    requires |block| == 64 && t < 64
    ensures t < 16 ==>
              Schedule(block, t)
              == block[4 * t] as nat * 0x100_0000 + block[4 * t + 1] as nat * 0x1_0000 + block[4 * t + 2] as nat * 0x100
                 + block[4 * t + 3]
    ensures t >= 16 ==>
              Schedule(block, t)
              == (SmallSigma1(Schedule(block, t - 2)) + Schedule(block, t - 7)
                  + SmallSigma0(Schedule(block, t - 15)) + Schedule(block, t - 16)) % 0x1_0000_0000
  {
    hide SmallSigma0, SmallSigma1, Add;
    if t >= 16 {
      Sums(SmallSigma1(Schedule(block, t - 2)), Schedule(block, t - 7), SmallSigma0(Schedule(block, t - 15)),
           Schedule(block, t - 16));
    }
  }

  // ----- Words and octets

  lemma StoredWordReads(w: word)
    ensures LoadWord(StoreWord(w), 0) == w
  {
    hide LoadWord;
    FourOctets(w);
    FromOctets(w);
    assert StoreWord(w) == [w / 0x100_0000, w / 0x1_0000 % 256, w / 0x100 % 256, w % 256];
  }

  lemma FromOctets(w: word)
    ensures LoadWord([w / 0x100_0000, w / 0x1_0000 % 256, w / 0x100 % 256, w % 256], 0) == w
  {
    SumOfOctets(w);
  }

  lemma FourOctets(v: nat)
    requires v < 0x1_0000_0000
    ensures BigEndian(v, 4) == [v / 0x100_0000, v / 0x1_0000 % 256, v / 0x100 % 256, v % 256]
  {
    var a, b, c := v / 0x100, v / 0x1_0000, v / 0x100_0000;
    assert a / 256 == b && b / 256 == c && c % 256 == c;
    assert BigEndian(c / 256, 0) == [];
    assert BigEndian(c, 1) == [c];
    assert BigEndian(b, 2) == [c, b % 256];
    assert BigEndian(a, 3) == [c, b % 256, a % 256];
  }

  /** The digest is the words of the hash value, most significant octet first. */
  lemma DigestWords(m: bytes, i: nat)
    requires i < 8
    ensures LoadWord(Sha256(m), 4 * i) == CompressBlocks(INITIAL_HASH, Pad(m), |Pad(m)| / 64)[i]
  {
    hide LoadWord, CompressBlocks, Pad;
    var h := CompressBlocks(INITIAL_HASH, Pad(m), |Pad(m)| / 64);
    StoredAt(h, i);
    StoredWordReads(h[i]);
    LoadsThere(StoreWords(h), 4 * i);
  }

  lemma {:induction false} StoredAt(h: seq<word>, i: nat)
    requires i < |h|
    ensures StoreWords(h)[4 * i..4 * i + 4] == StoreWord(h[i])
  {
    hide StoreWord;
    var n := |h| - 1;
    if i < n {
      StoredAt(h[..n], i);
      assert StoreWords(h)[4 * i..4 * i + 4] == StoreWords(h[..n])[4 * i..4 * i + 4];
    }
  }

  lemma LoadsThere(b: bytes, at: nat)
    requires at + 4 <= |b|
    ensures LoadWord(b[at..at + 4], 0) == LoadWord(b, at)
  {
  }

  /** The padding of section 5.1.1: a one bit, zeros, and the length in bits as 64 bits. */
  lemma PadLayout(m: bytes)
    ensures var p, n := Pad(m), |Pad(m)|;
            && n >= |m| + 9 && p[..|m|] == m && p[|m|] == 0x80 && (forall i :: |m| < i < n - 8 ==> p[i] == 0)
            && LoadWord(p, n - 8) * 0x1_0000_0000 + LoadWord(p, n - 4) == 8 * |m| % 0x1_0000_0000_0000_0000
  {
    hide LoadWord, ZeroPadding, BigEndian;
    var p, n, v := Pad(m), |Pad(m)|, 8 * |m| % 0x1_0000_0000_0000_0000;
    assert p[n - 8..] == BigEndian(v, 8);
    EightOctets(v);
    assert p[n - 8..n - 4] == BigEndian(v, 8)[..4] && p[n - 4..n] == BigEndian(v, 8)[4..];
    LoadsThere(p, n - 8);
    LoadsThere(p, n - 4);
    StoredWordReads(v / 0x1_0000_0000);
    StoredWordReads(v % 0x1_0000_0000);
  }

  lemma EightOctets(v: nat)
    requires v < 0x1_0000_0000_0000_0000
    ensures BigEndian(v, 8)[..4] == StoreWord(v / 0x1_0000_0000)
    ensures BigEndian(v, 8)[4..] == StoreWord(v % 0x1_0000_0000)
  {
    OctetsSplit(v);
  }

  lemma OctetsSplit(v: nat)
    ensures BigEndian(v, 8) == BigEndian(v / 0x1_0000_0000, 4) + BigEndian(v % 0x1_0000_0000, 4)
  {
    var d, w := v / 0x1_0000_0000, v % 0x1_0000_0000;
    FourOctets(w);
    assert BigEndian(v, 8) == BigEndian(v / 256, 7) + [v % 256];
    assert BigEndian(v / 256, 7) == BigEndian(v / 256 / 256, 6) + [v / 256 % 256];
    assert BigEndian(v / 256 / 256, 6) == BigEndian(v / 256 / 256 / 256, 5) + [v / 256 / 256 % 256];
    hide BigEndian;
    LowOctets(v);
  }

  lemma LowOctets(v: nat)
    ensures BigEndian(v / 256 / 256 / 256, 5) == BigEndian(v / 0x1_0000_0000, 4) + [v % 0x1_0000_0000 / 0x100_0000]
    ensures v / 256 / 256 % 256 == v % 0x1_0000_0000 / 0x1_0000 % 256
    ensures v / 256 % 256 == v % 0x1_0000_0000 / 0x100 % 256 && v % 256 == v % 0x1_0000_0000 % 256
  {
    var d, w := v / 0x1_0000_0000, v % 0x1_0000_0000;
    var a, b, c, e := w / 0x100_0000, w / 0x1_0000 % 256, w / 0x100 % 256, w % 256;
    SumOfOctets(w);
    Quotient256(v, d * 0x100_0000 + a * 0x1_0000 + b * 0x100 + c, e);
    Quotient256(v / 256, d * 0x1_0000 + a * 0x100 + b, c);
    Quotient256(v / 256 / 256, d * 0x100 + a, b);
    Quotient256(v / 256 / 256 / 256, d, a);
    assert BigEndian(d * 256 + a, 5) == BigEndian((d * 256 + a) / 256, 4) + [(d * 256 + a) % 256];
  }

  lemma SumOfOctets(w: nat)
    requires w < 0x1_0000_0000
    ensures w == w / 0x100_0000 * 0x100_0000 + w / 0x1_0000 % 256 * 0x1_0000 + w / 0x100 % 256 * 0x100 + w % 256
    ensures w / 0x100_0000 < 256
  {
    var a := w / 0x100;
    var b := a / 0x100;
    assert b == w / 0x1_0000 && b / 0x100 == w / 0x100_0000 by { Quotients(w); }
    assert w == 256 * a + w % 256 && a == 256 * b + a % 256 && b == 256 * (b / 256) + b % 256;
  }

  lemma Quotients(w: nat)
    ensures w / 0x100 / 0x100 == w / 0x1_0000 && w / 0x100 / 0x100 / 0x100 == w / 0x100_0000
  {
  }

  lemma Quotient256(v: nat, q: nat, r: nat)
    requires v == 256 * q + r && r < 256
    ensures v / 256 == q && v % 256 == r
  {
  }

  /** The hash value after a block: the one before, each word plus the register that started from it. */
  lemma CompressSums(h: seq<word>, block: bytes)
    requires |h| == 8 && |block| == 64
    ensures var r := Rounds(Registers(h[0], h[1], h[2], h[3], h[4], h[5], h[6], h[7]), block, 64);
            && (Compress(h, block)[0] - h[0] - r.a) % 0x1_0000_0000 == 0
            && (Compress(h, block)[1] - h[1] - r.b) % 0x1_0000_0000 == 0
            && (Compress(h, block)[2] - h[2] - r.c) % 0x1_0000_0000 == 0
            && (Compress(h, block)[3] - h[3] - r.d) % 0x1_0000_0000 == 0
            && (Compress(h, block)[4] - h[4] - r.e) % 0x1_0000_0000 == 0
            && (Compress(h, block)[5] - h[5] - r.f) % 0x1_0000_0000 == 0
            && (Compress(h, block)[6] - h[6] - r.g) % 0x1_0000_0000 == 0
            && (Compress(h, block)[7] - h[7] - r.h) % 0x1_0000_0000 == 0
  {
    hide Rounds, Add;
    var r := Rounds(Registers(h[0], h[1], h[2], h[3], h[4], h[5], h[6], h[7]), block, 64);
    SumDiffers(h[0], r.a);
    SumDiffers(h[1], r.b);
    SumDiffers(h[2], r.c);
    SumDiffers(h[3], r.d);
    SumDiffers(h[4], r.e);
    SumDiffers(h[5], r.f);
    SumDiffers(h[6], r.g);
    SumDiffers(h[7], r.h);
  }

  lemma SumDiffers(x: word, y: word)
    ensures (Add(x, y) - x - y) % 0x1_0000_0000 == 0
  {
  }
}
