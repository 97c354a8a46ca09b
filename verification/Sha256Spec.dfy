/**
 * SHA-256 as FIPS 180-4 defines it: the message is padded (section 5.1.1), cut into
 * 64-byte blocks and folded through the compression function of section 6.2.2, whose
 * message schedule has 64 words.
 */
module Sha256Spec {
  import opened Bytes

  const UINT64_RANGE := 0x1_0000_0000_0000_0000

  type word = w: int | 0 <= w < 0x1_0000_0000

  /** Addition modulo 2^32. */
  function Add(x: word, y: word): word { (x + y) % 0x1_0000_0000 }

  // ----- The logical functions of section 4.1.2

  function Bits(x: word): bv32 { x as bv32 }

  function Word(b: bv32): word { b as int }

  function Xor(x: word, y: word): word { Word(Bits(x) ^ Bits(y)) }

  function Rotr(x: word, n: nat): word
    requires 0 < n < 32
  {
    Word(Rotated(Bits(x), n))
  }

  function Rotated(b: bv32, n: nat): bv32
    requires 0 < n < 32
  {
    (b >> n) | (b << (32 - n))
  }

  function Shr(x: word, n: nat): word
    requires n < 32
  {
    Word(Bits(x) >> n)
  }

  function Ch(x: word, y: word, z: word): word { Word((Bits(x) & Bits(y)) ^ (!Bits(x) & Bits(z))) }

  function Maj(x: word, y: word, z: word): word {
    Word((Bits(x) & Bits(y)) ^ (Bits(x) & Bits(z)) ^ (Bits(y) & Bits(z)))
  }

  function BigSigma0(x: word): word { Xor(Xor(Rotr(x, 2), Rotr(x, 13)), Rotr(x, 22)) }

  function BigSigma1(x: word): word { Xor(Xor(Rotr(x, 6), Rotr(x, 11)), Rotr(x, 25)) }

  function SmallSigma0(x: word): word { Xor(Xor(Rotr(x, 7), Rotr(x, 18)), Shr(x, 3)) }

  function SmallSigma1(x: word): word { Xor(Xor(Rotr(x, 17), Rotr(x, 19)), Shr(x, 10)) }

  // ----- Constants of sections 4.2.2 and 5.3.3

  const K256: seq<seq<word>> := [
    [0x428a2f98, 0x71374491, 0xb5c0fbcf, 0xe9b5dba5, 0x3956c25b, 0x59f111f1, 0x923f82a4, 0xab1c5ed5],
    [0xd807aa98, 0x12835b01, 0x243185be, 0x550c7dc3, 0x72be5d74, 0x80deb1fe, 0x9bdc06a7, 0xc19bf174],
    [0xe49b69c1, 0xefbe4786, 0x0fc19dc6, 0x240ca1cc, 0x2de92c6f, 0x4a7484aa, 0x5cb0a9dc, 0x76f988da],
    [0x983e5152, 0xa831c66d, 0xb00327c8, 0xbf597fc7, 0xc6e00bf3, 0xd5a79147, 0x06ca6351, 0x14292967],
    [0x27b70a85, 0x2e1b2138, 0x4d2c6dfc, 0x53380d13, 0x650a7354, 0x766a0abb, 0x81c2c92e, 0x92722c85],
    [0xa2bfe8a1, 0xa81a664b, 0xc24b8b70, 0xc76c51a3, 0xd192e819, 0xd6990624, 0xf40e3585, 0x106aa070],
    [0x19a4c116, 0x1e376c08, 0x2748774c, 0x34b0bcb5, 0x391c0cb3, 0x4ed8aa4a, 0x5b9cca4f, 0x682e6ff3],
    [0x748f82ee, 0x78a5636f, 0x84c87814, 0x8cc70208, 0x90befffa, 0xa4506ceb, 0xbef9a3f7, 0xc67178f2]
  ]

  const INITIAL_HASH: seq<word> := [
    0x6a09e667, 0xbb67ae85, 0x3c6ef372, 0xa54ff53a,
    0x510e527f, 0x9b05688c, 0x1f83d9ab, 0x5be0cd19
  ]

  function K(t: nat): word
    requires t < 64
  {
    K256[t / 8][t % 8]
  }

  // ----- Words and octets (section 3.1)

  function LoadWord(b: bytes, at: nat): word
    requires at + 4 <= |b|
  {
    b[at] as int * 0x100_0000 + b[at + 1] as int * 0x1_0000 + b[at + 2] as int * 0x100 + b[at + 3]
  }

  function StoreWord(w: word): (r: bytes)
    ensures |r| == 4
  {
    BigEndian(w, 4)
  }

  function StoreWords(h: seq<word>): (r: bytes)
    ensures |r| == 4 * |h|
  {
    if |h| == 0 then [] else StoreWords(h[..|h| - 1]) + StoreWord(h[|h| - 1])
  }

  // ----- The compression function (section 6.2.2)

  /** A later schedule word, from the words 2, 7, 15 and 16 places before it. */
  function Expand(w2: word, w7: word, w15: word, w16: word): word {
    Add(Add(Add(SmallSigma1(w2), w7), SmallSigma0(w15)), w16)
  }

  /** Word `t` of the 64-word message schedule of a block. */
  function Schedule(block: bytes, t: nat): word
    requires |block| == 64 && t < 64
  {
    if t < 16 then LoadWord(block, 4 * t)
    else Expand(Schedule(block, t - 2), Schedule(block, t - 7), Schedule(block, t - 15), Schedule(block, t - 16))
  }

  /** The eight working variables. */
  datatype Registers = Registers(a: word, b: word, c: word, d: word, e: word, f: word, g: word, h: word)

  function T1(e: word, f: word, g: word, h: word, k: word, w: word): word {
    Add(Add(Add(Add(h, BigSigma1(e)), Ch(e, f, g)), k), w)
  }

  function T2(a: word, b: word, c: word): word {
    Add(BigSigma0(a), Maj(a, b, c))
  }

  function Round(r: Registers, k: word, w: word): Registers {
    var t1 := T1(r.e, r.f, r.g, r.h, k, w);
    Registers(Add(t1, T2(r.a, r.b, r.c)), r.a, r.b, r.c, Add(r.d, t1), r.e, r.f, r.g)
  }

  /** The working variables after the first `t` rounds. */
  function Rounds(r: Registers, block: bytes, t: nat): Registers
    requires |block| == 64 && t <= 64
  {
    if t == 0 then r else Round(Rounds(r, block, t - 1), K(t - 1), Schedule(block, t - 1))
  }

  function Load(h: seq<word>): Registers
    requires |h| == 8
  {
    Registers(h[0], h[1], h[2], h[3], h[4], h[5], h[6], h[7])
  }

  function AddRegisters(h: seq<word>, r: Registers): (s: seq<word>)
    requires |h| == 8
    ensures |s| == 8
  {
    [Add(h[0], r.a), Add(h[1], r.b), Add(h[2], r.c), Add(h[3], r.d),
     Add(h[4], r.e), Add(h[5], r.f), Add(h[6], r.g), Add(h[7], r.h)]
  }

  function Compress(h: seq<word>, block: bytes): (r: seq<word>)
    requires |h| == 8 && |block| == 64
    ensures |r| == 8
  {
    AddRegisters(h, Rounds(Load(h), block, 64))
  }

  /** Fold the first `n` blocks of a message into a hash value. */
  function CompressBlocks(h: seq<word>, m: bytes, n: nat): (r: seq<word>)
    requires |h| == 8 && 64 * n <= |m|
    ensures |r| == 8
  {
    hide Compress;
    if n == 0 then h
    else Compress(CompressBlocks(h, m, n - 1), m[64 * (n - 1)..64 * n])
  }

  // ----- Padding and the hash (sections 5.1.1 and 6.2)

  /** The number of zero octets after the 0x80 octet of the padding. */
  function ZeroPadding(len: nat): (k: nat)
  {
    (55 - len) % 64
  }

  /**
   * The padded message. The standard covers messages shorter than 2^61 octets; on
   * longer ones the 64-bit length field holds the bit count modulo 2^64.
   */
  function Pad(m: bytes): bytes {
    m + [0x80] + Zeros(ZeroPadding(|m|)) + BigEndian(8 * |m| % UINT64_RANGE, 8)
  }

  /** `ZeroPadding` is the least solution of the congruence of section 5.1.1, in octets. */
  lemma PadIsWhole(m: bytes)
    ensures |Pad(m)| % 64 == 0
    ensures ZeroPadding(|m|) < 64
    ensures (|m| + 1 + ZeroPadding(|m|)) % 64 == 56
  {
    hide BigEndian; hide Zeros; var r := (55 - |m|) % 64;
    var q := (55 - |m|) / 64;
    assert |m| + 1 + r == 64 * (-q) + 56;
    assert |Pad(m)| == 64 * (1 - q);
  }

  function Sha256(m: bytes): (digest: bytes)
    ensures |digest| == 32
  {
    StoreWords(CompressBlocks(INITIAL_HASH, Pad(m), |Pad(m)| / 64))
  }

  /** Folding `n` blocks only looks at the first `n` blocks. */
  lemma {:induction false} CompressBlocksPrefix(h: seq<word>, a: bytes, b: bytes, n: nat)
    requires |h| == 8 && 64 * n <= |a| && 64 * n <= |b|
    requires a[..64 * n] == b[..64 * n]
    ensures CompressBlocks(h, a, n) == CompressBlocks(h, b, n)
  {
    hide Compress; if n > 0 {
      var k := 64 * (n - 1);
      assert a[..k] == a[..64 * n][..k];
      assert b[..k] == b[..64 * n][..k];
      assert a[k..64 * n] == a[..64 * n][k..];
      assert b[k..64 * n] == b[..64 * n][k..];
      CompressBlocksPrefix(h, a, b, n - 1);
    }
  }
}
