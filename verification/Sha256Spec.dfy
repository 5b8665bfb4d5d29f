/**
 SHA-256 as FIPS 180-4 defines it, on messages of whole bytes, by recursion.

 The functions of section 4.1.2, the padding of section 5.1.1, the schedule and
 the compression of section 6.2.2.  Words are
 `bv32`, whose addition is the addition modulo 2^32 the standard asks for.
 */
module Sha256Spec {
  type Word = bv32
  newtype Byte = x: int | 0 <= x < 256

  /** Section 4.2.2. */
  const CONSTANTS: seq<Word> := [
    0x428a2f98, 0x71374491, 0xb5c0fbcf, 0xe9b5dba5, 0x3956c25b, 0x59f111f1, 0x923f82a4, 0xab1c5ed5,
    0xd807aa98, 0x12835b01, 0x243185be, 0x550c7dc3, 0x72be5d74, 0x80deb1fe, 0x9bdc06a7, 0xc19bf174,
    0xe49b69c1, 0xefbe4786, 0x0fc19dc6, 0x240ca1cc, 0x2de92c6f, 0x4a7484aa, 0x5cb0a9dc, 0x76f988da,
    0x983e5152, 0xa831c66d, 0xb00327c8, 0xbf597fc7, 0xc6e00bf3, 0xd5a79147, 0x06ca6351, 0x14292967,
    0x27b70a85, 0x2e1b2138, 0x4d2c6dfc, 0x53380d13, 0x650a7354, 0x766a0abb, 0x81c2c92e, 0x92722c85,
    0xa2bfe8a1, 0xa81a664b, 0xc24b8b70, 0xc76c51a3, 0xd192e819, 0xd6990624, 0xf40e3585, 0x106aa070,
    0x19a4c116, 0x1e376c08, 0x2748774c, 0x34b0bcb5, 0x391c0cb3, 0x4ed8aa4a, 0x5b9cca4f, 0x682e6ff3,
    0x748f82ee, 0x78a5636f, 0x84c87814, 0x8cc70208, 0x90befffa, 0xa4506ceb, 0xbef9a3f7, 0xc67178f2
  ]

  function K(t: nat): Word
    requires t < 64
  {
    CONSTANTS[t]
  }

  /** The eight working variables, or the eight words of a hash value. */
  datatype Regs = Regs(a: Word, b: Word, c: Word, d: Word, e: Word, f: Word, g: Word, h: Word)

  const H0 := Regs(0x6a09e667, 0xbb67ae85, 0x3c6ef372, 0xa54ff53a, 0x510e527f, 0x9b05688c, 0x1f83d9ab, 0x5be0cd19)

  // ------------------------------------------------------- section 4.1.2

  function Ch(x: Word, y: Word, z: Word): Word
  {
    (x & y) ^ (!x & z)
  }

  function Maj(x: Word, y: Word, z: Word): Word
  {
    Xor3(x & y, x & z, y & z)
  }

  /** Addition modulo 2^32. */
  function Plus(x: Word, y: Word): Word
  {
    x + y
  }

  function Xor3(x: Word, y: Word, z: Word): Word
  {
    x ^ y ^ z
  }

  function BigSigma0(x: Word): Word
  {
    Xor3(x.RotateRight(2), x.RotateRight(13), x.RotateRight(22))
  }

  function BigSigma1(x: Word): Word
  {
    Xor3(x.RotateRight(6), x.RotateRight(11), x.RotateRight(25))
  }

  function SmallSigma0(x: Word): Word
  {
    Xor3(x.RotateRight(7), x.RotateRight(18), x >> 3)
  }

  function SmallSigma1(x: Word): Word
  {
    Xor3(x.RotateRight(17), x.RotateRight(19), x >> 10)
  }

  // ------------------------------------------------------- section 5.1.1

  /** `n` in base 256, most significant byte first, on `k` bytes. */
  function BigEndian(n: nat, k: nat): (bs: seq<Byte>)
    ensures |bs| == k
  {
    if k == 0 then [] else BigEndian(n / 256, k - 1) + [(n % 256) as Byte]
  }

  /** How many zero bytes follow the byte 0x80. */
  function ZeroCount(n: nat): (z: nat)
    ensures (n + 1 + z) % 64 == 56
  {
    (119 - n % 64) % 64
  }

  lemma FillsBlock(x: nat)
    requires x % 64 == 56
    ensures (x + 8) % 64 == 0
  {
  }

  function Zeros(n: nat): seq<Byte>
  {
    seq(n, _ => 0)
  }

  function Pad(message: seq<Byte>): (padded: seq<Byte>)
    ensures |padded| % 64 == 0
  {
    FillsBlock(|message| + 1 + ZeroCount(|message|));
    message + [0x80] + Zeros(ZeroCount(|message|)) + BigEndian(8 * |message|, 8)
  }

  // ------------------------------------------------------- section 6.2.2

  function WordOf(b0: Byte, b1: Byte, b2: Byte, b3: Byte): Word
  {
    (b0 as bv32 << 24) | (b1 as bv32 << 16) | (b2 as bv32 << 8) | (b3 as bv32)
  }

  /** The sum that extends the schedule. */
  function Sum4(a: Word, b: Word, c: Word, d: Word): Word
  {
    a + b + c + d
  }

  /** The message schedule of one block. */
  function Schedule(block: seq<Byte>, t: nat): Word
    requires |block| == 64
  {
    if t < 16 then WordOf(block[4 * t], block[4 * t + 1], block[4 * t + 2], block[4 * t + 3])
    else
      Sum4(SmallSigma1(Schedule(block, t - 2)), Schedule(block, t - 7),
           SmallSigma0(Schedule(block, t - 15)), Schedule(block, t - 16))
  }

  function Round(r: Regs, k: Word, w: Word): Regs
  {
    var t1 := Plus(Plus(Plus(Plus(r.h, BigSigma1(r.e)), Ch(r.e, r.f, r.g)), k), w);
    var t2 := Plus(BigSigma0(r.a), Maj(r.a, r.b, r.c));
    Regs(Plus(t1, t2), r.a, r.b, r.c, Plus(r.d, t1), r.e, r.f, r.g)
  }

  /** The working variables after `t` rounds on one block. */
  function Rounds(r: Regs, block: seq<Byte>, t: nat): Regs
    requires |block| == 64 && t <= 64
  {
    if t == 0 then r else Round(Rounds(r, block, t - 1), K(t - 1), Schedule(block, t - 1))
  }

  function Add(r: Regs, s: Regs): Regs
  {
    Regs(Plus(r.a, s.a), Plus(r.b, s.b), Plus(r.c, s.c), Plus(r.d, s.d),
         Plus(r.e, s.e), Plus(r.f, s.f), Plus(r.g, s.g), Plus(r.h, s.h))
  }

  function Compress(r: Regs, block: seq<Byte>): Regs
    requires |block| == 64
  {
    Add(r, Rounds(r, block, 64))
  }

  /** The hash value after the first `n` blocks of a padded message. */
  function HashBlocks(padded: seq<Byte>, n: nat): Regs
    requires 64 * n <= |padded|
  {
    if n == 0 then H0 else Compress(HashBlocks(padded, n - 1), padded[64 * (n - 1)..64 * n])
  }

  function Digest(message: seq<Byte>): Regs
  {
    HashBlocks(Pad(message), |Pad(message)| / 64)
  }

  // --------------------------------------------------------- the padding

  /** No fewer zeros would fill the block. */
  lemma ZeroCountLeast(n: nat, z: nat)
    requires (n + 1 + z) % 64 == 56
    ensures ZeroCount(n) <= z
  {
  }

  function FromBigEndian(bs: seq<Byte>): nat
  {
    if bs == [] then 0 else 256 * FromBigEndian(bs[..|bs| - 1]) + bs[|bs| - 1] as int
  }

  function Pow256(k: nat): (p: nat)
    ensures p > 0
  {
    if k == 0 then 1 else 256 * Pow256(k - 1)
  }

  lemma {:induction false} BigEndianExact(n: nat, k: nat)
    requires n < Pow256(k)
    ensures FromBigEndian(BigEndian(n, k)) == n
    decreases k
  {
    if k == 0 {
    } else {
      BigEndianExact(n / 256, k - 1);
      assert BigEndian(n, k)[..k - 1] == BigEndian(n / 256, k - 1);
    }
  }

  /** Messages that differ are padded differently: the length field tells them apart. */
  lemma PadInjective(m1: seq<Byte>, m2: seq<Byte>)
    requires Pad(m1) == Pad(m2) && 8 * |m1| < Pow256(8) && 8 * |m2| < Pow256(8)
    ensures m1 == m2
  {
    var p1, p2 := Pad(m1), Pad(m2);
    assert p1[|p1| - 8..] == BigEndian(8 * |m1|, 8);
    assert p2[|p2| - 8..] == BigEndian(8 * |m2|, 8);
    BigEndianExact(8 * |m1|, 8);
    BigEndianExact(8 * |m2|, 8);
    assert m1 == p1[..|m1|] == p2[..|m2|] == m2;
  }
}
