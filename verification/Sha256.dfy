/**
 The in-place SHA-256 of LucairnSha256.js, proved equal to the recursive
 definition in `Sha256Spec`, and the hex text it returns.

 A JavaScript number after `>>> 0` is an unsigned 32-bit value, so the words
 are `bv32`; the two length words stay numbers until they are cut into bytes.
 */
module Sha256 {
  import opened Sha256Spec
  import Utf8

  /** The largest number of elements a JavaScript array can have, plus one. */
  const ARRAY_LIMIT := 0x1_0000_0000

  // ------------------------------------------------------------ bit tricks

  function Rotr(x: Word, n: bv6): Word
    requires n <= 32
  {
    (x >> n) | (x << (32 - n))
  }

  lemma Rotr2(x: Word)
    ensures Rotr(x, 2) == x.RotateRight(2)
  {
  }

  lemma Rotr6(x: Word)
    ensures Rotr(x, 6) == x.RotateRight(6)
  {
  }

  lemma Rotr7(x: Word)
    ensures Rotr(x, 7) == x.RotateRight(7)
  {
  }

  lemma Rotr11(x: Word)
    ensures Rotr(x, 11) == x.RotateRight(11)
  {
  }

  lemma Rotr13(x: Word)
    ensures Rotr(x, 13) == x.RotateRight(13)
  {
  }

  lemma Rotr17(x: Word)
    ensures Rotr(x, 17) == x.RotateRight(17)
  {
  }

  lemma Rotr18(x: Word)
    ensures Rotr(x, 18) == x.RotateRight(18)
  {
  }

  lemma Rotr19(x: Word)
    ensures Rotr(x, 19) == x.RotateRight(19)
  {
  }

  lemma Rotr22(x: Word)
    ensures Rotr(x, 22) == x.RotateRight(22)
  {
  }

  lemma Rotr25(x: Word)
    ensures Rotr(x, 25) == x.RotateRight(25)
  {
  }

  lemma RotrSmall0(x: Word)
    ensures Xor3(Rotr(x, 7), Rotr(x, 18), x >> 3) == SmallSigma0(x)
  {
    hide Rotr, Xor3;
    Rotr7(x);
    Rotr18(x);
  }

  lemma RotrSmall1(x: Word)
    ensures Xor3(Rotr(x, 17), Rotr(x, 19), x >> 10) == SmallSigma1(x)
  {
    hide Rotr, Xor3;
    Rotr17(x);
    Rotr19(x);
  }

  lemma RotrBig0(x: Word)
    ensures Xor3(Rotr(x, 2), Rotr(x, 13), Rotr(x, 22)) == BigSigma0(x)
  {
    hide Rotr, Xor3;
    Rotr2(x);
    Rotr13(x);
    Rotr22(x);
  }

  lemma RotrBig1(x: Word)
    ensures Xor3(Rotr(x, 6), Rotr(x, 11), Rotr(x, 25)) == BigSigma1(x)
  {
    hide Rotr, Xor3;
    Rotr6(x);
    Rotr11(x);
    Rotr25(x);
  }

  // --------------------------------------------------------------- padding

  /** `(x >>> 8 * i) & 0xff` of a number below 2^32. */
  function ByteOf(x: nat, i: nat): Byte
    requires i <= 3
  {
    var shifted := if i == 3 then x / 0x1000000 else if i == 2 then x / 0x10000 else if i == 1 then x / 0x100 else x;
    (shifted % 256) as Byte
  }

  function FourBytes(x: nat): seq<Byte>
  {
    [ByteOf(x, 3), ByteOf(x, 2), ByteOf(x, 1), ByteOf(x, 0)]
  }

  lemma FourBytesAreBigEndian(x: nat)
    ensures FourBytes(x) == BigEndian(x, 4)
  {
    DivideTwice(x);
    BigEndianStep(x, 3);
    BigEndianStep(x / 0x100, 2);
    BigEndianStep(x / 0x10000, 1);
    BigEndianStep(x / 0x1000000, 0);
  }

  lemma BigEndianStep(n: nat, k: nat)
    ensures BigEndian(n, k + 1) == BigEndian(n / 256, k) + [(n % 256) as Byte]
  {
  }

  lemma DivideTwice(x: nat)
    ensures x / 0x100 / 256 == x / 0x10000 && x / 0x10000 / 256 == x / 0x1000000
    ensures x / 0x1000000 / 256 == x / 0x1_0000_0000
  {
  }

  /** Cutting a number at a byte: the quotient carries the upper part, the remainder does not see it. */
  lemma CutByte(n: nat, z: nat, m: nat)
    requires n == 256 * z + m
    ensures n / 256 == z + m / 256 && n % 256 == m % 256
  {
  }

  /** The upper and the lower bytes of a number. */
  lemma {:induction false} BigEndianSplit(q: nat, m: nat, k: nat, j: nat)
    requires m < Pow256(j)
    ensures Pow256(j) * q + m >= 0
    ensures BigEndian(Pow256(j) * q + m, k + j) == BigEndian(q, k) + BigEndian(m, j)
    decreases j
  {
    hide BigEndian;
    if j == 0 {
      BigEndianNone(m);
    } else {
      var z := Pow256(j - 1) * q;
      Regroup256(Pow256(j - 1), q);
      CutByte(256 * z + m, z, m);
      BigEndianSplit(q, m / 256, k, j - 1);
      BigEndianStep(256 * z + m, k + j - 1);
      BigEndianStep(m, j - 1);
    }
  }

  lemma Regroup256(p: nat, q: nat)
    ensures (256 * p) * q == 256 * (p * q) && p * q >= 0
  {
  }

  lemma BigEndianNone(n: nat)
    ensures BigEndian(n, 0) == []
  {
  }

  lemma BitLength(len: nat)
    ensures len / 0x20000000 * 0x1_0000_0000 + len * 8 % 0x1_0000_0000 == 8 * len
  {
  }

  lemma Pow256Of4()
    ensures Pow256(4) == 0x1_0000_0000
  {
    assert Pow256(2) == 0x10000;
  }

  /** The two length words of the code are the 64-bit length of the message in bits. */
  lemma LengthWords(len: nat)
    requires len < ARRAY_LIMIT
    ensures var hi, lo := len / 0x20000000, len * 8 % 0x1_0000_0000;
            && hi * 0x1_0000_0000 + lo == 8 * len
            && FourBytes(hi) + FourBytes(lo) == BigEndian(8 * len, 8)
  {
    hide BigEndian, Pow256, FourBytes;
    var hi, lo := len / 0x20000000, len * 8 % 0x1_0000_0000;
    BitLength(len);
    Pow256Of4();
    BigEndianSplit(hi, lo, 4, 4);
    FourBytesAreBigEndian(hi);
    FourBytesAreBigEndian(lo);
  }

  /** The four pushes of one length word. */
  method PushWord(msg0: seq<Byte>, x: nat) returns (msg: seq<Byte>)
    ensures msg == msg0 + FourBytes(x)
  {
    hide ByteOf;
    msg := msg0 + [ByteOf(x, 3)];
    msg := msg + [ByteOf(x, 2)];
    msg := msg + [ByteOf(x, 1)];
    msg := msg + [ByteOf(x, 0)];
  }

  method PadMessage(bytes: seq<Byte>) returns (msg: seq<Byte>)
    requires |bytes| < ARRAY_LIMIT
    ensures msg == Pad(bytes)
  {
    hide BigEndian, ZeroCount, FourBytes;
    msg := bytes;
    var bitLenHi := |bytes| / 0x20000000;
    var bitLenLo := |bytes| * 8 % 0x1_0000_0000;
    msg := msg + [0x80];
    ghost var zeros := 0;
    while |msg| % 64 != 56
      invariant zeros <= ZeroCount(|bytes|) && msg == bytes + [0x80] + Zeros(zeros)
      decreases ZeroCount(|bytes|) - zeros
    {
      msg := msg + [0x00];
      zeros := zeros + 1;
    }
    ZeroCountLeast(|bytes|, zeros);
    LengthWords(|bytes|);
    ghost var front := msg;
    msg := PushWord(msg, bitLenHi);
    msg := PushWord(msg, bitLenLo);
    assert msg == front + (FourBytes(bitLenHi) + FourBytes(bitLenLo));
  }

  // ----------------------------------------------------------- one block

  /** Fills `w` from the block of `msg` at `block`, sixteen words read and the rest derived. */
  method FillSchedule(msg: seq<Byte>, block: nat, w: array<Word>)
    requires block + 64 <= |msg| && w.Length == 64
    modifies w
    ensures forall t :: 0 <= t < 64 ==> w[t] == Schedule(msg[block..block + 64], t)
  {
    hide WordOf, Sum4, SmallSigma0, SmallSigma1, Schedule;
    ghost var b := msg[block..block + 64];
    for i := 0 to 16
      invariant forall t :: 0 <= t < i ==> w[t] == Schedule(b, t)
    {
      ScheduleRead(b, i);
      w[i] := WordOf(msg[block + i * 4], msg[block + i * 4 + 1], msg[block + i * 4 + 2], msg[block + i * 4 + 3]);
    }
    for i := 16 to 64
      invariant forall t :: 0 <= t < i ==> w[t] == Schedule(b, t)
    {
      ScheduleStep(b, i);
      w[i] := ExtendWord(w[i - 2], w[i - 7], w[i - 15], w[i - 16]);
    }
  }

  method ExtendWord(w2: Word, w7: Word, w15: Word, w16: Word) returns (w: Word)
    ensures w == Sum4(SmallSigma1(w2), w7, SmallSigma0(w15), w16)
  {
    hide SmallSigma0, SmallSigma1, Rotr, Xor3, Sum4;
    RotrSmall0(w15);
    RotrSmall1(w2);
    var s0 := Xor3(Rotr(w15, 7), Rotr(w15, 18), w15 >> 3);
    var s1 := Xor3(Rotr(w2, 17), Rotr(w2, 19), w2 >> 10);
    SumOrder(w16, s0, w7, s1);
    w := (w16 + s0) + (w7 + s1);
  }

  lemma SumOrder(a: Word, b: Word, c: Word, d: Word)
    ensures (a + b) + (c + d) == Sum4(d, c, b, a)
  {
  }

  lemma ScheduleRead(b: seq<Byte>, t: nat)
    requires |b| == 64 && t < 16
    ensures Schedule(b, t) == WordOf(b[4 * t], b[4 * t + 1], b[4 * t + 2], b[4 * t + 3])
  {
    hide WordOf;
  }

  lemma ScheduleStep(b: seq<Byte>, t: nat)
    requires |b| == 64 && 16 <= t < 64
    ensures Schedule(b, t)
         == Sum4(SmallSigma1(Schedule(b, t - 2)), Schedule(b, t - 7),
                 SmallSigma0(Schedule(b, t - 15)), Schedule(b, t - 16))
  {
    hide Sum4, WordOf, SmallSigma0, SmallSigma1;
  }

  ghost function RegsOf(h: seq<Word>): Regs
    requires |h| == 8
  {
    Regs(h[0], h[1], h[2], h[3], h[4], h[5], h[6], h[7])
  }

  /** The body of the round loop, on the eight working variables. */
  method OneRound(r: Regs, k: Word, w: Word) returns (r': Regs)
    ensures r' == Round(r, k, w)
  {
    hide BigSigma0, BigSigma1, Ch, Maj, Rotr, Xor3, Plus;
    var a, b, c, d := r.a, r.b, r.c, r.d;
    var e, f, g, hh := r.e, r.f, r.g, r.h;
    RotrBig1(e);
    RotrBig0(a);
    ChMaj(e, f, g);
    ChMaj(a, b, c);
    var bigS1 := Xor3(Rotr(e, 6), Rotr(e, 11), Rotr(e, 25));
    var ch := (e & f) ^ (!e & g);
    var temp1 := Plus(hh, bigS1);
    temp1 := Plus(temp1, ch);
    temp1 := Plus(temp1, k);
    temp1 := Plus(temp1, w);
    var bigS0 := Xor3(Rotr(a, 2), Rotr(a, 13), Rotr(a, 22));
    var maj := Xor3(a & b, a & c, b & c);
    var temp2 := Plus(bigS0, maj);
    hh := g;
    g := f;
    f := e;
    e := Plus(d, temp1);
    d := c;
    c := b;
    b := a;
    a := Plus(temp1, temp2);
    r' := Regs(a, b, c, d, e, f, g, hh);
  }

  /** The rounds of one block, and the additions to the hash value. */
  method CompressBlock(ghost block: seq<Byte>, w: array<Word>, h: array<Word>)
    requires |block| == 64 && w.Length == 64 && h.Length == 8 && w != h
    requires forall t :: 0 <= t < 64 ==> w[t] == Schedule(block, t)
    modifies h
    ensures RegsOf(h[..]) == Compress(old(RegsOf(h[..])), block)
  {
    hide Schedule, Rounds, Round, K, Plus;
    var r := Regs(h[0], h[1], h[2], h[3], h[4], h[5], h[6], h[7]);
    ghost var start := r;
    RoundsStart(start, block);
    for i := 0 to 64
      invariant r == Rounds(start, block, i)
      invariant h[..] == old(h[..])
    {
      RoundsStep(start, block, i);
      r := OneRound(r, K(i), w[i]);
    }
    h[0] := Plus(h[0], r.a);
    h[1] := Plus(h[1], r.b);
    h[2] := Plus(h[2], r.c);
    h[3] := Plus(h[3], r.d);
    h[4] := Plus(h[4], r.e);
    h[5] := Plus(h[5], r.f);
    h[6] := Plus(h[6], r.g);
    h[7] := Plus(h[7], r.h);
  }

  lemma RoundsStart(r: Regs, block: seq<Byte>)
    requires |block| == 64
    ensures Rounds(r, block, 0) == r
  {
  }

  lemma RoundsStep(r: Regs, block: seq<Byte>, t: nat)
    requires |block| == 64 && t < 64
    ensures Rounds(r, block, t + 1) == Round(Rounds(r, block, t), K(t), Schedule(block, t))
  {
    hide Round, K, Schedule;
  }

  lemma ChMaj(x: Word, y: Word, z: Word)
    ensures (x & y) ^ (!x & z) == Ch(x, y, z)
    ensures Xor3(x & y, x & z, y & z) == Maj(x, y, z)
  {
  }

  // ------------------------------------------------------------------- hex

  function HexDigit(d: nat): (c: char)
    requires d < 16
  {
    "0123456789abcdef"[d]
  }

  /** Exactly `k` hex digits of `n`, most significant first. */
  function Hex(n: nat, k: nat): (s: string)
    ensures |s| == k
  {
    if k == 0 then "" else Hex(n / 16, k - 1) + [HexDigit(n % 16)]
  }

  /** `toString(16)`: no leading zeros. */
  function ToString16(n: nat): (s: string)
    ensures |s| >= 1
  {
    if n < 16 then [HexDigit(n)] else ToString16(n / 16) + [HexDigit(n % 16)]
  }

  function Pow16(k: nat): (p: nat)
    ensures p > 0
  {
    if k == 0 then 1 else 16 * Pow16(k - 1)
  }

  function ZeroChars(n: nat): string
  {
    seq(n, _ => '0')
  }

  lemma {:induction false} HexOfZero(k: nat)
    ensures Hex(0, k) == ZeroChars(k)
  {
    if k == 0 {
    } else {
      HexOfZero(k - 1);
    }
  }

  lemma {:induction false} PaddedHex(n: nat, k: nat)
    requires n < Pow16(k) && k > 0
    ensures |ToString16(n)| <= k
    ensures ZeroChars(k - |ToString16(n)|) + ToString16(n) == Hex(n, k)
    decreases k
  {
    if n < 16 {
      HexOfZero(k - 1);
    } else {
      PaddedHex(n / 16, k - 1);
    }
  }

  method ToHex32(x: Word) returns (hex: string)
    ensures hex == HexOfWord(x)
  {
    hide ToString16, Hex;
    var n := x as nat;
    assert Pow16(8) == 0x1_0000_0000 by {
      assert Pow16(2) == 256;
      assert Pow16(4) == 65536;
    }
    PaddedHex(n, 8);
    hex := ToString16(n);
    ghost var added := 0;
    while |hex| < 8
      invariant added <= 8 - |ToString16(n)| && hex == ZeroChars(added) + ToString16(n)
      decreases 8 - |hex|
    {
      hex := "0" + hex;
      added := added + 1;
    }
  }

  function HexOfWord(w: Word): (s: string)
    ensures |s| == 8
  {
    Hex(w as nat, 8)
  }

  function HexOf(r: Regs): (s: string)
    ensures |s| == 64
  {
    HexOfWord(r.a) + HexOfWord(r.b) + HexOfWord(r.c) + HexOfWord(r.d)
    + HexOfWord(r.e) + HexOfWord(r.f) + HexOfWord(r.g) + HexOfWord(r.h)
  }

  /** `hexOfBytes`: the FIPS 180-4 digest, in lower-case hex. */
  method HexOfBytes(bytes: seq<Byte>) returns (hex: string)
    requires |bytes| < ARRAY_LIMIT
    ensures hex == HexOf(Digest(bytes))
  {
    hide Pad, Compress, HexOf;
    var h := new Word[8] [0x6a09e667, 0xbb67ae85, 0x3c6ef372, 0xa54ff53a,
                          0x510e527f, 0x9b05688c, 0x1f83d9ab, 0x5be0cd19];
    var msg := PadMessage(bytes);
    var w := new Word[64];
    var block := 0;
    while block < |msg|
      invariant block <= |msg| && block % 64 == 0
      invariant RegsOf(h[..]) == HashBlocks(msg, block / 64)
    {
      FillSchedule(msg, block, w);
      CompressBlock(msg[block..block + 64], w, h);
      block := block + 64;
    }
    hex := HexOfHash(h);
  }

  method HexOfHash(h: array<Word>) returns (hex: string)
    requires h.Length == 8
    ensures hex == HexOf(RegsOf(h[..]))
  {
    hide HexOfWord;
    var a := ToHex32(h[0]);
    var b := ToHex32(h[1]);
    var c := ToHex32(h[2]);
    var d := ToHex32(h[3]);
    var e := ToHex32(h[4]);
    var f := ToHex32(h[5]);
    var g := ToHex32(h[6]);
    var hh := ToHex32(h[7]);
    hex := a + b + c + d + e + f + g + hh;
  }

  /** The encoder's bytes as the numbers 0 to 255 they are in the script. */
  function Octets(bs: seq<Utf8.Byte>): (os: seq<Byte>)
    ensures |os| == |bs|
  {
    seq(|bs|, k requires 0 <= k < |bs| => Octet(bs[k]))
  }

  function Octet(b: Utf8.Byte): Byte
  {
    b as nat as Byte
  }

  /** `wireOfUtf8`: what the certificate is bound to. */
  method WireOfUtf8(str: seq<Utf8.Unit>) returns (wire: string)
    requires |Utf8.Bytes(str)| < ARRAY_LIMIT
    ensures wire == "sha256:" + HexOf(Digest(Octets(Utf8.Bytes(str))))
  {
    var bytes := Utf8.Utf8Bytes(str);
    var hex := HexOfBytes(Octets(bytes));
    wire := "sha256:" + hex;
  }
}
