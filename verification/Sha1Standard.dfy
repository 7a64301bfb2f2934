/** The Secure Hash Standard, FIPS PUB 180-1: sections 3 (operations), 4 (padding), 5 to 6 (functions and constants)
    and 7 (the digest), for messages of whole bytes. */
module Sha1Standard {
  import opened Blocks
  import opened Sequences

  type Byte = bv8
  type Word = bv32

  type Block = s: seq<Byte> | |s| == 64 witness seq(64, _ => 0)
  type Hash = h: seq<Word> | |h| == 5 witness seq(5, _ => 0)

  // Section 7: the initial values.
  const H0: Hash := [0x67452301, 0xEFCDAB89, 0x98BADCFE, 0x10325476, 0xC3D2E1F0]

  // ---- Section 4: padding ----

  function LowByte(n: nat): Byte {
    (n % 256) as bv8
  }

  // The eight bytes of a 64-bit number, most significant first.
  function BigEndian64(n: nat): (r: seq<Byte>)
    ensures |r| == 8
  {
    [LowByte(n / 0x100_0000_0000_0000), LowByte(n / 0x1_0000_0000_0000), LowByte(n / 0x100_0000_0000),
     LowByte(n / 0x1_0000_0000), LowByte(n / 0x100_0000), LowByte(n / 0x1_0000), LowByte(n / 0x100), LowByte(n)]
  }

  // How many zero bytes follow the byte 0x80.
  function PadZeros(n: nat): nat {
    (119 - n % 64) % 64
  }

  function Pad(msg: seq<Byte>): (r: seq<Byte>)
    ensures |r| % 64 == 0
  {
    PadZerosFit(|msg|);
    msg + [0x80] + Repeat<Byte>(0, PadZeros(|msg|)) + BigEndian64(8 * |msg|)
  }

  lemma PadZerosCases(n: nat, k: nat)
    requires n % 64 == 0 && k < 64
    ensures PadZeros(n + k) == if k <= 55 then 55 - k else 63 - k + 56
  {}

  lemma ZerosConcat(j: nat, k: nat)
    ensures Repeat<Byte>(0, j) + Repeat<Byte>(0, k) == Repeat<Byte>(0, j + k)
  {}

  lemma Grouped(a: seq<Byte>, b: seq<Byte>, c: seq<Byte>, d: seq<Byte>, e: seq<Byte>)
    ensures a + b + c + d + e == a + (b + c + d + e) == a + (b + c + d) + e
  {}

  // The padded message from the last partial block on: one block if the length still fits behind it, else two.
  lemma PadBlocks(whole: seq<Byte>, tail: seq<Byte>)
    requires |whole| % 64 == 0 && |tail| < 64
    ensures var k, msg := |tail|, whole + tail;
      var bits := BigEndian64(8 * |msg|);
      && (k <= 55 ==> Pad(msg) == whole + (tail + [0x80] + Repeat<Byte>(0, 55 - k) + bits))
      && (k > 55 ==> Pad(msg) == whole + (tail + [0x80] + Repeat<Byte>(0, 63 - k)) + (Repeat<Byte>(0, 56) + bits))
  {
    hide BigEndian64, Repeat, PadZeros, Pad;
    PadZerosCases(|whole|, |tail|);
    if |tail| <= 55 {
      PadOne(whole, tail, 55 - |tail|);
    } else {
      PadTwo(whole, tail, 63 - |tail|);
    }
  }

  lemma PadOne(whole: seq<Byte>, tail: seq<Byte>, zeros: nat)
    requires PadZeros(|whole + tail|) == zeros
    ensures Pad(whole + tail) ==
      whole + (tail + [0x80] + Repeat<Byte>(0, zeros) + BigEndian64(8 * |whole + tail|))
  {
    hide BigEndian64, Repeat, PadZeros;
    Grouped(whole, tail, [0x80], Repeat<Byte>(0, zeros), BigEndian64(8 * |whole + tail|));
  }

  lemma PadTwo(whole: seq<Byte>, tail: seq<Byte>, zeros: nat)
    requires PadZeros(|whole + tail|) == zeros + 56
    ensures Pad(whole + tail) ==
      whole + (tail + [0x80] + Repeat<Byte>(0, zeros)) + (Repeat<Byte>(0, 56) + BigEndian64(8 * |whole + tail|))
  {
    hide BigEndian64, Repeat, PadZeros;
    var bits := BigEndian64(8 * |whole + tail|);
    var front, some, more := whole + tail + [0x80], Repeat<Byte>(0, zeros), Repeat<Byte>(0, 56);
    ZerosConcat(zeros, 56);
    Grouped(whole, tail, [0x80], some, more + bits);
    assert front + (some + more) + bits == front + some + (more + bits);
  }

  lemma PadZerosFit(n: nat)
    ensures (n + 1 + PadZeros(n) + 8) % 64 == 0
  {
    PadZerosCases(n - n % 64, n % 64);
    assert n == 64 * (n / 64) + n % 64;
  }

  // The padding is the shortest that leaves exactly eight bytes of a block.
  lemma PadZerosLeast(n: nat, z: nat)
    requires (n + 1 + z) % 64 == 56
    ensures PadZeros(n) <= z && (n + 1 + PadZeros(n)) % 64 == 56
  {
    assert z >= 64 || z == PadZeros(n);
  }

  // Byte by byte: the message, a one bit, zeros, and the length in bits, its high-order byte first.
  lemma PadAt(msg: seq<Byte>, i: nat)
    requires i < |Pad(msg)|
    ensures var p, n, at := Pad(msg), |msg|, |Pad(msg)| - 8;
      && n < at <= n + 64 && (i < n ==> p[i] == msg[i]) && (i == n ==> p[i] == 0x80) && (n < i < at ==> p[i] == 0)
      && (i >= at ==> p[i] == (8 * n / [0x100_0000_0000_0000, 0x1_0000_0000_0000, 0x100_0000_0000, 0x1_0000_0000,
                                0x100_0000, 0x1_0000, 0x100, 1][i - at] % 256) as bv8)
  {
    hide BigEndian64;
    var at := |Pad(msg)| - 8;
    if i >= at {
      BigEndian64At(8 * |msg|, i - at);
    }
  }

  lemma BigEndian64At(n: nat, i: nat)
    requires i < 8
    ensures BigEndian64(n)[i] == (n / [0x100_0000_0000_0000, 0x1_0000_0000_0000, 0x100_0000_0000, 0x1_0000_0000,
                                      0x100_0000, 0x1_0000, 0x100, 1][i] % 256) as bv8
  {
    hide LowByte;
    var q := n / [0x100_0000_0000_0000, 0x1_0000_0000_0000, 0x100_0000_0000, 0x1_0000_0000, 0x100_0000, 0x1_0000,
                  0x100, 1][i];
    assert BigEndian64(n)[i] == LowByte(q);
    LowByteOf(q);
  }

  lemma LowByteOf(n: nat)
    ensures LowByte(n) == (n % 256) as bv8
  {}

  // ---- Sections 3, 5, 6 and 7: one block ----

  // Section 3: addition modulo 2^32.
  function Plus(x: Word, y: Word): Word {
    x + y
  }

  function Choose(b: Word, c: Word, d: Word): Word {
    (b & c) | (!b & d)
  }

  function Parity(b: Word, c: Word, d: Word): Word {
    b ^ c ^ d
  }

  function Majority(b: Word, c: Word, d: Word): Word {
    (b & c) | (b & d) | (c & d)
  }

  function F(t: nat, b: Word, c: Word, d: Word): Word {
    if t < 20 then Choose(b, c, d)
    else if t < 40 then Parity(b, c, d)
    else if t < 60 then Majority(b, c, d)
    else Parity(b, c, d)
  }

  function K(t: nat): Word {
    if t < 20 then 0x5A827999 else if t < 40 then 0x6ED9EBA1 else if t < 60 then 0x8F1BBCDC else 0xCA62C1D6
  }

  // The word whose bytes, most significant first, are given.
  function WordOf(b0: Byte, b1: Byte, b2: Byte, b3: Byte): Word {
    b0 as bv32 * 0x1000000 + b1 as bv32 * 0x10000 + b2 as bv32 * 0x100 + b3 as bv32
  }

  function W(block: Block, t: nat): Word {
    if t < 16 then WordOf(block[4 * t], block[4 * t + 1], block[4 * t + 2], block[4 * t + 3])
    else (W(block, t - 3) ^ W(block, t - 8) ^ W(block, t - 14) ^ W(block, t - 16)).RotateLeft(1)
  }

  datatype Registers = Registers(a: Word, b: Word, c: Word, d: Word, e: Word)

  function Round(t: nat, r: Registers, w: Word): Registers {
    var temp := Plus(Plus(Plus(Plus(r.a.RotateLeft(5), F(t, r.b, r.c, r.d)), r.e), w), K(t));
    Registers(temp, r.a, r.b.RotateLeft(30), r.c, r.d)
  }

  // The registers after the first t rounds.
  function Rounds(block: Block, r: Registers, t: nat): Registers {
    if t == 0 then r else Round(t - 1, Rounds(block, r, t - 1), W(block, t - 1))
  }

  lemma FK(t: nat, b: Word, c: Word, d: Word)
    ensures t < 20 ==> F(t, b, c, d) == Choose(b, c, d) && K(t) == 0x5A827999
    ensures 20 <= t < 40 ==> F(t, b, c, d) == Parity(b, c, d) && K(t) == 0x6ED9EBA1
    ensures 40 <= t < 60 ==> F(t, b, c, d) == Majority(b, c, d) && K(t) == 0x8F1BBCDC
    ensures 60 <= t ==> F(t, b, c, d) == Parity(b, c, d) && K(t) == 0xCA62C1D6
  {
    hide Choose, Parity, Majority;
  }

  lemma NoRounds(block: Block, r: Registers)
    ensures Rounds(block, r, 0) == r
  {}

  lemma NextRound(block: Block, r: Registers, t: nat)
    ensures Rounds(block, r, t + 1) == Round(t, Rounds(block, r, t), W(block, t))
  {}

  function Compress(h: Hash, block: Block): Hash {
    var r := Rounds(block, Registers(h[0], h[1], h[2], h[3], h[4]), 80);
    [Plus(h[0], r.a), Plus(h[1], r.b), Plus(h[2], r.c), Plus(h[3], r.d), Plus(h[4], r.e)]
  }

  // ---- Section 7: the whole message, block by block ----

  function Fold(h: Hash, bytes: seq<Byte>): Hash
    requires |bytes| % 64 == 0
    decreases |bytes|
  {
    if bytes == [] then h else Fold(Compress(h, bytes[..64]), bytes[64..])
  }

  function Digest(msg: seq<Byte>): Hash {
    Fold(H0, Pad(msg))
  }

  lemma {:induction false} FoldAppend(h: Hash, a: seq<Byte>, b: seq<Byte>)
    requires |a| % 64 == 0 && |b| % 64 == 0
    ensures |a + b| % 64 == 0 && Fold(h, a + b) == Fold(Fold(h, a), b)
    decreases |a|
  {
    hide Compress;
    Multiples(|a|, |b|);
    if a == [] {
      assert a + b == b;
    } else {
      Multiples(|a|, -64);
      assert (a + b)[..64] == a[..64] && (a + b)[64..] == a[64..] + b;
      FoldAppend(Compress(h, a[..64]), a[64..], b);
    }
  }

  lemma FoldBlock(h: Hash, a: seq<Byte>, block: Block)
    requires |a| % 64 == 0
    ensures |a + block| % 64 == 0 && Fold(h, a + block) == Compress(Fold(h, a), block)
  {
    FoldAppend(h, a, block);
    assert block[..64] == block && block[64..] == [];
    assert Fold(Compress(Fold(h, a), block), []) == Compress(Fold(h, a), block);
  }
}
