/** Bytes and 32-bit words as bounded integers; shifts and masks by powers of two are division and remainder. */
module Bytes {
  import opened Powers

  type Byte = x: int | 0 <= x < 256 witness 0

  type Word = x: int | 0 <= x < TWO32 witness 0

  // The k low-order bytes of n, least significant first.
  function LittleEndian(n: nat, k: nat): (r: seq<Byte>)
    ensures |r| == k
  {
    if k == 0 then [] else [n % 256] + LittleEndian(n / 256, k - 1)
  }

  function ReadLittleEndian(s: seq<Byte>): nat {
    if s == [] then 0 else s[0] + 256 * ReadLittleEndian(s[1..])
  }

  function Pow256(k: nat): (p: nat)
    ensures p > 0
  {
    if k == 0 then 1 else 256 * Pow256(k - 1)
  }

  lemma {:induction false} LittleEndianValue(n: nat, k: nat)
    requires n < Pow256(k)
    ensures ReadLittleEndian(LittleEndian(n, k)) == n
  {
    if k > 0 {
      LittleEndianValue(n / 256, k - 1);
      assert LittleEndian(n, k)[1..] == LittleEndian(n / 256, k - 1);
    }
  }

  // Digit by digit.
  lemma LittleEndianTwo(n: nat)
    ensures LittleEndian(n, 2) == [n % 256, n / 0x100 % 256]
  {
    assert LittleEndian(n / 0x100, 1) == [n / 0x100 % 256] + LittleEndian(n / 0x100 / 256, 0);
  }

  lemma LittleEndianFour(n: nat)
    ensures LittleEndian(n, 4) == [n % 256, n / 0x100 % 256, n / 0x1_0000 % 256, n / 0x100_0000 % 256]
  {
    assert LittleEndian(n, 4) == [n % 256] + ([n / 0x100 % 256] + LittleEndian(n / 0x100 / 256, 2));
    assert n / 0x100 / 256 == n / 0x1_0000 && n / 0x1_0000 / 0x100 == n / 0x100_0000;
    LittleEndianTwo(n / 0x1_0000);
  }

  lemma LittleEndianEight(n: nat)
    ensures LittleEndian(n, 8) == LittleEndian(n, 4) + LittleEndian(n / 0x1_0000_0000, 4)
  {
    hide LittleEndian, Pow256;
    Pow256Values();
    LowFour(n / 0x1_0000_0000, n % 0x1_0000_0000);
    LittleEndianConcat(n / 0x1_0000_0000, n % 0x1_0000_0000, 4, 4);
  }

  lemma LowFour(high: nat, low: nat)
    ensures LittleEndian(high * 0x1_0000_0000 + low, 4) == LittleEndian(low, 4)
  {
    var n, h := high * 0x1_0000_0000 + low, high * 0x100;
    LowDigit(h * 0x1_0000, low);
    LowDigit(h * 0x100, low / 0x100);
    LowDigit(h, low / 0x1_0000);
    LowDigit(high, low / 0x100_0000);
    hide LittleEndian;
    LittleEndianFour(low);
    LittleEndianFour(n);
    assert n / 0x100 / 256 == n / 0x1_0000 && n / 0x1_0000 / 256 == n / 0x100_0000;
  }

  lemma LowDigit(high: nat, low: nat)
    ensures (high * 256 + low) % 256 == low % 256 && (high * 256 + low) / 256 == high + low / 256
  {}

  lemma Pow256Values()
    ensures Pow256(0) == 1 && Pow256(1) == 0x100 && Pow256(2) == 0x1_0000 && Pow256(3) == 0x100_0000
    ensures Pow256(4) == 0x1_0000_0000 && Pow256(5) == 0x100_0000_0000 && Pow256(6) == 0x1_0000_0000_0000
    ensures Pow256(7) == 0x100_0000_0000_0000 && Pow256(8) == 0x1_0000_0000_0000_0000
  {
    assert Pow256(2) == 256 * Pow256(1) == 256 * (256 * Pow256(0));
    assert Pow256(4) == 256 * Pow256(3) == 256 * (256 * Pow256(2));
    assert Pow256(6) == 256 * Pow256(5) == 256 * (256 * Pow256(4));
    assert Pow256(8) == 256 * Pow256(7) == 256 * (256 * Pow256(6));
  }

  lemma ReadTwo(s: seq<Byte>)
    requires |s| == 2
    ensures ReadLittleEndian(s) == s[0] as int + 0x100 * s[1] as int
  {
    assert ReadLittleEndian(s[1..]) == s[1] + 256 * ReadLittleEndian([]);
  }

  lemma ReadFour(s: seq<Byte>)
    requires |s| == 4
    ensures ReadLittleEndian(s) ==
      s[0] as int + 0x100 * s[1] as int + 0x1_0000 * s[2] as int + 0x100_0000 * s[3] as int
  {
    assert ReadLittleEndian(s[1..]) == s[1] + 256 * ReadLittleEndian(s[2..]);
    ReadTwo(s[2..]);
  }

  // The low-order bytes come first.
  lemma {:induction false} LittleEndianConcat(high: nat, low: nat, j: nat, k: nat)
    requires low < Pow256(j)
    ensures LittleEndian(high * Pow256(j) + low, j + k) == LittleEndian(low, j) + LittleEndian(high, k)
  {
    if j > 0 {
      var m := high * Pow256(j - 1);
      assert high * Pow256(j) == 256 * m;
      assert (256 * m + low) % 256 == low % 256 && (256 * m + low) / 256 == m + low / 256;
      LittleEndianConcat(high, low / 256, j - 1, k);
    }
  }

  // Exclusive or of the k low-order bits.
  function XorBits(a: nat, b: nat, k: nat): (x: nat)
    ensures x < Pow2(k)
  {
    if k == 0 then 0 else (a + b) % 2 + 2 * XorBits(a / 2, b / 2, k - 1)
  }

  lemma {:induction false} XorBitsTwice(a: nat, b: nat, k: nat)
    requires a < Pow2(k)
    ensures XorBits(XorBits(a, b, k), b, k) == a
  {
    if k > 0 {
      XorBitsTwice(a / 2, b / 2, k - 1);
      var bit, rest := (a + b) % 2, XorBits(a / 2, b / 2, k - 1);
      Parity(a, b);
      LowBit(bit, rest, b);
      assert XorBits(a, b, k) == bit + 2 * rest;
    }
  }

  lemma Parity(a: nat, b: nat)
    ensures ((a + b) % 2 + b) % 2 == a % 2
  {}

  lemma LowBit(bit: nat, rest: nat, b: nat)
    requires bit < 2
    ensures (bit + 2 * rest) / 2 == rest && (bit + 2 * rest + b) % 2 == (bit + b) % 2
  {
    assert bit + 2 * rest + b == bit + b + 2 * rest;
  }

  lemma Byte8()
    ensures Pow2(8) == 256
  {
    assert Pow2(8) == 2 * (2 * Pow2(6)) == 4 * (2 * (2 * Pow2(4)));
  }

  function Xor(a: Byte, b: Byte): Byte {
    Byte8();
    XorBits(a, b, 8)
  }

  lemma XorTwice(a: Byte, b: Byte)
    ensures Xor(Xor(a, b), b) == a
  {
    Byte8();
    XorBitsTwice(a, b, 8);
  }

  // memcpy into a buffer
  method CopyIn(buffer: array<Byte>, pos: nat, data: seq<Byte>)
    requires pos + |data| <= buffer.Length
    modifies buffer
    ensures buffer[..pos] == old(buffer[..pos]) && buffer[pos..pos + |data|] == data
    ensures buffer[pos + |data|..] == old(buffer[pos + |data|..])
  {
    for i := 0 to |data|
      invariant buffer[..pos] == old(buffer[..pos]) && buffer[pos..pos + i] == data[..i]
      invariant buffer[pos + |data|..] == old(buffer[pos + |data|..])
    {
      buffer[pos + i] := data[i];
    }
  }
}
