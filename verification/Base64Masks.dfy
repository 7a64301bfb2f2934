/** The mask-and-shift expressions of base64.cpp on 8-bit words, where unsigned char truncates them, against the
    division and remainder that the printer and the parser are written with. */
module Base64Masks {
  import opened Base64
  import opened BitPatterns
  import opened Bytes

  // ---- The printer ----

  lemma Print0(a: bv8)
    ensures ((a & 0xfc) >> 2) as int == a as int / 4
  {
    Quotient4(a);
    assert (a & 0xfc) >> 2 == a / 4;
  }

  lemma Print1(a: bv8, b: bv8)
    ensures (((a & 0x03) << 4) + ((b & 0xf0) >> 4)) as int == a as int % 4 * 16 + b as int / 16
  {
    Split1(a, b);
    Remainder4(a);
    Quotient16(b);
    Sum16(a % 4, b / 16);
  }

  lemma Split1(a: bv8, b: bv8)
    ensures ((a & 0x03) << 4) + ((b & 0xf0) >> 4) == a % 4 * 16 + b / 16
    ensures a % 4 < 16 && b / 16 < 16
  {}

  lemma Print2(b: bv8, c: bv8)
    ensures (((b & 0x0f) << 2) + ((c & 0xc0) >> 6)) as int == b as int % 16 * 4 + c as int / 64
  {
    Split2(b, c);
    Remainder16(b);
    Quotient64(c);
    Sum4(b % 16, c / 64);
  }

  lemma Split2(b: bv8, c: bv8)
    ensures ((b & 0x0f) << 2) + ((c & 0xc0) >> 6) == b % 16 * 4 + c / 64
    ensures b % 16 < 64 && c / 64 < 4
  {}

  lemma Print3(c: bv8)
    ensures (c & 0x3f) as int == c as int % 64
  {
    Remainder64(c);
    assert c & 0x3f == c % 64;
  }

  // The four assignments of base64_encode cut 24 bits into the standard's groups of six, for all bytes.
  lemma MasksCut(a: bv8, b: bv8, c: bv8)
    ensures Sextets(a as int, b as int, c as int) ==
      [((a & 0xfc) >> 2) as int, (((a & 0x03) << 4) + ((b & 0xf0) >> 4)) as int,
       (((b & 0x0f) << 2) + ((c & 0xc0) >> 6)) as int, (c & 0x3f) as int]
  {
    hide Sextets;
    SextetsMasks(a as int, b as int, c as int);
    Print0(a);
    Print1(a, b);
    Print2(b, c);
    Print3(c);
  }

  // ---- The parser ----

  lemma Parse0(v: bv8, w: bv8)
    ensures ((v << 2) + ((w & 0x30) >> 4)) as int == Merge0(v as int, w as int)
  {
    ParseSplit0(v, w);
    Remainder64(v);
    Quotient16(w);
    Remainder4(w / 16);
    Sum4(v % 64, w / 16 % 4);
    Wrap4(v as int, w as int / 16 % 4);
  }

  lemma ParseSplit0(v: bv8, w: bv8)
    ensures (v << 2) + ((w & 0x30) >> 4) == v % 64 * 4 + w / 16 % 4
    ensures v % 64 < 64 && w / 16 % 4 < 4
  {}

  lemma Parse1(w: bv8, x: bv8)
    ensures (((w & 0xf) << 4) + ((x & 0x3c) >> 2)) as int == Merge1(w as int, x as int)
  {
    ParseSplit1(w, x);
    Remainder16(w);
    Quotient4(x);
    Remainder16(x / 4);
    Sum16(w % 16, x / 4 % 16);
    Small(w as int % 16 * 16 + x as int / 4 % 16);
  }

  lemma ParseSplit1(w: bv8, x: bv8)
    ensures ((w & 0xf) << 4) + ((x & 0x3c) >> 2) == w % 16 * 16 + x / 4 % 16
    ensures w % 16 < 16 && x / 4 % 16 < 16
  {}

  lemma Parse2(x: bv8, y: bv8)
    ensures (((x & 0x3) << 6) + y) as int == Merge2(x as int, y as int)
  {
    ParseSplit2(x, y);
    Remainder4(x);
    Remainder64(y);
    Quotient64(y);
    Joined(((x & 0x3) << 6) + y, x % 4, y / 64, y % 64, x as int, y as int);
  }

  lemma Joined(sum: bv8, p: bv8, q: bv8, r: bv8, x: Byte, y: Byte)
    requires p < 4 && q < 4 && r < 64 && sum == (p + q) % 4 * 64 + r
    requires p as int == x % 4 && q as int == y / 64 && r as int == y % 64
    ensures sum as int == Merge2(x, y)
  {
    var top := (p + q) % 4;
    assert top as int == (x % 4 + y / 64) % 4 by {
      SmallSum(p, q);
    }
    JoinedNumbers(sum, top, r, x, y);
  }

  lemma JoinedNumbers(sum: bv8, top: bv8, r: bv8, x: Byte, y: Byte)
    requires top < 4 && r < 64 && sum == top * 64 + r
    requires top as int == (x % 4 + y / 64) % 4 && r as int == y % 64
    ensures sum as int == Merge2(x, y)
  {
    Sum64(top, r);
    Carry(x % 4, y);
  }

  lemma ParseSplit2(x: bv8, y: bv8)
    ensures ((x & 0x3) << 6) + y == (x % 4 + y / 64) % 4 * 64 + y % 64
    ensures x % 4 < 4 && y / 64 < 4 && (x % 4 + y / 64) % 4 < 4 && y % 64 < 64
  {}

  lemma Wrap4(n: nat, low: nat)
    requires low < 4
    ensures (n * 4 + low) % 256 == n % 64 * 4 + low
  {
    assert n * 4 + low == n / 64 * 256 + (n % 64 * 4 + low);
  }

  lemma Small(n: nat)
    requires n < 256
    ensures n % 256 == n
  {}

  lemma Carry(h: nat, y: nat)
    requires h < 4 && y < 256
    ensures (h * 64 + y) % 256 == (h + y / 64) % 4 * 64 + y % 64
  {}

  // The three assignments of base64_decode put four values together as Merge0, Merge1 and Merge2 do, for all bytes,
  // the 255 of the filler included.
  lemma MasksMerge(v: bv8, w: bv8, x: bv8, y: bv8)
    ensures ((v << 2) + ((w & 0x30) >> 4)) as int == Merge0(v as int, w as int)
    ensures (((w & 0xf) << 4) + ((x & 0x3c) >> 2)) as int == Merge1(w as int, x as int)
    ensures (((x & 0x3) << 6) + y) as int == Merge2(x as int, y as int)
  {
    hide Merge0, Merge1, Merge2;
    Parse0(v, w);
    Parse1(w, x);
    Parse2(x, y);
  }
}
