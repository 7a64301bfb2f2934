/** The streaming MD5 of md5.c over an arbitrary block function, against RFC 1321, sections 3.1 to 3.5. */
module Md5 {
  import opened Blocks
  import opened Bytes
  import opened Powers
  import opened Sequences

  datatype Abcd = Abcd(a: Word, b: Word, c: Word, d: Word)

  type Block = s: seq<Byte> | |s| == 64 witness Repeat<Byte>(0, 64)

  // What md5_process does to the four registers.
  type BlockFunction = (Abcd, Block) -> Abcd

  // ---- RFC 1321 ----

  // Section 3.3
  const INIT := Abcd(0x67452301, 0xefcdab89, 0x98badcfe, 0x10325476)

  // Sections 3.1 and 3.2: a one bit, zeros up to 448 modulo 512, and the length in bits modulo 2^64, low byte first.
  function Padding(n: nat): seq<Byte> {
    [0x80] + Repeat<Byte>(0, (55 - n) % 64) + LittleEndian(8 * n % (TWO32 * TWO32), 8)
  }

  lemma PaddingFits(n: nat)
    ensures (n + |Padding(n)|) % 64 == 0 && 9 <= |Padding(n)| <= 72
  {
    var q, r := (55 - n) / 64, (55 - n) % 64;
    assert |Padding(n)| == r + 9;
    Multiple(1 - q);
  }

  // Section 3.4
  function Fold(f: BlockFunction, r: Abcd, bytes: seq<Byte>): Abcd
    requires |bytes| % 64 == 0
    decreases |bytes|
  {
    if bytes == [] then r else Fold(f, f(r, bytes[..64]), bytes[64..])
  }

  // Section 3.5
  function Output(r: Abcd): (s: seq<Byte>)
    ensures |s| == 16
  {
    LittleEndian(r.a, 4) + LittleEndian(r.b, 4) + LittleEndian(r.c, 4) + LittleEndian(r.d, 4)
  }

  function Digest(f: BlockFunction, msg: seq<Byte>): seq<Byte> {
    PaddingFits(|msg|);
    Output(Fold(f, INIT, msg + Padding(|msg|)))
  }

  lemma {:induction false} FoldAppend(f: BlockFunction, r: Abcd, a: seq<Byte>, b: seq<Byte>)
    requires |a| % 64 == 0 && |b| % 64 == 0
    ensures |a + b| % 64 == 0 && Fold(f, r, a + b) == Fold(f, Fold(f, r, a), b)
    decreases |a|
  {
    Multiples(|a|, |b|);
    if a == [] {
      assert a + b == b;
    } else {
      Multiples(|a|, -64);
      assert (a + b)[..64] == a[..64] && (a + b)[64..] == a[64..] + b;
      FoldAppend(f, f(r, a[..64]), a[64..], b);
    }
  }

  lemma FoldBlock(f: BlockFunction, r: Abcd, a: seq<Byte>, block: Block)
    requires |a| % 64 == 0
    ensures |a + block| % 64 == 0 && Fold(f, r, a + block) == f(Fold(f, r, a), block)
  {
    FoldAppend(f, r, a, block);
    assert block[..64] == block && block[64..] == [];
    assert Fold(f, f(Fold(f, r, a), block), []) == f(Fold(f, r, a), block);
  }

  // ---- The counter ----

  // The two words hold 8 n modulo 2^64.
  ghost predicate Counts(low: Word, high: Word, n: nat) {
    high * TWO32 + low == 8 * n % (TWO32 * TWO32)
  }

  // md5_append's update: three truncations and a carry.
  function NewLow(low: Word, nbytes: nat): Word {
    (low + 8 * nbytes % TWO32) % TWO32
  }

  function NewHigh(low: Word, high: Word, nbytes: nat): Word {
    var h := (high + nbytes / 0x2000_0000) % TWO32;
    if NewLow(low, nbytes) < 8 * nbytes % TWO32 then (h + 1) % TWO32 else h
  }

  lemma CountsUpdate(low: Word, high: Word, n: nat, nbytes: nat)
    requires Counts(low, high, n)
    ensures Counts(NewLow(low, nbytes), NewHigh(low, high, nbytes), n + nbytes)
  {
    var bits, top := 8 * nbytes % TWO32, nbytes / 0x2000_0000;
    assert 8 * nbytes == top * TWO32 + bits;
    var carry := if low + bits >= TWO32 then 1 else 0;
    assert NewLow(low, nbytes) == low + bits - carry * TWO32;
    assert NewLow(low, nbytes) < bits <==> carry == 1;
    HighWraps(high, top, carry);
    var q := 8 * n / (TWO32 * TWO32);
    var q' := (high + top + carry) / TWO32;
    assert 8 * n == q * (TWO32 * TWO32) + high * TWO32 + low;
    var low', high' := NewLow(low, nbytes), NewHigh(low, high, nbytes);
    assert 8 * (n + nbytes) == (q + q') * (TWO32 * TWO32) + (high' * TWO32 + low');
    Remainder(8 * (n + nbytes), q + q', high' * TWO32 + low');
  }

  lemma HighWraps(high: Word, top: nat, carry: nat)
    requires carry <= 1
    ensures var h := (high + top) % TWO32;
      (if carry == 1 then (h + 1) % TWO32 else h) == high + top + carry - (high + top + carry) / TWO32 * TWO32
  {}

  lemma Remainder(n: nat, q: nat, r: nat)
    requires r < TWO32 * TWO32 && n == q * (TWO32 * TWO32) + r
    ensures n % (TWO32 * TWO32) == r
  {}

  // The position in the buffer, which the code recovers from the counter.
  lemma OffsetOf(low: Word, high: Word, n: nat)
    requires Counts(low, high, n)
    ensures low / 8 % 64 == n % 64
  {
    var q := 8 * n / (TWO32 * TWO32);
    assert 8 * n == q * (TWO32 * TWO32) + high * TWO32 + low;
    var m := q * 0x80_0000_0000_0000 + high * 0x80_0000;
    assert 8 * (n - 64 * m) == low;
    SameOffset(n, m);
  }

  lemma SameOffset(n: int, m: int)
    ensures (n - 64 * m) % 64 == n % 64
  {}

  // ---- md5_state_t ----

  // The largest nbytes for which offset + nbytes cannot exceed a 64-bit size_t.
  const MAX_SIZE := TWO32 * TWO32 - 64

  class State {
    const process: BlockFunction
    const buf: array<Byte>
    var count0: Word
    var count1: Word
    var abcd: Abcd

    // The bytes appended since md5_init.
    ghost var msg: seq<Byte>

    ghost predicate Valid()
      reads this, buf
    {
      && buf.Length == 64 && Counts(count0, count1, |msg|)
      && abcd == Fold(process, INIT, Whole(msg)) && buf[..|Tail(msg)|] == Tail(msg)
    }

    // md5_init
    constructor (process: BlockFunction)
      ensures Valid() && msg == [] && this.process == process && fresh(buf)
    {
      this.process := process;
      buf := new Byte[64];
      count0, count1, abcd, msg := 0, 0, INIT, [];
    }

    // memcpy of data[from..from + n] to buf + offset
    method Copy(offset: nat, data: seq<Byte>, from: nat, n: nat)
      requires buf.Length == 64 && offset + n <= 64 && from + n <= |data|
      modifies buf
      ensures buf[..offset + n] == old(buf[..offset]) + data[from..from + n]
    {
      for i := 0 to n
        invariant buf[..offset] == old(buf[..offset])
        invariant buf[offset..offset + i] == data[from..from + i]
      {
        buf[offset + i] := data[from + i];
        assert data[from..from + i + 1] == data[from..from + i] + [data[from + i]];
      }
      assert buf[..offset + n] == buf[..offset] + buf[offset..offset + n];
    }

    // md5_append, "Update the message length."
    method AddLength(nbytes: nat, ghost n: nat)
      requires Counts(count0, count1, n)
      modifies this`count0, this`count1
      ensures Counts(count0, count1, n + nbytes)
    {
      CountsUpdate(count0, count1, n, nbytes);
      var nbits := 8 * nbytes % TWO32;
      count1 := (count1 + nbytes / 0x2000_0000) % TWO32;
      count0 := (count0 + nbits) % TWO32;
      if count0 < nbits {
        count1 := (count1 + 1) % TWO32;
      }
    }

    // md5_append, "Process full blocks." straight from the data.
    method WholeBlocks(data: seq<Byte>, from: nat, ghost done: seq<Byte>) returns (p: nat)
      requires from <= |data| && |done| % 64 == 0 && abcd == Fold(process, INIT, done)
      modifies this`abcd
      ensures from <= p <= |data| && |data| - p < 64
      ensures |done + data[from..p]| % 64 == 0 && abcd == Fold(process, INIT, done + data[from..p])
    {
      hide Fold;
      p := from;
      assert done + data[from..p] == done;
      while |data| - p >= 64
        invariant from <= p <= |data| && |done + data[from..p]| % 64 == 0
        invariant abcd == Fold(process, INIT, done + data[from..p])
      {
        FoldBlock(process, INIT, done + data[from..p], data[p..p + 64]);
        assert done + data[from..p] + data[p..p + 64] == done + data[from..p + 64];
        abcd := process(abcd, data[p..p + 64]);
        p := p + 64;
      }
    }

    // md5_append, "Process an initial partial block.": p bytes complete the buffer, or all of them do not.
    method PartialBlock(data: seq<Byte>, offset: nat, ghost done: seq<Byte>, ghost tail: seq<Byte>)
        returns (p: nat)
      requires buf.Length == 64 && |done| % 64 == 0 && 0 < |tail| == offset < 64 && buf[..offset] == tail
      requires msg == done + (tail + data) && Counts(count0, count1, |msg|) && abcd == Fold(process, INIT, done)
      modifies this`abcd, buf
      ensures p <= |data| && offset + p <= 64
      ensures offset + p < 64 ==> Valid()
      ensures offset + p == 64 ==> |done + (tail + data[..p])| % 64 == 0
      ensures offset + p == 64 ==> msg == done + (tail + data[..p]) + data[p..]
      ensures offset + p == 64 ==> abcd == Fold(process, INIT, done + (tail + data[..p]))
    {
      hide Fold, Counts, Whole, Tail;
      p := if offset + |data| > 64 then 64 - offset else |data|;
      Copy(offset, data, 0, p);
      if offset + p < 64 {
        WholeAndTail(done, tail + data, msg);
      } else {
        ghost var block: Block := tail + data[..p];
        assert buf[..] == buf[..64] == block;
        FoldBlock(process, INIT, done, block);
        abcd := process(abcd, buf[..]);
        assert tail + data == block + data[p..];
      }
    }

    // md5_append: the counter, a partial block, whole blocks, a partial block.
    method Append(data: seq<Byte>)
      requires Valid() && |data| <= MAX_SIZE
      modifies this, buf
      ensures Valid() && msg == old(msg) + data
    {
      hide Fold, Counts, Whole, Tail;
      OffsetOf(count0, count1, |msg|);
      var offset := count0 / 8 % 64;
      ghost var done, tail := Whole(msg), Tail(msg);
      if |data| <= 0 {
        assert msg + data == msg;
        return;
      }
      AddLength(|data|, |msg|);
      msg := msg + data;
      assert msg == done + (tail + data);
      var p := 0;
      if offset != 0 {
        p := PartialBlock(data, offset, done, tail);
        if offset + p < 64 {
          return;
        }
        done := done + (tail + data[..p]);
      } else {
        assert msg == done + data[p..];
      }
      Rest(data, p, done);
    }

    // md5_append from "Process full blocks." on.
    method Rest(data: seq<Byte>, from: nat, ghost done: seq<Byte>)
      requires from <= |data| && |done| % 64 == 0 && buf.Length == 64 && msg == done + data[from..]
      requires Counts(count0, count1, |msg|) && abcd == Fold(process, INIT, done)
      modifies this`abcd, buf
      ensures Valid()
    {
      hide Fold, Counts, Whole, Tail;
      var p := WholeBlocks(data, from, done);
      if |data| != p {
        Copy(0, data, p, |data| - p);
      }
      assert data[from..p] + data[p..] == data[from..];
      WholeAndTail(done + data[from..p], data[p..], msg);
    }

    // md5_finish: the digest of everything appended.
    method Finish() returns (digest: seq<Byte>)
      requires Valid()
      modifies this, buf
      ensures digest == Digest(process, old(msg))
    {
      hide Fold, LittleEndian, Repeat, Padding, Whole, Tail;
      ghost var was := msg;
      OffsetOf(count0, count1, |msg|);
      var data := Bytes32(count0) + Bytes32(count1);
      var pad := [0x80] + Repeat<Byte>(0, 63);
      var n := (55 - count0 / 8) % 64 + 1;
      PaddingWritten(count0, count1, |was|);
      Append(pad[..n]);
      Append(data);
      PaddingFits(|was|);
      assert msg == was + Padding(|was|) by {
        assert was + pad[..n] + data == was + (pad[..n] + data);
      }
      WholeAndTail(msg, [], msg);
      digest := Bytes32(abcd.a) + Bytes32(abcd.b) + Bytes32(abcd.c) + Bytes32(abcd.d);
    }
  }

  // Any run of md5_append calls between md5_init and md5_finish: only the concatenation matters.
  method DigestOfPieces(process: BlockFunction, pieces: seq<seq<Byte>>) returns (digest: seq<Byte>)
    requires forall p :: p in pieces ==> |p| <= MAX_SIZE
    ensures digest == Digest(process, Concat(pieces))
  {
    hide Digest;
    var md5 := new State(process);
    for i := 0 to |pieces|
      invariant md5.Valid() && fresh(md5) && fresh(md5.buf) && md5.process == process
      invariant md5.msg == Concat(pieces[..i])
    {
      assert pieces[..i + 1][..i] == pieces[..i];
      md5.Append(pieces[i]);
    }
    assert pieces[..|pieces|] == pieces;
    digest := md5.Finish();
  }

  // (md5_byte_t)(w >> ((i & 3) << 3)) for i from 0 to 3
  function Bytes32(w: Word): (r: seq<Byte>)
    ensures r == LittleEndian(w, 4)
  {
    LittleEndianFour(w);
    [w % 256, w / 0x100 % 256, w / 0x10000 % 256, w / 0x1000000 % 256]
  }

  // The pad length computed from the wrapped counter is the one of section 3.1.
  lemma PadCount(low: Word, n: nat)
    requires low / 8 % 64 == n % 64
    ensures (55 - low / 8) % 64 == (55 - n) % 64
  {
    var m := low / 8 / 64 - n / 64;
    assert low / 8 - n == 64 * m;
    SameOffset(55 - n, m);
  }

  // The pieces md5_finish appends are the padding of sections 3.1 and 3.2.
  lemma PaddingWritten(low: Word, high: Word, n: nat)
    requires Counts(low, high, n) && low / 8 % 64 == n % 64
    ensures ([0x80] + Repeat<Byte>(0, 63))[..(55 - low / 8) % 64 + 1] + (LittleEndian(low, 4) + LittleEndian(high, 4))
      == Padding(n)
  {
    hide LittleEndian, Counts;
    PadCount(low, n);
    LengthBytes(low, high, n);
    var k := (55 - n) % 64;
    assert ([0x80] + Repeat<Byte>(0, 63))[..k + 1] == [0x80] + Repeat<Byte>(0, k);
  }

  // Saving the counter word by word writes the 64-bit length.
  lemma LengthBytes(low: Word, high: Word, n: nat)
    requires Counts(low, high, n)
    ensures LittleEndian(8 * n % (TWO32 * TWO32), 8) == LittleEndian(low, 4) + LittleEndian(high, 4)
  {
    Pow256Values();
    LittleEndianConcat(high, low, 4, 4);
  }

  // ---- The standard's numbers ----

  // Section 3.5: the digest begins with the low-order byte of a and ends with the high-order byte of d.
  lemma OutputAt(r: Abcd, i: nat)
    requires i < 4
    ensures var shift := [1, 0x100, 0x1_0000, 0x100_0000][i];
      && Output(r)[i] == r.a / shift % 256 && Output(r)[4 + i] == r.b / shift % 256
      && Output(r)[8 + i] == r.c / shift % 256 && Output(r)[12 + i] == r.d / shift % 256
  {
    hide LittleEndian;
    assert Output(r) == Bytes32(r.a) + Bytes32(r.b) + Bytes32(r.c) + Bytes32(r.d);
  }

  // Section 3.3 gives the registers as bytes, low-order first.
  lemma InitialBytes()
    ensures Output(INIT) == [0x01, 0x23, 0x45, 0x67, 0x89, 0xab, 0xcd, 0xef,
                             0xfe, 0xdc, 0xba, 0x98, 0x76, 0x54, 0x32, 0x10]
  {
    hide LittleEndian;
    assert Output(INIT) == Bytes32(0x67452301) + Bytes32(0xefcdab89) + Bytes32(0x98badcfe) + Bytes32(0x10325476);
  }

  // Sections 3.1 and 3.2, byte by byte.
  lemma PaddingAt(n: nat, i: nat)
    requires i < |Padding(n)|
    ensures var p, at := Padding(n), |Padding(n)| - 8;
      && at > 0 && (i == 0 ==> p[i] == 0x80) && (0 < i < at ==> p[i] == 0)
      && (i >= at ==> p[i] == 8 * n % 0x1_0000_0000_0000_0000 / [1, 0x100, 0x1_0000, 0x100_0000, 0x1_0000_0000,
                                0x100_0000_0000, 0x1_0000_0000_0000, 0x100_0000_0000_0000][i - at] % 256)
  {
    hide LittleEndian;
    var at, bits := |Padding(n)| - 8, 8 * n % (TWO32 * TWO32);
    if i >= at {
      EightDigits(bits);
    }
  }

  lemma EightDigits(n: nat)
    ensures LittleEndian(n, 8) == [n % 256, n / 0x100 % 256, n / 0x1_0000 % 256, n / 0x100_0000 % 256,
      n / 0x1_0000_0000 % 256, n / 0x100_0000_0000 % 256, n / 0x1_0000_0000_0000 % 256,
      n / 0x100_0000_0000_0000 % 256]
  {
    hide LittleEndian;
    LittleEndianEight(n);
    LittleEndianFour(n);
    var h := n / 0x1_0000_0000;
    LittleEndianFour(h);
    assert h / 0x100 == n / 0x100_0000_0000 && h / 0x1_0000 == n / 0x1_0000_0000_0000;
    assert h / 0x100_0000 == n / 0x100_0000_0000_0000;
  }

  // The digest of "abc": one call of the block function.
  lemma DigestOfAbc(f: BlockFunction)
    ensures Digest(f, [0x61, 0x62, 0x63]) ==
      Output(f(Abcd(0x67452301, 0xefcdab89, 0x98badcfe, 0x10325476),
               [0x61, 0x62, 0x63, 0x80] + Repeat<Byte>(0, 52) + [24, 0, 0, 0, 0, 0, 0, 0]))
  {
    hide LittleEndian, Output, Fold;
    var msg: seq<Byte> := [0x61, 0x62, 0x63];
    var block: Block := [0x61, 0x62, 0x63, 0x80] + Repeat<Byte>(0, 52) + [24, 0, 0, 0, 0, 0, 0, 0];
    LengthOfAbc();
    assert msg + Padding(3) == block;
    FoldBlock(f, INIT, [], block);
    NoBlocks(f);
    assert [] + block == block;
  }

  lemma LengthOfAbc()
    ensures LittleEndian(24, 8) == [24, 0, 0, 0, 0, 0, 0, 0]
  {
    assert LittleEndian(0, 7) == [0] + LittleEndian(0, 6) == [0, 0] + LittleEndian(0, 5);
    assert LittleEndian(0, 5) == [0] + LittleEndian(0, 4) == [0, 0] + LittleEndian(0, 3);
    assert LittleEndian(0, 3) == [0] + LittleEndian(0, 2) == [0, 0] + LittleEndian(0, 1);
    assert LittleEndian(0, 1) == [0] + LittleEndian(0, 0);
  }

  lemma NoBlocks(f: BlockFunction)
    ensures Fold(f, INIT, []) == INIT
  {}
}
