/** The streaming SHA-1 of sha1.cpp: a 64-byte block buffer, a bit counter in two words and two flags. */
module Sha1 {
  import opened Sha1Standard
  import opened Blocks
  import opened Powers
  import opened Sequences

  // The contract has the three shift counts ProcessMessageBlock uses; Rotates has all that the class promises.
  function CircularShift(bits: nat, word: Word): (r: Word)
    requires 1 <= bits <= 31
    ensures bits == 1 ==> r == word.RotateLeft(1)
    ensures bits == 5 ==> r == word.RotateLeft(5)
    ensures bits == 30 ==> r == word.RotateLeft(30)
  {
    (word << bits) | (word >> (32 - bits))
  }

  // Shifting left and filling from the top is rotation, for every shift count from 1 to 31.
  lemma Rotates(w: Word)
    ensures CircularShift(1, w) == w.RotateLeft(1) && CircularShift(2, w) == w.RotateLeft(2)
    ensures CircularShift(3, w) == w.RotateLeft(3) && CircularShift(4, w) == w.RotateLeft(4)
    ensures CircularShift(5, w) == w.RotateLeft(5) && CircularShift(6, w) == w.RotateLeft(6)
    ensures CircularShift(7, w) == w.RotateLeft(7) && CircularShift(8, w) == w.RotateLeft(8)
    ensures CircularShift(9, w) == w.RotateLeft(9) && CircularShift(10, w) == w.RotateLeft(10)
    ensures CircularShift(11, w) == w.RotateLeft(11) && CircularShift(12, w) == w.RotateLeft(12)
    ensures CircularShift(13, w) == w.RotateLeft(13) && CircularShift(14, w) == w.RotateLeft(14)
    ensures CircularShift(15, w) == w.RotateLeft(15) && CircularShift(16, w) == w.RotateLeft(16)
    ensures CircularShift(17, w) == w.RotateLeft(17) && CircularShift(18, w) == w.RotateLeft(18)
    ensures CircularShift(19, w) == w.RotateLeft(19) && CircularShift(20, w) == w.RotateLeft(20)
    ensures CircularShift(21, w) == w.RotateLeft(21) && CircularShift(22, w) == w.RotateLeft(22)
    ensures CircularShift(23, w) == w.RotateLeft(23) && CircularShift(24, w) == w.RotateLeft(24)
    ensures CircularShift(25, w) == w.RotateLeft(25) && CircularShift(26, w) == w.RotateLeft(26)
    ensures CircularShift(27, w) == w.RotateLeft(27) && CircularShift(28, w) == w.RotateLeft(28)
    ensures CircularShift(29, w) == w.RotateLeft(29) && CircularShift(30, w) == w.RotateLeft(30)
    ensures CircularShift(31, w) == w.RotateLeft(31)
  {}

  lemma WordOfShifts(b0: Byte, b1: Byte, b2: Byte, b3: Byte)
    ensures ((b0 as bv32) << 24) | ((b1 as bv32) << 16) | ((b2 as bv32) << 8) | (b3 as bv32) == WordOf(b0, b1, b2, b3)
  {}

  // The two counter words hold the bytes of the 64-bit length.
  lemma LengthBytes(high: nat, low: nat)
    requires high < TWO32 && low < TWO32
    ensures BigEndian64(high * TWO32 + low) ==
      [LowByte(high / 0x1000000), LowByte(high / 0x10000), LowByte(high / 0x100), LowByte(high),
       LowByte(low / 0x1000000), LowByte(low / 0x10000), LowByte(low / 0x100), LowByte(low)]
  {
    hide LowByte;
    var n := high * TWO32 + low;
    HighWord(high, low);
    LowWord(high, low);
    SameLowByte(low / 0x1000000, high);
    SameLowByte(low / 0x10000, high * 0x100);
    SameLowByte(low / 0x100, high * 0x10000);
    SameLowByte(low, high * 0x1000000);
  }

  lemma HighWord(high: nat, low: nat)
    requires low < TWO32
    ensures var n := high * TWO32 + low;
      && n / 0x100_0000_0000_0000 == high / 0x1000000 && n / 0x1_0000_0000_0000 == high / 0x10000
      && n / 0x100_0000_0000 == high / 0x100 && n / 0x1_0000_0000 == high
  {
    var n := high * TWO32 + low;
    assert n / TWO32 == high;
    assert n / 0x100_0000_0000 == n / TWO32 / 0x100;
    assert n / 0x1_0000_0000_0000 == n / TWO32 / 0x10000;
    assert n / 0x100_0000_0000_0000 == n / TWO32 / 0x1000000;
  }

  lemma LowWord(high: nat, low: nat)
    ensures var n := high * TWO32 + low;
      && n / 0x1000000 == high * 0x100 + low / 0x1000000 && n / 0x10000 == high * 0x10000 + low / 0x10000
      && n / 0x100 == high * 0x1000000 + low / 0x100
  {}

  lemma SameLowByte(b: nat, q: nat)
    ensures LowByte(q * 256 + b) == LowByte(b)
  {
    assert (q * 256 + b) % 256 == b % 256;
  }

  // One more byte: it lengthens the tail, or completes a block.
  lemma TailGrows(msg: seq<Byte>, b: Byte)
    ensures var whole, tail, now := Whole(msg), Tail(msg) + [b], msg + [b];
      && now == whole + tail
      && (|tail| < 64 ==> Whole(now) == whole && Tail(now) == tail)
      && (|tail| == 64 ==> Whole(now) == whole + tail && Tail(now) == [])
  {
    var whole, tail, now := Whole(msg), Tail(msg) + [b], msg + [b];
    assert whole + Tail(msg) == msg;
    if |tail| < 64 {
      WholeAndTail(whole, tail, now);
    } else {
      Multiples(|whole|, |tail|);
      WholeAndTail(whole + tail, [], now);
    }
  }

  class SHA1 {
    const H: array<Word>
    const Message_Block: array<Byte>
    var Message_Block_Index: nat
    // Unsigned 32-bit words: every update wraps explicitly.
    var Length_Low: nat
    var Length_High: nat
    var Computed: bool
    var Corrupted: bool

    // The bytes accepted since the last Reset.
    ghost var msg: seq<Byte>

    ghost predicate Shape()
      reads this
    {
      H.Length == 5 && Message_Block.Length == 64
    }

    // The buffer holds the tail of msg, H the fold of the rest, the counter the length in bits.
    ghost predicate Streaming()
      reads this, H, Message_Block
    {
      && Shape() && Message_Block_Index == |Tail(msg)|
      && Message_Block[..Message_Block_Index] == Tail(msg)
      && H[..] == Fold(H0, Whole(msg))
      && Length_Low < TWO32 && Length_High < TWO32 && Length_High * TWO32 + Length_Low == 8 * |msg|
    }

    ghost predicate Valid()
      reads this, H, Message_Block
    {
      && Shape()
      && (!Corrupted && !Computed ==> Streaming())
      && (!Corrupted && Computed ==> H[..] == Digest(msg))
    }

    method ProcessMessageBlock()
      requires Shape()
      modifies this`Message_Block_Index, H
      ensures Message_Block_Index == 0
      ensures H[..] == Compress(old(H[..]), Message_Block[..])
    {
      var w := new Word[80];
      Gather(w);
      Expand(w, Message_Block[..]);
      Rotate(w, Message_Block[..]);
      Message_Block_Index := 0;
    }

    // The first sixteen words: the block's bytes, four at a time.
    method Gather(w: array<Word>)
      requires Shape() && w.Length == 80
      modifies w
      ensures forall i :: 0 <= i < 16 ==> w[i] == W(Message_Block[..], i)
    {
      ghost var block: Block := Message_Block[..];
      for t := 0 to 16
        invariant forall i :: 0 <= i < t ==> w[i] == W(block, i)
      {
        hide WordOf, CircularShift;
        WordOfShifts(block[4 * t], block[4 * t + 1], block[4 * t + 2], block[4 * t + 3]);
        assert W(block, t) == WordOf(block[4 * t], block[4 * t + 1], block[4 * t + 2], block[4 * t + 3]);
        w[t] := (Message_Block[t * 4] as bv32) << 24;
        w[t] := w[t] | ((Message_Block[t * 4 + 1] as bv32) << 16);
        w[t] := w[t] | ((Message_Block[t * 4 + 2] as bv32) << 8);
        w[t] := w[t] | (Message_Block[t * 4 + 3] as bv32);
      }
    }

    // The other sixty-four words.
    method Expand(w: array<Word>, ghost block: Block)
      requires w.Length == 80 && forall i :: 0 <= i < 16 ==> w[i] == W(block, i)
      modifies w
      ensures forall i :: 0 <= i < 80 ==> w[i] == W(block, i)
    {
      for t := 16 to 80
        invariant forall i :: 0 <= i < t ==> w[i] == W(block, i)
      {
        hide WordOf, CircularShift;
        w[t] := CircularShift(1, w[t - 3] ^ w[t - 8] ^ w[t - 14] ^ w[t - 16]);
      }
    }

    // Rounds 0 to 19: b chooses between c and d.
    method Rounds0(w: array<Word>, ghost block: Block, ghost start: Registers, r: Registers) returns (q: Registers)
      requires w.Length == 80 && (forall i :: 0 <= i < 80 ==> w[i] == W(block, i)) && r == Rounds(block, start, 0)
      ensures q == Rounds(block, start, 20)
    {
      hide W, Rounds, CircularShift, Plus, F, K;
      var Registers(a, b, c, d, e) := r;
      for t := 0 to 20
        invariant Registers(a, b, c, d, e) == Rounds(block, start, t)
      {
        NextRound(block, start, t);
        FK(t, b, c, d);
        var temp := Plus(Plus(Plus(Plus(CircularShift(5, a), ((b & c) | (!b & d))), e), w[t]), 0x5A827999);
        e := d;
        d := c;
        c := CircularShift(30, b);
        b := a;
        a := temp;
      }
      q := Registers(a, b, c, d, e);
    }

    // Rounds 20 to 39: parity.
    method Rounds20(w: array<Word>, ghost block: Block, ghost start: Registers, r: Registers) returns (q: Registers)
      requires w.Length == 80 && (forall i :: 0 <= i < 80 ==> w[i] == W(block, i)) && r == Rounds(block, start, 20)
      ensures q == Rounds(block, start, 40)
    {
      hide W, Rounds, CircularShift, Plus, F, K;
      var Registers(a, b, c, d, e) := r;
      for t := 20 to 40
        invariant Registers(a, b, c, d, e) == Rounds(block, start, t)
      {
        NextRound(block, start, t);
        FK(t, b, c, d);
        var temp := Plus(Plus(Plus(Plus(CircularShift(5, a), (b ^ c ^ d)), e), w[t]), 0x6ED9EBA1);
        e := d;
        d := c;
        c := CircularShift(30, b);
        b := a;
        a := temp;
      }
      q := Registers(a, b, c, d, e);
    }

    // Rounds 40 to 59: majority.
    method Rounds40(w: array<Word>, ghost block: Block, ghost start: Registers, r: Registers) returns (q: Registers)
      requires w.Length == 80 && (forall i :: 0 <= i < 80 ==> w[i] == W(block, i)) && r == Rounds(block, start, 40)
      ensures q == Rounds(block, start, 60)
    {
      hide W, Rounds, CircularShift, Plus, F, K;
      var Registers(a, b, c, d, e) := r;
      for t := 40 to 60
        invariant Registers(a, b, c, d, e) == Rounds(block, start, t)
      {
        NextRound(block, start, t);
        FK(t, b, c, d);
        var temp := Plus(Plus(Plus(Plus(CircularShift(5, a), ((b & c) | (b & d) | (c & d))), e), w[t]), 0x8F1BBCDC);
        e := d;
        d := c;
        c := CircularShift(30, b);
        b := a;
        a := temp;
      }
      q := Registers(a, b, c, d, e);
    }

    // Rounds 60 to 79: parity.
    method Rounds60(w: array<Word>, ghost block: Block, ghost start: Registers, r: Registers) returns (q: Registers)
      requires w.Length == 80 && (forall i :: 0 <= i < 80 ==> w[i] == W(block, i)) && r == Rounds(block, start, 60)
      ensures q == Rounds(block, start, 80)
    {
      hide W, Rounds, CircularShift, Plus, F, K;
      var Registers(a, b, c, d, e) := r;
      for t := 60 to 80
        invariant Registers(a, b, c, d, e) == Rounds(block, start, t)
      {
        NextRound(block, start, t);
        FK(t, b, c, d);
        var temp := Plus(Plus(Plus(Plus(CircularShift(5, a), (b ^ c ^ d)), e), w[t]), 0xCA62C1D6);
        e := d;
        d := c;
        c := CircularShift(30, b);
        b := a;
        a := temp;
      }
      q := Registers(a, b, c, d, e);
    }

    // The four loops of twenty rounds and the final additions.
    method Rotate(w: array<Word>, ghost block: Block)
      requires Shape() && w.Length == 80 && w != H && forall i :: 0 <= i < 80 ==> w[i] == W(block, i)
      modifies H
      ensures H[..] == Compress(old(H[..]), block)
    {
      hide W, Rounds, Plus, F, K;
      var h := Registers(H[0], H[1], H[2], H[3], H[4]);
      NoRounds(block, h);
      var r := Rounds0(w, block, h, h);
      r := Rounds20(w, block, h, r);
      r := Rounds40(w, block, h, r);
      r := Rounds60(w, block, h, r);
      H[0] := Plus(H[0], r.a);
      H[1] := Plus(H[1], r.b);
      H[2] := Plus(H[2], r.c);
      H[3] := Plus(H[3], r.d);
      H[4] := Plus(H[4], r.e);
    }

    method Reset()
      requires Shape()
      modifies this, H
      ensures Valid() && !Computed && !Corrupted && msg == []
    {
      Length_Low, Length_High, Message_Block_Index := 0, 0, 0;
      H[0], H[1], H[2], H[3], H[4] := 0x67452301, 0xEFCDAB89, 0x98BADCFE, 0x10325476, 0xC3D2E1F0;
      Computed, Corrupted := false, false;
      msg := [];
      assert H[..] == H0 == Fold(H0, []);
    }

    constructor ()
      ensures Valid() && !Computed && !Corrupted && msg == []
      ensures fresh(H) && fresh(Message_Block)
    {
      H := new Word[5];
      Message_Block := new Byte[64];
      Length_Low, Length_High, Message_Block_Index, Computed, Corrupted, msg := 0, 0, 0, false, false, [];
      new;
      Reset();
    }

    lemma EightMore(high: nat, low: nat, n: nat)
      requires low < TWO32 && high < TWO32 && high * TWO32 + low == 8 * n
      ensures low + 8 < TWO32 ==> (low + 8) % TWO32 == low + 8
      ensures low + 8 >= TWO32 ==> low + 8 == TWO32 && (low + 8) % TWO32 == 0
      ensures high + 1 < TWO32 ==> (high + 1) % TWO32 == high + 1
    {
      assert low == 8 * (n - high * 0x2000_0000);
    }

    // The counter of n bytes goes up by eight, carries, and reports the wrap at 2^64 bits.
    method Count(ghost n: nat)
      requires Shape() && Length_Low < TWO32 && Length_High < TWO32 && !Corrupted
      requires Length_High * TWO32 + Length_Low == 8 * n
      modifies this`Length_Low, this`Length_High, this`Corrupted
      ensures Length_Low < TWO32 && Length_High < TWO32
      ensures Corrupted <==> 8 * (n + 1) >= TWO32 * TWO32
      ensures !Corrupted ==> Length_High * TWO32 + Length_Low == 8 * (n + 1)
    {
      EightMore(Length_High, Length_Low, n);
      Length_Low := (Length_Low + 8) % TWO32;
      if Length_Low == 0 {
        Length_High := (Length_High + 1) % TWO32;
        if Length_High == 0 {
          Corrupted := true;
        }
      }
    }

    // One turn of Input's loop.
    method InputByte(b: Byte)
      requires Valid() && !Computed && !Corrupted
      modifies this, H, Message_Block
      ensures Valid() && !Computed && msg == old(msg) + [b]
      ensures Corrupted <==> 8 * |msg| >= TWO32 * TWO32
    {
      hide Fold, Compress, Digest, Whole, Tail;
      ghost var k := Message_Block_Index;
      ghost var whole := Whole(msg);
      TailGrows(msg, b);
      Message_Block[Message_Block_Index] := b;
      Message_Block_Index := Message_Block_Index + 1;
      msg := msg + [b];
      assert Message_Block[..k + 1] == Message_Block[..k] + [b];
      Count(|old(msg)|);
      if Message_Block_Index == 64 {
        ghost var block: Block := Message_Block[..];
        assert block == Message_Block[..64];
        FoldBlock(H0, whole, block);
        ProcessMessageBlock();
      }
    }

    // Input: a non-empty piece after Result, or after the length overflowed, spoils the digest; otherwise the
    // bytes join the message, unless it reaches 2^64 bits.
    method Input(message_array: seq<Byte>)
      requires Valid() && |message_array| < TWO32
      modifies this, H, Message_Block
      ensures Valid() && Computed == old(Computed)
      ensures message_array == [] ==> Corrupted == old(Corrupted) && msg == old(msg)
      ensures message_array != [] && old(Computed || Corrupted) ==> Corrupted
      ensures message_array != [] && !old(Computed || Corrupted) ==>
        (Corrupted <==> 8 * (|old(msg)| + |message_array|) >= TWO32 * TWO32)
      ensures !Corrupted && !Computed ==> msg == old(msg) + message_array
    {
      hide Fold, Compress, Digest, Whole, Tail;
      if message_array == [] {
        return;
      }
      if Computed || Corrupted {
        Corrupted := true;
        return;
      }
      var i := 0;
      while i < |message_array| && !Corrupted
        invariant 0 <= i <= |message_array| && Valid() && !Computed
        invariant msg == old(msg) + message_array[..i]
        invariant Corrupted <==> 8 * |msg| >= TWO32 * TWO32
      {
        InputByte(message_array[i]);
        assert message_array[..i + 1] == message_array[..i] + [message_array[i]];
        i := i + 1;
      }
    }

    // The last eight bytes of the block: the two words of the counter, most significant byte first.
    method StoreLength()
      requires Shape() && Length_Low < TWO32 && Length_High < TWO32
      modifies Message_Block
      ensures Message_Block[..56] == old(Message_Block[..56])
      ensures Message_Block[56..] == BigEndian64(Length_High * TWO32 + Length_Low)
    {
      hide LowByte;
      LengthBytes(Length_High, Length_Low);
      Message_Block[56] := LowByte(Length_High / 0x1000000);
      Message_Block[57] := LowByte(Length_High / 0x10000);
      Message_Block[58] := LowByte(Length_High / 0x100);
      Message_Block[59] := LowByte(Length_High);
      Message_Block[60] := LowByte(Length_Low / 0x1000000);
      Message_Block[61] := LowByte(Length_Low / 0x10000);
      Message_Block[62] := LowByte(Length_Low / 0x100);
      Message_Block[63] := LowByte(Length_Low);
    }

    // Zero bytes from the index up to end.
    method FillZeros(end: nat)
      requires Shape() && Message_Block_Index <= end <= 64
      modifies this`Message_Block_Index, Message_Block
      ensures Message_Block_Index == end
      ensures Message_Block[..end] ==
        old(Message_Block[..Message_Block_Index]) + Repeat<Byte>(0, end - old(Message_Block_Index))
    {
      while Message_Block_Index < end
        invariant old(Message_Block_Index) <= Message_Block_Index <= end
        invariant Message_Block[..Message_Block_Index] ==
          old(Message_Block[..Message_Block_Index]) + Repeat<Byte>(0, Message_Block_Index - old(Message_Block_Index))
      {
        Message_Block[Message_Block_Index] := 0;
        Message_Block_Index := Message_Block_Index + 1;
      }
    }

    // PadMessage: one more block, or two when fewer than nine bytes of the current one are free.
    method PadMessage()
      requires Streaming()
      modifies this`Message_Block_Index, H, Message_Block
      ensures H[..] == Digest(msg)
    {
      if Message_Block_Index > 55 {
        PadTwoBlocks();
      } else {
        PadOneBlock();
      }
    }

    method PadTwoBlocks()
      requires Streaming() && Message_Block_Index > 55
      modifies this`Message_Block_Index, H, Message_Block
      ensures H[..] == Digest(msg)
    {
      hide Fold, Compress, BigEndian64, Whole, Tail;
      ghost var k := Message_Block_Index;
      ghost var whole, tail, bits := Whole(msg), Tail(msg), BigEndian64(8 * |msg|);
      PadBlocks(whole, tail);
      Message_Block[Message_Block_Index] := 0x80;
      Message_Block_Index := Message_Block_Index + 1;
      assert Message_Block[..k + 1] == tail + [0x80];
      FillZeros(64);
      ghost var first: Block := tail + [0x80] + Repeat<Byte>(0, 63 - k);
      assert Message_Block[..] == Message_Block[..64] == first;
      ProcessMessageBlock();
      FoldBlock(H0, whole, first);
      FillZeros(56);
      ghost var second: Block := Repeat<Byte>(0, 56) + bits;
      StoreLength();
      assert Message_Block[..] == Message_Block[..56] + Message_Block[56..] == second;
      ProcessMessageBlock();
      FoldBlock(H0, whole + first, second);
    }

    method PadOneBlock()
      requires Streaming() && Message_Block_Index <= 55
      modifies this`Message_Block_Index, H, Message_Block
      ensures H[..] == Digest(msg)
    {
      hide Fold, Compress, BigEndian64, Whole, Tail;
      ghost var k := Message_Block_Index;
      ghost var whole, tail, bits := Whole(msg), Tail(msg), BigEndian64(8 * |msg|);
      PadBlocks(whole, tail);
      Message_Block[Message_Block_Index] := 0x80;
      Message_Block_Index := Message_Block_Index + 1;
      assert Message_Block[..k + 1] == tail + [0x80];
      FillZeros(56);
      StoreLength();
      ghost var only: Block := tail + [0x80] + Repeat<Byte>(0, 55 - k) + bits;
      assert Message_Block[..] == Message_Block[..56] + Message_Block[56..] == only;
      ProcessMessageBlock();
      FoldBlock(H0, whole, only);
    }

    // Result: the digest of everything accepted, as often as it is asked for; nothing once corrupted.
    method Result(message_digest_array: array<Word>) returns (ok: bool)
      requires Valid() && message_digest_array.Length >= 5 && message_digest_array != H
      modifies this`Message_Block_Index, this`Computed, H, Message_Block, message_digest_array
      ensures Valid() && Corrupted == old(Corrupted) && msg == old(msg)
      ensures ok == !Corrupted && (ok ==> Computed && message_digest_array[..5] == Digest(msg))
    {
      hide Digest, Fold;
      if Corrupted {
        return false;
      }
      if !Computed {
        PadMessage();
        Computed := true;
      }
      for i := 0 to 5
        invariant message_digest_array[..i] == H[..i] && H[..] == Digest(msg) && Shape() && Computed
      {
        message_digest_array[i] := H[i];
      }
      return true;
    }
  }

  // Any run of Input calls followed by Result: the digest depends on the concatenation only, and there is one
  // exactly when the message is shorter than 2^64 bits.
  method DigestOfPieces(pieces: seq<seq<Byte>>) returns (ok: bool, digest: seq<Word>)
    requires forall p :: p in pieces ==> |p| < TWO32
    ensures ok <==> 8 * |Concat(pieces)| < TWO32 * TWO32
    ensures ok ==> digest == Digest(Concat(pieces))
  {
    hide Digest, Fold;
    var sha := new SHA1();
    for i := 0 to |pieces|
      invariant sha.Valid() && !sha.Computed && fresh(sha) && fresh(sha.H) && fresh(sha.Message_Block)
      invariant sha.Corrupted <==> 8 * |Concat(pieces[..i])| >= TWO32 * TWO32
      invariant !sha.Corrupted ==> sha.msg == Concat(pieces[..i])
    {
      assert pieces[..i + 1][..i] == pieces[..i];
      sha.Input(pieces[i]);
    }
    assert pieces[..|pieces|] == pieces;
    var out := new Word[5];
    ok := sha.Result(out);
    digest := out[..];
  }
}
