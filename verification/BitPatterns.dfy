/** Bytes as bit patterns and as numbers. */
module BitPatterns {
  import opened Bytes
  import opened Powers

  lemma Quotient2(x: bv8)
    ensures (x / 2) as int == x as int / 2
  {}

  lemma Remainder2(x: bv8)
    ensures (x % 2) as int == x as int % 2
  {}

  lemma Quotient4(x: bv8)
    ensures (x / 4) as int == x as int / 4
  {}

  lemma Quotient16(x: bv8)
    ensures (x / 16) as int == x as int / 16
  {}

  lemma Quotient64(x: bv8)
    ensures (x / 64) as int == x as int / 64
  {}

  lemma Remainder4(x: bv8)
    ensures (x % 4) as int == x as int % 4
  {}

  lemma Remainder16(x: bv8)
    ensures (x % 16) as int == x as int % 16
  {}

  lemma Remainder64(x: bv8)
    ensures (x % 64) as int == x as int % 64
  {}

  // Sums that do not overflow.
  lemma Sum4(x: bv8, y: bv8)
    requires x < 64 && y < 4
    ensures (x * 4 + y) as int == x as int * 4 + y as int
  {}

  lemma Sum16(x: bv8, y: bv8)
    requires x < 16 && y < 16
    ensures (x * 16 + y) as int == x as int * 16 + y as int
  {}

  lemma Sum64(x: bv8, y: bv8)
    requires x < 4 && y < 64
    ensures (x * 64 + y) as int == x as int * 64 + y as int
  {}

  lemma SmallSum(x: bv8, y: bv8)
    requires x < 4 && y < 4
    ensures ((x + y) % 4) as int == (x as int + y as int) % 4
  {}

  // ---- Exclusive or ----

  function Number(x: bv8): Byte {
    x as int
  }

  function Half(x: bv8): bv8 {
    x / 2
  }

  predicate Odd(x: bv8) {
    x % 2 == 1
  }

  function ExclusiveOr(a: bv8, b: bv8): bv8 {
    a ^ b
  }

  // The exclusive or computed on numbers is the one on bit patterns.
  lemma XorIsExclusiveOr(a: bv8, b: bv8)
    ensures Xor(a as int, b as int) == (a ^ b) as int
  {
    Byte8();
    XorOfBits(a, b, 8);
  }

  lemma {:induction false} XorOfBits(a: bv8, b: bv8, k: nat)
    requires Number(a) < Pow2(k) && Number(b) < Pow2(k)
    ensures XorBits(Number(a), Number(b), k) == Number(ExclusiveOr(a, b))
    decreases k
  {
    hide Number, Half, Odd, ExclusiveOr, XorBits, Pow2;
    XorInHalves(Number(a), Number(b), k);
    if k == 0 {
      NoBits(a, b);
    } else {
      InHalves(a);
      InHalves(b);
      XorOfBits(Half(a), Half(b), k - 1);
      OrInHalves(a, b);
      InHalves(ExclusiveOr(a, b));
    }
  }

  lemma XorInHalves(x: nat, y: nat, k: nat)
    ensures Pow2(0) == 1 && XorBits(x, y, 0) == 0
    ensures var odd := if (x % 2 == 1) != (y % 2 == 1) then 1 else 0;
      k > 0 ==> XorBits(x, y, k) == 2 * XorBits(x / 2, y / 2, k - 1) + odd
    ensures k > 0 && x < Pow2(k) && y < Pow2(k) ==> x / 2 < Pow2(k - 1) && y / 2 < Pow2(k - 1)
  {
    OddSum(x, y);
    if k > 0 {
      assert Pow2(k) == 2 * Pow2(k - 1);
    }
  }

  lemma OddSum(x: nat, y: nat)
    ensures (x + y) % 2 == if (x % 2 == 1) != (y % 2 == 1) then 1 else 0
  {}

  lemma NoBits(a: bv8, b: bv8)
    requires Number(a) == 0 && Number(b) == 0
    ensures Number(ExclusiveOr(a, b)) == 0
  {
    assert a == 0 && b == 0;
  }

  lemma InHalves(x: bv8)
    ensures Number(Half(x)) == Number(x) / 2 && (Number(x) % 2 == 1 <==> Odd(x))
    ensures Number(x) == 2 * Number(Half(x)) + if Odd(x) then 1 else 0
  {
    Quotient2(x);
    Remainder2(x);
    LowBit(x % 2);
  }

  lemma LowBit(p: bv8)
    requires p < 2
    ensures p as int == if p == 1 then 1 else 0
  {}

  lemma OrInHalves(a: bv8, b: bv8)
    ensures Half(ExclusiveOr(a, b)) == ExclusiveOr(Half(a), Half(b))
    ensures Odd(ExclusiveOr(a, b)) <==> Odd(a) != Odd(b)
  {}
}
