/** Powers, and the few facts about products that the bounds of both trees need. */
module Powers {

  const TWO32 := 0x1_0000_0000

  function Pow2(k: nat): (p: nat)
    ensures p > 0
  {
    if k == 0 then 1 else 2 * Pow2(k - 1)
  }

  ghost function Power(b: nat, k: nat): nat {
    if k == 0 then 1 else b * Power(b, k - 1)
  }

  ghost function Cube(n: nat): nat {
    n * n * n
  }

  lemma {:induction false} Pow2Add(a: nat, b: nat)
    ensures Pow2(a + b) == Pow2(a) * Pow2(b)
  {
    if a > 0 {
      Pow2Add(a - 1, b);
      assert Pow2(a + b) == 2 * (Pow2(a - 1) * Pow2(b)) == (2 * Pow2(a - 1)) * Pow2(b);
    }
  }

  lemma {:induction false} Pow2Monotone(a: nat, b: nat)
    requires a <= b
    ensures 1 <= Pow2(a) <= Pow2(b)
    decreases b
  {
    if a < b {
      Pow2Monotone(a, b - 1);
    } else if b > 0 {
      Pow2Monotone(b - 1, b - 1);
    }
  }

  lemma {:induction false} PowerMonotone(a: nat, b: nat, k: nat)
    requires a <= b
    ensures Power(a, k) <= Power(b, k)
  {
    if k > 0 {
      PowerMonotone(a, b, k - 1);
      ScaleBoth(a, b, Power(a, k - 1), Power(b, k - 1));
    }
  }

  lemma FourthPower(m: nat)
    ensures Power(m, 4) == m * m * (m * m)
  {
    assert Power(m, 2) == m * (m * Power(m, 0)) == m * m;
    assert Power(m, 4) == m * (m * Power(m, 2));
  }

  lemma Scale(x: int, y: int, m: nat)
    requires x <= y
    ensures x * m <= y * m
  {
    assert (y - x) * m >= 0;
  }

  lemma ScaleBoth(a: nat, b: nat, c: nat, d: nat)
    requires a <= b && c <= d
    ensures a * c <= b * d
  {
    Scale(a, b, c);
    Scale(c, d, b);
  }

  lemma Square(a: nat, b: nat)
    requires a <= b
    ensures a * a <= b * b
  {
    assert b * b - a * a == (b - a) * (b + a);
  }

  // The arithmetic and the geometric mean.
  lemma FourTimes(a: nat, b: nat, s: nat)
    requires a + b <= s
    ensures 4 * (a * b) <= s * s
  {
    assert (a + b) * (a + b) - 4 * (a * b) == (a - b) * (a - b);
    Square(a + b, s);
  }
}
