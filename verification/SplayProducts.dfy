/** The arithmetic of the splay tree's amortized bound: products of weights, sizes and powers of two. */
module SplayProducts {
  import opened Powers

  lemma Positive(a: int, b: int)
    requires a > 0 && b > 0
    ensures a * b > 0
  {}

  // Four times two sizes that fit into s and a third one, with the square that a smaller middle loses.
  lemma DoubleSizes(g: nat, w: nat, a: nat, p: nat, r: nat, x: nat, s: nat)
    requires g <= 2 * w * (a * a)
    requires a + p <= s && a <= x && r <= s
    ensures g * (4 * p * r) <= 2 * w * (x * (s * s * s))
  {
    FourTimes(a, p, s);
    ScaleBoth(4 * (a * p), s * s, r, s);
    ScaleBoth(a, x, 4 * (a * p) * r, s * s * s);
    Scale(a * (4 * (a * p) * r), x * (s * s * s), 2 * w);
    Scale(g, 2 * w * (a * a), 4 * p * r);
    DoubleSquare(w, a, p, r);
  }

  lemma DoubleSquare(w: nat, a: nat, p: nat, r: nat)
    ensures 2 * w * (a * a) * (4 * p * r) == a * (4 * (a * p) * r) * (2 * w)
  {}

  // A round that rotates and links pays for two: wl, wr, w0 are the weights of what is left (the sides, the middle),
  // wb, wc those of the subtrees that the rotation moved.
  lemma DoubleStep(p2: nat, wl: nat, wr: nat, w0: nat, wb: nat, wc: nat, a: nat, p: nat, r: nat, x: nat, s: nat)
    requires p2 * wl * wr <= 2 * w0 * (a * a)
    requires a + p <= s && a <= x && r <= s
    ensures 2 * (2 * p2 * wl * (wr * (wb * wc * p) * r)) <= 2 * (w0 * wb * x * wc * s) * (s * s)
  {
    DoubleSizes(p2 * wl * wr, w0, a, p, r, x, s);
    Scale(p2 * wl * wr * (4 * p * r), 2 * w0 * (x * (s * s * s)), wb * wc);
    DoubleBefore(p2, wl, wr, wb, wc, p, r);
    DoubleAfter(w0, wb, x, wc, s);
  }

  lemma DoubleBefore(p2: nat, wl: nat, wr: nat, wb: nat, wc: nat, p: nat, r: nat)
    ensures 2 * (2 * p2 * wl * (wr * (wb * wc * p) * r)) == p2 * wl * wr * (4 * p * r) * (wb * wc)
  {}

  lemma DoubleAfter(w0: nat, wb: nat, x: nat, wc: nat, s: nat)
    ensures 2 * (w0 * wb * x * wc * s) * (s * s) == 2 * w0 * (x * (s * s * s)) * (wb * wc)
  {}

  // Two rounds that link to opposite sides.
  lemma PairSizes(g: nat, w: nat, y: nat, l: nat, r: nat, x: nat, s: nat)
    requires g <= 2 * w * (y * y)
    requires l + r <= s && y <= x && y <= s
    ensures g * (4 * (l * r)) <= 2 * w * (x * s) * (s * s)
  {
    FourTimes(l, r, s);
    ScaleBoth(y, x, y, s);
    Scale(y * y, x * s, 2 * w);
    ScaleBoth(g, 2 * w * (x * s), 4 * (l * r), s * s);
  }

  ghost predicate Covered(p2: nat, wl: nat, wr: nat, w: nat, y: nat) {
    p2 * wl * wr <= 2 * w * (y * y)
  }

  ghost function PairPaid(p2: nat, wl: nat, wr: nat, wa: nat, wc: nat, l: nat, r: nat): nat {
    2 * (2 * p2) * (wa * wl * l) * (wr * wc * r)
  }

  ghost function PairBound(w0: nat, wa: nat, wc: nat, x: nat, s: nat): nat {
    2 * (wa * w0 * x * wc * s) * (s * s)
  }

  lemma PairStep(p2: nat, wl: nat, wr: nat, w0: nat, wa: nat, wc: nat, y: nat, l: nat, r: nat, x: nat, s: nat)
    requires Covered(p2, wl, wr, w0, y)
    requires l + r <= s && y <= x && y <= s
    ensures PairPaid(p2, wl, wr, wa, wc, l, r) <= PairBound(w0, wa, wc, x, s)
  {
    PairSizes(p2 * wl * wr, w0, y, l, r, x, s);
    Scale(p2 * wl * wr * (4 * (l * r)), 2 * w0 * (x * s) * (s * s), wa * wc);
    PairBefore(p2, wl, wr, wa, wc, l, r);
    PairAfter(w0, wa, x, wc, s);
  }

  lemma PairBefore(p2: nat, wl: nat, wr: nat, wa: nat, wc: nat, l: nat, r: nat)
    ensures 2 * (2 * p2) * (wa * wl * l) * (wr * wc * r) == p2 * wl * wr * (4 * (l * r)) * (wa * wc)
  {}

  lemma PairAfter(w0: nat, wa: nat, x: nat, wc: nat, s: nat)
    ensures 2 * (wa * w0 * x * wc * s) * (s * s) == 2 * w0 * (x * s) * (s * s) * (wa * wc)
  {}

  // One round that only links, before one that pays for two.
  lemma SingleStep(p2: nat, wl: nat, wr: nat, wx: nat, wc: nat, r: nat, x: nat, s: nat)
    requires 2 * (p2 * wl * wr) <= 2 * wx * (x * x)
    requires x <= s && r <= s
    ensures 2 * p2 * wl * (wr * wc * r) <= 2 * (wx * wc * s) * (s * s)
  {
    Square(x, s);
    Scale(x * x, s * s, 2 * wx);
    ScaleBoth(2 * (p2 * wl * wr), 2 * wx * (s * s), r, s);
    Scale(2 * (p2 * wl * wr) * r, 2 * wx * (s * s) * s, wc);
    SingleBefore(p2, wl, wr, wc, r);
    SingleAfter(wx, wc, s);
  }

  lemma SingleBefore(p2: nat, wl: nat, wr: nat, wc: nat, r: nat)
    ensures 2 * p2 * wl * (wr * wc * r) == 2 * (p2 * wl * wr) * r * wc
  {}

  lemma SingleAfter(wx: nat, wc: nat, s: nat)
    ensures 2 * (wx * wc * s) * (s * s) == 2 * wx * (s * s) * s * wc
  {}

  // The last rounds: v the weight of the subtrees that stay, r the size of a new subtree.
  lemma LastStep(v: nat, r: nat, x: nat, s: nat)
    requires 1 <= x && r <= s && 2 <= s
    ensures 4 * (v * r) <= 2 * (v * x * s) * (s * s)
  {
    ScaleBoth(2, s, r, s);
    ScaleBoth(1, x, 1, s);
    ScaleBoth(1, x * s, 2 * r, s * s);
    Scale(2 * r, x * s * (s * s), 2 * v);
    LastAfter(v, r, x, s);
  }

  lemma LastDouble(wb: nat, wc: nat, r: nat, x: nat, s: nat)
    requires 1 <= x && r <= s && 2 <= s
    ensures 2 * (2 * 1 * (wb * wc * r)) <= 2 * (1 * wb * x * wc * s) * (s * s)
  {
    LastStep(wb * wc, r, x, s);
    LastRegroup(wb, wc, x, s);
  }

  lemma LastRegroup(wb: nat, wc: nat, x: nat, s: nat)
    ensures wb * wc * x * s == 1 * wb * x * wc * s
  {}

  lemma LastAfter(v: nat, r: nat, x: nat, s: nat)
    ensures 2 * r * (2 * v) == 4 * (v * r)
    ensures x * s * (s * s) * (2 * v) == 2 * (v * x * s) * (s * s)
  {}

  // A link, and then the end of the loop in the next round: m is 2 or 4.
  lemma LastLink(m: nat, wl: nat, wr: nat, wc: nat, r: nat, x: nat, s: nat)
    requires m <= 4 && 1 <= x && r <= s && 2 <= s
    ensures m * wl * (wr * wc * r) <= 2 * (wl * wr * x * wc * s) * (s * s)
  {
    LastStep(wl * wr * wc, r, x, s);
    Scale(m, 4, wl * wr * wc * r);
    LinkRegroup(m, wl, wr, wc, r, x, s);
  }

  lemma LinkRegroup(m: nat, wl: nat, wr: nat, wc: nat, r: nat, x: nat, s: nat)
    ensures m * (wl * wr * wc * r) == m * wl * (wr * wc * r)
    ensures wl * wr * wc * x * s == wl * wr * x * wc * s
  {}

  // The products of the mirror images.
  lemma MirrorWeight(wc: nat, w0: nat, wb: nat, x: nat, s: nat)
    ensures wc * (w0 * wb * x) * s == w0 * wb * x * wc * s == wb * w0 * x * wc * s
    ensures wc * (w0 * wb * x) * s == wc * w0 * x * wb * s
  {}

  lemma MirrorPaid(p2: nat, wl: nat, wr: nat, wb: nat, wc: nat, p: nat, r: nat)
    ensures p2 * wl * wr == p2 * wr * wl
    ensures p2 * (wc * wb * p * wl * r) * wr == p2 * wr * (wl * (wb * wc * p) * r)
    ensures p2 * (wc * wl * r) * wr == p2 * wr * (wl * wc * r)
  {}

  lemma NextPower(k: nat)
    ensures Pow2(k + 1) == 2 * Pow2(k)
  {}

  lemma MirrorLast(wc: nat, wb: nat, p: nat, x: nat, s: nat)
    ensures 2 * (wc * wb * p) * 1 == 2 * 1 * (wb * wc * p)
    ensures wc * (wb * 1 * x) * s == 1 * wb * x * wc * s
  {}

  lemma PaidGroup(p: nat, a: nat, b: nat)
    ensures p * a * b == p * (a * b)
  {}

  lemma StopGroup(v: nat, s: nat)
    ensures s * (s * s) * (2 * v) == 2 * (v * s) * (s * s)
  {}

  // Two to the rounds of an operation, times the new weight, is at most this times the old weight, n the old size.
  // That is 4 (n + 1)^6.
  ghost function Cost(n: nat): nat {
    4 * (Cube(n + 1) * Cube(n + 1))
  }

  lemma CostCovers(n: nat)
    ensures 2 * Cube(n) * (n + 1) <= Cost(n) && 2 * Cube(n) <= Cost(n) && 1 <= Cost(n)
    ensures 2 * (n * n) * (2 * Cube(n)) <= Cost(n)
  {
    Cubes(n, n + 1);
    hide Cube;
    CubesCover(n * n, Cube(n), n + 1, Cube(n + 1));
  }

  lemma CostMonotone(n: nat, m: nat)
    requires n <= m
    ensures Cost(n) <= Cost(m)
  {
    Cubes(n + 1, m + 1);
    Square(Cube(n + 1), Cube(m + 1));
  }

  lemma Cubes(n: nat, m: nat)
    requires n <= m && 1 <= m
    ensures n * n <= Cube(m) && Cube(n) <= Cube(m) && m <= Cube(m)
  {
    Square(n, m);
    ScaleBoth(n * n, m * m, n, m);
    ScaleBoth(1, m, 1, m);
    ScaleBoth(1, m * m, 1, m);
    Scale(1, m, m * m);
    Scale(1, m * m, m);
  }

  lemma CubesCover(square: nat, cube: nat, m: nat, top: nat)
    requires square <= top && cube <= top && 1 <= m <= top
    ensures 2 * cube * m <= 4 * (top * top) && 2 * cube <= 4 * (top * top) && 1 <= 4 * (top * top)
    ensures 2 * square * (2 * cube) <= 4 * (top * top)
  {
    ScaleBoth(cube, top, m, top);
    ScaleBoth(cube, top, 1, top);
    ScaleBoth(1, top, 1, top);
    ScaleBoth(square, top, cube, top);
    Four(square, cube, m);
  }

  lemma Four(a: nat, b: nat, c: nat)
    ensures 2 * a * (2 * b) == 4 * (a * b) && 2 * b * c == 2 * (b * c)
  {}

  lemma PaysRegroup(p: nat, wl: nat, wr: nat, w: nat, n: nat)
    ensures p * wl * wr * n == p * (wl * wr * n) && 2 * w * (n * n) * n == 2 * Cube(n) * w
  {}

  lemma GraftProduct(l: nat, r: nat, k: nat, n: nat)
    requires k <= n
    ensures l * (1 * r * k) * (n + 1) <= l * r * n * (n + 1)
  {
    Scale(k, n, l * r * (n + 1));
    GraftRegroup(l, r, k, n);
  }

  lemma GraftRegroup(l: nat, r: nat, k: nat, n: nat)
    ensures k * (l * r * (n + 1)) == l * (1 * r * k) * (n + 1)
    ensures n * (l * r * (n + 1)) == l * r * n * (n + 1)
  {}

  lemma GraftMirror(l: nat, r: nat, k: nat, n: nat)
    ensures l * 1 * k * r * (n + 1) == r * (1 * l * k) * (n + 1)
    ensures l * r * n * (n + 1) == r * l * n * (n + 1)
  {}

  lemma JoinProduct(p: nat, wo: nat, wl: nat, wr: nat, l: nat, m: nat, n: nat)
    requires p * wo * 1 <= 2 * wl * (l * l) && l <= n && m <= n
    ensures p * (wo * wr * m) <= 2 * (n * n) * (wl * wr * n)
  {
    Square(l, n);
    Scale(l * l, n * n, 2 * wl);
    ScaleBoth(p * wo * 1, 2 * wl * (n * n), m, n);
    Scale(p * wo * 1 * m, 2 * wl * (n * n) * n, wr);
    JoinRegroup(p, wo, wl, wr, m, n);
  }

  lemma JoinRegroup(p: nat, wo: nat, wl: nat, wr: nat, m: nat, n: nat)
    ensures p * wo * 1 * m * wr == p * (wo * wr * m)
    ensures 2 * wl * (n * n) * n * wr == 2 * (n * n) * (wl * wr * n)
  {}

  lemma DropRegroup(w: nat, n: nat)
    ensures n * (2 * (n * n)) * w == 2 * (n * n) * (1 * w * n)
  {}

  // Two bounds in a row.
  lemma Compose(p: nat, q: nat, w: nat, v: nat, u: nat, a: nat, b: nat)
    requires p * v <= a * u && q * w <= b * v
    ensures p * q * w <= b * a * u
  {
    Scale(q * w, b * v, p);
    Scale(p * v, a * u, b);
    ComposeRegroup(p, q, w, v, u, a, b);
  }

  lemma ComposeRegroup(p: nat, q: nat, w: nat, v: nat, u: nat, a: nat, b: nat)
    ensures q * w * p == p * q * w && b * v * p == p * v * b && a * u * b == b * a * u
  {}

  lemma NoRounds()
    ensures Pow2(0) == 1
  {}

  // Products kept out of sight: p rounds and the weight u are covered by c times the weight t.
  ghost predicate Within(p: nat, u: nat, c: nat, t: nat) {
    p * u <= c * t
  }

  lemma GrownBound(p: nat, u: nat, s: nat, t: nat, c: nat, m: nat, cost: nat)
    requires Within(p, s, c, t) && Within(1, u, m, s) && Within(c, m, cost, 1)
    ensures Within(p, u, cost, t)
  {
    Scale(u, s * m, p);
    Scale(p * s, c * t, m);
    Scale(c * m, cost, t);
    GrownRegroup(p, u, s, t, c, m);
  }

  lemma GrownRegroup(p: nat, u: nat, s: nat, t: nat, c: nat, m: nat)
    ensures u * p == p * u && s * m * p == p * s * m && c * t * m == c * m * t
  {}

  lemma JoinedBound(p: nat, q: nat, u: nat, s: nat, t: nat, c: nat, b: nat, cost: nat)
    requires Within(p, s, c, t) && Within(q, u, b, s) && Within(b, c, cost, 1)
    ensures Within(p * q, u, cost, t)
  {
    Compose(p, q, u, s, t, c, b);
    Scale(b * c, cost, t);
  }

  lemma CostWithin(n: nat)
    ensures Within(2 * Cube(n), n + 1, Cost(n), 1) && Within(2 * (n * n), 2 * Cube(n), Cost(n), 1)
  {
    hide Cube, Cost;
    CostCovers(n);
  }
}
