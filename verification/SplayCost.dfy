/** What a splay costs: the rounds of its loop against the change of a potential, the product of all subtree sizes. */
module SplayCost {
  import opened Powers
  import opened SplayProducts
  import opened SplayShape

  ghost function Size<K>(t: Tree<K>): (n: nat)
    ensures n == |Inorder(t)| && (n == 0 <==> t.Leaf?)
  {
    if t.Leaf? then 0 else Size(t.left) + 1 + Size(t.right)
  }

  ghost function Weight<K>(t: Tree<K>): (w: nat)
    ensures w > 0
  {
    if t.Leaf? then 1
    else
      Positive(Weight(t.left) * Weight(t.right), Size(t));
      Positive(Weight(t.left), Weight(t.right));
      Weight(t.left) * Weight(t.right) * Size(t)
  }

  // What a splay by the key k makes of t, and in how many rounds.
  datatype Outcome<K> = Outcome(left: Tree<K>, node: Node<K>, right: Tree<K>, rounds: nat)

  ghost function Splayed<K>(cmp: (K, K) -> int, t: Tree<K>, k: K): (o: Outcome<K>)
    requires t.Bin?
    ensures Size(o.left) + 1 + Size(o.right) == Size(t)
    decreases t
  {
    var comp := cmp(k, t.node.key);
    if comp == 0 then Outcome(t.left, t.node, t.right, 0)
    else if comp < 0 then
      if t.left.Leaf? then Outcome(t.left, t.node, t.right, 1)
      else if cmp(k, t.left.node.key) < 0 then
        var u := RotatedRight(t);
        if u.left.Leaf? then Outcome(u.left, u.node, u.right, 1)
        else OntoRight(Splayed(cmp, t.left.left, k), u)
      else OntoRight(Splayed(cmp, t.left, k), t)
    else
      if t.right.Leaf? then Outcome(t.left, t.node, t.right, 1)
      else if cmp(k, t.right.node.key) > 0 then
        var u := RotatedLeft(t);
        if u.right.Leaf? then Outcome(u.left, u.node, u.right, 1)
        else OntoLeft(Splayed(cmp, t.right.right, k), u)
      else OntoLeft(Splayed(cmp, t.right, k), t)
  }

  ghost function Whole<K>(o: Outcome<K>): Tree<K> {
    Bin(o.left, o.node, o.right)
  }

  // What SPLAY_REMOVE makes of a splayed tree whose root goes, and in how many rounds of its second splay.
  ghost function Joined<K>(cmp: (K, K) -> int, s: Tree<K>, k: K): (Tree<K>, nat)
    requires s.Bin?
  {
    if s.left.Leaf? then (s.right, 0)
    else
      var o := Splayed(cmp, s.left, k);
      (Bin(o.left, o.node, s.right), o.rounds)
  }

  // The root of u was linked to the right (left) spine before the rounds of o.
  ghost function OntoRight<K>(o: Outcome<K>, u: Tree<K>): Outcome<K>
    requires u.Bin?
  {
    Outcome(o.left, o.node, Bin(o.right, u.node, u.right), o.rounds + 1)
  }

  ghost function OntoLeft<K>(o: Outcome<K>, u: Tree<K>): Outcome<K>
    requires u.Bin?
  {
    Outcome(Bin(u.left, u.node, o.left), o.node, o.right, o.rounds + 1)
  }

  // ---- The potential pays ----

  // 2^rounds times the weight of the two sides.
  ghost function Paid<K>(o: Outcome<K>): nat {
    Pow2(o.rounds) * Weight(o.left) * Weight(o.right)
  }

  ghost function Bound<K>(t: Tree<K>): nat {
    2 * Weight(t) * (Size(t) * Size(t))
  }

  // The bound is kept; it is kept with a factor to spare when the first round pays for two.
  ghost predicate Affordable<K>(cmp: (K, K) -> int, t: Tree<K>, k: K)
    requires t.Bin?
  {
    Paid(Splayed(cmp, t, k)) <= Bound(t)
  }

  ghost predicate Generous<K>(cmp: (K, K) -> int, t: Tree<K>, k: K)
    requires t.Bin?
  {
    2 * Paid(Splayed(cmp, t, k)) <= Bound(t)
  }

  lemma Unfold<K>(t: Tree<K>)
    requires t.Bin?
    ensures Size(t) == Size(t.left) + 1 + Size(t.right)
    ensures Weight(t) == Weight(t.left) * Weight(t.right) * Size(t)
  {}

  lemma UnfoldSize<K>(t: Tree<K>)
    requires t.Bin?
    ensures Size(t) == Size(t.left) + 1 + Size(t.right)
  {}

  lemma OneRound<K>()
    ensures Pow2(1) == 2 && Weight<K>(Leaf) == 1 && Size<K>(Leaf) == 0
  {}

  lemma DoublesLeft<K>(cmp: (K, K) -> int, t: Tree<K>, k: K)
    requires t.Bin? && t.left.Bin? && cmp(k, t.node.key) < 0 && cmp(k, t.left.node.key) < 0
    requires t.left.left.Bin? ==> Affordable(cmp, t.left.left, k)
    ensures Generous(cmp, t, k)
  {
    hide Pow2, Weight, Size;
    var x := t.left;
    Unfold(t);
    Unfold(x);
    var s, p := Size(t), Size(x.right) + 1 + Size(t.right);
    if x.left.Leaf? {
      Unfold(Bin(x.right, t.node, t.right));
      OneRound<K>();
      LastDouble(Weight(x.right), Weight(t.right), p, Size(x), s);
    } else {
      var o := Splayed(cmp, x.left, k);
      var r := Size(o.right) + 1 + p;
      Unfold(Bin(x.right, t.node, t.right));
      Unfold(Bin(o.right, x.node, Bin(x.right, t.node, t.right)));
      NextPower(o.rounds);
      DoubleStep(Pow2(o.rounds), Weight(o.left), Weight(o.right), Weight(x.left), Weight(x.right), Weight(t.right),
        Size(x.left), p, r, Size(x), s);
    }
  }

  lemma DoublesRight<K>(cmp: (K, K) -> int, t: Tree<K>, k: K)
    requires t.Bin? && t.right.Bin? && cmp(k, t.node.key) > 0 && cmp(k, t.right.node.key) > 0
    requires t.right.right.Bin? ==> Affordable(cmp, t.right.right, k)
    ensures Generous(cmp, t, k)
  {
    hide Pow2, Weight, Size;
    var x := t.right;
    Unfold(t);
    Unfold(x);
    Unfold(Bin(t.left, t.node, x.left));
    var s, p := Size(t), Size(t.left) + 1 + Size(x.left);
    if x.right.Leaf? {
      OneRound<K>();
      LastDouble(Weight(x.left), Weight(t.left), p, Size(x), s);
      MirrorLast(Weight(t.left), Weight(x.left), p, Size(x), s);
    } else {
      var o := Splayed(cmp, x.right, k);
      var r := Size(o.left) + 1 + p;
      Unfold(Bin(Bin(t.left, t.node, x.left), x.node, o.left));
      NextPower(o.rounds);
      var p2, wl, wr := Pow2(o.rounds), Weight(o.left), Weight(o.right);
      MirrorPaid(p2, wl, wr, Weight(x.left), Weight(t.left), p, r);
      DoubleStep(p2, wr, wl, Weight(x.right), Weight(x.left), Weight(t.left), Size(x.right), p, r, Size(x), s);
      MirrorPaid(2 * p2, wl, wr, Weight(x.left), Weight(t.left), p, r);
      MirrorWeight(Weight(t.left), Weight(x.left), Weight(x.right), Size(x), s);
    }
  }

  // A link towards the left before a round that pays for two.
  lemma LinksLeft<K>(cmp: (K, K) -> int, t: Tree<K>, k: K)
    requires t.Bin? && t.left.Bin? && cmp(k, t.node.key) < 0 && cmp(k, t.left.node.key) >= 0
    requires Generous(cmp, t.left, k)
    ensures Affordable(cmp, t, k)
  {
    hide Pow2, Weight, Size;
    var o := Splayed(cmp, t.left, k);
    var r := Size(o.right) + 1 + Size(t.right);
    Unfold(t);
    Unfold(Bin(o.right, t.node, t.right));
    NextPower(o.rounds);
    SingleStep(Pow2(o.rounds), Weight(o.left), Weight(o.right), Weight(t.left), Weight(t.right), r, Size(t.left),
      Size(t));
  }

  lemma LinksRight<K>(cmp: (K, K) -> int, t: Tree<K>, k: K)
    requires t.Bin? && t.right.Bin? && cmp(k, t.node.key) > 0 && cmp(k, t.right.node.key) <= 0
    requires Generous(cmp, t.right, k)
    ensures Affordable(cmp, t, k)
  {
    hide Pow2, Weight, Size;
    var o := Splayed(cmp, t.right, k);
    var r := Size(t.left) + 1 + Size(o.left);
    Unfold(t);
    Unfold(Bin(t.left, t.node, o.left));
    NextPower(o.rounds);
    var p2, wl, wr := Pow2(o.rounds), Weight(o.left), Weight(o.right);
    MirrorPaid(p2, wl, wr, 0, 0, 0, 0);
    SingleStep(p2, wr, wl, Weight(t.right), Weight(t.left), r, Size(t.right), Size(t));
    MirrorPaid(2 * p2, wl, wr, 0, Weight(t.left), 0, r);
    assert Weight(t.left) * Weight(t.right) == Weight(t.right) * Weight(t.left);
  }

  // A link towards the left, and then the end of the loop.
  lemma StopsLeft<K>(cmp: (K, K) -> int, t: Tree<K>, k: K)
    requires t.Bin? && t.left.Bin? && cmp(k, t.node.key) < 0
    requires cmp(k, t.left.node.key) == 0 || (cmp(k, t.left.node.key) > 0 && t.left.right.Leaf?)
    ensures Affordable(cmp, t, k)
  {
    hide Pow2, Weight, Size;
    var x := t.left;
    var o := Splayed(cmp, x, k);
    Unfold(t);
    Unfold(x);
    Unfold(Bin(x.right, t.node, t.right));
    OneRound<K>();
    NextPower(0);
    NextPower(1);
    LastLink(2 * Pow2(o.rounds), Weight(x.left), Weight(x.right), Weight(t.right), Size(x.right) + 1 + Size(t.right),
      Size(x), Size(t));
  }

  lemma StopsRight<K>(cmp: (K, K) -> int, t: Tree<K>, k: K)
    requires t.Bin? && t.right.Bin? && cmp(k, t.node.key) > 0
    requires cmp(k, t.right.node.key) == 0 || (cmp(k, t.right.node.key) < 0 && t.right.left.Leaf?)
    ensures Affordable(cmp, t, k)
  {
    hide Pow2, Weight, Size;
    var x := t.right;
    var o := Splayed(cmp, x, k);
    var r := Size(t.left) + 1 + Size(x.left);
    Unfold(t);
    Unfold(x);
    Unfold(Bin(t.left, t.node, x.left));
    OneRound<K>();
    NextPower(0);
    NextPower(1);
    LastLink(2 * Pow2(o.rounds), Weight(x.right), Weight(x.left), Weight(t.left), r, Size(x), Size(t));
    MirrorPaid(2 * Pow2(o.rounds), Weight(x.left), Weight(x.right), 0, Weight(t.left), 0, r);
    MirrorWeight(Weight(t.left), Weight(x.left), Weight(x.right), Size(x), Size(t));
  }

  // The outcome of a splay that links the root of t to the right (left) spine and its child x to the other.
  ghost function TurnedLeft<K>(o: Outcome<K>, t: Tree<K>, x: Tree<K>): Outcome<K>
    requires t.Bin? && x.Bin?
  {
    OntoRight(OntoLeft(o, x), t)
  }

  ghost function TurnedRight<K>(o: Outcome<K>, t: Tree<K>, x: Tree<K>): Outcome<K>
    requires t.Bin? && x.Bin?
  {
    OntoLeft(OntoRight(o, x), t)
  }

  lemma TurnedPaid<K>(o: Outcome<K>, t: Tree<K>, x: Tree<K>)
    requires t.Bin? && x.Bin?
    ensures Paid(TurnedLeft(o, t, x)) ==
      PairPaid(Pow2(o.rounds), Weight(o.left), Weight(o.right), Weight(x.left), Weight(t.right),
        Size(x.left) + 1 + Size(o.left), Size(o.right) + 1 + Size(t.right))
    ensures Paid(TurnedRight(o, t, x)) ==
      PairPaid(Pow2(o.rounds), Weight(o.left), Weight(o.right), Weight(t.left), Weight(x.right),
        Size(t.left) + 1 + Size(o.left), Size(o.right) + 1 + Size(x.right))
  {
    hide Pow2, Weight, Size;
    Unfold(Bin(x.left, x.node, o.left));
    Unfold(Bin(o.right, t.node, t.right));
    Unfold(Bin(t.left, t.node, o.left));
    Unfold(Bin(o.right, x.node, x.right));
    NextPower(o.rounds);
    NextPower(o.rounds + 1);
  }

  lemma TurnedBound<K>(t: Tree<K>, x: Tree<K>)
    requires t.Bin? && x.Bin?
    ensures t.left == x ==>
      Bound(t) == PairBound(Weight(x.right), Weight(x.left), Weight(t.right), Size(x), Size(t))
    ensures t.right == x ==>
      Bound(t) == PairBound(Weight(x.left), Weight(t.left), Weight(x.right), Size(x), Size(t))
  {
    hide Weight, Size;
    Unfold(t);
    Unfold(x);
    MirrorWeight(Weight(t.left), Weight(x.left), Weight(x.right), Size(x), Size(t));
  }

  // A link towards the left and then one towards the right.
  lemma TurnsLeft<K>(cmp: (K, K) -> int, t: Tree<K>, k: K)
    requires t.Bin? && t.left.Bin? && t.left.right.Bin?
    requires cmp(k, t.node.key) < 0 && cmp(k, t.left.node.key) > 0 && cmp(k, t.left.right.node.key) <= 0
    requires Affordable(cmp, t.left.right, k)
    ensures Affordable(cmp, t, k)
  {
    var x := t.left;
    var o := Splayed(cmp, x.right, k);
    assert Splayed(cmp, x, k) == OntoLeft(o, x);
    assert Splayed(cmp, t, k) == TurnedLeft(o, t, x);
    TurnPaysLeft(o, t, x);
  }

  lemma TurnsRight<K>(cmp: (K, K) -> int, t: Tree<K>, k: K)
    requires t.Bin? && t.right.Bin? && t.right.left.Bin?
    requires cmp(k, t.node.key) > 0 && cmp(k, t.right.node.key) < 0 && cmp(k, t.right.left.node.key) >= 0
    requires Affordable(cmp, t.right.left, k)
    ensures Affordable(cmp, t, k)
  {
    var x := t.right;
    var o := Splayed(cmp, x.left, k);
    assert Splayed(cmp, x, k) == OntoRight(o, x);
    assert Splayed(cmp, t, k) == TurnedRight(o, t, x);
    TurnPaysRight(o, t, x);
  }

  lemma TurnPaysLeft<K>(o: Outcome<K>, t: Tree<K>, x: Tree<K>)
    requires t.Bin? && x.Bin? && t.left == x && Size(o.left) + 1 + Size(o.right) == Size(x.right)
    requires Covered(Pow2(o.rounds), Weight(o.left), Weight(o.right), Weight(x.right), Size(x.right))
    ensures Paid(TurnedLeft(o, t, x)) <= Bound(t)
  {
    hide Paid, Bound, Covered, Pow2, Weight, Size, PairPaid, PairBound, TurnedLeft, TurnedRight;
    UnfoldSize(t);
    UnfoldSize(x);
    var l, r := Size(x.left) + 1 + Size(o.left), Size(o.right) + 1 + Size(t.right);
    PairStep(Pow2(o.rounds), Weight(o.left), Weight(o.right), Weight(x.right), Weight(x.left), Weight(t.right),
      Size(x.right), l, r, Size(x), Size(t));
    TurnedPaid(o, t, x);
    TurnedBound(t, x);
  }

  lemma TurnPaysRight<K>(o: Outcome<K>, t: Tree<K>, x: Tree<K>)
    requires t.Bin? && x.Bin? && t.right == x && Size(o.left) + 1 + Size(o.right) == Size(x.left)
    requires Covered(Pow2(o.rounds), Weight(o.left), Weight(o.right), Weight(x.left), Size(x.left))
    ensures Paid(TurnedRight(o, t, x)) <= Bound(t)
  {
    hide Paid, Bound, Covered, Pow2, Weight, Size, PairPaid, PairBound, TurnedLeft, TurnedRight;
    UnfoldSize(t);
    UnfoldSize(x);
    var l, r := Size(t.left) + 1 + Size(o.left), Size(o.right) + 1 + Size(x.right);
    PairStep(Pow2(o.rounds), Weight(o.left), Weight(o.right), Weight(x.left), Weight(t.left), Weight(x.right),
      Size(x.left), l, r, Size(x), Size(t));
    TurnedPaid(o, t, x);
    TurnedBound(t, x);
  }

  // No round, or one that ends at once.
  lemma StopsAtOnce<K>(cmp: (K, K) -> int, t: Tree<K>, k: K)
    requires t.Bin?
    requires var comp := cmp(k, t.node.key);
      comp == 0 || (comp < 0 && t.left.Leaf?) || (comp > 0 && t.right.Leaf?)
    ensures Affordable(cmp, t, k)
  {
    hide Pow2, Weight, Size;
    var s, v, o := Size(t), Weight(t.left) * Weight(t.right), Splayed(cmp, t, k);
    Unfold(t);
    OneRound<K>();
    NextPower(0);
    assert Paid(o) == Pow2(o.rounds) * v by {
      PaidGroup(Pow2(o.rounds), Weight(t.left), Weight(t.right));
    }
    Scale(Pow2(o.rounds), 2, v);
    ScaleBoth(1, s, 1, s);
    ScaleBoth(1, s, 1, s * s);
    Scale(1, s * (s * s), 2 * v);
    StopGroup(v, s);
  }

  // The amortized bound: two to the rounds, times the weight of the two sides, is at most twice the old weight
  // times the square of the size.
  lemma {:induction false} Amortized<K>(cmp: (K, K) -> int, t: Tree<K>, k: K)
    requires t.Bin?
    ensures Affordable(cmp, t, k)
    decreases t
  {
    hide Affordable, Generous;
    var comp := cmp(k, t.node.key);
    if comp == 0 || (comp < 0 && t.left.Leaf?) || (comp > 0 && t.right.Leaf?) {
      StopsAtOnce(cmp, t, k);
    } else if comp < 0 {
      var x := t.left;
      var next := cmp(k, x.node.key);
      if next < 0 {
        if x.left.Bin? {
          Amortized(cmp, x.left, k);
        }
        DoublesLeft(cmp, t, k);
        GenerousAffordable(cmp, t, k);
      } else if next == 0 || x.right.Leaf? {
        StopsLeft(cmp, t, k);
      } else if cmp(k, x.right.node.key) > 0 {
        if x.right.right.Bin? {
          Amortized(cmp, x.right.right, k);
        }
        DoublesRight(cmp, x, k);
        LinksLeft(cmp, t, k);
      } else {
        Amortized(cmp, x.right, k);
        TurnsLeft(cmp, t, k);
      }
    } else {
      var x := t.right;
      var next := cmp(k, x.node.key);
      if next > 0 {
        if x.right.Bin? {
          Amortized(cmp, x.right, k);
        }
        DoublesRight(cmp, t, k);
        GenerousAffordable(cmp, t, k);
      } else if next == 0 || x.left.Leaf? {
        StopsRight(cmp, t, k);
      } else if cmp(k, x.left.node.key) < 0 {
        if x.left.left.Bin? {
          Amortized(cmp, x.left.left, k);
        }
        DoublesLeft(cmp, x, k);
        LinksRight(cmp, t, k);
      } else {
        Amortized(cmp, x.left, k);
        TurnsRight(cmp, t, k);
      }
    }
  }

  lemma GenerousAffordable<K>(cmp: (K, K) -> int, t: Tree<K>, k: K)
    requires t.Bin? && Generous(cmp, t, k)
    ensures Affordable(cmp, t, k)
  {}

  // ---- A splay in progress ----

  // The tree a splay ends with, seen from a split on the way.
  ghost function Finished<K>(cmp: (K, K) -> int, s: Split<K>, k: K): Tree<K>
    requires s.mid.Bin?
  {
    var o := Splayed(cmp, s.mid, k);
    Bin(CloseLeft(s.ls, o.left), o.node, CloseRight(s.rs, o.right))
  }

  ghost function Remaining<K>(cmp: (K, K) -> int, s: Split<K>, k: K): nat
    requires s.mid.Bin?
  {
    Splayed(cmp, s.mid, k).rounds
  }

  // One round from s to u: the last, or one that leaves the end the same and one round less.
  ghost predicate OneLess<K>(cmp: (K, K) -> int, s: Split<K>, u: Split<K>, done: bool, k: K)
    requires s.mid.Bin? && u.mid.Bin?
  {
    if done then Assembled(u) == Finished(cmp, s, k) && Remaining(cmp, s, k) == 1
    else Finished(cmp, u, k) == Finished(cmp, s, k) && Remaining(cmp, s, k) == Remaining(cmp, u, k) + 1
  }

  lemma RoundLeft<K>(cmp: (K, K) -> int, s: Split<K>, k: K)
    requires s.mid.Bin? && cmp(k, s.mid.node.key) < 0
    ensures s.mid.left.Leaf? ==> OneLess(cmp, s, s, true, k)
    ensures s.mid.left.Bin? && cmp(k, s.mid.left.node.key) >= 0 ==> OneLess(cmp, s, LinkedLeft(s), false, k)
    ensures s.mid.left.Bin? && cmp(k, s.mid.left.node.key) < 0 ==>
      var u := s.(mid := RotatedRight(s.mid));
      if u.mid.left.Leaf? then OneLess(cmp, s, u, true, k) else OneLess(cmp, s, LinkedLeft(u), false, k)
  {}

  lemma RoundRight<K>(cmp: (K, K) -> int, s: Split<K>, k: K)
    requires s.mid.Bin? && cmp(k, s.mid.node.key) > 0
    ensures s.mid.right.Leaf? ==> OneLess(cmp, s, s, true, k)
    ensures s.mid.right.Bin? && cmp(k, s.mid.right.node.key) <= 0 ==> OneLess(cmp, s, LinkedRight(s), false, k)
    ensures s.mid.right.Bin? && cmp(k, s.mid.right.node.key) > 0 ==>
      var u := s.(mid := RotatedLeft(s.mid));
      if u.mid.right.Leaf? then OneLess(cmp, s, u, true, k) else OneLess(cmp, s, LinkedRight(u), false, k)
  {}

  // The loop ends at once when the root has the key.
  lemma RoundNone<K>(cmp: (K, K) -> int, s: Split<K>, k: K)
    requires s.mid.Bin? && cmp(k, s.mid.node.key) == 0
    ensures Assembled(s) == Finished(cmp, s, k) && Remaining(cmp, s, k) == 0
  {}

  // ---- What one operation costs ----

  // The balance bound for a splay: the rounds are paid by the potential, but for three times lg n and one.
  lemma SplayPays<K>(cmp: (K, K) -> int, t: Tree<K>, k: K)
    requires t.Bin?
    ensures var o, n := Splayed(cmp, t, k), Size(t);
      Pow2(o.rounds) * Weight(Bin(o.left, o.node, o.right)) <= 2 * Cube(n) * Weight(t)
  {
    hide Weight, Size, Splayed, Pow2;
    var o, n := Splayed(cmp, t, k), Size(t);
    assert Paid(o) <= Bound(t) by {
      Amortized(cmp, t, k);
    }
    Unfold(Bin(o.left, o.node, o.right));
    Scale(Paid(o), Bound(t), n);
    PaysRegroup(Pow2(o.rounds), Weight(o.left), Weight(o.right), Weight(t), n);
  }

  // ---- Insertion and removal ----

  // The root of u is new, and that of t hangs under it with one of its sides.
  ghost predicate HungUnder<K>(t: Tree<K>, u: Tree<K>)
    requires t.Bin? && u.Bin?
  {
    || (u.left == t.left && u.right.Bin? && u.right.left.Leaf? && u.right.right == t.right)
    || (u.right == t.right && u.left.Bin? && u.left.right.Leaf? && u.left.left == t.left)
  }

  lemma GraftPays<K>(t: Tree<K>, u: Tree<K>)
    requires t.Bin? && u.Bin? && HungUnder(t, u)
    ensures Weight(u) <= Weight(t) * (Size(t) + 1)
  {
    hide Weight, Size;
    OneRound<K>();
    Unfold(t);
    Unfold(u);
    var l, r, n := Weight(t.left), Weight(t.right), Size(t);
    if u.left == t.left && u.right.Bin? && u.right.left.Leaf? && u.right.right == t.right {
      Unfold(u.right);
      GraftProduct(l, r, Size(u.right), n);
    } else {
      Unfold(u.left);
      GraftProduct(r, l, Size(u.left), n);
      GraftMirror(l, r, Size(u.left), n);
    }
  }

  // Joining: the left part of t is splayed by a key that leaves its root without a right child, and takes the
  // right part.
  lemma JoinPays<K>(cmp: (K, K) -> int, t: Tree<K>, k: K)
    requires t.Bin? && t.left.Bin? && Splayed(cmp, t.left, k).right.Leaf?
    ensures var o, n := Splayed(cmp, t.left, k), Size(t);
      Pow2(o.rounds) * Weight(Bin(o.left, o.node, t.right)) <= 2 * (n * n) * Weight(t)
  {
    hide Weight, Size, Splayed, Pow2;
    var o, l, n := Splayed(cmp, t.left, k), Size(t.left), Size(t);
    assert Paid(o) <= Bound(t.left) by {
      Amortized(cmp, t.left, k);
    }
    OneRound<K>();
    Unfold(t);
    Unfold(Bin(o.left, o.node, t.right));
    var m := Size(o.left) + 1 + Size(t.right);
    JoinProduct(Pow2(o.rounds), Weight(o.left), Weight(t.left), Weight(t.right), l, m, n);
  }

  // Taking the root away when there is nothing to its left.
  lemma DropPays<K>(t: Tree<K>)
    requires t.Bin? && t.left.Leaf?
    ensures Weight(t.right) <= 2 * (Size(t) * Size(t)) * Weight(t)
  {
    hide Weight, Size;
    var n := Size(t);
    OneRound<K>();
    Unfold(t);
    ScaleBoth(1, n, 1, n);
    ScaleBoth(1, n, 1, 2 * (n * n));
    Scale(1, n * (2 * (n * n)), Weight(t.right));
    DropRegroup(Weight(t.right), n);
  }

  // ---- The bound of each operation ----

  lemma CostOfNothing<K>(t: Tree<K>)
    ensures Pow2(0) * Weight(t) <= Cost(Size(t)) * Weight(t)
  {
    hide Weight, Cost;
    CostCovers(Size(t));
    Scale(1, Cost(Size(t)), Weight(t));
  }

  // A search.
  lemma SplayCosts<K>(cmp: (K, K) -> int, t: Tree<K>, k: K)
    requires t.Bin?
    ensures var o := Splayed(cmp, t, k);
      Pow2(o.rounds) * Weight(Bin(o.left, o.node, o.right)) <= Cost(Size(t)) * Weight(t)
  {
    hide Weight, Cost, Splayed, Cube, Pow2;
    CostCovers(Size(t));
    SplayPays(cmp, t, k);
    Scale(2 * Cube(Size(t)), Cost(Size(t)), Weight(t));
  }

  lemma FirstCosts<K>(n: Node<K>)
    ensures Pow2(0) * Weight(Bin(Leaf, n, Leaf)) <= Cost(0) * Weight<K>(Leaf)
  {}

  // An insertion.
  lemma InsertCosts<K>(cmp: (K, K) -> int, t: Tree<K>, k: K, u: Tree<K>)
    requires t.Bin? && u.Bin? && var o := Splayed(cmp, t, k); HungUnder(Bin(o.left, o.node, o.right), u)
    ensures Within(Pow2(Splayed(cmp, t, k).rounds), Weight(u), Cost(Size(t)), Weight(t))
  {
    hide Weight, Size, Cost, Splayed, Cube, Pow2, Within, HungUnder;
    var o, n := Splayed(cmp, t, k), Size(t);
    var s := Bin(o.left, o.node, o.right);
    CostWithin(n);
    SplayWithin(cmp, t, k);
    GraftWithin(s, u);
    GrownBound(Pow2(o.rounds), Weight(u), Weight(s), Weight(t), 2 * Cube(n), n + 1, Cost(n));
  }

  lemma SplayWithin<K>(cmp: (K, K) -> int, t: Tree<K>, k: K)
    requires t.Bin?
    ensures var o, n := Splayed(cmp, t, k), Size(t);
      && Size(Bin(o.left, o.node, o.right)) == n
      && Within(Pow2(o.rounds), Weight(Bin(o.left, o.node, o.right)), 2 * Cube(n), Weight(t))
  {
    hide Cube, Pow2, Weight, Splayed;
    SplayPays(cmp, t, k);
  }

  lemma GraftWithin<K>(s: Tree<K>, u: Tree<K>)
    requires s.Bin? && u.Bin? && HungUnder(s, u)
    ensures Within(1, Weight(u), Size(s) + 1, Weight(s))
  {
    hide Weight, Size, HungUnder;
    GraftPays(s, u);
  }

  // A removal: s is the splayed tree, u the joined one.
  lemma RemoveCosts<K>(cmp: (K, K) -> int, t: Tree<K>, k: K, s: Tree<K>, u: Tree<K>, more: nat)
    requires t.Bin? && var o := Splayed(cmp, t, k); s == Bin(o.left, o.node, o.right)
    requires Within(Pow2(more), Weight(u), 2 * (Size(s) * Size(s)), Weight(s))
    ensures Within(Pow2(Splayed(cmp, t, k).rounds + more), Weight(u), Cost(Size(t)), Weight(t))
  {
    hide Weight, Size, Cost, Splayed, Cube, Pow2, Within;
    var o, n := Splayed(cmp, t, k), Size(t);
    CostWithin(n);
    SplayWithin(cmp, t, k);
    Pow2Add(o.rounds, more);
    JoinedBound(Pow2(o.rounds), Pow2(more), Weight(u), Weight(s), Weight(t), 2 * Cube(n), 2 * (n * n), Cost(n));
  }
}
