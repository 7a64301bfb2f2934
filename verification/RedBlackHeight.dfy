/** The header's height bound: a red-black tree of n nodes is at most 2 lg (n + 1) high. */
module RedBlackHeight {
  import opened Powers
  import opened RedBlackSearch
  import opened RedBlackShape

  // A balanced tree holds at least as many nodes as the full tree of its black height.
  lemma {:induction false} BlackHeightSize<K>(t: Tree<K>)
    requires Balanced(t)
    ensures Pow2(BlackHeight(t)) <= |Inorder(t)| + 1
  {
    if t.Bin? {
      BlackHeightSize(t.left);
      BlackHeightSize(t.right);
    }
  }

  // At most every other node on a path is red.
  lemma {:induction false} HeightBlackHeight<K>(t: Tree<K>)
    requires Balanced(t) && NoRedRed(t)
    ensures Height(t) <= 2 * BlackHeight(t) + if IsRed(t) then 1 else 0
  {
    if t.Bin? {
      HeightBlackHeight(t.left);
      HeightBlackHeight(t.right);
    }
  }

  // 2^height <= (n + 1)^2, that is height <= 2 lg (n + 1).
  lemma HeightBound<K>(t: Tree<K>)
    requires RedBlack(t)
    ensures var n := |Inorder(t)|; Pow2(Height(t)) <= (n + 1) * (n + 1)
  {
    var b, n := BlackHeight(t), |Inorder(t)|;
    BlackHeightSize(t);
    HeightBlackHeight(t);
    Pow2Monotone(Height(t), b + b);
    Pow2Add(b, b);
    Square(Pow2(b), n + 1);
  }

  // The depth of a position, and of one position seen from another.
  lemma {:induction false} DepthHeight<K>(c: Ctx<K>, t: Tree<K>)
    ensures Depth(c) + Height(t) <= Height(Plug(c, t))
    decreases c
  {
    if !c.Top? {
      DepthHeight(c.up, Fill(c, t));
    }
  }

  lemma {:induction false} WithinDepth<K>(d: Ctx<K>, e: Ctx<K>)
    ensures Depth(Within(d, e)) == Depth(d) + Depth(e)
  {
    if !d.Top? {
      WithinDepth(d.up, e);
    }
  }

  // One way down or up the tree takes at most 2 lg (n + 1) steps.
  lemma OnePath<K>(t: Tree<K>, steps: nat)
    requires RedBlack(t) && steps <= Height(t)
    ensures var n := |Inorder(t)|; Pow2(steps) <= (n + 1) * (n + 1)
  {
    HeightBound(t);
    Pow2Monotone(steps, Height(t));
  }

  // A way down and a way up with one step more take at most 1 + 4 lg (n + 1).
  lemma TwoPaths<K>(t: Tree<K>, steps: nat)
    requires RedBlack(t) && steps <= 2 * Height(t) + 1
    ensures Pow2(steps) <= 2 * Power(|Inorder(t)| + 1, 4)
  {
    hide RedBlack;
    var h, m := Height(t), |Inorder(t)| + 1;
    HeightBound(t);
    Pow2Monotone(steps, h + h + 1);
    Pow2Add(h + h, 1);
    Pow2Add(h, h);
    Square(Pow2(h), m * m);
    FourthPower(m);
  }
}
