/** Why the recolouring loops restore the red-black conditions: the case analysis on shapes. */
module RedBlackFixups {
  import opened RedBlackShape
  import opened RedBlackEdits

  // ---- RB_INSERT_COLOR ----

  // The only violation allowed is that t, which is red, may hang from a red node.
  ghost predicate RedAt<K>(c: Ctx<K>, t: Tree<K>) {
    && IsRed(t) && Balanced(t) && NoRedRed(t)
    && CtxBalanced(c, BlackHeight(t)) && CtxNoRedRed(c, false)
    && (!c.Top? ==> !CtxRootRed(c, false))
  }

  // A red parent is not the root, and its own parent is black.
  lemma RedParent<K>(c: Ctx<K>, t: Tree<K>)
    requires RedAt(c, t) && !c.Top? && c.color == Red
    ensures !c.up.Top? && c.up.color == Black && CtxRootRed(c, false) == CtxRootRed(c.up.up, false)
  {
    assert CtxNoRedRed(c.up, true) && CtxRootRed(c, false) == CtxRootRed(c.up, true);
  }

  // One step out of the hole.
  lemma StepOut<K>(c: Ctx<K>, h: nat, red: bool)
    requires !c.Top? && CtxBalanced(c, h) && CtxNoRedRed(c, red)
    ensures var s := Sibling(c);
      && Balanced(s) && BlackHeight(s) == h && NoRedRed(s) && (c.color == Red ==> !red && !IsRed(s))
      && CtxBalanced(c.up, if c.color == Black then h + 1 else h) && CtxNoRedRed(c.up, c.color == Red)
  {}

  lemma RedAtDone<K>(c: Ctx<K>, t: Tree<K>)
    requires RedAt(c, t) && (c.Top? || c.color == Black)
    ensures Plug(c, t).Bin? && RedBlack(Plug(c, t).(color := Black))
  {
    PlugColors(c, t);
    if !c.Top? {
      PlugRoot(c, t);
      CtxRootInCtx(c, Root(t));
    }
  }

  lemma RecolorLeftRestores<K>(c: Ctx<K>, t: Tree<K>)
    requires RedAt(c, t) && !c.Top? && c.color == Red && c.up.InLeft? && IsRed(c.up.right)
    ensures var u, g := c.up.right, c.up;
      RedAt(g.up, Bin(Fill(c, t).(color := Black), g.node, Red, u.(color := Black)))
  {
    RedParent(c, t);
    StepOut(c, BlackHeight(t), false);
    StepOut(c.up, BlackHeight(t), true);
  }

  // The subtree at the parent, after the inner rotation where one is made.
  ghost function InnerLeft<K>(c: Ctx<K>, t: Tree<K>): Tree<K>
    requires !c.Top? && t.Bin?
  {
    if c.InRight? then RotatedLeft(Fill(c, t)) else Fill(c, t)
  }

  lemma RotateInsertLeft<K>(c: Ctx<K>, t: Tree<K>)
    requires RedAt(c, t) && !c.Top? && c.color == Red && c.up.InLeft? && !IsRed(c.up.right)
    ensures var p, g := InnerLeft(c, t), c.up;
      && p.left.Bin?
      && RedAt(InLeft(p.node, Black, Bin(p.right, g.node, Red, g.right), g.up), p.left)
  {
    RedParent(c, t);
    StepOut(c, BlackHeight(t), false);
    StepOut(c.up, BlackHeight(t), true);
  }

  lemma RecolorRightRestores<K>(c: Ctx<K>, t: Tree<K>)
    requires RedAt(c, t) && !c.Top? && c.color == Red && c.up.InRight? && IsRed(c.up.left)
    ensures var u, g := c.up.left, c.up;
      RedAt(g.up, Bin(u.(color := Black), g.node, Red, Fill(c, t).(color := Black)))
  {
    RedParent(c, t);
    StepOut(c, BlackHeight(t), false);
    StepOut(c.up, BlackHeight(t), true);
  }

  // The subtree at the parent, after the inner rotation where one is made.
  ghost function InnerRight<K>(c: Ctx<K>, t: Tree<K>): Tree<K>
    requires !c.Top? && t.Bin?
  {
    if c.InLeft? then RotatedRight(Fill(c, t)) else Fill(c, t)
  }

  lemma RotateInsertRight<K>(c: Ctx<K>, t: Tree<K>)
    requires RedAt(c, t) && !c.Top? && c.color == Red && c.up.InRight? && !IsRed(c.up.left)
    ensures var p, g := InnerRight(c, t), c.up;
      && p.right.Bin?
      && RedAt(InRight(Bin(g.left, g.node, Red, p.left), p.node, Black, g.up), p.right)
  {
    RedParent(c, t);
    StepOut(c, BlackHeight(t), false);
    StepOut(c.up, BlackHeight(t), true);
  }

  // ---- RB_REMOVE_COLOR ----

  ghost function Blackened<K>(t: Tree<K>): Tree<K> {
    if t.Leaf? then Leaf else t.(color := Black)
  }

  // Paths through t are one black node short; t's root may clash with its neighbours if it is red.
  ghost predicate ShortAt<K>(c: Ctx<K>, t: Tree<K>) {
    && Balanced(t) && NoRedRed(Blackened(t))
    && CtxBalanced(c, BlackHeight(t) + 1) && CtxNoRedRed(c, false)
    && (!c.Top? ==> !CtxRootRed(c, false))
  }

  // Leaving the loop: painting a red t, or a t that is the whole tree, black pays the debt.
  lemma ShortDone<K>(c: Ctx<K>, t: Tree<K>)
    requires ShortAt(c, t) && (IsRed(t) || c.Top?)
    ensures RedBlack(Plug(c, Blackened(t)))
  {
    PlugColors(c, Blackened(t));
  }

  // A deficit cannot sit beside an empty sibling.
  lemma SiblingExists<K>(c: Ctx<K>, t: Tree<K>)
    requires ShortAt(c, t) && !c.Top?
    ensures Sibling(c).Bin?
  {
    StepOut(c, BlackHeight(t) + 1, false);
  }

  // Changing the sibling alone.
  ghost function WithSibling<K>(c: Ctx<K>, s: Tree<K>): Ctx<K>
    requires !c.Top?
  {
    if c.InLeft? then c.(right := s) else c.(left := s)
  }

  // Both nephews black: the sibling turns red and the deficit moves to the parent.
  lemma ReddenSibling<K>(c: Ctx<K>, t: Tree<K>)
    requires ShortAt(c, t) && !IsRed(t) && !c.Top?
    requires var s := Sibling(c); s.Bin? && s.color == Black && !IsRed(s.left) && !IsRed(s.right)
    ensures ShortAt(c.up, Fill(WithSibling(c, Sibling(c).(color := Red)), t))
  {
    StepOut(c, BlackHeight(t) + 1, false);
    assert !c.up.Top? ==> CtxRootRed(c, false) == CtxRootRed(c.up, false);
  }

  // A red sibling: after the rotation the sibling is black, and the deficit one level deeper under a red parent.
  ghost function SunkLeft<K>(c: Ctx<K>): Ctx<K>
    requires c.InLeft? && c.right.Bin?
  {
    var s := c.right;
    InLeft(c.node, Red, s.left, InLeft(s.node, Black, s.right, c.up))
  }

  lemma RedSiblingLeftRestores<K>(c: Ctx<K>, t: Tree<K>)
    requires ShortAt(c, t) && !IsRed(t) && c.InLeft? && IsRed(c.right)
    ensures c.color == Black && ShortAt(SunkLeft(c), t) && !IsRed(Sibling(SunkLeft(c)))
  {
    StepOut(c, BlackHeight(t) + 1, false);
    var d := SunkLeft(c);
    assert CtxRootRed(d, false) == CtxRootRed(d.up, true) == CtxRootRed(c.up, false);
    assert !c.up.Top? ==> CtxRootRed(c, false) == CtxRootRed(c.up, false);
    assert CtxBalanced(d.up, BlackHeight(t) + 1) && CtxNoRedRed(d.up, true);
  }

  // The sibling after the inner rotation, where one is made: its outer child is red.
  ghost function StraightLeft<K>(s: Tree<K>): Tree<K>
    requires s.Bin? && (IsRed(s.right) || IsRed(s.left))
  {
    if IsRed(s.right) then s else
    var i := s.left;
    Bin(i.left, i.node, Black, Bin(i.right, s.node, Red, s.right))
  }

  lemma StraightLeftShape<K>(s: Tree<K>)
    requires s.Bin? && s.color == Black && (IsRed(s.right) || IsRed(s.left)) && Balanced(s) && NoRedRed(s)
    ensures var u := StraightLeft(s);
      Balanced(u) && NoRedRed(u) && BlackHeight(u) == BlackHeight(s) && u.color == Black && IsRed(u.right)
  {
    var i := s.left;
    assert i.Bin? ==> Balanced(i.left) && Balanced(i.right) && BlackHeight(i.left) == BlackHeight(i.right);
    assert IsRed(i) ==> NoRedRed(i.left) && NoRedRed(i.right) && !IsRed(i.left) && !IsRed(i.right);
  }

  lemma StraightLeftRestores<K>(c: Ctx<K>, t: Tree<K>)
    requires ShortAt(c, t) && c.InLeft?
    requires var s := c.right; s.Bin? && s.color == Black && (IsRed(s.right) || IsRed(s.left))
    ensures var s := StraightLeft(c.right); ShortAt(c.(right := s), t) && s.color == Black && IsRed(s.right)
  {
    StepOut(c, BlackHeight(t) + 1, false);
    StraightLeftShape(c.right);
    assert !c.up.Top? ==> CtxRootRed(c, false) == CtxRootRed(c.up, c.color == Red);
  }

  // The final rotation: the sibling's outer child supplies the missing black node.
  ghost function BorrowedLeft<K>(c: Ctx<K>, t: Tree<K>): Tree<K>
    requires c.InLeft? && c.right.Bin? && c.right.right.Bin?
  {
    var s := c.right;
    Bin(Bin(t, c.node, Black, s.left), s.node, c.color, s.right.(color := Black))
  }

  lemma BorrowedLeftRestores<K>(c: Ctx<K>, t: Tree<K>)
    requires ShortAt(c, t) && !IsRed(t) && c.InLeft?
    requires var s := c.right; s.Bin? && s.color == Black && IsRed(s.right)
    ensures RedBlack(Plug(c.up, BorrowedLeft(c, t)))
  {
    StepOut(c, BlackHeight(t) + 1, false);
    PlugColors(c.up, BorrowedLeft(c, t));
    assert !c.up.Top? ==> CtxRootRed(c, false) == CtxRootRed(c.up, c.color == Red);
  }

  // A red sibling: after the rotation the sibling is black, and the deficit one level deeper under a red parent.
  ghost function SunkRight<K>(c: Ctx<K>): Ctx<K>
    requires c.InRight? && c.left.Bin?
  {
    var s := c.left;
    InRight(s.right, c.node, Red, InRight(s.left, s.node, Black, c.up))
  }

  lemma RedSiblingRightRestores<K>(c: Ctx<K>, t: Tree<K>)
    requires ShortAt(c, t) && !IsRed(t) && c.InRight? && IsRed(c.left)
    ensures c.color == Black && ShortAt(SunkRight(c), t) && !IsRed(Sibling(SunkRight(c)))
  {
    StepOut(c, BlackHeight(t) + 1, false);
    var d := SunkRight(c);
    assert CtxRootRed(d, false) == CtxRootRed(d.up, true) == CtxRootRed(c.up, false);
    assert !c.up.Top? ==> CtxRootRed(c, false) == CtxRootRed(c.up, false);
    assert CtxBalanced(d.up, BlackHeight(t) + 1) && CtxNoRedRed(d.up, true);
  }

  // The sibling after the inner rotation, where one is made: its outer child is red.
  ghost function StraightRight<K>(s: Tree<K>): Tree<K>
    requires s.Bin? && (IsRed(s.left) || IsRed(s.right))
  {
    if IsRed(s.left) then s else
    var i := s.right;
    Bin(Bin(s.left, s.node, Red, i.left), i.node, Black, i.right)
  }

  lemma StraightRightShape<K>(s: Tree<K>)
    requires s.Bin? && s.color == Black && (IsRed(s.left) || IsRed(s.right)) && Balanced(s) && NoRedRed(s)
    ensures var u := StraightRight(s);
      Balanced(u) && NoRedRed(u) && BlackHeight(u) == BlackHeight(s) && u.color == Black && IsRed(u.left)
  {
    var i := s.right;
    assert i.Bin? ==> Balanced(i.left) && Balanced(i.right) && BlackHeight(i.left) == BlackHeight(i.right);
    assert IsRed(i) ==> NoRedRed(i.left) && NoRedRed(i.right) && !IsRed(i.left) && !IsRed(i.right);
  }

  lemma StraightRightRestores<K>(c: Ctx<K>, t: Tree<K>)
    requires ShortAt(c, t) && c.InRight?
    requires var s := c.left; s.Bin? && s.color == Black && (IsRed(s.left) || IsRed(s.right))
    ensures var s := StraightRight(c.left); ShortAt(c.(left := s), t) && s.color == Black && IsRed(s.left)
  {
    StepOut(c, BlackHeight(t) + 1, false);
    StraightRightShape(c.left);
    assert !c.up.Top? ==> CtxRootRed(c, false) == CtxRootRed(c.up, c.color == Red);
  }

  // The final rotation: the sibling's outer child supplies the missing black node.
  ghost function BorrowedRight<K>(c: Ctx<K>, t: Tree<K>): Tree<K>
    requires c.InRight? && c.left.Bin? && c.left.left.Bin?
  {
    var s := c.left;
    Bin(s.left.(color := Black), s.node, c.color, Bin(s.right, c.node, Black, t))
  }

  lemma BorrowedRightRestores<K>(c: Ctx<K>, t: Tree<K>)
    requires ShortAt(c, t) && !IsRed(t) && c.InRight?
    requires var s := c.left; s.Bin? && s.color == Black && IsRed(s.left)
    ensures RedBlack(Plug(c.up, BorrowedRight(c, t)))
  {
    StepOut(c, BlackHeight(t) + 1, false);
    PlugColors(c.up, BorrowedRight(c, t));
    assert !c.up.Top? ==> CtxRootRed(c, false) == CtxRootRed(c.up, c.color == Red);
  }
}
