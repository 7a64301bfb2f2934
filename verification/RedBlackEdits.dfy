/** Each rewriting step of the red-black tree: which link fields it writes, and that it writes no others. */
module RedBlackEdits {
  import opened Sequences
  import opened RedBlackShape

  // ---- Rotations ----

  ghost predicate CanRotateLeft<K>(t: Tree<K>) {
    t.Bin? && t.right.Bin?
  }

  ghost function RotatedLeft<K>(t: Tree<K>): Tree<K>
    requires CanRotateLeft(t)
  {
    var r := t.right;
    Bin(Bin(t.left, t.node, t.color, r.left), r.node, r.color, r.right)
  }

  // The links a left rotation of t under c writes, and no others.
  ghost function LeftRotationWrites<K>(c: Ctx<K>, t: Tree<K>, n: Node<K>, was: Cell<K>): Cell<K>
    requires CanRotateLeft(t)
  {
    var x, y, b := t.node, t.right.node, Root(t.right.left);
    if n == x then was.(right := b, parent := y)
    else if n == y then was.(left := x, parent := Parent(c))
    else if n == b then was.(parent := x)
    else if n == Parent(c) then Relinked(c, was, y)
    else was
  }

  lemma RotatedLeftAt<K>(t: Tree<K>, p: Node?<K>, n: Node<K>)
    requires CanRotateLeft(t) && Distinct(t) && n in Nodes(t)
    ensures Distinct(RotatedLeft(t)) && n in Nodes(RotatedLeft(t))
    ensures var x, y, b := t.node, t.right.node, t.right.left;
      At(RotatedLeft(t), p, n) ==
        if n == x then Cell(Root(t.left), Root(b), y, t.color)
        else if n == y then Cell(x, Root(t.right.right), p, t.right.color)
        else if n == Root(b) then At(t, p, n).(parent := x)
        else At(t, p, n)
  {
    var u, b := RotatedLeft(t), t.right.left;
    assert Nodes(u.left) == Nodes(t.left) + {t.node} + Nodes(b);
    if n in Nodes(t.right) {
      assert At(t, p, n) == At(t.right, t.node, n);
      if n in Nodes(b) {
        assert At(u, p, n) == At(u.left, u.node, n) == At(b, t.node, n);
        assert At(t.right, t.node, n) == At(b, t.right.node, n);
      }
    } else if n in Nodes(t.left) {
      assert At(u, p, n) == At(u.left, u.node, n);
    }
  }

  lemma RotateLeftAt<K>(c: Ctx<K>, t: Tree<K>, n: Node<K>)
    requires CanRotateLeft(t) && Distinct(Plug(c, t)) && n in Nodes(Plug(c, t))
    ensures Distinct(Plug(c, RotatedLeft(t))) && n in Nodes(Plug(c, RotatedLeft(t)))
    ensures At(Plug(c, RotatedLeft(t)), null, n) == LeftRotationWrites(c, t, n, At(Plug(c, t), null, n))
  {
    var u := RotatedLeft(t);
    PlugNodes(c, t);
    PlugNodes(c, u);
    assert Distinct(u) && Nodes(u) == Nodes(t);
    ReplugAt(c, t, u, n);
    if n in Nodes(t) {
      RotatedLeftAt(t, Parent(c), n);
    }
  }

  lemma RotatedLeftContents<K>(t: Tree<K>)
    requires CanRotateLeft(t)
    ensures Inorder(RotatedLeft(t)) == Inorder(t) && Nodes(RotatedLeft(t)) == Nodes(t)
  {
    var r := t.right;
    RegroupRotation(Inorder(t.left), [t.node], Inorder(r.left), [r.node], Inorder(r.right));
  }

  // A left rotation anywhere keeps the elements and their order, and writes four links.
  lemma RotateLeftWrites<K>(c: Ctx<K>, t: Tree<K>)
    requires CanRotateLeft(t) && Distinct(Plug(c, t))
    ensures var was, now := Plug(c, t), Plug(c, RotatedLeft(t));
      && Distinct(now) && Nodes(now) == Nodes(was) && Inorder(now) == Inorder(was)
      && Root(now) == (if c.Top? then t.right.node else Root(was))
      && forall n :: n in Nodes(was) ==> At(now, null, n) == LeftRotationWrites(c, t, n, At(was, null, n))
  {
    var was, now := Plug(c, t), Plug(c, RotatedLeft(t));
    RotatedLeftContents(t);
    ReplugContents(c, t, RotatedLeft(t));
    PlugRoot(c, t);
    PlugRoot(c, RotatedLeft(t));
    forall n | n in Nodes(was)
      ensures Distinct(now) && n in Nodes(now)
      ensures At(now, null, n) == LeftRotationWrites(c, t, n, At(was, null, n))
    {
      RotateLeftAt(c, t, n);
    }
    PlugNodes(c, t);
    assert t.node in Nodes(was);
  }

  ghost predicate CanRotateRight<K>(t: Tree<K>) {
    t.Bin? && t.left.Bin?
  }

  ghost function RotatedRight<K>(t: Tree<K>): Tree<K>
    requires CanRotateRight(t)
  {
    var l := t.left;
    Bin(l.left, l.node, l.color, Bin(l.right, t.node, t.color, t.right))
  }

  // The links a right rotation of t under c writes, and no others.
  ghost function RightRotationWrites<K>(c: Ctx<K>, t: Tree<K>, n: Node<K>, was: Cell<K>): Cell<K>
    requires CanRotateRight(t)
  {
    var x, y, b := t.node, t.left.node, Root(t.left.right);
    if n == x then was.(left := b, parent := y)
    else if n == y then was.(right := x, parent := Parent(c))
    else if n == b then was.(parent := x)
    else if n == Parent(c) then Relinked(c, was, y)
    else was
  }

  lemma RotatedRightAt<K>(t: Tree<K>, p: Node?<K>, n: Node<K>)
    requires CanRotateRight(t) && Distinct(t) && n in Nodes(t)
    ensures Distinct(RotatedRight(t)) && n in Nodes(RotatedRight(t))
    ensures var x, y, b := t.node, t.left.node, t.left.right;
      At(RotatedRight(t), p, n) ==
        if n == x then Cell(Root(b), Root(t.right), y, t.color)
        else if n == y then Cell(Root(t.left.left), x, p, t.left.color)
        else if n == Root(b) then At(t, p, n).(parent := x)
        else At(t, p, n)
  {
    var u, b := RotatedRight(t), t.left.right;
    assert Nodes(u.right) == Nodes(t.right) + {t.node} + Nodes(b);
    if n in Nodes(t.left) {
      assert At(t, p, n) == At(t.left, t.node, n);
      if n in Nodes(b) {
        assert At(u, p, n) == At(u.right, u.node, n) == At(b, t.node, n);
        assert At(t.left, t.node, n) == At(b, t.left.node, n);
      }
    } else if n in Nodes(t.right) {
      assert At(u, p, n) == At(u.right, u.node, n);
    }
  }

  lemma RotateRightAt<K>(c: Ctx<K>, t: Tree<K>, n: Node<K>)
    requires CanRotateRight(t) && Distinct(Plug(c, t)) && n in Nodes(Plug(c, t))
    ensures Distinct(Plug(c, RotatedRight(t))) && n in Nodes(Plug(c, RotatedRight(t)))
    ensures At(Plug(c, RotatedRight(t)), null, n) == RightRotationWrites(c, t, n, At(Plug(c, t), null, n))
  {
    var u := RotatedRight(t);
    PlugNodes(c, t);
    PlugNodes(c, u);
    assert Distinct(u) && Nodes(u) == Nodes(t);
    ReplugAt(c, t, u, n);
    if n in Nodes(t) {
      RotatedRightAt(t, Parent(c), n);
    }
  }

  lemma RotatedRightContents<K>(t: Tree<K>)
    requires CanRotateRight(t)
    ensures Inorder(RotatedRight(t)) == Inorder(t) && Nodes(RotatedRight(t)) == Nodes(t)
  {
    var l := t.left;
    RegroupRotation(Inorder(l.left), [l.node], Inorder(l.right), [t.node], Inorder(t.right));
  }

  // A right rotation anywhere keeps the elements and their order, and writes four links.
  lemma RotateRightWrites<K>(c: Ctx<K>, t: Tree<K>)
    requires CanRotateRight(t) && Distinct(Plug(c, t))
    ensures var was, now := Plug(c, t), Plug(c, RotatedRight(t));
      && Distinct(now) && Nodes(now) == Nodes(was) && Inorder(now) == Inorder(was)
      && Root(now) == (if c.Top? then t.left.node else Root(was))
      && forall n :: n in Nodes(was) ==> At(now, null, n) == RightRotationWrites(c, t, n, At(was, null, n))
  {
    var was, now := Plug(c, t), Plug(c, RotatedRight(t));
    RotatedRightContents(t);
    ReplugContents(c, t, RotatedRight(t));
    PlugRoot(c, t);
    PlugRoot(c, RotatedRight(t));
    forall n | n in Nodes(was)
      ensures Distinct(now) && n in Nodes(now)
      ensures At(now, null, n) == RightRotationWrites(c, t, n, At(was, null, n))
    {
      RotateRightAt(c, t, n);
    }
    PlugNodes(c, t);
    assert t.node in Nodes(was);
  }

  // ---- Recolouring, attaching, unlinking, replacing ----

  lemma PaintWrites<K>(c: Ctx<K>, t: Tree<K>, col: Color)
    requires t.Bin? && Distinct(Plug(c, t))
    ensures var was, now := Plug(c, t), Plug(c, t.(color := col));
      && Distinct(now) && Nodes(now) == Nodes(was) && Inorder(now) == Inorder(was) && Root(now) == Root(was)
      && t.node in Nodes(was)
      && forall n :: n in Nodes(was) ==>
        At(now, null, n) == if n == t.node then At(was, null, n).(color := col) else At(was, null, n)
  {
    var was, u := Plug(c, t), t.(color := col);
    var now := Plug(c, u);
    ReplugContents(c, t, u);
    PlugRoot(c, t);
    PlugRoot(c, u);
    PlugNodes(c, t);
    PlugNodes(c, u);
    forall n | n in Nodes(was)
      ensures At(now, null, n) == if n == t.node then At(was, null, n).(color := col) else At(was, null, n)
    {
      ReplugAt(c, t, u, n);
      if n == Parent(c) {
        PlugAtParent(c, t);
      }
    }
  }

  // A new red leaf in an empty place: its parent's link is the only old field written.
  lemma AttachWrites<K>(c: Ctx<K>, elm: Node<K>)
    requires Distinct(Plug(c, Leaf)) && elm !in Nodes(Plug(c, Leaf))
    ensures var was, now := Plug(c, Leaf), Plug(c, Bin(Leaf, elm, Red, Leaf));
      && Distinct(now) && Nodes(now) == Nodes(was) + {elm}
      && Root(now) == (if c.Top? then elm else Root(was))
      && At(now, null, elm) == Cell(null, null, Parent(c), Red)
      && forall n :: n in Nodes(was) ==>
        At(now, null, n) == if n == Parent(c) then Relinked(c, At(was, null, n), elm) else At(was, null, n)
  {
    var was, u := Plug(c, Leaf), Bin(Leaf, elm, Red, Leaf);
    var now := Plug(c, u);
    PlugNodes(c, Leaf);
    PlugNodes(c, u);
    PlugRoot(c, Leaf);
    PlugRoot(c, u);
    forall n | n in Nodes(was)
      ensures At(now, null, n) == if n == Parent(c) then Relinked(c, At(was, null, n), elm) else At(was, null, n)
    {
      ReplugAt(c, Leaf, u, n);
    }
    ReplugAt(c, Leaf, u, elm);
  }

  ghost predicate HasOneChild<K>(t: Tree<K>) {
    t.Bin? && (t.left.Leaf? || t.right.Leaf?)
  }

  // The child RB_REMOVE puts in place of a node with a missing child.
  ghost function OnlyChild<K>(t: Tree<K>): Tree<K>
    requires t.Bin?
  {
    if t.left.Leaf? then t.right else t.left
  }

  ghost function UnlinkWrites<K>(c: Ctx<K>, t: Tree<K>, n: Node<K>, was: Cell<K>): Cell<K>
    requires HasOneChild(t)
  {
    var child := Root(OnlyChild(t));
    if n == child then was.(parent := Parent(c))
    else if n == Parent(c) then Relinked(c, was, child)
    else was
  }

  lemma UnlinkWritesOnly<K>(c: Ctx<K>, t: Tree<K>)
    requires HasOneChild(t) && Distinct(Plug(c, t))
    ensures var was, now := Plug(c, t), Plug(c, OnlyChild(t));
      && Distinct(now) && Nodes(now) == Nodes(was) - {t.node} && t.node in Nodes(was)
      && Root(now) == (if c.Top? then Root(OnlyChild(t)) else Root(was))
      && forall n :: n in Nodes(now) ==> At(now, null, n) == UnlinkWrites(c, t, n, At(was, null, n))
  {
    var was, u := Plug(c, t), OnlyChild(t);
    var now := Plug(c, u);
    PlugNodes(c, t);
    PlugNodes(c, u);
    PlugRoot(c, t);
    PlugRoot(c, u);
    forall n | n in Nodes(now)
      ensures At(now, null, n) == UnlinkWrites(c, t, n, At(was, null, n))
    {
      ReplugAt(c, t, u, n);
    }
  }

  // Putting elm in the place of node old: elm's own fields, and the three links that led to old.
  ghost function ReplaceWrites<K>(c: Ctx<K>, t: Tree<K>, elm: Node<K>, n: Node<K>, was: Cell<K>): Cell<K>
    requires t.Bin?
  {
    if n == Root(t.left) || n == Root(t.right) then was.(parent := elm)
    else if n == Parent(c) then Relinked(c, was, elm)
    else was
  }

  lemma ReplaceWritesOnly<K>(c: Ctx<K>, t: Tree<K>, elm: Node<K>)
    requires t.Bin? && Distinct(Plug(c, t)) && elm !in Nodes(Plug(c, t))
    ensures var was, now := Plug(c, t), Plug(c, t.(node := elm));
      && Distinct(now) && t.node in Nodes(was) && Nodes(now) == Nodes(was) - {t.node} + {elm}
      && Root(now) == (if c.Top? then elm else Root(was))
      && At(now, null, elm) == At(was, null, t.node)
      && forall n :: n in Nodes(was) && n != t.node ==>
        n in Nodes(now) && At(now, null, n) == ReplaceWrites(c, t, elm, n, At(was, null, n))
  {
    var was, u := Plug(c, t), t.(node := elm);
    var now := Plug(c, u);
    PlugNodes(c, t);
    PlugNodes(c, u);
    PlugRoot(c, t);
    PlugRoot(c, u);
    forall n | n in Nodes(was) && n != t.node
      ensures n in Nodes(now) && At(now, null, n) == ReplaceWrites(c, t, elm, n, At(was, null, n))
    {
      ReplugAt(c, t, u, n);
    }
    ReplugAt(c, t, u, elm);
    PlugAt(c, t, t.node);
  }
}
