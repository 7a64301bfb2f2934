/** The heap side of the red-black tree: RB_HEAD and the functions RB_GENERATE produces, on linked nodes. */
module RedBlackTree {
  import opened Ordering
  import opened Powers
  import opened RedBlackShape
  import opened RedBlackEdits
  import opened RedBlackFixups
  import opened RedBlackSearch
  import opened RedBlackHeight

  class Head<K(!new)> {
    const cmp: (K, K) -> int
    var root: Node?<K>
    ghost var tree: Tree<K>
    ghost var nodes: set<Node<K>>

    // The heap is exactly what the ghost tree says: every link field of every node is fixed.
    ghost predicate Linked()
      reads this, nodes
    {
      && nodes == Nodes(tree) && Distinct(tree) && root == Root(tree)
      && forall n :: n in nodes ==> Read(n) == At(tree, null, n)
    }

    // What the fields at and around the hole of c read.
    lemma Peek(c: Ctx<K>, t: Tree<K>)
      requires Linked() && tree == Plug(c, t)
      ensures Distinct(t) && CtxDistinct(c) && Nodes(t) !! CtxNodes(c) && nodes == CtxNodes(c) + Nodes(t)
      ensures forall n :: n in Nodes(t) ==> Read(n) == At(t, Parent(c), n)
      ensures c.InLeft? ==> Read(c.node) == Cell(Root(t), Root(c.right), Parent(c.up), c.color)
      ensures c.InRight? ==> Read(c.node) == Cell(Root(c.left), Root(t), Parent(c.up), c.color)
    {
      PlugNodes(c, t);
      forall n | n in Nodes(t) ensures Read(n) == At(t, Parent(c), n) {
        PlugAt(c, t, n);
      }
      if !c.Top? {
        PlugAtParent(c, t);
      }
    }

    // The link that led from p (from the head when p is null) to elm now leads to child.
    method Redirect(p: Node?<K>, elm: Node<K>, child: Node?<K>)
      modifies this`root, p
      ensures root == if p == null then child else old(root)
      ensures p != null ==> old(p.left) == elm ==> Read(p) == old(Read(p)).(left := child)
      ensures p != null ==> old(p.left) != elm ==> Read(p) == old(Read(p)).(right := child)
    {
      if p != null {
        if p.left == elm {
          p.left := child;
        } else {
          p.right := child;
        }
      } else {
        root := child;
      }
    }

    // What RB_ROTATE_LEFT reads before it writes.
    lemma BeforeRotateLeft(c: Ctx<K>, t: Tree<K>)
      requires Linked() && tree == Plug(c, t) && CanRotateLeft(t)
      ensures var x, y, b, p := t.node, t.right.node, Root(t.right.left), Parent(c);
        && x in nodes && y in nodes && x != y && x != b && y != b && p != x && p != y
        && x.right == y && x.parent == p && y.left == b
        && (b != null ==> b in nodes && p != b)
        && (p != null ==> p in nodes && (p.left == x <==> c.InLeft?))
    {
      Peek(c, t);
      assert At(t, Parent(c), t.right.node) == At(t.right, t.node, t.right.node);
    }

    // RB_ROTATE_LEFT
    method RotateLeft(elm: Node<K>, ghost c: Ctx<K>, ghost t: Tree<K>) returns (tmp: Node<K>)
      requires Linked() && tree == Plug(c, t) && CanRotateLeft(t) && t.node == elm
      modifies this, nodes
      ensures Linked() && tree == Plug(c, RotatedLeft(t)) && tmp == t.right.node
      ensures nodes == old(nodes) && Inorder(tree) == old(Inorder(tree))
    {
      hide Plug, At, Nodes, Inorder, Distinct, CtxRoot, CtxNodes, CtxDistinct;
      BeforeRotateLeft(c, t);
      RotateLeftWrites(c, t);
      tmp := elm.right;
      elm.right := tmp.left;
      if elm.right != null {
        tmp.left.parent := elm;
      }
      tmp.parent := elm.parent;
      Redirect(elm.parent, elm, tmp);
      tmp.left := elm;
      elm.parent := tmp;
      tree := Plug(c, RotatedLeft(t));
    }

    // What RB_ROTATE_RIGHT reads before it writes.
    lemma BeforeRotateRight(c: Ctx<K>, t: Tree<K>)
      requires Linked() && tree == Plug(c, t) && CanRotateRight(t)
      ensures var x, y, b, p := t.node, t.left.node, Root(t.left.right), Parent(c);
        && x in nodes && y in nodes && x != y && x != b && y != b && p != x && p != y
        && x.left == y && x.parent == p && y.right == b
        && (b != null ==> b in nodes && p != b)
        && (p != null ==> p in nodes && (p.left == x <==> c.InLeft?))
    {
      Peek(c, t);
      assert At(t, Parent(c), t.left.node) == At(t.left, t.node, t.left.node);
    }

    // RB_ROTATE_RIGHT
    method RotateRight(elm: Node<K>, ghost c: Ctx<K>, ghost t: Tree<K>) returns (tmp: Node<K>)
      requires Linked() && tree == Plug(c, t) && CanRotateRight(t) && t.node == elm
      modifies this, nodes
      ensures Linked() && tree == Plug(c, RotatedRight(t)) && tmp == t.left.node
      ensures nodes == old(nodes) && Inorder(tree) == old(Inorder(tree))
    {
      hide Plug, At, Nodes, Inorder, Distinct, CtxRoot, CtxNodes, CtxDistinct;
      BeforeRotateRight(c, t);
      RotateRightWrites(c, t);
      tmp := elm.left;
      elm.left := tmp.right;
      if elm.left != null {
        tmp.right.parent := elm;
      }
      tmp.parent := elm.parent;
      Redirect(elm.parent, elm, tmp);
      tmp.right := elm;
      elm.parent := tmp;
      tree := Plug(c, RotatedRight(t));
    }

    // RB_COLOR(elm) = col
    method Paint(elm: Node<K>, col: Color, ghost c: Ctx<K>, ghost t: Tree<K>)
      requires Linked() && t.Bin? && tree == Plug(c, t) && t.node == elm
      modifies this`tree, elm`color
      ensures Linked() && tree == Plug(c, t.(color := col))
      ensures Inorder(tree) == old(Inorder(tree))
    {
      hide Plug, At, Nodes, Inorder, Distinct, CtxRoot, CtxNodes, CtxDistinct;
      PaintWrites(c, t, col);
      elm.color := col;
      tree := Plug(c, t.(color := col));
    }

    // The tail of RB_INSERT before its recolouring: RB_SET and the parent's link.
    method Attach(elm: Node<K>, parent: Node?<K>, comp: int, ghost c: Ctx<K>)
      requires Linked() && tree == Plug(c, Leaf) && elm !in nodes && parent == Parent(c)
      requires parent != null ==> (comp < 0 <==> c.InLeft?)
      modifies this, nodes, elm
      ensures Linked() && tree == Plug(c, Bin(Leaf, elm, Red, Leaf)) && nodes == old(nodes) + {elm}
    {
      Peek(c, Leaf);
      hide Plug, At, Nodes, Inorder, Distinct, CtxRoot, CtxNodes, CtxDistinct;
      AttachWrites(c, elm);
      elm.parent := parent;
      elm.left, elm.right := null, null;
      elm.color := Red;
      if parent != null {
        if comp < 0 {
          parent.left := elm;
        } else {
          parent.right := elm;
        }
      } else {
        root := elm;
      }
      tree := Plug(c, Bin(Leaf, elm, Red, Leaf));
      nodes := nodes + {elm};
    }

    lemma BeforeUnlink(c: Ctx<K>, t: Tree<K>)
      requires Linked() && tree == Plug(c, t) && HasOneChild(t)
      ensures var x, b, p := t.node, Root(OnlyChild(t)), Parent(c);
        && x in nodes && x != b && p != x && x.parent == p && x.color == t.color
        && (b != null ==> b in nodes && p != b)
        && (p != null ==> p in nodes && (p.left == x <==> c.InLeft?))
    {
      Peek(c, t);
    }

    // The part of RB_REMOVE that takes a node with at most one child out of the tree.
    method Unlink(elm: Node<K>, child: Node?<K>, ghost c: Ctx<K>, ghost t: Tree<K>)
        returns (parent: Node?<K>, color: Color)
      requires Linked() && tree == Plug(c, t) && HasOneChild(t) && t.node == elm && child == Root(OnlyChild(t))
      modifies this, nodes - {elm}
      ensures Linked() && tree == Plug(c, OnlyChild(t)) && nodes == old(nodes) - {elm}
      ensures parent == Parent(c) && color == t.color
    {
      hide Plug, At, Nodes, Inorder, Distinct, CtxRoot, CtxNodes, CtxDistinct;
      BeforeUnlink(c, t);
      UnlinkWritesOnly(c, t);
      parent := elm.parent;
      color := elm.color;
      if child != null {
        child.parent := parent;
      }
      Redirect(parent, elm, child);
      tree := Plug(c, OnlyChild(t));
      nodes := nodes - {elm};
    }

    lemma BeforeReplace(c: Ctx<K>, t: Tree<K>)
      requires Linked() && tree == Plug(c, t) && t.Bin?
      ensures var x, l, r, p := t.node, Root(t.left), Root(t.right), Parent(c);
        && x in nodes && x.parent == p && x.left == l && x.right == r && p != x && l != x && r != x
        && (l != null ==> l in nodes && l != r && l != p)
        && (r != null ==> r in nodes && r != p)
        && (p != null ==> p in nodes && (p.left == x <==> c.InLeft?))
    {
      Peek(c, t);
    }

    // The part of RB_REMOVE that splices elm, already out of the tree, into the place of old.
    method Replace(gone: Node<K>, elm: Node<K>, ghost c: Ctx<K>, ghost t: Tree<K>)
      requires Linked() && tree == Plug(c, t) && t.Bin? && t.left.Bin? && t.node == gone && elm !in nodes
      modifies this, nodes - {gone}, elm
      ensures Linked() && tree == Plug(c, t.(node := elm)) && nodes == old(nodes) - {gone} + {elm}
    {
      hide Plug, At, Nodes, Inorder, Distinct, CtxRoot, CtxNodes, CtxDistinct;
      BeforeReplace(c, t);
      ReplaceWritesOnly(c, t, elm);
      elm.left, elm.right, elm.parent, elm.color := gone.left, gone.right, gone.parent, gone.color;
      Redirect(gone.parent, gone, elm);
      gone.left.parent := elm;
      if gone.right != null {
        gone.right.parent := elm;
      }
      tree := Plug(c, t.(node := elm));
      nodes := nodes - {gone} + {elm};
    }

    lemma PeekAround(c: Ctx<K>, t: Tree<K>)
      requires Linked() && tree == Plug(c, t)
      ensures t.Bin? ==> t.node in nodes && Read(t.node) == Cell(Root(t.left), Root(t.right), Parent(c), t.color)
      ensures c.InLeft? ==> c.node in nodes && Read(c.node) == Cell(Root(t), Root(c.right), Parent(c.up), c.color)
      ensures c.InRight? ==> c.node in nodes && Read(c.node) == Cell(Root(c.left), Root(t), Parent(c.up), c.color)
      ensures !c.Top? ==> var s := Sibling(c);
        s.Bin? ==> s.node in nodes && Read(s.node) == Cell(Root(s.left), Root(s.right), c.node, s.color)
      ensures root == CtxRoot(c, Root(t))
    {
      Peek(c, t);
      PlugRoot(c, t);
      if !c.Top? {
        var s := Sibling(c);
        Peek(c.up, Fill(c, t));
        assert s.Bin? ==> At(Fill(c, t), Parent(c.up), s.node) == At(s, c.node, s.node);
      }
    }

    // RB_INSERT_COLOR, red uncle on the right: recolour and move two levels up.
    method RecolorLeft(parent: Node<K>, gparent: Node<K>, tmp: Node<K>, ghost c: Ctx<K>, ghost t: Tree<K>)
        returns (ghost t': Tree<K>)
      requires Linked() && tree == Plug(c, t) && RedAt(c, t) && !c.Top? && c.color == Red && c.up.InLeft?
      requires IsRed(c.up.right) && {parent, gparent, tmp} <= nodes
      requires parent == c.node && gparent == c.up.node && tmp == c.up.right.node
      modifies this`tree, nodes
      ensures Linked() && tree == Plug(c.up.up, t') && RedAt(c.up.up, t') && t'.node == gparent
      ensures Inorder(tree) == old(Inorder(tree))
    {
      hide At, Nodes, Inorder, Distinct, CtxRoot, CtxNodes, CtxDistinct;
      hide Balanced, NoRedRed, CtxBalanced, CtxNoRedRed;
      RecolorLeftRestores(c, t);
      RedParent(c, t);
      ghost var up, p, u := c.up.up, Fill(c, t), c.up.right;
      Paint(tmp, Black, InRight(p, gparent, Black, up), u);
      u := u.(color := Black);
      Paint(parent, Black, InLeft(gparent, Black, u, up), p);
      p := p.(color := Black);
      Paint(gparent, Red, up, Bin(p, gparent, Black, u));
      t' := Bin(p, gparent, Red, u);
    }

    // RB_INSERT_COLOR, no red uncle on the right: one or two rotations end the violation.
    method RotationsLeft(elm: Node<K>, parent: Node<K>, gparent: Node<K>, ghost c: Ctx<K>, ghost t: Tree<K>)
        returns (next: Node<K>, ghost c': Ctx<K>, ghost t': Tree<K>)
      requires Linked() && tree == Plug(c, t) && RedAt(c, t) && !c.Top? && c.color == Red && c.up.InLeft?
      requires !IsRed(c.up.right) && {elm, parent, gparent} <= nodes
      requires elm == t.node && parent == c.node && gparent == c.up.node && (parent.right == elm <==> c.InRight?)
      modifies this, nodes
      ensures Linked() && tree == Plug(c', t') && RedAt(c', t') && next == t'.node && Depth(c') < Depth(c)
      ensures nodes == old(nodes) && Inorder(tree) == old(Inorder(tree))
    {
      hide At, Nodes, Inorder, Distinct, CtxRoot, CtxNodes, CtxDistinct;
      hide Balanced, NoRedRed, CtxBalanced, CtxNoRedRed;
      RotateInsertLeft(c, t);
      RedParent(c, t);
      ghost var up, p, u := c.up.up, Fill(c, t), c.up.right;
      var upper, lower := parent, elm;
      if parent.right == elm {
        var tmp := RotateLeft(parent, c.up, p);
        upper, lower := elm, parent;
      }
      p := InnerLeft(c, t);
      Paint(upper, Black, c.up, p);
      p := p.(color := Black);
      Paint(gparent, Red, up, Bin(p, gparent, Black, u));
      var tmp := RotateRight(gparent, up, Bin(p, gparent, Red, u));
      next := lower;
      c', t' := InLeft(p.node, Black, Bin(p.right, gparent, Red, u), up), p.left;
    }

    // RB_INSERT_COLOR, red uncle on the left: recolour and move two levels up.
    method RecolorRight(parent: Node<K>, gparent: Node<K>, tmp: Node<K>, ghost c: Ctx<K>, ghost t: Tree<K>)
        returns (ghost t': Tree<K>)
      requires Linked() && tree == Plug(c, t) && RedAt(c, t) && !c.Top? && c.color == Red && c.up.InRight?
      requires IsRed(c.up.left) && {parent, gparent, tmp} <= nodes
      requires parent == c.node && gparent == c.up.node && tmp == c.up.left.node
      modifies this`tree, nodes
      ensures Linked() && tree == Plug(c.up.up, t') && RedAt(c.up.up, t') && t'.node == gparent
      ensures Inorder(tree) == old(Inorder(tree))
    {
      hide At, Nodes, Inorder, Distinct, CtxRoot, CtxNodes, CtxDistinct;
      hide Balanced, NoRedRed, CtxBalanced, CtxNoRedRed;
      RecolorRightRestores(c, t);
      RedParent(c, t);
      ghost var up, p, u := c.up.up, Fill(c, t), c.up.left;
      Paint(tmp, Black, InLeft(gparent, Black, p, up), u);
      u := u.(color := Black);
      Paint(parent, Black, InRight(u, gparent, Black, up), p);
      p := p.(color := Black);
      Paint(gparent, Red, up, Bin(u, gparent, Black, p));
      t' := Bin(u, gparent, Red, p);
    }

    // RB_INSERT_COLOR, no red uncle on the left: one or two rotations end the violation.
    method RotationsRight(elm: Node<K>, parent: Node<K>, gparent: Node<K>, ghost c: Ctx<K>, ghost t: Tree<K>)
        returns (next: Node<K>, ghost c': Ctx<K>, ghost t': Tree<K>)
      requires Linked() && tree == Plug(c, t) && RedAt(c, t) && !c.Top? && c.color == Red && c.up.InRight?
      requires !IsRed(c.up.left) && {elm, parent, gparent} <= nodes
      requires elm == t.node && parent == c.node && gparent == c.up.node && (parent.left == elm <==> c.InLeft?)
      modifies this, nodes
      ensures Linked() && tree == Plug(c', t') && RedAt(c', t') && next == t'.node && Depth(c') < Depth(c)
      ensures nodes == old(nodes) && Inorder(tree) == old(Inorder(tree))
    {
      hide At, Nodes, Inorder, Distinct, CtxRoot, CtxNodes, CtxDistinct;
      hide Balanced, NoRedRed, CtxBalanced, CtxNoRedRed;
      RotateInsertRight(c, t);
      RedParent(c, t);
      ghost var up, p, u := c.up.up, Fill(c, t), c.up.left;
      var upper, lower := parent, elm;
      if parent.left == elm {
        var tmp := RotateRight(parent, c.up, p);
        upper, lower := elm, parent;
      }
      p := InnerRight(c, t);
      Paint(upper, Black, c.up, p);
      p := p.(color := Black);
      Paint(gparent, Red, up, Bin(u, gparent, Black, p));
      var tmp := RotateLeft(gparent, up, Bin(u, gparent, Red, p));
      next := lower;
      c', t' := InRight(Bin(u, gparent, Red, p.left), p.node, Black, up), p.right;
    }

    // What RB_INSERT_COLOR reads at the grandparent.
    lemma PeekInsert(c: Ctx<K>, t: Tree<K>)
      requires Linked() && tree == Plug(c, t) && t.Bin? && !c.Top? && !c.up.Top?
      ensures var p, g, u := c.node, c.up.node, Sibling(c.up);
        && t.node in nodes && p in nodes && g in nodes && p.parent == g && (p == g.left <==> c.up.InLeft?)
        && (if c.up.InLeft? then g.right == Root(u) else g.left == Root(u))
        && (p.left == t.node <==> c.InLeft?) && (p.right == t.node <==> c.InRight?)
        && (u.Bin? ==> u.node in nodes && u.node.color == u.color)
    {
      PeekAround(c, t);
      PeekAround(c.up, Fill(c, t));
      Peek(c.up, Fill(c, t));
      assert c.node in Nodes(Fill(c, t)) && t.node in Nodes(Fill(c, t)) && t.node in Nodes(t);
      assert Sibling(c.up).Bin? ==> Sibling(c.up).node in CtxNodes(c.up);
      assert Sibling(c).Bin? ==> Sibling(c).node in Nodes(Sibling(c));
    }

    // One round of RB_INSERT_COLOR's loop.
    method InsertColorRound(elm: Node<K>, parent: Node<K>, ghost c: Ctx<K>, ghost t: Tree<K>)
        returns (next: Node<K>, ghost c': Ctx<K>, ghost t': Tree<K>)
      requires Linked() && tree == Plug(c, t) && RedAt(c, t) && !c.Top? && c.color == Red
      requires elm == t.node && parent == c.node
      modifies this, nodes
      ensures Linked() && tree == Plug(c', t') && RedAt(c', t') && next == t'.node && Depth(c') < Depth(c)
      ensures nodes == old(nodes) && Inorder(tree) == old(Inorder(tree))
    {
      hide At, Nodes, Inorder, Distinct, CtxRoot, CtxNodes, CtxDistinct;
      hide Balanced, NoRedRed, CtxBalanced, CtxNoRedRed;
      RedParent(c, t);
      PeekInsert(c, t);
      var gparent := parent.parent;
      if parent == gparent.left {
        var tmp := gparent.right;
        if tmp != null && tmp.color == Red {
          t' := RecolorLeft(parent, gparent, tmp, c, t);
          next, c' := gparent, c.up.up;
        } else {
          next, c', t' := RotationsLeft(elm, parent, gparent, c, t);
        }
      } else {
        var tmp := gparent.left;
        if tmp != null && tmp.color == Red {
          t' := RecolorRight(parent, gparent, tmp, c, t);
          next, c' := gparent, c.up.up;
        } else {
          next, c', t' := RotationsRight(elm, parent, gparent, c, t);
        }
      }
    }

    // RB_INSERT_COLOR
    method InsertColor(elm: Node<K>, ghost c: Ctx<K>, ghost t: Tree<K>) returns (ghost rounds: nat)
      requires Linked() && tree == Plug(c, t) && RedAt(c, t) && elm == t.node
      modifies this, nodes
      ensures Linked() && RedBlack(tree)
      ensures nodes == old(nodes) && Inorder(tree) == old(Inorder(tree))
      ensures rounds <= Depth(c)
    {
      hide At, Nodes, Inorder, Distinct, CtxRoot, CtxNodes, CtxDistinct;
      hide Balanced, NoRedRed, CtxBalanced, CtxNoRedRed;
      ghost var depth := Depth(c);
      ghost var c, t := c, t;
      rounds := 0;
      var elm := elm;
      PeekAround(c, t);
      var parent := elm.parent;
      while parent != null && parent.color == Red
        invariant Linked() && tree == Plug(c, t) && RedAt(c, t) && elm == t.node && parent == Parent(c)
        invariant nodes == old(nodes) && Inorder(tree) == old(Inorder(tree))
        invariant parent != null ==> parent in nodes && parent.color == c.color
        invariant rounds + Depth(c) <= depth
        decreases Depth(c)
      {
        elm, c, t := InsertColorRound(elm, parent, c, t);
        rounds := rounds + 1;
        PeekAround(c, t);
        parent := elm.parent;
      }
      RedAtDone(c, t);
      PeekAround(Top, tree);
      Paint(root, Black, Top, tree);
    }

    // The test by which the loop picks a side is right even for an empty hole, as its sibling is not empty.
    lemma SideOfHole(c: Ctx<K>, t: Tree<K>)
      requires Linked() && tree == Plug(c, t) && ShortAt(c, t) && !c.Top?
      ensures c.node.left == Root(t) <==> c.InLeft?
    {
      Peek(c, t);
      SiblingExists(c, t);
      assert c.InRight? ==> c.left.node in CtxNodes(c);
    }

    // The colours of the nodes below the sibling.
    lemma PeekNephews(c: Ctx<K>, t: Tree<K>)
      requires Linked() && tree == Plug(c, t) && !c.Top? && Sibling(c).Bin?
      ensures var s := Sibling(c);
        && s.node in nodes && Read(s.node) == Cell(Root(s.left), Root(s.right), c.node, s.color)
        && (s.left.Bin? ==> s.left.node in nodes && s.left.node.color == s.left.color)
        && (s.right.Bin? ==> s.right.node in nodes && s.right.node.color == s.right.color)
    {
      var s := Sibling(c);
      var at := if c.InLeft? then InRight(t, c.node, c.color, c.up) else InLeft(c.node, c.color, t, c.up);
      assert tree == Plug(at, s) == Plug(InLeft(s.node, s.color, s.right, at), s.left);
      PeekAround(at, s);
      PeekAround(InLeft(s.node, s.color, s.right, at), s.left);
    }

    // Only the whole tree hangs directly from the head.
    lemma AtRoot(c: Ctx<K>, t: Tree<K>)
      requires Linked() && tree == Plug(c, t)
      ensures Root(t) == root <==> c.Top?
    {
      Peek(c, t);
      PlugRoot(c, t);
      if !c.Top? {
        CtxRootInCtx(c, Root(t));
        assert t.Bin? ==> t.node in Nodes(t);
      }
    }

    // RB_REMOVE_COLOR, red sibling on the right.
    method SinkParentLeft(parent: Node<K>, tmp: Node<K>, ghost c: Ctx<K>, ghost t: Tree<K>)
      requires Linked() && tree == Plug(c, t) && ShortAt(c, t) && !IsRed(t) && c.InLeft? && IsRed(c.right)
      requires parent == c.node && tmp == c.right.node && {parent, tmp} <= nodes
      modifies this, nodes
      ensures Linked() && tree == Plug(SunkLeft(c), t)
      ensures nodes == old(nodes) && Inorder(tree) == old(Inorder(tree))
    {
      hide At, Nodes, Inorder, Distinct, CtxRoot, CtxNodes, CtxDistinct;
      hide Balanced, NoRedRed, CtxBalanced, CtxNoRedRed;
      RedSiblingLeftRestores(c, t);
      ghost var s := c.right;
      Paint(tmp, Black, InRight(t, parent, c.color, c.up), s);
      s := s.(color := Black);
      Paint(parent, Red, c.up, Bin(t, parent, c.color, s));
      var up := RotateLeft(parent, c.up, Bin(t, parent, Red, s));
    }

    // RB_REMOVE_COLOR, black sibling with a red child: make its outer child the red one.
    method StraightenLeft(parent: Node<K>, tmp: Node<K>, ghost c: Ctx<K>, ghost t: Tree<K>)
        returns (sibling: Node<K>)
      requires Linked() && tree == Plug(c, t) && c.InLeft? && ShortAt(c, t)
      requires var s := c.right;
        s.Bin? && s.color == Black && (IsRed(s.right) || IsRed(s.left)) && tmp == s.node
      requires parent == c.node && {parent, tmp} <= nodes
      modifies this, nodes
      ensures Linked() && tree == Plug(c.(right := StraightLeft(c.right)), t)
      ensures sibling == StraightLeft(c.right).node && sibling in nodes
      ensures nodes == old(nodes) && Inorder(tree) == old(Inorder(tree))
    {
      PeekNephews(c, t);
      hide At, Nodes, Inorder, Distinct, CtxRoot, CtxNodes, CtxDistinct;
      hide Balanced, NoRedRed, CtxBalanced, CtxNoRedRed;
      sibling := tmp;
      if tmp.right == null || tmp.right.color == Black {
        ghost var at, s := InRight(t, parent, c.color, c.up), c.right;
        var oleft := tmp.left;
        if oleft != null {
          Paint(oleft, Black, InLeft(tmp, Black, s.right, at), s.left);
        }
        s := Bin(s.left.(color := Black), tmp, Black, s.right);
        Paint(tmp, Red, at, s);
        sibling := RotateRight(tmp, at, s.(color := Red));
      }
    }

    // RB_REMOVE_COLOR, black sibling with a red outer child: the last rotation.
    method BorrowLeft(parent: Node<K>, tmp: Node<K>, ghost c: Ctx<K>, ghost t: Tree<K>)
      requires Linked() && tree == Plug(c, t) && ShortAt(c, t) && !IsRed(t) && c.InLeft?
      requires var s := c.right; s.Bin? && s.color == Black && IsRed(s.right) && tmp == s.node
      requires parent == c.node && {parent, tmp} <= nodes
      modifies this, nodes
      ensures Linked() && RedBlack(tree)
      ensures nodes == old(nodes) && Inorder(tree) == old(Inorder(tree))
    {
      hide At, Nodes, Inorder, Distinct, CtxRoot, CtxNodes, CtxDistinct;
      hide Balanced, NoRedRed, CtxBalanced, CtxNoRedRed;
      BorrowedLeftRestores(c, t);
      PeekAround(c, t);
      PeekNephews(c, t);
      ghost var s, up := c.right, c.up;
      Paint(tmp, parent.color, InRight(t, parent, c.color, up), s);
      Paint(parent, Black, up, Bin(t, parent, c.color, s.(color := c.color)));
      if tmp.right != null {
        Paint(tmp.right, Black, InRight(s.left, tmp, c.color, InRight(t, parent, Black, up)), s.right);
      }
      s := Bin(s.left, tmp, c.color, s.right.(color := Black));
      var top := RotateLeft(parent, up, Bin(t, parent, Black, s));
    }

    // RB_REMOVE_COLOR, black sibling without a red child: it becomes red, and the deficit moves to the parent.
    method ReddenSiblingOf(tmp: Node<K>, ghost c: Ctx<K>, ghost t: Tree<K>)
      requires Linked() && tree == Plug(c, t) && !c.Top? && Sibling(c).Bin? && tmp == Sibling(c).node
      modifies this`tree, tmp`color
      ensures Linked() && Inorder(tree) == old(Inorder(tree))
      ensures tree == Plug(c.up, Fill(WithSibling(c, Sibling(c).(color := Red)), t))
    {
      hide At, Nodes, Inorder, Distinct;
      ghost var at := if c.InLeft? then InRight(t, c.node, c.color, c.up) else InLeft(c.node, c.color, t, c.up);
      Paint(tmp, Red, at, Sibling(c));
    }

    // RB_REMOVE_COLOR, the sibling on the right: a red one is rotated up and a black one takes its place.
    method MeetSiblingLeft(parent: Node<K>, ghost c: Ctx<K>, ghost t: Tree<K>)
        returns (tmp: Node<K>, ghost c': Ctx<K>)
      requires Linked() && tree == Plug(c, t) && ShortAt(c, t) && !IsRed(t) && c.InLeft? && parent == c.node
      modifies this, nodes
      ensures Linked() && nodes == old(nodes) && Inorder(tree) == old(Inorder(tree))
      ensures tree == Plug(c', t) && ShortAt(c', t) && c'.InLeft? && parent == c'.node && parent in nodes
      ensures c'.right.Bin? && !IsRed(c'.right) && tmp == c'.right.node
      ensures c' == c || (Depth(c') == Depth(c) + 1 && c'.color == Red)
    {
      hide At, Nodes, Inorder, Distinct, CtxRoot, CtxNodes, CtxDistinct;
      hide Balanced, NoRedRed, CtxBalanced, CtxNoRedRed;
      c' := c;
      SiblingExists(c, t);
      PeekAround(c, t);
      tmp := parent.right;
      if tmp.color == Red {
        RedSiblingLeftRestores(c, t);
        SinkParentLeft(parent, tmp, c, t);
        c' := SunkLeft(c);
        SiblingExists(c', t);
        PeekAround(c', t);
        tmp := parent.right;
      }
    }

    // One round of RB_REMOVE_COLOR's loop when the deficit is a left child; done marks its break.
    method RemoveColorLeft(parent: Node<K>, ghost c: Ctx<K>, ghost t: Tree<K>)
        returns (done: bool, ghost c': Ctx<K>, ghost t': Tree<K>)
      requires Linked() && tree == Plug(c, t) && ShortAt(c, t) && !IsRed(t) && c.InLeft? && parent == c.node
      modifies this, nodes
      ensures Linked() && nodes == old(nodes) && Inorder(tree) == old(Inorder(tree))
      ensures done ==> RedBlack(tree)
      ensures !done ==> tree == Plug(c', t') && ShortAt(c', t') && Root(t') == parent
      ensures !done ==> Depth(c') < Depth(c) || (Depth(c') == Depth(c) && IsRed(t'))
    {
      hide Plug, At, Nodes, Inorder, Distinct, CtxRoot, CtxNodes, CtxDistinct;
      hide Balanced, NoRedRed, CtxBalanced, CtxNoRedRed;
      t' := t;
      var tmp;
      tmp, c' := MeetSiblingLeft(parent, c, t);
      PeekNephews(c', t);
      ghost var s := c'.right;
      if (tmp.left == null || tmp.left.color == Black) && (tmp.right == null || tmp.right.color == Black) {
        ReddenSibling(c', t);
        ReddenSiblingOf(tmp, c', t);
        c', t' := c'.up, Fill(WithSibling(c', s.(color := Red)), t);
        done := false;
      } else {
        StraightLeftRestores(c', t);
        tmp := StraightenLeft(parent, tmp, c', t);
        BorrowLeft(parent, tmp, c'.(right := StraightLeft(s)), t);
        done := true;
      }
    }

    // RB_REMOVE_COLOR, red sibling on the left.
    method SinkParentRight(parent: Node<K>, tmp: Node<K>, ghost c: Ctx<K>, ghost t: Tree<K>)
      requires Linked() && tree == Plug(c, t) && ShortAt(c, t) && !IsRed(t) && c.InRight? && IsRed(c.left)
      requires parent == c.node && tmp == c.left.node && {parent, tmp} <= nodes
      modifies this, nodes
      ensures Linked() && tree == Plug(SunkRight(c), t)
      ensures nodes == old(nodes) && Inorder(tree) == old(Inorder(tree))
    {
      hide At, Nodes, Inorder, Distinct, CtxRoot, CtxNodes, CtxDistinct;
      hide Balanced, NoRedRed, CtxBalanced, CtxNoRedRed;
      RedSiblingRightRestores(c, t);
      ghost var s := c.left;
      Paint(tmp, Black, InLeft(parent, c.color, t, c.up), s);
      s := s.(color := Black);
      Paint(parent, Red, c.up, Bin(s, parent, c.color, t));
      var up := RotateRight(parent, c.up, Bin(s, parent, Red, t));
    }

    // RB_REMOVE_COLOR, black sibling with a red child: make its outer child the red one.
    method StraightenRight(parent: Node<K>, tmp: Node<K>, ghost c: Ctx<K>, ghost t: Tree<K>)
        returns (sibling: Node<K>)
      requires Linked() && tree == Plug(c, t) && c.InRight? && ShortAt(c, t)
      requires var s := c.left;
        s.Bin? && s.color == Black && (IsRed(s.left) || IsRed(s.right)) && tmp == s.node
      requires parent == c.node && {parent, tmp} <= nodes
      modifies this, nodes
      ensures Linked() && tree == Plug(c.(left := StraightRight(c.left)), t)
      ensures sibling == StraightRight(c.left).node && sibling in nodes
      ensures nodes == old(nodes) && Inorder(tree) == old(Inorder(tree))
    {
      PeekNephews(c, t);
      hide At, Nodes, Inorder, Distinct, CtxRoot, CtxNodes, CtxDistinct;
      hide Balanced, NoRedRed, CtxBalanced, CtxNoRedRed;
      sibling := tmp;
      if tmp.left == null || tmp.left.color == Black {
        ghost var at, s := InLeft(parent, c.color, t, c.up), c.left;
        var oright := tmp.right;
        if oright != null {
          Paint(oright, Black, InRight(s.left, tmp, Black, at), s.right);
        }
        s := Bin(s.left, tmp, Black, s.right.(color := Black));
        Paint(tmp, Red, at, s);
        sibling := RotateLeft(tmp, at, s.(color := Red));
      }
    }

    // RB_REMOVE_COLOR, black sibling with a red outer child: the last rotation.
    method BorrowRight(parent: Node<K>, tmp: Node<K>, ghost c: Ctx<K>, ghost t: Tree<K>)
      requires Linked() && tree == Plug(c, t) && ShortAt(c, t) && !IsRed(t) && c.InRight?
      requires var s := c.left; s.Bin? && s.color == Black && IsRed(s.left) && tmp == s.node
      requires parent == c.node && {parent, tmp} <= nodes
      modifies this, nodes
      ensures Linked() && RedBlack(tree)
      ensures nodes == old(nodes) && Inorder(tree) == old(Inorder(tree))
    {
      hide At, Nodes, Inorder, Distinct, CtxRoot, CtxNodes, CtxDistinct;
      hide Balanced, NoRedRed, CtxBalanced, CtxNoRedRed;
      BorrowedRightRestores(c, t);
      PeekAround(c, t);
      PeekNephews(c, t);
      ghost var s, up := c.left, c.up;
      Paint(tmp, parent.color, InLeft(parent, c.color, t, up), s);
      Paint(parent, Black, up, Bin(s.(color := c.color), parent, c.color, t));
      if tmp.left != null {
        Paint(tmp.left, Black, InLeft(tmp, c.color, s.right, InLeft(parent, Black, t, up)), s.left);
      }
      s := Bin(s.left.(color := Black), tmp, c.color, s.right);
      var top := RotateRight(parent, up, Bin(s, parent, Black, t));
    }

    // RB_REMOVE_COLOR, the sibling on the left: a red one is rotated up and a black one takes its place.
    method MeetSiblingRight(parent: Node<K>, ghost c: Ctx<K>, ghost t: Tree<K>)
        returns (tmp: Node<K>, ghost c': Ctx<K>)
      requires Linked() && tree == Plug(c, t) && ShortAt(c, t) && !IsRed(t) && c.InRight? && parent == c.node
      modifies this, nodes
      ensures Linked() && nodes == old(nodes) && Inorder(tree) == old(Inorder(tree))
      ensures tree == Plug(c', t) && ShortAt(c', t) && c'.InRight? && parent == c'.node && parent in nodes
      ensures c'.left.Bin? && !IsRed(c'.left) && tmp == c'.left.node
      ensures c' == c || (Depth(c') == Depth(c) + 1 && c'.color == Red)
    {
      hide At, Nodes, Inorder, Distinct, CtxRoot, CtxNodes, CtxDistinct;
      hide Balanced, NoRedRed, CtxBalanced, CtxNoRedRed;
      c' := c;
      SiblingExists(c, t);
      PeekAround(c, t);
      tmp := parent.left;
      if tmp.color == Red {
        RedSiblingRightRestores(c, t);
        SinkParentRight(parent, tmp, c, t);
        c' := SunkRight(c);
        SiblingExists(c', t);
        PeekAround(c', t);
        tmp := parent.left;
      }
    }

    // One round of RB_REMOVE_COLOR's loop when the deficit is a right child; done marks its break.
    method RemoveColorRight(parent: Node<K>, ghost c: Ctx<K>, ghost t: Tree<K>)
        returns (done: bool, ghost c': Ctx<K>, ghost t': Tree<K>)
      requires Linked() && tree == Plug(c, t) && ShortAt(c, t) && !IsRed(t) && c.InRight? && parent == c.node
      modifies this, nodes
      ensures Linked() && nodes == old(nodes) && Inorder(tree) == old(Inorder(tree))
      ensures done ==> RedBlack(tree)
      ensures !done ==> tree == Plug(c', t') && ShortAt(c', t') && Root(t') == parent
      ensures !done ==> Depth(c') < Depth(c) || (Depth(c') == Depth(c) && IsRed(t'))
    {
      hide Plug, At, Nodes, Inorder, Distinct, CtxRoot, CtxNodes, CtxDistinct;
      hide Balanced, NoRedRed, CtxBalanced, CtxNoRedRed;
      t' := t;
      var tmp;
      tmp, c' := MeetSiblingRight(parent, c, t);
      PeekNephews(c', t);
      ghost var s := c'.left;
      if (tmp.left == null || tmp.left.color == Black) && (tmp.right == null || tmp.right.color == Black) {
        ReddenSibling(c', t);
        ReddenSiblingOf(tmp, c', t);
        c', t' := c'.up, Fill(WithSibling(c', s.(color := Red)), t);
        done := false;
      } else {
        StraightRightRestores(c', t);
        tmp := StraightenRight(parent, tmp, c', t);
        BorrowRight(parent, tmp, c'.(left := StraightRight(s)), t);
        done := true;
      }
    }

    // One round of RB_REMOVE_COLOR's loop.
    method RemoveColorRound(parent: Node<K>, elm: Node?<K>, ghost c: Ctx<K>, ghost t: Tree<K>)
        returns (done: bool, ghost c': Ctx<K>, ghost t': Tree<K>)
      requires Linked() && tree == Plug(c, t) && ShortAt(c, t) && !IsRed(t) && !c.Top?
      requires elm == Root(t) && parent == c.node
      modifies this, nodes
      ensures Linked() && nodes == old(nodes) && Inorder(tree) == old(Inorder(tree))
      ensures done ==> RedBlack(tree)
      ensures !done ==> tree == Plug(c', t') && ShortAt(c', t') && Root(t') == parent
      ensures !done ==> Depth(c') < Depth(c) || (Depth(c') == Depth(c) && IsRed(t'))
    {
      hide At, Nodes, Inorder, Distinct, CtxRoot, CtxNodes, CtxDistinct;
      hide Balanced, NoRedRed, CtxBalanced, CtxNoRedRed;
      SideOfHole(c, t);
      PeekAround(c, t);
      if parent.left == elm {
        done, c', t' := RemoveColorLeft(parent, c, t);
      } else {
        done, c', t' := RemoveColorRight(parent, c, t);
      }
    }

    // RB_REMOVE_COLOR: elm, possibly null, roots the subtree that is one black node short.
    method RemoveColor(parent: Node?<K>, elm: Node?<K>, ghost c: Ctx<K>, ghost t: Tree<K>)
        returns (ghost rounds: nat)
      requires Linked() && tree == Plug(c, t) && ShortAt(c, t) && elm == Root(t) && parent == Parent(c)
      modifies this, nodes
      ensures Linked() && RedBlack(tree)
      ensures nodes == old(nodes) && Inorder(tree) == old(Inorder(tree))
      ensures rounds <= Depth(c) + 1
    {
      hide At, Nodes, Inorder, Distinct, CtxRoot, CtxNodes, CtxDistinct;
      hide Balanced, NoRedRed, CtxBalanced, CtxNoRedRed;
      ghost var depth := Depth(c);
      ghost var c, t := c, t;
      rounds := 0;
      var elm, parent := elm, parent;
      PeekAround(c, t);
      AtRoot(c, t);
      ghost var settled := false;
      while (elm == null || elm.color == Black) && elm != root
        invariant Linked() && tree == Plug(c, t) && ShortAt(c, t) && elm == Root(t) && parent == Parent(c)
        invariant nodes == old(nodes) && Inorder(tree) == old(Inorder(tree))
        invariant elm != null ==> elm in nodes && elm.color == t.color
        invariant !settled && (elm == root <==> c.Top?)
        invariant rounds + Depth(c) + (if IsRed(t) then 0 else 1) <= depth + 1
        decreases Depth(c), if IsRed(t) then 0 else 1
      {
        var done;
        done, c, t := RemoveColorRound(parent, elm, c, t);
        rounds := rounds + 1;
        if done {
          elm, c, t, settled := root, Top, tree, true;
          PlugTop(tree);
          PeekAround(Top, tree);
          break;
        }
        elm := parent;
        AtRoot(c, t);
        PeekAround(c, t);
        parent := elm.parent;
      }
      if !settled {
        ShortDone(c, t);
      }
      if elm != null {
        Paint(elm, Black, c, t);
      }
    }

    // ---- The interface ----

    // Everything the header promises: linked both ways, red-black, in key order.
    ghost predicate Valid()
      reads this, nodes
    {
      Linked() && RedBlack(tree) && TotalOrder(cmp) && Sorted(cmp, Keys(Inorder(tree)))
    }

    // The elements in key order.
    ghost function Contents(): seq<Node<K>>
      reads this
    {
      Inorder(tree)
    }

    // RB_INIT
    constructor (cmp: (K, K) -> int)
      requires TotalOrder(cmp)
      ensures Valid() && Contents() == [] && nodes == {} && this.cmp == cmp
    {
      this.cmp := cmp;
      root, tree, nodes := null, Leaf, {};
    }

    // The descent shared by RB_FIND and RB_INSERT: stops at an equal key or at the empty place where elm belongs.
    method Descend(elm: Node<K>)
        returns (tmp: Node?<K>, parent: Node?<K>, comp: int, ghost c: Ctx<K>, ghost steps: nat)
      requires Valid()
      ensures tmp != null ==> tmp in nodes && cmp(elm.key, tmp.key) == 0
      ensures tmp == null ==> tree == Plug(c, Leaf) && Between(cmp, c, elm.key) && parent == Parent(c)
      ensures tmp == null && parent != null ==> (comp < 0 <==> c.InLeft?)
      ensures steps == SearchLength(cmp, tree, elm.key) <= Height(tree)
    {
      hide At, Nodes, Distinct, SearchLength, Height;
      tmp, parent, comp := root, null, 0;
      ghost var t := tree;
      c, steps := Top, 0;
      PeekAround(c, t);
      while tmp != null
        invariant tree == Plug(c, t) && tmp == Root(t) && parent == Parent(c) && Between(cmp, c, elm.key)
        invariant tmp != null ==> tmp in nodes
        invariant parent != null ==> (comp < 0 <==> c.InLeft?)
        invariant steps + Height(t) <= Height(tree)
        invariant steps + SearchLength(cmp, t, elm.key) == SearchLength(cmp, tree, elm.key)
        decreases t
      {
        PeekAround(c, t);
        SearchStep(cmp, t, elm.key);
        parent := tmp;
        comp := cmp(elm.key, parent.key);
        steps := steps + 1;
        if comp < 0 {
          DescendLeft(cmp, c, t, elm.key);
          tmp := tmp.left;
          c, t := InLeft(t.node, t.color, t.right, c), t.left;
        } else if comp > 0 {
          DescendRight(cmp, c, t, elm.key);
          tmp := tmp.right;
          c, t := InRight(t.left, t.node, t.color, c), t.right;
        } else {
          return;
        }
        PeekAround(c, t);
      }
      SearchStep(cmp, t, elm.key);
    }

    // RB_FIND: the element with elm's key, if there is one, after at most 2 lg (n + 1) comparisons.
    method Find(elm: Node<K>) returns (found: Node?<K>, ghost steps: nat)
      requires Valid()
      ensures found != null ==> found in Contents() && cmp(elm.key, found.key) == 0
      ensures found == null ==> forall n :: n in Contents() ==> cmp(elm.key, n.key) != 0
      ensures steps == SearchLength(cmp, tree, elm.key)
      ensures Pow2(steps) <= (|Contents()| + 1) * (|Contents()| + 1)
    {
      var parent, comp;
      ghost var c;
      found, parent, comp, c, steps := Descend(elm);
      if found == null {
        Absent(cmp, c, elm);
      }
      forall n | n in Contents() ensures n in nodes {
        NodesInorder(tree, n);
      }
      if found != null {
        NodesInorder(tree, found);
      }
      OnePath(tree, steps);
    }

    // RB_INSERT: null and a tree with elm at index k, or the element that already has elm's key and the same tree; in
    // at most 1 + 4 lg (n + 1) steps down and rounds up.
    method Insert(elm: Node<K>) returns (found: Node?<K>, ghost k: nat, ghost steps: nat)
      requires Valid()
      modifies this, nodes, elm
      ensures Valid()
      ensures found != null ==> found in old(nodes) && cmp(elm.key, found.key) == 0
      ensures found != null ==> tree == old(tree) && nodes == old(nodes)
      ensures found != null ==> unchanged(this) && unchanged(nodes) && unchanged(elm)
      ensures found == null ==> forall n :: n in old(nodes) ==> cmp(elm.key, n.key) != 0
      ensures found == null ==> nodes == old(nodes) + {elm} && k <= |old(Contents())|
      ensures found == null ==> Contents() == old(Contents())[..k] + [elm] + old(Contents())[k..]
      ensures Pow2(steps) <= 2 * Power(|old(Contents())| + 1, 4)
    {
      hide Plug, At, Nodes, Inorder, Distinct, CtxRoot, CtxNodes, CtxDistinct, Before, After, Sorted, Keys, Between;
      hide Balanced, NoRedRed, CtxBalanced, CtxNoRedRed, RedAt, Height, Pow2, Power;
      var parent, comp;
      ghost var c;
      found, parent, comp, c, steps := Descend(elm);
      k := 0;
      TwoPaths(tree, steps);
      if found == null {
        InsertOrder(cmp, c, elm);
        k := |Before(c)|;
        DepthHeight(c, Leaf);
        ghost var was := tree;
        Attach(elm, parent, comp, c);
        ghost var rounds := InsertColor(elm, c, Bin(Leaf, elm, Red, Leaf));
        steps := steps + rounds;
        TwoPaths(was, steps);
      }
    }

    // The loop of RB_REMOVE that finds the successor: the leftmost node of a right subtree.
    method Leftmost(elm: Node<K>, ghost e: Ctx<K>, ghost r: Tree<K>)
        returns (low: Node<K>, ghost d: Ctx<K>, ghost s: Tree<K>, ghost steps: nat)
      requires Linked() && tree == Plug(e, r) && r.Bin? && elm == r.node
      ensures r == Plug(d, s) && s.Bin? && s.left.Leaf? && low == s.node && Before(d) == []
      ensures tree == Plug(Within(d, e), s) && low in nodes
      ensures steps == Depth(d)
    {
      low, d, s, steps := elm, Top, r, 0;
      PeekAround(e, r);
      var left := low.left;
      while left != null
        invariant r == Plug(d, s) && s.Bin? && low == s.node && low in nodes && Before(d) == []
        invariant tree == Plug(Within(d, e), s) && left == Root(s.left)
        invariant steps == Depth(d)
        decreases s
      {
        low := left;
        steps := steps + 1;
        d, s := InLeft(s.node, s.color, s.right, d), s.left;
        PlugWithin(d, e, s);
        PeekAround(Within(d, e), s);
        left := low.left;
      }
    }

    // RB_REMOVE when a child is missing.
    method RemoveNear(elm: Node<K>, child: Node?<K>, ghost c: Ctx<K>, ghost t: Tree<K>)
        returns (ghost steps: nat)
      requires Linked() && RedBlack(tree) && tree == Plug(c, t) && HasOneChild(t)
      requires elm == t.node && child == Root(OnlyChild(t))
      modifies this, nodes
      ensures Linked() && RedBlack(tree) && nodes == old(nodes) - {elm}
      ensures Inorder(tree) == Rest(c, t) && steps <= Depth(c) + 1
    {
      steps := 0;
      UnlinkColors(c, t);
      RestNear(c, t);
      var parent, color := Unlink(elm, child, c, t);
      if color == Black {
        steps := RemoveColor(parent, child, c, OnlyChild(t));
      }
    }

    // The successor, its parent link and its only child, before RB_REMOVE moves it.
    lemma PeekSuccessor(c: Ctx<K>, t: Tree<K>, d: Ctx<K>, s: Tree<K>)
      requires Linked() && tree == Plug(c, t) && t.Bin? && t.right == Plug(d, s) && s.Bin? && s.left.Leaf?
      ensures var e := InRight(t.left, t.node, t.color, c);
        && tree == Plug(Within(d, e), s)
        && s.node in nodes && s.node != t.node && s.node.right == Root(s.right)
        && s.node.parent == (if d.Top? then t.node else d.node)
        && (!d.Top? ==> d.node != t.node)
    {
      hide Plug, At, Nodes, Inorder, Distinct, CtxRoot, CtxNodes, CtxDistinct, Within;
      var e := InRight(t.left, t.node, t.color, c);
      FarPlug(c, t.left, t.node, t.color, d, s);
      HoleNodes(d, s);
      RootApart(c, t, s.node);
      if !d.Top? {
        RootApart(c, t, d.node);
      }
      PeekAround(Within(d, e), s);
    }

    // The successor elm of gone leaves its place and takes over the links and the color of gone.
    method Splice(gone: Node<K>, elm: Node<K>, ghost c: Ctx<K>, ghost t: Tree<K>, ghost d: Ctx<K>, ghost s: Tree<K>)
        returns (child: Node?<K>, parent: Node?<K>, color: Color)
      requires Linked() && tree == Plug(c, t) && t.Bin? && t.left.Bin? && gone == t.node && gone in nodes
      requires t.right == Plug(d, s) && s.Bin? && s.left.Leaf? && elm == s.node
      modifies this, nodes
      ensures var e := Within(d, InRight(t.left, elm, t.color, c));
        && Linked() && nodes == old(nodes) - {gone} && tree == Plug(e, s.right)
        && child == Root(s.right) && parent == Parent(e) && color == s.color
    {
      hide Plug, At, Nodes, Inorder, Distinct, CtxRoot, CtxNodes, CtxDistinct, Within;
      PeekSuccessor(c, t, d, s);
      FarPlug(c, t.left, gone, t.color, d, s.right);
      FarPlug(c, t.left, elm, t.color, d, s.right);
      child := elm.right;
      parent, color := Unlink(elm, child, Within(d, InRight(t.left, gone, t.color, c)), s);
      if elm.parent == gone {
        parent := elm;
      }
      Replace(gone, elm, c, Bin(t.left, gone, t.color, Plug(d, s.right)));
    }

    // RB_REMOVE when both children are there: the successor is spliced into the place of gone.
    method RemoveFar(gone: Node<K>, ghost c: Ctx<K>, ghost t: Tree<K>)
        returns (ghost steps: nat)
      requires Linked() && RedBlack(tree) && tree == Plug(c, t) && t.Bin? && t.left.Bin? && t.right.Bin?
      requires gone == t.node && gone in nodes && gone.right == t.right.node
      modifies this, nodes
      ensures Linked() && RedBlack(tree) && nodes == old(nodes) - {gone}
      ensures Inorder(tree) == Rest(c, t) && steps <= 2 * old(Height(tree)) + 1
    {
      ghost var e := InRight(t.left, gone, t.color, c);
      assert Plug(e, t.right) == tree;
      hide Plug, At, Nodes, Inorder, Distinct, CtxRoot, CtxNodes, CtxDistinct, Within;
      hide Balanced, NoRedRed, CtxBalanced, CtxNoRedRed;
      ghost var d, s;
      var elm, child, parent, color;
      elm, d, s, steps := Leftmost(gone.right, e, t.right);
      DepthHeight(Within(d, e), s);
      WithinDepth(d, e);
      WithinDepth(d, InRight(t.left, elm, t.color, c));
      FarPlug(c, t.left, elm, t.color, d, s.right);
      FarColors(c, t, d, s);
      RestFar(c, t, d, s);
      child, parent, color := Splice(gone, elm, c, t, d, s);
      if color == Black {
        ghost var rounds := RemoveColor(parent, child, Within(d, InRight(t.left, elm, t.color, c)), s.right);
        steps := steps + rounds;
      }
    }

    // RB_REMOVE: exactly elm leaves the sequence, in at most 1 + 4 lg (n + 1) steps down and rounds up.
    method Remove(elm: Node<K>) returns (removed: Node<K>, ghost k: nat, ghost steps: nat)
      requires Valid() && elm in Contents()
      modifies this, nodes
      ensures Valid() && removed == elm && nodes == old(nodes) - {elm}
      ensures k < |old(Contents())| && old(Contents())[k] == elm
      ensures Contents() == old(Contents())[..k] + old(Contents())[k + 1..]
      ensures Pow2(steps) <= 2 * Power(|old(Contents())| + 1, 4)
    {
      NodesInorder(tree, elm);
      ghost var c, t := Locate(Top, tree, elm);
      ghost var was := tree;
      RestSorted(cmp, c, t);
      DepthHeight(c, t);
      PeekAround(c, t);
      k := |Before(c) + Inorder(t.left)|;
      if elm.left == null {
        steps := RemoveNear(elm, elm.right, c, t);
      } else if elm.right == null {
        steps := RemoveNear(elm, elm.left, c, t);
      } else {
        steps := RemoveFar(elm, c, t);
      }
      TwoPaths(was, steps);
      removed := elm;
    }

    // RB_MINMAX: the first element for a negative val, the last otherwise, null in an empty tree.
    method MinMax(val: int) returns (parent: Node?<K>, ghost steps: nat)
      requires Valid()
      ensures Contents() == [] ==> parent == null
      ensures Contents() != [] ==> parent == if val < 0 then Contents()[0] else Contents()[|Contents()| - 1]
      ensures Pow2(steps) <= (|Contents()| + 1) * (|Contents()| + 1)
    {
      hide At, Nodes, Distinct, CtxRoot, CtxNodes, CtxDistinct, Balanced, NoRedRed, Sorted, Keys, Pow2;
      var tmp := root;
      parent, steps := null, 0;
      ghost var c, t := Top, tree;
      PeekAround(c, t);
      while tmp != null
        invariant tree == Plug(c, t) && tmp == Root(t) && parent == Parent(c)
        invariant tmp != null ==> tmp in nodes
        invariant if val < 0 then c.Top? || c.InLeft? else c.Top? || c.InRight?
        invariant if val < 0 then Before(c) == [] else After(c) == []
        invariant steps + Height(t) <= Height(tree)
        decreases t
      {
        PeekAround(c, t);
        parent := tmp;
        steps := steps + 1;
        if val < 0 {
          tmp := tmp.left;
          c, t := InLeft(t.node, t.color, t.right, c), t.left;
        } else {
          tmp := tmp.right;
          c, t := InRight(t.left, t.node, t.color, c), t.right;
        }
        PeekAround(c, t);
      }
      PlugInorder(c, t);
      OnePath(tree, steps);
    }

    // RB_NEXT: the element after the i-th, found through right and parent links; null after the last.
    method Next(elm: Node<K>, ghost i: nat) returns (next: Node?<K>, ghost steps: nat)
      requires Valid() && i < |Contents()| && Contents()[i] == elm
      ensures next == if i + 1 < |Contents()| then Contents()[i + 1] else null
      ensures Pow2(steps) <= (|Contents()| + 1) * (|Contents()| + 1)
    {
      NodesInorder(tree, elm);
      ghost var c, t := Locate(Top, tree, elm);
      IndexAt(cmp, c, t, i);
      PeekAround(c, t);
      if elm.right != null {
        ghost var d, s;
        next, d, s, steps := Leftmost(elm.right, InRight(t.left, elm, t.color, c), t.right);
        SuccessorFirst(d, s);
        WithinDepth(d, InRight(t.left, elm, t.color, c));
        DepthHeight(Within(d, InRight(t.left, elm, t.color, c)), s);
      } else {
        next, steps := Climb(elm, c, t);
        DepthHeight(c, t);
      }
      OnePath(tree, steps);
    }

    lemma PeekUp(c: Ctx<K>, t: Tree<K>)
      requires Linked() && tree == Plug(c, t) && t.Bin?
      ensures t.node in nodes && t.node.parent == Parent(c)
      ensures !c.Top? ==> (t.node == c.node.left <==> c.InLeft?) && (t.node == c.node.right <==> c.InRight?)
    {
      PeekAround(c, t);
      Peek(c, t);
      assert t.node in Nodes(t);
      assert !c.Top? && Sibling(c).Bin? ==> Sibling(c).node in CtxNodes(c);
    }

    // The part of RB_NEXT that climbs: out of right links, then up one left link.
    method Climb(elm: Node<K>, ghost c: Ctx<K>, ghost t: Tree<K>)
        returns (next: Node?<K>, ghost steps: nat)
      requires Linked() && tree == Plug(c, t) && elm == Root(t)
      ensures next == if After(c) == [] then null else After(c)[0]
      ensures steps <= Depth(c)
    {
      ghost var depth := Depth(c);
      ghost var c, t := c, t;
      ghost var after := After(c);
      steps := 0;
      var at := elm;
      PeekUp(c, t);
      if at.parent != null && at == at.parent.left {
        next := at.parent;
      } else {
        while at.parent != null && at == at.parent.right
          invariant tree == Plug(c, t) && t.Bin? && at == t.node && After(c) == after
          invariant at.parent == Parent(c) && (!c.Top? ==> (at == c.node.right <==> c.InRight?))
          invariant steps + Depth(c) <= depth
          decreases c
        {
          at := at.parent;
          steps := steps + 1;
          c, t := c.up, Fill(c, t);
          PeekUp(c, t);
        }
        next := at.parent;
      }
    }

    // RB_FOREACH: visits exactly the elements, each once, in order.
    method Foreach() returns (visited: seq<Node<K>>)
      requires Valid()
      ensures visited == Contents()
    {
      hide Inorder, Nodes, Distinct, At, Sorted, Keys, TotalOrder;
      visited := [];
      var x;
      ghost var steps;
      x, steps := MinMax(-1);
      while x != null
        invariant visited <= Contents()
        invariant x == if |visited| < |Contents()| then Contents()[|visited|] else null
        decreases |Contents()| - |visited|
      {
        ghost var i := |visited|;
        visited := visited + [x];
        x, steps := Next(x, i);
      }
    }
  }
}
