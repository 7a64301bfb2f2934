/** Where a node sits in the tree: descending by key, locating a node, stacking contexts, neighbours in order. */
module RedBlackSearch {
  import opened Ordering
  import opened Sequences
  import opened RedBlackShape
  import opened RedBlackFixups
  import opened RedBlackEdits

  lemma {:induction false} NodesInorder<K>(t: Tree<K>, n: Node<K>)
    ensures n in Nodes(t) <==> n in Inorder(t)
  {
    if t.Bin? {
      NodesInorder(t.left, n);
      NodesInorder(t.right, n);
    }
  }

  lemma KeysConcat<K>(a: seq<Node<K>>, b: seq<Node<K>>)
    ensures Keys(a + b) == Keys(a) + Keys(b)
  {}

  lemma KeysSplit<K>(a: seq<Node<K>>, x: Node<K>, b: seq<Node<K>>)
    ensures Keys(a + [x] + b) == Keys(a) + [x.key] + Keys(b)
  {}

  // ---- Descending by key ----

  // How many keys a search for k is compared with.
  ghost function SearchLength<K>(cmp: (K, K) -> int, t: Tree<K>, k: K): nat {
    if t.Leaf? then 0
    else if cmp(k, t.node.key) == 0 then 1
    else 1 + SearchLength(cmp, if cmp(k, t.node.key) < 0 then t.left else t.right, k)
  }

  lemma SearchStep<K>(cmp: (K, K) -> int, t: Tree<K>, k: K)
    ensures t.Leaf? ==> SearchLength(cmp, t, k) == 0 && Height(t) == 0
    ensures t.Bin? ==> var comp := cmp(k, t.node.key);
      && (comp == 0 ==> SearchLength(cmp, t, k) == 1) && Height(t) >= 1
      && (comp < 0 ==> SearchLength(cmp, t, k) == 1 + SearchLength(cmp, t.left, k) && Height(t.left) < Height(t))
      && (comp > 0 ==> SearchLength(cmp, t, k) == 1 + SearchLength(cmp, t.right, k) && Height(t.right) < Height(t))
  {}

  // Everything before the hole is smaller than k, everything after it larger.
  ghost predicate Between<K(!new)>(cmp: (K, K) -> int, c: Ctx<K>, k: K) {
    Below(cmp, Keys(Before(c)), k) && Above(cmp, k, Keys(After(c)))
  }

  lemma PlugAround<K>(c: Ctx<K>, t: Tree<K>)
    requires t.Bin?
    ensures Inorder(Plug(c, t)) == (Before(c) + Inorder(t.left)) + [t.node] + (Inorder(t.right) + After(c))
  {
    PlugInorder(c, t);
    RegroupAround(Before(c), Inorder(t.left), [t.node], Inorder(t.right), After(c));
  }

  lemma DescendLeft<K(!new)>(cmp: (K, K) -> int, c: Ctx<K>, t: Tree<K>, k: K)
    requires TotalOrder(cmp) && Sorted(cmp, Keys(Inorder(Plug(c, t)))) && Between(cmp, c, k)
    requires t.Bin? && cmp(k, t.node.key) < 0
    ensures Between(cmp, InLeft(t.node, t.color, t.right, c), k)
  {
    var pre, post := Before(c) + Inorder(t.left), Inorder(t.right) + After(c);
    PlugAround(c, t);
    KeysSplit(pre, t.node, post);
    GoLeft(cmp, k, Keys(pre), t.node.key, Keys(post));
    RegroupTail([], [t.node], Inorder(t.right), After(c));
    assert After(InLeft(t.node, t.color, t.right, c)) == [] + [t.node] + post;
    KeysSplit([], t.node, post);
    assert Keys<K>([]) + [t.node.key] + Keys(post) == [t.node.key] + Keys(post);
  }

  lemma DescendRight<K(!new)>(cmp: (K, K) -> int, c: Ctx<K>, t: Tree<K>, k: K)
    requires TotalOrder(cmp) && Sorted(cmp, Keys(Inorder(Plug(c, t)))) && Between(cmp, c, k)
    requires t.Bin? && cmp(k, t.node.key) > 0
    ensures Between(cmp, InRight(t.left, t.node, t.color, c), k)
  {
    var pre, post := Before(c) + Inorder(t.left), Inorder(t.right) + After(c);
    PlugAround(c, t);
    KeysSplit(pre, t.node, post);
    GoRight(cmp, k, Keys(pre), t.node.key, Keys(post));
    assert Before(InRight(t.left, t.node, t.color, c)) == pre + [t.node] + [];
    KeysSplit(pre, t.node, []);
    assert Keys(pre) + [t.node.key] + Keys<K>([]) == Keys(pre) + [t.node.key];
  }

  // An empty hole between smaller and larger keys: k is nowhere in the tree, and this is where it belongs.
  lemma Absent<K(!new)>(cmp: (K, K) -> int, c: Ctx<K>, elm: Node<K>)
    requires TotalOrder(cmp) && Sorted(cmp, Keys(Inorder(Plug(c, Leaf)))) && Between(cmp, c, elm.key)
    ensures forall n :: n in Nodes(Plug(c, Leaf)) ==> cmp(elm.key, n.key) != 0
    ensures Sorted(cmp, Keys(Before(c) + [elm] + After(c)))
    ensures Inorder(Plug(c, Leaf)) == Before(c) + After(c)
  {
    var pre, post := Before(c), After(c);
    PlugInorder(c, Leaf);
    assert Inorder(Plug(c, Leaf)) == pre + post;
    hide Plug, Inorder, Nodes, Before, After, Sorted, Between, TotalOrder;
    forall n | n in Nodes(Plug(c, Leaf)) ensures cmp(elm.key, n.key) != 0 {
      NodesInorder(Plug(c, Leaf), n);
      NotBetween(cmp, c, elm.key, n);
    }
    BelongsBetween(cmp, c, elm);
  }

  lemma NotBetween<K(!new)>(cmp: (K, K) -> int, c: Ctx<K>, k: K, n: Node<K>)
    requires TotalOrder(cmp) && Between(cmp, c, k) && n in Before(c) + After(c)
    ensures cmp(k, n.key) != 0
  {
    hide Before, After;
    var pre, post := Before(c), After(c);
    var i :| 0 <= i < |pre + post| && (pre + post)[i] == n;
    if i < |pre| {
      assert cmp(Keys(pre)[i], k) < 0;
    } else {
      assert cmp(k, Keys(post)[i - |pre|]) < 0;
    }
  }

  lemma BelongsBetween<K(!new)>(cmp: (K, K) -> int, c: Ctx<K>, elm: Node<K>)
    requires TotalOrder(cmp) && Sorted(cmp, Keys(Before(c) + After(c))) && Between(cmp, c, elm.key)
    ensures Sorted(cmp, Keys(Before(c) + [elm] + After(c)))
  {
    hide Before, After, TotalOrder, Sorted;
    var pre, post := Before(c), After(c);
    KeysConcat(pre, post);
    KeysSplit(pre, elm, post);
    SortedInsert(cmp, Keys(pre), elm.key, Keys(post));
  }

  // ---- Locating a node ----

  lemma {:induction false} Locate<K>(c: Ctx<K>, t: Tree<K>, n: Node<K>) returns (d: Ctx<K>, u: Tree<K>)
    requires n in Nodes(t)
    ensures Plug(d, u) == Plug(c, t) && u.Bin? && u.node == n
    decreases t
  {
    if n == t.node {
      d, u := c, t;
    } else if n in Nodes(t.left) {
      d, u := Locate(InLeft(t.node, t.color, t.right, c), t.left, n);
    } else {
      d, u := Locate(InRight(t.left, t.node, t.color, c), t.right, n);
    }
  }

  // ---- Stacked contexts ----

  // d inside the hole of e.
  ghost function Within<K>(d: Ctx<K>, e: Ctx<K>): Ctx<K> {
    match d
    case Top => e
    case InLeft(n, col, r, up) => InLeft(n, col, r, Within(up, e))
    case InRight(l, n, col, up) => InRight(l, n, col, Within(up, e))
  }

  lemma {:induction false} PlugWithin<K>(d: Ctx<K>, e: Ctx<K>, t: Tree<K>)
    ensures Plug(Within(d, e), t) == Plug(e, Plug(d, t))
    decreases d
  {
    match d
    case Top =>
    case InLeft(n, col, r, up) => PlugWithin(up, e, Bin(t, n, col, r));
    case InRight(l, n, col, up) => PlugWithin(up, e, Bin(l, n, col, t));
  }

  // Which element stands at a place does not matter to the colouring.
  lemma {:induction false} WithinRenamed<K>(d: Ctx<K>, e: Ctx<K>, n: Node<K>, h: nat, red: bool)
    requires !e.Top?
    ensures CtxBalanced(Within(d, e), h) == CtxBalanced(Within(d, e.(node := n)), h)
    ensures CtxNoRedRed(Within(d, e), red) == CtxNoRedRed(Within(d, e.(node := n)), red)
    ensures CtxRootRed(Within(d, e), red) == CtxRootRed(Within(d, e.(node := n)), red)
    decreases d
  {
    if !d.Top? {
      WithinRenamed(d.up, e, n, if d.color == Black then h + 1 else h, d.color == Red);
    }
  }

  lemma ShortRenamed<K>(d: Ctx<K>, e: Ctx<K>, n: Node<K>, t: Tree<K>)
    requires !e.Top? && ShortAt(Within(d, e), t)
    ensures ShortAt(Within(d, e.(node := n)), t)
  {
    WithinRenamed(d, e, n, BlackHeight(t) + 1, false);
  }

  lemma RedBlackRenamed<K>(d: Ctx<K>, e: Ctx<K>, n: Node<K>, t: Tree<K>)
    requires !e.Top? && RedBlack(Plug(Within(d, e), t))
    ensures RedBlack(Plug(Within(d, e.(node := n)), t))
  {
    PlugColors(Within(d, e), t);
    PlugColors(Within(d, e.(node := n)), t);
    WithinRenamed(d, e, n, BlackHeight(t), IsRed(t));
  }

  // Taking out a red node costs nothing; taking out a black one leaves its place one black node short.
  lemma UnlinkColors<K>(c: Ctx<K>, t: Tree<K>)
    requires HasOneChild(t) && RedBlack(Plug(c, t))
    ensures t.color == Red ==> RedBlack(Plug(c, OnlyChild(t)))
    ensures t.color == Black ==> ShortAt(c, OnlyChild(t))
  {
    PlugColors(c, t);
    PlugColors(c, OnlyChild(t));
    WeakerCtx(c);
  }

  lemma WeakerCtx<K>(c: Ctx<K>)
    ensures !c.Top? ==> CtxRootRed(c, true) == CtxRootRed(c, false)
    ensures CtxNoRedRed(c, true) ==> CtxNoRedRed(c, false)
  {}

  // A red leaf in an empty place of a red-black tree is the only thing RB_INSERT_COLOR has to mend.
  lemma AttachColors<K>(c: Ctx<K>, elm: Node<K>)
    requires RedBlack(Plug(c, Leaf))
    ensures RedAt(c, Bin(Leaf, elm, Red, Leaf))
  {
    PlugColors(c, Leaf);
  }

  lemma InsertOrder<K(!new)>(cmp: (K, K) -> int, c: Ctx<K>, elm: Node<K>)
    requires TotalOrder(cmp) && RedBlack(Plug(c, Leaf))
    requires Sorted(cmp, Keys(Inorder(Plug(c, Leaf)))) && Between(cmp, c, elm.key)
    ensures RedAt(c, Bin(Leaf, elm, Red, Leaf)) && elm !in Nodes(Plug(c, Leaf))
    ensures forall n :: n in Nodes(Plug(c, Leaf)) ==> cmp(elm.key, n.key) != 0
    ensures var was, now, k := Inorder(Plug(c, Leaf)), Inorder(Plug(c, Bin(Leaf, elm, Red, Leaf))), |Before(c)|;
      k <= |was| && now == was[..k] + [elm] + was[k..] && Sorted(cmp, Keys(now))
  {
    Absent(cmp, c, elm);
    AttachColors(c, elm);
    PlugInorder(c, Bin(Leaf, elm, Red, Leaf));
    var was := Inorder(Plug(c, Leaf));
    assert was[..|Before(c)|] == Before(c) && was[|Before(c)|..] == After(c);
  }

  // What is left of the order when t's root is removed.
  ghost function Rest<K>(c: Ctx<K>, t: Tree<K>): seq<Node<K>>
    requires t.Bin?
  {
    (Before(c) + Inorder(t.left)) + (Inorder(t.right) + After(c))
  }

  lemma RestSorted<K(!new)>(cmp: (K, K) -> int, c: Ctx<K>, t: Tree<K>)
    requires t.Bin? && Sorted(cmp, Keys(Inorder(Plug(c, t))))
    ensures Sorted(cmp, Keys(Rest(c, t)))
    ensures var s, k := Inorder(Plug(c, t)), |Before(c) + Inorder(t.left)|;
      k < |s| && s[k] == t.node && Rest(c, t) == s[..k] + s[k + 1..]
  {
    var pre, post := Before(c) + Inorder(t.left), Inorder(t.right) + After(c);
    PlugAround(c, t);
    SplitAround(pre, t.node, post);
    KeysSplit(pre, t.node, post);
    KeysConcat(pre, post);
    SortedSub(cmp, Keys(pre), [t.node.key], Keys(post));
  }

  lemma RestNear<K>(c: Ctx<K>, t: Tree<K>)
    requires HasOneChild(t)
    ensures Inorder(Plug(c, OnlyChild(t))) == Rest(c, t)
  {
    PlugInorder(c, OnlyChild(t));
    RegroupAround(Before(c), Inorder(t.left), [], Inorder(t.right), After(c));
    if t.left.Leaf? {
      assert [] + [] + Inorder(t.right) == Inorder(t.right);
    } else {
      assert Inorder(t.left) + [] + [] == Inorder(t.left);
    }
    assert Before(c) + Inorder(t.left) + [] + (Inorder(t.right) + After(c)) == Rest(c, t);
  }

  // The successor s.node of t.node, spliced into its place.
  lemma RestFar<K>(c: Ctx<K>, t: Tree<K>, d: Ctx<K>, s: Tree<K>)
    requires t.Bin? && t.right == Plug(d, s) && s.Bin? && s.left.Leaf? && Before(d) == []
    ensures Inorder(Plug(c, Bin(t.left, s.node, t.color, Plug(d, s.right)))) == Rest(c, t)
  {
    var u := Plug(d, s.right);
    SuccessorFirst(d, s);
    PlugAround(c, Bin(t.left, s.node, t.color, u));
    RegroupTail(Before(c) + Inorder(t.left), [s.node], Inorder(u), After(c));
  }

  lemma SuccessorFirst<K>(d: Ctx<K>, s: Tree<K>)
    requires s.Bin? && s.left.Leaf? && Before(d) == []
    ensures Inorder(Plug(d, s)) == [s.node] + Inorder(Plug(d, s.right))
  {
    hide Plug, Inorder, Before, After;
    PlugInorder(d, s);
    PlugInorder(d, s.right);
    LowestFirst(s);
    RegroupTail([], [s.node], Inorder(s.right), After(d));
    assert [] + Inorder(s.right) == Inorder(s.right);
  }

  lemma LowestFirst<K>(s: Tree<K>)
    requires s.Bin? && s.left.Leaf?
    ensures Inorder(s) == [] + [s.node] + Inorder(s.right)
  {}

  // A hole d inside the right subtree of x, seen from the root.
  lemma FarPlug<K>(c: Ctx<K>, l: Tree<K>, x: Node<K>, col: Color, d: Ctx<K>, u: Tree<K>)
    ensures Plug(Within(d, InRight(l, x, col, c)), u) == Plug(c, Bin(l, x, col, Plug(d, u)))
    ensures Parent(Within(d, InRight(l, x, col, c))) == if d.Top? then x else d.node
  {
    PlugWithin(d, InRight(l, x, col, c), u);
  }

  lemma HoleNodes<K>(d: Ctx<K>, s: Tree<K>)
    ensures s.Bin? ==> s.node in Nodes(Plug(d, s))
    ensures !d.Top? ==> d.node in Nodes(Plug(d, s))
  {
    PlugNodes(d, s);
  }

  lemma RootApart<K>(c: Ctx<K>, t: Tree<K>, n: Node<K>)
    requires t.Bin? && Distinct(Plug(c, t)) && n in Nodes(t.right)
    ensures n != t.node
  {
    PlugNodes(c, t);
  }

  // The place of t's root in the order, and what follows it.
  lemma IndexAt<K(!new)>(cmp: (K, K) -> int, c: Ctx<K>, t: Tree<K>, i: nat)
    requires TotalOrder(cmp) && Sorted(cmp, Keys(Inorder(Plug(c, t)))) && t.Bin?
    requires var s := Inorder(Plug(c, t)); i < |s| && s[i] == t.node
    ensures Inorder(Plug(c, t))[i + 1..] == Inorder(t.right) + After(c)
  {
    var pre, post := Before(c) + Inorder(t.left), Inorder(t.right) + After(c);
    PlugAround(c, t);
    SplitAround(pre, t.node, post);
    SortedIndexUnique(cmp, Keys(Inorder(Plug(c, t))), i, |pre|);
  }

  lemma FarColors<K>(c: Ctx<K>, t: Tree<K>, d: Ctx<K>, s: Tree<K>)
    requires t.Bin? && t.right == Plug(d, s) && s.Bin? && s.left.Leaf? && RedBlack(Plug(c, t))
    ensures var e := InRight(t.left, s.node, t.color, c);
      && (s.color == Red ==> RedBlack(Plug(Within(d, e), s.right)))
      && (s.color == Black ==> ShortAt(Within(d, e), s.right))
  {
    var e := InRight(t.left, t.node, t.color, c);
    FarPlug(c, t.left, t.node, t.color, d, s);
    UnlinkColors(Within(d, e), s);
    if s.color == Red {
      RedBlackRenamed(d, e, s.node, s.right);
    } else {
      ShortRenamed(d, e, s.node, s.right);
    }
  }
}
