/** What a splay knows about the key it looks for, while the tree is apart and when it is whole again. */
module SplaySearch {
  import opened Ordering
  import opened Sequences
  import opened SplayShape

  lemma {:induction false} NodesInorder<K>(t: Tree<K>, n: Node<K>)
    ensures n in Nodes(t) <==> n in Inorder(t)
  {
    if t.Bin? {
      NodesInorder(t.left, n);
      NodesInorder(t.right, n);
    }
  }

  lemma KeysConcat<K>(a: seq<Node<K>>, b: seq<Node<K>>)
    ensures Keys(a + b) == Keys(a) + Keys(b)
  {}

  lemma KeysSplit<K>(a: seq<Node<K>>, x: Node<K>, b: seq<Node<K>>)
    ensures Keys(a + [x] + b) == Keys(a) + [x.key] + Keys(b)
  {}

  // The left spine is smaller than k, the right spine larger.
  ghost predicate Between<K(!new)>(cmp: (K, K) -> int, s: Split<K>, k: K) {
    Below(cmp, Keys(Before(s.ls)), k) && Above(cmp, k, Keys(After(s.rs)))
  }

  // Everything left of the root is smaller than k, everything right of it larger: the root has key k if the
  // tree has, and is next to where k belongs otherwise.
  ghost predicate Around<K(!new)>(cmp: (K, K) -> int, t: Tree<K>, k: K)
    requires t.Bin?
  {
    Below(cmp, Keys(Inorder(t.left)), k) && Above(cmp, k, Keys(Inorder(t.right)))
  }

  lemma KeysEnds<K>(x: Node<K>, s: seq<Node<K>>)
    ensures Keys([x] + s) == [x.key] + Keys(s) && Keys(s + [x]) == Keys(s) + [x.key]
  {
    KeysConcat([x], s);
    KeysConcat(s, [x]);
    assert Keys([x]) == [x.key];
  }

  lemma LinkLeftBetween<K(!new)>(cmp: (K, K) -> int, s: Split<K>, k: K)
    requires TotalOrder(cmp) && Sorted(cmp, Keys(SplitInorder(s))) && Between(cmp, s, k)
    requires s.mid.Bin? && cmp(k, s.mid.node.key) < 0
    ensures Between(cmp, LinkedLeft(s), k)
  {
    hide Sorted, Below, Above, Keys, TotalOrder;
    var pre, post := Before(s.ls) + Inorder(s.mid.left), Inorder(s.mid.right) + After(s.rs);
    RegroupAround(Before(s.ls), Inorder(s.mid.left), [s.mid.node], Inorder(s.mid.right), After(s.rs));
    KeysSplit(pre, s.mid.node, post);
    GoLeft(cmp, k, Keys(pre), s.mid.node.key, Keys(post));
    RegroupTail([], [s.mid.node], Inorder(s.mid.right), After(s.rs));
    assert After(LinkedLeft(s).rs) == [s.mid.node] + post;
    KeysEnds(s.mid.node, post);
  }

  lemma LinkRightBetween<K(!new)>(cmp: (K, K) -> int, s: Split<K>, k: K)
    requires TotalOrder(cmp) && Sorted(cmp, Keys(SplitInorder(s))) && Between(cmp, s, k)
    requires s.mid.Bin? && cmp(k, s.mid.node.key) > 0
    ensures Between(cmp, LinkedRight(s), k)
  {
    hide Sorted, Below, Above, Keys, TotalOrder;
    var pre, post := Before(s.ls) + Inorder(s.mid.left), Inorder(s.mid.right) + After(s.rs);
    RegroupAround(Before(s.ls), Inorder(s.mid.left), [s.mid.node], Inorder(s.mid.right), After(s.rs));
    KeysSplit(pre, s.mid.node, post);
    GoRight(cmp, k, Keys(pre), s.mid.node.key, Keys(post));
    assert Before(LinkedRight(s).ls) == pre + [s.mid.node];
    KeysEnds(s.mid.node, pre);
  }

  // The three ways out of SPLAY's loop.
  lemma AssembledAround<K(!new)>(cmp: (K, K) -> int, s: Split<K>, k: K)
    requires TotalOrder(cmp) && Sorted(cmp, Keys(SplitInorder(s))) && Between(cmp, s, k) && SplitDistinct(s)
    requires s.mid.Bin?
    requires var comp := cmp(k, s.mid.node.key);
      comp == 0 || (comp < 0 && s.mid.left.Leaf?) || (comp > 0 && s.mid.right.Leaf?)
    ensures Around(cmp, Assembled(s), k)
  {
    var m := s.mid;
    var pre, post := Before(s.ls) + Inorder(m.left), Inorder(m.right) + After(s.rs);
    RegroupAround(Before(s.ls), Inorder(m.left), [m.node], Inorder(m.right), After(s.rs));
    KeysSplit(pre, m.node, post);
    SortedAround(cmp, k, Keys(pre), m.node.key, Keys(post));
    CloseLeftContents(s.ls, m.left);
    CloseRightContents(s.rs, m.right);
    if m.left.Leaf? {
      assert pre == Before(s.ls);
    }
    if m.right.Leaf? {
      assert post == After(s.rs);
    }
  }

  // The key looked for is in the tree exactly when the root has it.
  lemma AroundRoot<K(!new)>(cmp: (K, K) -> int, t: Tree<K>, k: K)
    requires TotalOrder(cmp) && t.Bin? && Around(cmp, t, k)
    ensures forall n :: n in Nodes(t) && cmp(k, n.key) == 0 ==> n == t.node
  {
    forall n | n in Nodes(t) && n != t.node ensures cmp(k, n.key) != 0 {
      NodesInorder(t.left, n);
      NodesInorder(t.right, n);
      if n in Nodes(t.left) {
        var i :| 0 <= i < |Inorder(t.left)| && Inorder(t.left)[i] == n;
        assert cmp(Keys(Inorder(t.left))[i], k) < 0;
      } else {
        var i :| 0 <= i < |Inorder(t.right)| && Inorder(t.right)[i] == n;
        assert cmp(k, Keys(Inorder(t.right))[i]) < 0;
      }
    }
  }

  // The tree SPLAY_INSERT builds from the splayed tree t when elm is smaller (larger) than its root.
  ghost function Grafted<K>(t: Tree<K>, elm: Node<K>, smaller: bool): Tree<K>
    requires t.Bin?
  {
    if smaller then Bin(t.left, elm, Bin(Leaf, t.node, t.right)) else Bin(Bin(t.left, t.node, Leaf), elm, t.right)
  }

  lemma GraftedAt<K>(t: Tree<K>, elm: Node<K>, smaller: bool, n: Node<K>)
    requires t.Bin? && Distinct(t) && elm !in Nodes(t) && n in Nodes(t) + {elm}
    ensures Distinct(Grafted(t, elm, smaller)) && Nodes(Grafted(t, elm, smaller)) == Nodes(t) + {elm}
    ensures At(Grafted(t, elm, smaller), n) ==
      if n == elm then
        if smaller then Cell(Root(t.left), t.node) else Cell(t.node, Root(t.right))
      else if n == t.node then
        if smaller then Cell(null, Root(t.right)) else Cell(Root(t.left), null)
      else At(t, n)
  {
    var u := Grafted(t, elm, smaller);
    assert smaller ==> Nodes(u.right) == {t.node} + Nodes(t.right);
    assert !smaller ==> Nodes(u.left) == Nodes(t.left) + {t.node};
  }

  // The splayed tree tells where a new key belongs, and that it is new.
  lemma GraftedOrder<K(!new)>(cmp: (K, K) -> int, t: Tree<K>, elm: Node<K>)
    requires TotalOrder(cmp) && t.Bin? && Sorted(cmp, Keys(Inorder(t))) && Around(cmp, t, elm.key)
    requires cmp(elm.key, t.node.key) != 0
    ensures forall n :: n in Nodes(t) ==> cmp(elm.key, n.key) != 0
    ensures var smaller := cmp(elm.key, t.node.key) < 0;
      var s, u, k := Inorder(t), Inorder(Grafted(t, elm, smaller)), |Inorder(t.left)| + if smaller then 0 else 1;
      k <= |s| && u == s[..k] + [elm] + s[k..] && Sorted(cmp, Keys(u))
  {
    AroundRoot(cmp, t, elm.key);
    var smaller := cmp(elm.key, t.node.key) < 0;
    var pre := Inorder(t.left) + if smaller then [] else [t.node];
    var post := (if smaller then [t.node] else []) + Inorder(t.right);
    GraftedInorder(t, elm, smaller);
    SidesOf(cmp, Inorder(t.left), t.node, Inorder(t.right), elm.key);
    KeysConcat(pre, post);
    KeysSplit(pre, elm, post);
    SortedInsert(cmp, Keys(pre), elm.key, Keys(post));
  }

  lemma GraftedInorder<K>(t: Tree<K>, elm: Node<K>, smaller: bool)
    requires t.Bin?
    ensures var pre := Inorder(t.left) + if smaller then [] else [t.node];
      var post := (if smaller then [t.node] else []) + Inorder(t.right);
      && Inorder(t) == pre + post && Inorder(t)[..|pre|] == pre && Inorder(t)[|pre|..] == post
      && Inorder(Grafted(t, elm, smaller)) == pre + [elm] + post
  {
    var l, x, r := Inorder(t.left), t.node, Inorder(t.right);
    CutAt(l, x, r);
    assert Inorder(Bin(Leaf, x, t.right)) == [x] + r;
    assert Inorder(Bin(t.left, x, Leaf)) == l + [x];
    assert l + [] == l && [] + r == r;
  }

  lemma CutAt<T>(l: seq<T>, x: T, r: seq<T>)
    ensures l + [x] + r == l + ([x] + r)
    ensures (l + [x] + r)[..|l|] == l && (l + [x] + r)[|l|..] == [x] + r
    ensures (l + [x] + r)[..|l + [x]|] == l + [x] && (l + [x] + r)[|l + [x]|..] == r
  {}

  // The root goes with the side it is on.
  lemma SidesOf<K(!new)>(cmp: (K, K) -> int, l: seq<Node<K>>, x: Node<K>, r: seq<Node<K>>, k: K)
    requires TotalOrder(cmp) && Below(cmp, Keys(l), k) && Above(cmp, k, Keys(r)) && cmp(k, x.key) != 0
    ensures var smaller := cmp(k, x.key) < 0;
      && Below(cmp, Keys(l + if smaller then [] else [x]), k)
      && Above(cmp, k, Keys((if smaller then [x] else []) + r))
  {
    KeysConcat(l, [x]);
    KeysConcat([x], r);
    assert Keys([x]) == [x.key];
    assert l + [] == l && [] + r == r;
  }

  // Why SPLAY_REMOVE may hang the right part under the splayed left part: nothing there is larger than the key.
  lemma JoinSound<K(!new)>(cmp: (K, K) -> int, l: Tree<K>, m: Tree<K>, k: K)
    requires TotalOrder(cmp) && Below(cmp, Keys(Inorder(l)), k)
    requires m.Bin? && Inorder(m) == Inorder(l) && Around(cmp, m, k)
    ensures m.right.Leaf?
  {
    var a, b := Inorder(m.left) + [m.node], Inorder(m.right);
    assert |b| > 0 ==> cmp(k, Keys(b)[0]) < 0;
    KeysConcat(a, b);
    BelowTail(cmp, Keys(a), Keys(b), k);
  }

  lemma BelowTail<K(!new)>(cmp: (K, K) -> int, a: seq<K>, b: seq<K>, k: K)
    requires Below(cmp, a + b, k)
    ensures Below(cmp, b, k)
  {
    forall j | 0 <= j < |b| ensures cmp(b[j], k) < 0 {
      assert (a + b)[|a| + j] == b[j];
    }
  }

  lemma OrderWithout<K(!new)>(cmp: (K, K) -> int, l: seq<Node<K>>, x: Node<K>, r: seq<Node<K>>)
    requires Sorted(cmp, Keys(l + [x] + r))
    ensures Sorted(cmp, Keys(l + r)) && Sorted(cmp, Keys(l))
  {
    hide Sorted, Keys;
    KeysSplit(l, x, r);
    KeysConcat(l, r);
    SortedSub(cmp, Keys(l), [x.key], Keys(r));
    assert Keys(l) + [x.key] + Keys(r) == [] + Keys(l) + ([x.key] + Keys(r));
    SortedSub(cmp, [], Keys(l), [x.key] + Keys(r));
  }

  // Removing the root from the order.
  lemma RootRemoved<K(!new)>(cmp: (K, K) -> int, t: Tree<K>)
    requires t.Bin? && Sorted(cmp, Keys(Inorder(t)))
    ensures var s, k, rest := Inorder(t), |Inorder(t.left)|, Inorder(t.left) + Inorder(t.right);
      && k < |s| && s[k] == t.node && s[k + 1..] == Inorder(t.right)
      && rest == s[..k] + s[k + 1..] && Sorted(cmp, Keys(rest))
    ensures Sorted(cmp, Keys(Inorder(t.left)))
  {
    hide Sorted, Keys;
    SplitAround(Inorder(t.left), t.node, Inorder(t.right));
    OrderWithout(cmp, Inorder(t.left), t.node, Inorder(t.right));
  }

  lemma DropLeft<K>(t: Tree<K>)
    requires t.Bin?
    ensures Root(t.left) == null ==>
      t.left.Leaf? && Nodes(t.left) == {} && Inorder(t.left) + Inorder(t.right) == Inorder(t.right)
  {}

  lemma RootInside<K>(t: Tree<K>)
    requires t.Bin?
    ensures t.node in Nodes(t)
  {}

  lemma IndexOfRoot<K(!new)>(cmp: (K, K) -> int, t: Tree<K>, i: nat)
    requires TotalOrder(cmp) && t.Bin? && Sorted(cmp, Keys(Inorder(t))) && i < |Inorder(t)| && Inorder(t)[i] == t.node
    ensures i == |Inorder(t.left)|
  {
    RootRemoved(cmp, t);
    SortedIndexUnique(cmp, Keys(Inorder(t)), i, |Inorder(t.left)|);
  }

  // Hanging r under a tree that has nothing on the right.
  lemma JoinContents<K>(m: Tree<K>, r: Tree<K>)
    requires m.Bin? && m.right.Leaf? && Distinct(m) && Distinct(r) && Nodes(m) !! Nodes(r)
    ensures var u := m.(right := r);
      Distinct(u) && Nodes(u) == Nodes(m) + Nodes(r) && Inorder(u) == Inorder(m) + Inorder(r)
  {
    assert Inorder(m) == Inorder(m.left) + [m.node];
  }

  lemma JoinAt<K>(m: Tree<K>, r: Tree<K>, n: Node<K>)
    requires m.Bin? && m.right.Leaf? && Distinct(m) && Distinct(r) && Nodes(m) !! Nodes(r)
    requires n in Nodes(m) || n in Nodes(r)
    ensures n in Nodes(m.(right := r))
    ensures At(m.(right := r), n) ==
      if n in Nodes(r) then At(r, n)
      else if n == m.node then At(m, n).(right := Root(r))
      else At(m, n)
  {}
}
