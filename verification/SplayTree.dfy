/** The heap side of the splay tree: SPLAY_HEAD and the functions SPLAY_GENERATE produces, on linked nodes. */
module SplayTree {
  import opened Ordering
  import opened Powers
  import opened SplayShape
  import opened SplayCost
  import opened SplayProducts
  import opened SplaySearch

  class Head<K(!new)> {
    const cmp: (K, K) -> int
    var root: Node?<K>
    ghost var tree: Tree<K>
    ghost var nodes: set<Node<K>>

    // The heap is exactly what the ghost tree says.
    ghost predicate Linked()
      reads this, nodes
    {
      && nodes == Nodes(tree) && Distinct(tree) && root == Root(tree)
      && forall n :: n in nodes ==> Read(n) == At(tree, n)
    }

    // A splay in progress: the heap is exactly what s says. dummy stands for the local __node, whose left field
    // leads to the right spine and whose right field leads to the left spine; left and right are their open ends.
    ghost predicate Apart(s: Split<K>, dummy: Node<K>, left: Node<K>, right: Node<K>)
      reads this, nodes, dummy
    {
      && nodes == SplitNodes(s) && SplitDistinct(s) && root == Root(s.mid) && dummy !in nodes
      && (forall n :: n in nodes ==> Read(n) == SplitAt(s, n))
      && dummy.left == Outer(s.rs, s.rend) && dummy.right == Outer(s.ls, s.lend)
      && left == (if s.ls.Open? then dummy else s.ls.node)
      && right == (if s.rs.Open? then dummy else s.rs.node)
    }

    // What the fields of the middle's root, of its children and of the open ends read.
    lemma PeekMid(s: Split<K>, dummy: Node<K>, left: Node<K>, right: Node<K>)
      requires Apart(s, dummy, left, right) && s.mid.Bin?
      ensures var m := s.mid;
        && root == m.node && m.node in nodes && Read(m.node) == Cell(Root(m.left), Root(m.right))
        && m.node in Nodes(m)
      ensures var m, l := s.mid, s.mid.left;
        l.Bin? ==> l.node in nodes * Nodes(m) && l.node != m.node && Read(l.node) == Cell(Root(l.left), Root(l.right))
      ensures var m, r := s.mid, s.mid.right;
        r.Bin? ==> r.node in nodes * Nodes(m) && r.node != m.node && Read(r.node) == Cell(Root(r.left), Root(r.right))
      ensures s.ls.Link? ==> left in nodes && left != s.mid.node && left !in Nodes(s.mid)
      ensures s.rs.Link? ==> right in nodes && right != s.mid.node && right !in Nodes(s.mid)
      ensures left != right || left == dummy
    {
      var m := s.mid;
      assert SplitAt(s, m.node) == At(m, m.node);
      if m.left.Bin? {
        assert SplitAt(s, m.left.node) == At(m, m.left.node) == At(m.left, m.left.node);
      }
      if m.right.Bin? {
        assert SplitAt(s, m.right.node) == At(m, m.right.node) == At(m.right, m.right.node);
      }
    }

    // SPLAY_LINKLEFT on the right spine.
    method LinkLeft(dummy: Node<K>, left: Node<K>, right: Node<K>, ghost s: Split<K>) returns (tmp: Node<K>)
      requires Apart(s, dummy, left, right) && s.mid.Bin?
      modifies this`root, dummy, nodes
      ensures Apart(LinkedLeft(s), dummy, left, tmp)
    {
      hide At, LeftAt, RightAt, Nodes, SpineNodes, Inorder, Before, After, Distinct, SpineDistinct, Outer, SplitAt;
      PeekMid(s, dummy, left, right);
      LinkLeftContents(s);
      LinkLeftSpine(s);
      right.left := root;
      tmp := root;
      root := root.left;
      forall n | n in nodes ensures Read(n) == SplitAt(LinkedLeft(s), n) {
        LinkLeftAt(s, n);
      }
    }

    // SPLAY_ROTATE_RIGHT on the middle tree.
    method RotateRight(tmp: Node<K>, dummy: Node<K>, left: Node<K>, right: Node<K>, ghost s: Split<K>)
      requires Apart(s, dummy, left, right) && s.mid.Bin? && s.mid.left.Bin? && tmp == s.mid.left.node
      modifies this`root, nodes
      ensures Apart(s.(mid := RotatedRight(s.mid)), dummy, left, right)
      ensures SplitInorder(s.(mid := RotatedRight(s.mid))) == SplitInorder(s)
    {
      hide At, LeftAt, RightAt, Nodes, SpineNodes, Inorder, Before, After, Distinct, SpineDistinct, Outer, SplitAt;
      PeekMid(s, dummy, left, right);
      RotatedRightDistinct(s.mid);
      RotatedRightOrder(s.mid);
      RotatedMid(s, RotatedRight(s.mid));
      root.left := tmp.right;
      tmp.right := root;
      root := tmp;
      forall n | n in nodes ensures Read(n) == SplitAt(s.(mid := RotatedRight(s.mid)), n) {
        RotatedMidAt(s, RotatedRight(s.mid), n);
        if n in Nodes(s.mid) {
          RotatedRightAt(s.mid, n);
        }
      }
    }

    // SPLAY_LINKRIGHT on the left spine.
    method LinkRight(dummy: Node<K>, left: Node<K>, right: Node<K>, ghost s: Split<K>) returns (tmp: Node<K>)
      requires Apart(s, dummy, left, right) && s.mid.Bin?
      modifies this`root, dummy, nodes
      ensures Apart(LinkedRight(s), dummy, tmp, right)
    {
      hide At, LeftAt, RightAt, Nodes, SpineNodes, Inorder, Before, After, Distinct, SpineDistinct, Outer, SplitAt;
      PeekMid(s, dummy, left, right);
      LinkRightContents(s);
      LinkRightSpine(s);
      left.right := root;
      tmp := root;
      root := root.right;
      forall n | n in nodes ensures Read(n) == SplitAt(LinkedRight(s), n) {
        LinkRightAt(s, n);
      }
    }

    // SPLAY_ROTATE_LEFT on the middle tree.
    method RotateLeft(tmp: Node<K>, dummy: Node<K>, left: Node<K>, right: Node<K>, ghost s: Split<K>)
      requires Apart(s, dummy, left, right) && s.mid.Bin? && s.mid.right.Bin? && tmp == s.mid.right.node
      modifies this`root, nodes
      ensures Apart(s.(mid := RotatedLeft(s.mid)), dummy, left, right)
      ensures SplitInorder(s.(mid := RotatedLeft(s.mid))) == SplitInorder(s)
    {
      hide At, LeftAt, RightAt, Nodes, SpineNodes, Inorder, Before, After, Distinct, SpineDistinct, Outer, SplitAt;
      PeekMid(s, dummy, left, right);
      RotatedLeftDistinct(s.mid);
      RotatedLeftOrder(s.mid);
      RotatedMid(s, RotatedLeft(s.mid));
      root.right := tmp.left;
      tmp.left := root;
      root := tmp;
      forall n | n in nodes ensures Read(n) == SplitAt(s.(mid := RotatedLeft(s.mid)), n) {
        RotatedMidAt(s, RotatedLeft(s.mid), n);
        if n in Nodes(s.mid) {
          RotatedLeftAt(s.mid, n);
        }
      }
    }

    // SPLAY_ASSEMBLE
    method Assemble(dummy: Node<K>, left: Node<K>, right: Node<K>, ghost s: Split<K>)
      requires Apart(s, dummy, left, right) && s.mid.Bin?
      modifies this`tree, dummy, nodes
      ensures Linked() && tree == Assembled(s)
    {
      hide At, LeftAt, RightAt, Nodes, SpineNodes, Inorder, Before, After, Distinct, SpineDistinct, Outer, SplitAt;
      PeekMid(s, dummy, left, right);
      AssembledContents(s);
      AssembledEnds(s);
      left.right := root.left;
      right.left := root.right;
      root.left := dummy.right;
      root.right := dummy.left;
      tree := Assembled(s);
      forall n | n in nodes ensures Read(n) == At(tree, n) {
        AssembledAt(s, n);
      }
    }

    // The loop invariant of SPLAY.
    ghost predicate Searching(s: Split<K>, dummy: Node<K>, left: Node<K>, right: Node<K>, k: K)
      reads this, nodes, dummy
    {
      && Apart(s, dummy, left, right) && s.mid.Bin?
      && TotalOrder(cmp) && Sorted(cmp, Keys(SplitInorder(s))) && Between(cmp, s, k)
    }

    // One round of SPLAY's loop towards the left: rotate when the key lies beyond the left child too, then link.
    // done marks the two breaks.
    method SplayLeft(elm: Node<K>, dummy: Node<K>, left: Node<K>, right: Node<K>, ghost s: Split<K>)
        returns (done: bool, right': Node<K>, ghost s': Split<K>)
      requires Searching(s, dummy, left, right, elm.key) && cmp(elm.key, s.mid.node.key) < 0
      modifies this`root, dummy, nodes
      ensures Searching(s', dummy, left, right', elm.key)
      ensures SplitInorder(s') == SplitInorder(s)
      ensures done ==> cmp(elm.key, s'.mid.node.key) < 0 && s'.mid.left.Leaf?
      ensures !done ==> |Inorder(s'.mid)| < |Inorder(s.mid)|
      ensures OneLess(cmp, s, s', done, elm.key)
    {
      hide At, LeftAt, RightAt, Nodes, SpineNodes, Inorder, Before, After, Distinct, SpineDistinct, Outer, SplitAt;
      RoundLeft(cmp, s, elm.key);
      hide SplitNodes, SplitDistinct, SplitInorder, OneLess;
      s', right', done := s, right, true;
      PeekMid(s, dummy, left, right);
      var tmp := root.left;
      if tmp == null {
        return;
      }
      if cmp(elm.key, tmp.key) < 0 {
        RotateRight(tmp, dummy, left, right, s);
        s' := s.(mid := RotatedRight(s.mid));
        RotatedRightOrder(s.mid);
        PeekMid(s', dummy, left, right);
        if root.left == null {
          return;
        }
      }
      LinkLeftBetween(cmp, s', elm.key);
      LinkLeftContents(s');
      right' := LinkLeft(dummy, left, right, s');
      s', done := LinkedLeft(s'), false;
    }

    // One round of SPLAY's loop towards the right: rotate when the key lies beyond the right child too, then link.
    // done marks the two breaks.
    method SplayRight(elm: Node<K>, dummy: Node<K>, left: Node<K>, right: Node<K>, ghost s: Split<K>)
        returns (done: bool, left': Node<K>, ghost s': Split<K>)
      requires Searching(s, dummy, left, right, elm.key) && cmp(elm.key, s.mid.node.key) > 0
      modifies this`root, dummy, nodes
      ensures Searching(s', dummy, left', right, elm.key)
      ensures SplitInorder(s') == SplitInorder(s)
      ensures done ==> cmp(elm.key, s'.mid.node.key) > 0 && s'.mid.right.Leaf?
      ensures !done ==> |Inorder(s'.mid)| < |Inorder(s.mid)|
      ensures OneLess(cmp, s, s', done, elm.key)
    {
      hide At, LeftAt, RightAt, Nodes, SpineNodes, Inorder, Before, After, Distinct, SpineDistinct, Outer, SplitAt;
      RoundRight(cmp, s, elm.key);
      hide SplitNodes, SplitDistinct, SplitInorder, OneLess;
      s', left', done := s, left, true;
      PeekMid(s, dummy, left, right);
      var tmp := root.right;
      if tmp == null {
        return;
      }
      if cmp(elm.key, tmp.key) > 0 {
        RotateLeft(tmp, dummy, left, right, s);
        s' := s.(mid := RotatedLeft(s.mid));
        RotatedLeftOrder(s.mid);
        PeekMid(s', dummy, left, right);
        if root.right == null {
          return;
        }
      }
      LinkRightBetween(cmp, s', elm.key);
      LinkRightContents(s');
      left' := LinkRight(dummy, left, right, s');
      s', done := LinkedRight(s'), false;
    }

    ghost predicate Valid()
      reads this, nodes
    {
      Linked() && TotalOrder(cmp) && Sorted(cmp, Keys(Inorder(tree)))
    }

    // The elements in key order: what no splay changes.
    ghost function Contents(): seq<Node<K>>
      reads this
    {
      Inorder(tree)
    }

    // SPLAY_INIT
    constructor (cmp: (K, K) -> int)
      requires TotalOrder(cmp)
      ensures Valid() && tree.Leaf? && Contents() == [] && nodes == {} && this.cmp == cmp
    {
      this.cmp := cmp;
      root, tree, nodes := null, Leaf, {};
    }

    // The start of a splay: everything in the middle, both spines open.
    lemma TakeApart(dummy: Node<K>, k: K)
      requires Valid() && root != null && dummy !in nodes && dummy.left == null && dummy.right == null
      ensures var s := Split(Open, null, tree, Open, null);
        Searching(s, dummy, dummy, dummy, k) && SplitInorder(s) == Inorder(tree)
    {
      var s := Split(Open, null, tree, Open, null);
      assert SplitInorder(s) == Inorder(tree);
    }

    // SPLAY: same elements in the same order, and the key's place at the root; the tree is the one that Splayed says,
    // after as many rounds.
    method Splay(elm: Node<K>) returns (ghost rounds: nat)
      requires Valid() && root != null
      modifies this`root, this`tree, nodes
      ensures Valid() && Contents() == old(Contents()) && nodes == old(nodes)
      ensures tree.Bin? && Around(cmp, tree, elm.key)
      ensures old(tree.Bin?) && rounds == Splayed(cmp, old(tree), elm.key).rounds
      ensures tree == Whole(Splayed(cmp, old(tree), elm.key))
    {
      hide At, LeftAt, RightAt, Nodes, SpineNodes, Inorder, Before, After, Distinct, SpineDistinct, Outer, SplitAt;
      hide Splayed;
      var dummy := new Node(elm.key);
      var left, right := dummy, dummy;
      ghost var s := Split(Open, null, tree, Open, null);
      ghost var order, end, total := Inorder(tree), Finished(cmp, s, elm.key), Remaining(cmp, s, elm.key);
      TakeApart(dummy, elm.key);
      rounds := 0;
      var comp := cmp(elm.key, root.key);
      while comp != 0
        invariant Searching(s, dummy, left, right, elm.key) && SplitInorder(s) == order
        invariant comp == cmp(elm.key, s.mid.node.key) && fresh(dummy) && nodes == old(nodes)
        invariant Finished(cmp, s, elm.key) == end && rounds + Remaining(cmp, s, elm.key) == total
        decreases |Inorder(s.mid)|
      {
        var done;
        if comp < 0 {
          done, right, s := SplayLeft(elm, dummy, left, right, s);
        } else {
          done, left, s := SplayRight(elm, dummy, left, right, s);
        }
        rounds := rounds + 1;
        if done {
          break;
        }
        comp := cmp(elm.key, root.key);
      }
      if comp == 0 {
        RoundNone(cmp, s, elm.key);
      }
      hide SplitNodes, SplitDistinct, SplitInorder, Between;
      AssembledAround(cmp, s, elm.key);
      AssembledContents(s);
      Assemble(dummy, left, right, s);
    }

    // SPLAY_FIND: the element with elm's key if there is one, now at the root; the tree is splayed either way, and the
    // order of the elements stays.
    method Find(elm: Node<K>) returns (found: Node?<K>, ghost rounds: nat)
      requires Valid()
      modifies this`root, this`tree, nodes
      ensures Valid() && Contents() == old(Contents()) && nodes == old(nodes)
      ensures found != null ==> found in nodes && cmp(elm.key, found.key) == 0
      ensures found == null ==> forall n :: n in nodes ==> cmp(elm.key, n.key) != 0
      ensures found != null ==> root == found
      ensures old(tree.Leaf?) ==> tree.Leaf? && rounds == 0
      ensures old(tree.Bin?) ==> var o := Splayed(cmp, old(tree), elm.key);
        && rounds == o.rounds && tree == Whole(o)
        && found == if cmp(elm.key, o.node.key) == 0 then o.node else null
      ensures Pow2(rounds) * Weight(tree) <= Cost(|old(Contents())|) * old(Weight(tree))
    {
      if root == null {
        CostOfNothing(tree);
        return null, 0;
      }
      ghost var t := tree;
      rounds := Splay(elm);
      SplayCosts(cmp, t, elm.key);
      AroundRoot(cmp, tree, elm.key);
      if cmp(elm.key, root.key) == 0 {
        return root, rounds;
      }
      return null, rounds;
    }

    // The tail of SPLAY_INSERT on a splayed tree.
    method Graft(elm: Node<K>, comp: int)
      requires Linked() && tree.Bin? && elm !in nodes
      modifies this, nodes, elm
      ensures Linked() && tree == Grafted(old(tree), elm, comp < 0) && nodes == old(nodes) + {elm}
    {
      ghost var t := tree;
      assert t.node in nodes && At(t, t.node) == Cell(Root(t.left), Root(t.right));
      hide At, Nodes, Inorder, Distinct;
      if comp < 0 {
        elm.left := root.left;
        elm.right := root;
        root.left := null;
      } else {
        elm.right := root.right;
        elm.left := root;
        root.right := null;
      }
      root := elm;
      tree := Grafted(t, elm, comp < 0);
      nodes := nodes + {elm};
      GraftedAt(t, elm, comp < 0, elm);
      forall n | n in nodes ensures Read(n) == At(tree, n) {
        GraftedAt(t, elm, comp < 0, n);
      }
    }

    // The first branch of SPLAY_INSERT.
    method First(elm: Node<K>)
      requires Valid() && root == null
      modifies this, elm
      ensures Valid() && tree == Bin(Leaf, elm, Leaf) && nodes == {elm} && Contents() == [elm]
      ensures old(tree) == Leaf && old(nodes) == {} && old(Contents()) == []
    {
      elm.left, elm.right := null, null;
      root := elm;
      tree, nodes := Bin(Leaf, elm, Leaf), {elm};
    }

    // SPLAY_INSERT: null and elm at index k, or the element that already has elm's key and the same order.
    method Insert(elm: Node<K>) returns (found: Node?<K>, ghost k: nat, ghost rounds: nat)
      requires Valid()
      modifies this, nodes, elm
      ensures Valid()
      ensures found != null ==> found in old(nodes) && cmp(elm.key, found.key) == 0
      ensures found != null ==> Contents() == old(Contents()) && nodes == old(nodes)
      ensures found != null && elm !in old(nodes) ==> unchanged(elm)
      ensures found == null ==> forall n :: n in old(nodes) ==> cmp(elm.key, n.key) != 0
      ensures found == null ==> nodes == old(nodes) + {elm} && k <= |old(Contents())|
      ensures found == null ==> Contents() == old(Contents())[..k] + [elm] + old(Contents())[k..]
      ensures root == if found == null then elm else found
      ensures old(tree.Leaf?) ==> tree == Bin(Leaf, elm, Leaf) && rounds == 0
      ensures old(tree.Bin?) ==> var o := Splayed(cmp, old(tree), elm.key);
        && rounds == o.rounds && (found != null <==> cmp(elm.key, o.node.key) == 0)
        && tree == if found != null then Whole(o) else Grafted(Whole(o), elm, cmp(elm.key, o.node.key) < 0)
      ensures Pow2(rounds) * Weight(tree) <= Cost(|old(Contents())|) * old(Weight(tree))
    {
      hide At, Nodes, Inorder, Distinct, Sorted, Keys, Weight, Cost, Pow2, Splayed, Size;
      found, k, rounds := null, 0, 0;
      if root == null {
        First(elm);
        FirstCosts(elm);
      } else {
        ghost var t := tree;
        rounds := Splay(elm);
        SplayCosts(cmp, t, elm.key);
        var comp := cmp(elm.key, root.key);
        if comp == 0 {
          RootInside(tree);
          return root, 0, rounds;
        }
        InsertCosts(cmp, t, elm.key, Grafted(tree, elm, comp < 0));
        GraftedOrder(cmp, tree, elm);
        k := |Inorder(tree.left)| + if comp < 0 then 0 else 1;
        Graft(elm, comp);
      }
    }

    // The last assignment of SPLAY_REMOVE: tmp, the root of the detached r, becomes the right child of the root.
    method JoinRight(tmp: Node?<K>, ghost r: Tree<K>, ghost rest: set<Node<K>>)
      requires Linked() && tree.Bin? && tree.right.Leaf? && tmp == Root(r) && Distinct(r)
      requires rest == Nodes(r) && nodes !! rest && forall n :: n in rest ==> Read(n) == At(r, n)
      modifies this`tree, this`nodes, root
      ensures Linked() && nodes == old(nodes) + rest && Inorder(tree) == old(Inorder(tree)) + Inorder(r)
      ensures tree == old(tree).(right := r)
    {
      ghost var m := tree;
      assert m.node in nodes && At(m, m.node).left == Root(m.left);
      JoinContents(m, r);
      hide At, Nodes, Inorder, Distinct;
      root.right := tmp;
      tree, nodes := m.(right := r), nodes + rest;
      forall n | n in nodes ensures Read(n) == At(tree, n) {
        JoinAt(m, r, n);
      }
    }

    // The tail of SPLAY_REMOVE on a splayed tree whose root goes: the left part, splayed at the key of the
    // removed root, takes the right part as its right subtree.
    method Join(elm: Node<K>) returns (ghost rounds: nat)
      requires Valid() && tree.Bin? && Around(cmp, tree, elm.key)
      modifies this`root, this`tree, this`nodes, nodes
      ensures Valid() && nodes == old(nodes) - {old(tree.node)}
      ensures Contents() == old(Inorder(tree.left) + Inorder(tree.right))
      ensures (tree, rounds) == Joined(cmp, old(tree), elm.key)
      ensures var n := old(Size(tree)); Pow2(rounds) * Weight(tree) <= 2 * (n * n) * old(Weight(tree))
    {
      hide At, Nodes, Inorder, Distinct, Sorted, Keys, Weight, Size, Pow2, Splayed;
      ghost var t := tree;
      PeekRoot();
      RootRemoved(cmp, t);
      DropLeft(t);
      if root.left == null {
        root := root.right;
        tree, nodes := t.right, Nodes(t.right);
        rounds := 0;
        NoRounds();
        DropPays(t);
      } else {
        var tmp := root.right;
        ghost var rest := nodes - Nodes(t.left) - {t.node};
        root := root.left;
        tree, nodes := t.left, nodes - rest - {t.node};
        rounds := Splay(elm);
        JoinSound(cmp, t.left, tree, elm.key);
        JoinPays(cmp, t, elm.key);
        RootInside(tree);
        JoinRight(tmp, t.right, rest);
      }
    }

    // SPLAY_REMOVE: the element with elm's key, at index k, leaves; elm itself is what is returned.
    method Remove(elm: Node<K>) returns (removed: Node?<K>, ghost k: nat, ghost rounds: nat)
      requires Valid()
      modifies this`root, this`tree, this`nodes, nodes
      ensures Valid()
      ensures removed == null ==> Contents() == old(Contents()) && nodes == old(nodes)
      ensures removed == null ==> forall n :: n in old(nodes) ==> cmp(elm.key, n.key) != 0
      ensures removed != null ==> removed == elm && k < |old(Contents())|
      ensures removed != null ==> cmp(elm.key, old(Contents())[k].key) == 0
      ensures removed != null ==> elm in old(nodes) ==> old(Contents())[k] == elm
      ensures removed != null ==> nodes == old(nodes) - {old(Contents())[k]}
      ensures removed != null ==> Contents() == old(Contents())[..k] + old(Contents())[k + 1..]
      ensures old(tree.Leaf?) ==> tree.Leaf? && rounds == 0
      ensures old(tree.Bin?) ==> var o := Splayed(cmp, old(tree), elm.key);
        && (removed != null <==> cmp(elm.key, o.node.key) == 0)
        && if removed == null then rounds == o.rounds && tree == Whole(o)
           else (tree, rounds - o.rounds) == Joined(cmp, Whole(o), elm.key)
      ensures Pow2(rounds) * Weight(tree) <= Cost(|old(Contents())|) * old(Weight(tree))
    {
      hide At, Nodes, Inorder, Distinct, Sorted, Keys, Weight, Cost, Pow2, Splayed, Size;
      removed, k, rounds := null, 0, 0;
      if root == null {
        PeekEmpty();
        CostOfNothing(tree);
        return;
      }
      ghost var t := tree;
      rounds := Splay(elm);
      SplayCosts(cmp, t, elm.key);
      AroundRoot(cmp, tree, elm.key);
      if cmp(elm.key, root.key) == 0 {
        RootRemoved(cmp, tree);
        k := |Inorder(tree.left)|;
        ghost var s := tree;
        ghost var more := Join(elm);
        removed := elm;
        RemoveCosts(cmp, t, elm.key, s, tree, more);
        rounds := rounds + more;
      }
    }

    // One round of SPLAY_MINMAX's loop towards the left; done marks the two breaks.
    method EdgeLeft(dummy: Node<K>, left: Node<K>, right: Node<K>, ghost s: Split<K>)
        returns (done: bool, right': Node<K>, ghost s': Split<K>)
      requires Apart(s, dummy, left, right) && s.mid.Bin?
      modifies this`root, dummy, nodes
      ensures Apart(s', dummy, left, right') && s'.mid.Bin? && s'.ls == s.ls
      ensures SplitInorder(s') == SplitInorder(s)
      ensures done ==> s'.mid.left.Leaf?
      ensures !done ==> |Inorder(s'.mid)| < |Inorder(s.mid)|
    {
      hide At, LeftAt, RightAt, Nodes, SpineNodes, Inorder, Before, After, Distinct, SpineDistinct, Outer, SplitAt;
      hide SplitNodes, SplitDistinct, SplitInorder;
      s', right', done := s, right, true;
      PeekMid(s, dummy, left, right);
      var tmp := root.left;
      if tmp == null {
        return;
      }
      RotateRight(tmp, dummy, left, right, s);
      s' := s.(mid := RotatedRight(s.mid));
      RotatedRightOrder(s.mid);
      PeekMid(s', dummy, left, right);
      if root.left == null {
        return;
      }
      LinkLeftContents(s');
      right' := LinkLeft(dummy, left, right, s');
      s', done := LinkedLeft(s'), false;
    }

    // One round of SPLAY_MINMAX's loop towards the right; done marks the two breaks.
    method EdgeRight(dummy: Node<K>, left: Node<K>, right: Node<K>, ghost s: Split<K>)
        returns (done: bool, left': Node<K>, ghost s': Split<K>)
      requires Apart(s, dummy, left, right) && s.mid.Bin?
      modifies this`root, dummy, nodes
      ensures Apart(s', dummy, left', right) && s'.mid.Bin? && s'.rs == s.rs
      ensures SplitInorder(s') == SplitInorder(s)
      ensures done ==> s'.mid.right.Leaf?
      ensures !done ==> |Inorder(s'.mid)| < |Inorder(s.mid)|
    {
      hide At, LeftAt, RightAt, Nodes, SpineNodes, Inorder, Before, After, Distinct, SpineDistinct, Outer, SplitAt;
      hide SplitNodes, SplitDistinct, SplitInorder;
      s', left', done := s, left, true;
      PeekMid(s, dummy, left, right);
      var tmp := root.right;
      if tmp == null {
        return;
      }
      RotateLeft(tmp, dummy, left, right, s);
      s' := s.(mid := RotatedLeft(s.mid));
      RotatedLeftOrder(s.mid);
      PeekMid(s', dummy, left, right);
      if root.right == null {
        return;
      }
      LinkRightContents(s');
      left' := LinkRight(dummy, left, right, s');
      s', done := LinkedRight(s'), false;
    }

    // One round of SPLAY_MINMAX's loop. With a zero comp it neither breaks nor changes anything, so the next round
    // starts where this one did; with any other comp it breaks or leaves a smaller middle.
    method EdgeRound(comp: int, dummy: Node<K>, left: Node<K>, right: Node<K>, ghost s: Split<K>)
        returns (done: bool, left': Node<K>, right': Node<K>, ghost s': Split<K>)
      requires Apart(s, dummy, left, right) && s.mid.Bin?
      modifies this`root, dummy, nodes
      ensures Apart(s', dummy, left', right') && s'.mid.Bin? && SplitInorder(s') == SplitInorder(s)
      ensures comp == 0 ==> !done && left' == left && right' == right && s' == s
      ensures comp == 0 ==> unchanged(this) && unchanged(dummy) && unchanged(nodes)
      ensures comp != 0 && !done ==> |Inorder(s'.mid)| < |Inorder(s.mid)|
      ensures comp < 0 ==> s'.ls == s.ls && (done ==> s'.mid.left.Leaf?)
      ensures comp > 0 ==> s'.rs == s.rs && (done ==> s'.mid.right.Leaf?)
    {
      hide At, LeftAt, RightAt, Nodes, SpineNodes, Inorder, Before, After, Distinct, SpineDistinct, Outer, SplitAt;
      hide SplitNodes, SplitDistinct, SplitInorder;
      done, left', right', s' := false, left, right, s;
      if comp < 0 {
        done, right', s' := EdgeLeft(dummy, left, right, s);
      } else if comp > 0 {
        done, left', s' := EdgeRight(dummy, left, right, s);
      }
    }

    // SPLAY_MINMAX: the first (last) element becomes the root. With a zero comp the loop would go on forever.
    method SplayMinMax(comp: int)
      requires Valid() && root != null && comp != 0
      modifies this`root, this`tree, nodes
      ensures Valid() && Contents() == old(Contents()) && nodes == old(nodes)
      ensures root != null && root == if comp < 0 then Contents()[0] else Contents()[|Contents()| - 1]
    {
      hide At, LeftAt, RightAt, Nodes, SpineNodes, Inorder, Before, After, Distinct, SpineDistinct, Outer, SplitAt;
      var dummy := new Node(root.key);
      var left, right := dummy, dummy;
      ghost var s := Split(Open, null, tree, Open, null);
      ghost var order := Inorder(tree);
      TakeApart(dummy, root.key);
      while true
        invariant Apart(s, dummy, left, right) && s.mid.Bin? && SplitInorder(s) == order
        invariant fresh(dummy) && nodes == old(nodes) && if comp < 0 then s.ls.Open? else s.rs.Open?
        decreases |Inorder(s.mid)|
      {
        var done;
        done, left, right, s := EdgeRound(comp, dummy, left, right, s);
        if done {
          break;
        }
      }
      hide SplitNodes, SplitDistinct, SplitInorder;
      EdgeEnds(s);
      AssembledContents(s);
      Assemble(dummy, left, right, s);
    }

    // SPLAY_MIN and SPLAY_MAX
    method MinMax(val: int) returns (elm: Node?<K>)
      requires Valid() && val != 0
      modifies this`root, this`tree, nodes
      ensures Valid() && Contents() == old(Contents()) && nodes == old(nodes)
      ensures Contents() == [] ==> elm == null
      ensures Contents() != [] ==> elm == if val < 0 then Contents()[0] else Contents()[|Contents()| - 1]
      ensures elm == root
    {
      if root == null {
        return null;
      }
      SplayMinMax(val);
      elm := root;
    }

    // SPLAY_NEXT: the element after the i-th, null after the last; the tree is re-rooted, the order stays.
    method Next(elm: Node<K>, ghost i: nat) returns (next: Node?<K>)
      requires Valid() && i < |Contents()| && Contents()[i] == elm
      modifies this`root, this`tree, nodes
      ensures Valid() && Contents() == old(Contents()) && nodes == old(nodes)
      ensures next == if i + 1 < |Contents()| then Contents()[i + 1] else null
      ensures root == elm && old(tree.Bin?) && tree == Whole(Splayed(cmp, old(tree), elm.key))
    {
      hide Sorted, Keys, Splayed;
      NodesInorder(tree, elm);
      ghost var rounds := Splay(elm);
      NodesInorder(tree, elm);
      AroundRoot(cmp, tree, elm.key);
      IndexOfRoot(cmp, tree, i);
      PeekRoot();
      next := null;
      if elm.right != null {
        next := Leftmost(elm.right, tree.right);
      }
    }

    method Leftmost(elm: Node<K>, ghost t: Tree<K>) returns (low: Node<K>)
      requires t.Bin? && elm == t.node && Distinct(t)
      requires forall n :: n in Nodes(t) ==> Read(n) == At(t, n)
      ensures low == Inorder(t)[0]
    {
      low := elm;
      ghost var u := t;
      assert Read(low) == At(u, low);
      while low.left != null
        invariant u.Bin? && low == u.node && Distinct(u) && low.left == Root(u.left)
        invariant forall n :: n in Nodes(u) ==> Read(n) == At(u, n)
        invariant Inorder(u)[0] == Inorder(t)[0]
        decreases u
      {
        low := low.left;
        assert forall n :: n in Nodes(u.left) ==> At(u, n) == At(u.left, n);
        u := u.left;
        assert Read(low) == At(u, low);
      }
    }

    // SPLAY_FOREACH: visits exactly the elements, each once, in order, though every step re-roots the tree.
    method Foreach() returns (visited: seq<Node<K>>)
      requires Valid()
      modifies this`root, this`tree, nodes
      ensures Valid() && Contents() == old(Contents()) && nodes == old(nodes)
      ensures visited == Contents()
    {
      hide Inorder, Nodes, Distinct, At, Sorted, Keys, TotalOrder;
      visited := [];
      var x := MinMax(-1);
      while x != null
        invariant Valid() && Contents() == old(Contents()) && nodes == old(nodes) && visited <= Contents()
        invariant x == if |visited| < |Contents()| then Contents()[|visited|] else null
        decreases |Contents()| - |visited|
      {
        ghost var i := |visited|;
        visited := visited + [x];
        x := Next(x, i);
      }
    }

    lemma PeekEmpty()
      requires Linked() && root == null
      ensures tree.Leaf? && nodes == {}
    {}

    lemma PeekRoot()
      requires Linked() && tree.Bin?
      ensures var t := tree;
        && t.node in nodes && root == t.node && Read(t.node) == Cell(Root(t.left), Root(t.right))
        && Distinct(t.left) && Distinct(t.right) && Nodes(t.left) !! Nodes(t.right)
        && t.node !in Nodes(t.left) && t.node !in Nodes(t.right) && nodes == Nodes(t.left) + {t.node} + Nodes(t.right)
      ensures forall n :: n in Nodes(tree.left) ==> Read(n) == At(tree.left, n)
      ensures forall n :: n in Nodes(tree.right) ==> Read(n) == At(tree.right, n)
    {
      assert forall n :: n in Nodes(tree.left) ==> At(tree, n) == At(tree.left, n);
      assert forall n :: n in Nodes(tree.right) ==> At(tree, n) == At(tree.right, n);
    }
  }
}
