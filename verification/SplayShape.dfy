/** The mathematical side of the splay tree: shapes, the two spines of a top-down splay, and key order. */
module SplayShape {
  import opened Sequences

  // An element carrying SPLAY_ENTRY.
  class Node<K> {
    const key: K
    var left: Node?<K>
    var right: Node?<K>

    constructor (key: K)
      ensures this.key == key && left == null && right == null
    {
      this.key := key;
      left, right := null, null;
    }
  }

  datatype Tree<K> = Leaf | Bin(left: Tree<K>, node: Node<K>, right: Tree<K>)

  // A spine from its open end outwards. A left spine is entered through right links, a right spine through left
  // links; side is the subtree that hangs on the other side of node.
  datatype Spine<K> = Open | Link(node: Node<K>, side: Tree<K>, up: Spine<K>)

  datatype Cell<K> = Cell(left: Node?<K>, right: Node?<K>)

  ghost function Read<K>(n: Node<K>): Cell<K>
    reads n
  {
    Cell(n.left, n.right)
  }

  ghost function Root<K>(t: Tree<K>): Node?<K> {
    if t.Leaf? then null else t.node
  }

  ghost function Inorder<K>(t: Tree<K>): seq<Node<K>> {
    match t
    case Leaf => []
    case Bin(l, n, r) => Inorder(l) + [n] + Inorder(r)
  }

  ghost function Keys<K>(s: seq<Node<K>>): seq<K> {
    seq(|s|, i requires 0 <= i < |s| => s[i].key)
  }

  ghost function Nodes<K>(t: Tree<K>): set<Node<K>> {
    match t
    case Leaf => {}
    case Bin(l, n, r) => Nodes(l) + {n} + Nodes(r)
  }

  ghost predicate Distinct<K>(t: Tree<K>) {
    match t
    case Leaf => true
    case Bin(l, n, r) =>
      Distinct(l) && Distinct(r) && n !in Nodes(l) && n !in Nodes(r) && Nodes(l) !! Nodes(r)
  }

  // The fields node n of t must hold.
  ghost function At<K>(t: Tree<K>, n: Node<K>): Cell<K>
    requires n in Nodes(t)
  {
    if n == t.node then Cell(Root(t.left), Root(t.right))
    else if n in Nodes(t.left) then At(t.left, n)
    else At(t.right, n)
  }

  // ---- Spines ----

  ghost function SpineNodes<K>(s: Spine<K>): set<Node<K>> {
    if s.Open? then {} else {s.node} + Nodes(s.side) + SpineNodes(s.up)
  }

  ghost predicate SpineDistinct<K>(s: Spine<K>) {
    s.Link? ==>
      && Distinct(s.side) && SpineDistinct(s.up)
      && s.node !in Nodes(s.side) && s.node !in SpineNodes(s.up) && Nodes(s.side) !! SpineNodes(s.up)
  }

  // The nodes of a left spine in order.
  ghost function Before<K>(s: Spine<K>): seq<Node<K>> {
    if s.Open? then [] else Before(s.up) + Inorder(s.side) + [s.node]
  }

  // The nodes of a right spine in order.
  ghost function After<K>(s: Spine<K>): seq<Node<K>> {
    if s.Open? then [] else [s.node] + Inorder(s.side) + After(s.up)
  }

  // The trees the spines become when t closes them.
  ghost function CloseLeft<K>(s: Spine<K>, t: Tree<K>): Tree<K>
    decreases s
  {
    if s.Open? then t else CloseLeft(s.up, Bin(s.side, s.node, t))
  }

  ghost function CloseRight<K>(s: Spine<K>, t: Tree<K>): Tree<K>
    decreases s
  {
    if s.Open? then t else CloseRight(s.up, Bin(t, s.node, s.side))
  }

  // The outermost node of a spine whose open end holds h.
  ghost function Outer<K>(s: Spine<K>, h: Node?<K>): Node?<K> {
    if s.Open? then h else Outer(s.up, s.node)
  }

  // The fields of node n of a left (right) spine whose open end holds h.
  ghost function LeftAt<K>(s: Spine<K>, h: Node?<K>, n: Node<K>): Cell<K>
    requires n in SpineNodes(s)
  {
    if n == s.node then Cell(Root(s.side), h)
    else if n in Nodes(s.side) then At(s.side, n)
    else LeftAt(s.up, s.node, n)
  }

  ghost function RightAt<K>(s: Spine<K>, h: Node?<K>, n: Node<K>): Cell<K>
    requires n in SpineNodes(s)
  {
    if n == s.node then Cell(h, Root(s.side))
    else if n in Nodes(s.side) then At(s.side, n)
    else RightAt(s.up, s.node, n)
  }

  lemma {:induction false} CloseLeftContents<K>(s: Spine<K>, t: Tree<K>)
    ensures Inorder(CloseLeft(s, t)) == Before(s) + Inorder(t)
    ensures Nodes(CloseLeft(s, t)) == SpineNodes(s) + Nodes(t)
    ensures Root(CloseLeft(s, t)) == Outer(s, Root(t))
    ensures Distinct(t) && SpineDistinct(s) && Nodes(t) !! SpineNodes(s) ==> Distinct(CloseLeft(s, t))
    decreases s
  {
    if s.Link? {
      var u := Bin(s.side, s.node, t);
      CloseLeftContents(s.up, u);
      RegroupTail(Before(s.up), Inorder(s.side), [s.node], Inorder(t));
    }
  }

  lemma {:induction false} CloseRightContents<K>(s: Spine<K>, t: Tree<K>)
    ensures Inorder(CloseRight(s, t)) == Inorder(t) + After(s)
    ensures Nodes(CloseRight(s, t)) == SpineNodes(s) + Nodes(t)
    ensures Root(CloseRight(s, t)) == Outer(s, Root(t))
    ensures Distinct(t) && SpineDistinct(s) && Nodes(t) !! SpineNodes(s) ==> Distinct(CloseRight(s, t))
    decreases s
  {
    if s.Link? {
      var u := Bin(t, s.node, s.side);
      CloseRightContents(s.up, u);
      RegroupTail(Inorder(t), [s.node], Inorder(s.side), After(s.up));
    }
  }

  lemma {:induction false} CloseLeftAt<K>(s: Spine<K>, t: Tree<K>, n: Node<K>)
    requires Distinct(t) && SpineDistinct(s) && Nodes(t) !! SpineNodes(s)
    requires n in Nodes(t) || n in SpineNodes(s)
    ensures n in Nodes(CloseLeft(s, t))
    ensures At(CloseLeft(s, t), n) == if n in Nodes(t) then At(t, n) else LeftAt(s, Root(t), n)
    decreases s
  {
    if s.Link? {
      CloseLeftAt(s.up, Bin(s.side, s.node, t), n);
    }
  }

  lemma {:induction false} CloseRightAt<K>(s: Spine<K>, t: Tree<K>, n: Node<K>)
    requires Distinct(t) && SpineDistinct(s) && Nodes(t) !! SpineNodes(s)
    requires n in Nodes(t) || n in SpineNodes(s)
    ensures n in Nodes(CloseRight(s, t))
    ensures At(CloseRight(s, t), n) == if n in Nodes(t) then At(t, n) else RightAt(s, Root(t), n)
    decreases s
  {
    if s.Link? {
      CloseRightAt(s.up, Bin(t, s.node, s.side), n);
    }
  }

  // ---- The tree taken apart ----

  // The three parts of a splay in progress. lend and rend are what the open ends of the spines still hold.
  datatype Split<K> = Split(ls: Spine<K>, lend: Node?<K>, mid: Tree<K>, rs: Spine<K>, rend: Node?<K>)

  ghost function SplitNodes<K>(s: Split<K>): set<Node<K>> {
    SpineNodes(s.ls) + Nodes(s.mid) + SpineNodes(s.rs)
  }

  ghost predicate SplitDistinct<K>(s: Split<K>) {
    && SpineDistinct(s.ls) && Distinct(s.mid) && SpineDistinct(s.rs)
    && SpineNodes(s.ls) !! Nodes(s.mid) && SpineNodes(s.ls) !! SpineNodes(s.rs) && Nodes(s.mid) !! SpineNodes(s.rs)
  }

  ghost function SplitAt<K>(s: Split<K>, n: Node<K>): Cell<K>
    requires n in SplitNodes(s)
  {
    if n in Nodes(s.mid) then At(s.mid, n)
    else if n in SpineNodes(s.ls) then LeftAt(s.ls, s.lend, n)
    else RightAt(s.rs, s.rend, n)
  }

  ghost function SplitInorder<K>(s: Split<K>): seq<Node<K>> {
    Before(s.ls) + Inorder(s.mid) + After(s.rs)
  }

  // SPLAY_LINKLEFT: the root of the middle, with its right subtree, joins the right spine.
  ghost function LinkedLeft<K>(s: Split<K>): Split<K>
    requires s.mid.Bin?
  {
    s.(mid := s.mid.left, rs := Link(s.mid.node, s.mid.right, s.rs), rend := Root(s.mid.left))
  }

  lemma LinkLeftContents<K>(s: Split<K>)
    requires s.mid.Bin? && SplitDistinct(s)
    ensures |Inorder(LinkedLeft(s).mid)| < |Inorder(s.mid)|
    ensures var u := LinkedLeft(s);
      && SplitDistinct(u) && SplitNodes(u) == SplitNodes(s) && SplitInorder(u) == SplitInorder(s)
  {
    var m := s.mid;
    RegroupLeft(Before(s.ls), Inorder(m.left), [m.node], Inorder(m.right), After(s.rs));
  }

  lemma LinkLeftSpine<K>(s: Split<K>)
    requires s.mid.Bin?
    ensures var u := LinkedLeft(s); Outer(u.rs, u.rend) == Outer(s.rs, s.mid.node)
    ensures s.rs.Link? ==> Outer(s.rs, s.mid.node) == Outer(s.rs, s.rend)
    ensures s.rs.Open? ==> Outer(s.rs, s.mid.node) == s.mid.node
  {}

  // Only the open end of the right spine is written.
  lemma LinkLeftAt<K>(s: Split<K>, n: Node<K>)
    requires s.mid.Bin? && SplitDistinct(s) && n in SplitNodes(s) && n in SplitNodes(LinkedLeft(s))
    ensures SplitAt(LinkedLeft(s), n) ==
      if s.rs.Link? && n == s.rs.node then SplitAt(s, n).(left := s.mid.node) else SplitAt(s, n)
  {
    var u := LinkedLeft(s);
    if n in SpineNodes(s.rs) {
      assert SplitAt(u, n) == RightAt(u.rs, u.rend, n) == RightAt(s.rs, s.mid.node, n);
    } else if n in Nodes(s.mid) && n !in Nodes(s.mid.left) {
      assert SplitAt(u, n) == RightAt(u.rs, u.rend, n);
    }
  }

  // SPLAY_LINKRIGHT: the root of the middle, with its left subtree, joins the left spine.
  ghost function LinkedRight<K>(s: Split<K>): Split<K>
    requires s.mid.Bin?
  {
    s.(mid := s.mid.right, ls := Link(s.mid.node, s.mid.left, s.ls), lend := Root(s.mid.right))
  }

  lemma LinkRightContents<K>(s: Split<K>)
    requires s.mid.Bin? && SplitDistinct(s)
    ensures |Inorder(LinkedRight(s).mid)| < |Inorder(s.mid)|
    ensures var u := LinkedRight(s);
      && SplitDistinct(u) && SplitNodes(u) == SplitNodes(s) && SplitInorder(u) == SplitInorder(s)
  {
    var m := s.mid;
    RegroupRight(Before(s.ls), Inorder(m.left), [m.node], Inorder(m.right), After(s.rs));
  }

  lemma LinkRightSpine<K>(s: Split<K>)
    requires s.mid.Bin?
    ensures var u := LinkedRight(s); Outer(u.ls, u.lend) == Outer(s.ls, s.mid.node)
    ensures s.ls.Link? ==> Outer(s.ls, s.mid.node) == Outer(s.ls, s.lend)
    ensures s.ls.Open? ==> Outer(s.ls, s.mid.node) == s.mid.node
  {}

  // Only the open end of the left spine is written.
  lemma LinkRightAt<K>(s: Split<K>, n: Node<K>)
    requires s.mid.Bin? && SplitDistinct(s) && n in SplitNodes(s) && n in SplitNodes(LinkedRight(s))
    ensures SplitAt(LinkedRight(s), n) ==
      if s.ls.Link? && n == s.ls.node then SplitAt(s, n).(right := s.mid.node) else SplitAt(s, n)
  {
    var u := LinkedRight(s);
    if n in SpineNodes(s.ls) {
      assert SplitAt(u, n) == LeftAt(u.ls, u.lend, n) == LeftAt(s.ls, s.mid.node, n);
    } else if n in Nodes(s.mid) && n !in Nodes(s.mid.right) {
      assert SplitAt(u, n) == LeftAt(u.ls, u.lend, n);
    }
  }

  // SPLAY_ROTATE_RIGHT
  ghost function RotatedRight<K>(t: Tree<K>): Tree<K>
    requires t.Bin? && t.left.Bin?
  {
    Bin(t.left.left, t.left.node, Bin(t.left.right, t.node, t.right))
  }

  // SPLAY_ROTATE_LEFT
  ghost function RotatedLeft<K>(t: Tree<K>): Tree<K>
    requires t.Bin? && t.right.Bin?
  {
    Bin(Bin(t.left, t.node, t.right.left), t.right.node, t.right.right)
  }

  lemma RotatedRightDistinct<K>(t: Tree<K>)
    requires t.Bin? && t.left.Bin? && Distinct(t)
    ensures Distinct(RotatedRight(t)) && Nodes(RotatedRight(t)) == Nodes(t)
  {
    assert Distinct(t.left);
  }

  lemma RotatedRightOrder<K>(t: Tree<K>)
    requires t.Bin? && t.left.Bin?
    ensures Inorder(RotatedRight(t)) == Inorder(t)
  {
    var l := t.left;
    RegroupRotation(Inorder(l.left), [l.node], Inorder(l.right), [t.node], Inorder(t.right));
  }

  lemma RotatedLeftDistinct<K>(t: Tree<K>)
    requires t.Bin? && t.right.Bin? && Distinct(t)
    ensures Distinct(RotatedLeft(t)) && Nodes(RotatedLeft(t)) == Nodes(t)
  {
    assert Distinct(t.right);
  }

  lemma RotatedLeftOrder<K>(t: Tree<K>)
    requires t.Bin? && t.right.Bin?
    ensures Inorder(RotatedLeft(t)) == Inorder(t)
  {
    var r := t.right;
    RegroupRotation(Inorder(t.left), [t.node], Inorder(r.left), [r.node], Inorder(r.right));
  }

  lemma RotatedRightAt<K>(t: Tree<K>, n: Node<K>)
    requires t.Bin? && t.left.Bin? && Distinct(t) && n in Nodes(t) && n in Nodes(RotatedRight(t))
    ensures At(RotatedRight(t), n) ==
      if n == t.node then At(t, n).(left := Root(t.left.right))
      else if n == t.left.node then At(t, n).(right := t.node)
      else At(t, n)
  {
    var u := RotatedRight(t);
    if n in Nodes(t.left) {
      assert At(t, n) == At(t.left, n);
      if n in Nodes(t.left.right) {
        assert At(u, n) == At(u.right, n) == At(t.left.right, n);
      }
    } else {
      assert At(u, n) == At(u.right, n);
    }
  }

  lemma RotatedLeftAt<K>(t: Tree<K>, n: Node<K>)
    requires t.Bin? && t.right.Bin? && Distinct(t) && n in Nodes(t) && n in Nodes(RotatedLeft(t))
    ensures At(RotatedLeft(t), n) ==
      if n == t.node then At(t, n).(right := Root(t.right.left))
      else if n == t.right.node then At(t, n).(left := t.node)
      else At(t, n)
  {
    var u := RotatedLeft(t);
    if n in Nodes(t.right) {
      assert At(t, n) == At(t.right, n);
      if n in Nodes(t.right.left) {
        assert At(u, n) == At(u.left, n) == At(t.right.left, n);
      }
    } else {
      assert At(u, n) == At(u.left, n);
    }
  }

  // Exchanging the middle tree for another with the same nodes leaves the spines alone.
  lemma RotatedMid<K>(s: Split<K>, m: Tree<K>)
    requires SplitDistinct(s) && Distinct(m) && Nodes(m) == Nodes(s.mid) && Inorder(m) == Inorder(s.mid)
    ensures var u := s.(mid := m);
      SplitDistinct(u) && SplitNodes(u) == SplitNodes(s) && SplitInorder(u) == SplitInorder(s)
  {}

  lemma RotatedMidAt<K>(s: Split<K>, m: Tree<K>, n: Node<K>)
    requires Nodes(m) == Nodes(s.mid) && n in SplitNodes(s)
    ensures SplitAt(s.(mid := m), n) == if n in Nodes(m) then At(m, n) else SplitAt(s, n)
    ensures n in Nodes(m) ==> SplitAt(s, n) == At(s.mid, n)
  {}

  // SPLAY_ASSEMBLE
  ghost function Assembled<K>(s: Split<K>): Tree<K>
    requires s.mid.Bin?
  {
    Bin(CloseLeft(s.ls, s.mid.left), s.mid.node, CloseRight(s.rs, s.mid.right))
  }

  // With nothing on a side, the middle's root is the end of the order on that side.
  lemma EdgeEnds<K>(s: Split<K>)
    requires s.mid.Bin?
    ensures var order := SplitInorder(s);
      && |order| > 0
      && (s.ls.Open? && s.mid.left.Leaf? ==> order[0] == s.mid.node)
      && (s.rs.Open? && s.mid.right.Leaf? ==> order[|order| - 1] == s.mid.node)
  {
    var m := s.mid;
    assert Inorder(m) == Inorder(m.left) + [m.node] + Inorder(m.right);
    if s.ls.Open? && m.left.Leaf? {
      assert SplitInorder(s) == [m.node] + Inorder(m.right) + After(s.rs);
    }
    if s.rs.Open? && m.right.Leaf? {
      assert SplitInorder(s) == Before(s.ls) + (Inorder(m.left) + [m.node]);
    }
  }

  lemma AssembledContents<K>(s: Split<K>)
    requires s.mid.Bin? && SplitDistinct(s)
    ensures var t := Assembled(s);
      && Distinct(t) && Nodes(t) == SplitNodes(s) && Inorder(t) == SplitInorder(s)
      && Root(t.left) == Outer(s.ls, Root(s.mid.left)) && Root(t.right) == Outer(s.rs, Root(s.mid.right))
  {
    CloseLeftContents(s.ls, s.mid.left);
    CloseRightContents(s.rs, s.mid.right);
    var m := s.mid;
    RegroupAround(Before(s.ls), Inorder(m.left), [m.node], Inorder(m.right), After(s.rs));
  }

  lemma AssembledEnds<K>(s: Split<K>)
    requires s.mid.Bin?
    ensures s.ls.Open? ==> Outer(s.ls, Root(s.mid.left)) == Root(s.mid.left)
    ensures s.ls.Link? ==> Outer(s.ls, Root(s.mid.left)) == Outer(s.ls, s.lend)
    ensures s.rs.Open? ==> Outer(s.rs, Root(s.mid.right)) == Root(s.mid.right)
    ensures s.rs.Link? ==> Outer(s.rs, Root(s.mid.right)) == Outer(s.rs, s.rend)
  {}

  // What assembling writes: the open ends of the spines and the root.
  lemma AssembledAt<K>(s: Split<K>, n: Node<K>)
    requires s.mid.Bin? && SplitDistinct(s) && n in SplitNodes(s) && n in Nodes(Assembled(s))
    ensures At(Assembled(s), n) ==
      if n == s.mid.node then Cell(Outer(s.ls, Root(s.mid.left)), Outer(s.rs, Root(s.mid.right)))
      else if s.ls.Link? && n == s.ls.node then SplitAt(s, n).(right := Root(s.mid.left))
      else if s.rs.Link? && n == s.rs.node then SplitAt(s, n).(left := Root(s.mid.right))
      else SplitAt(s, n)
  {
    var m, t := s.mid, Assembled(s);
    CloseLeftContents(s.ls, m.left);
    CloseRightContents(s.rs, m.right);
    if n == m.node {
    } else if n in SpineNodes(s.ls) + Nodes(m.left) {
      CloseLeftAt(s.ls, m.left, n);
    } else {
      CloseRightAt(s.rs, m.right, n);
    }
  }
}
