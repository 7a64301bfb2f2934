/** The mathematical side of the red-black tree: shapes, one-hole contexts, and the header's conditions on them. */
module RedBlackShape {
  import opened Sequences

  datatype Color = Black | Red

  // An element carrying RB_ENTRY. The key is fixed while the element exists; the four link fields are not.
  class Node<K> {
    const key: K
    var left: Node?<K>
    var right: Node?<K>
    var parent: Node?<K>
    var color: Color

    constructor (key: K)
      ensures this.key == key
    {
      this.key := key;
      left, right, parent, color := null, null, null, Black;
    }
  }

  datatype Tree<K> = Leaf | Bin(left: Tree<K>, node: Node<K>, color: Color, right: Tree<K>)

  // A tree with one subtree missing, from the hole up to the root.
  datatype Ctx<K> =
    | Top
    | InLeft(node: Node<K>, color: Color, right: Tree<K>, up: Ctx<K>)
    | InRight(left: Tree<K>, node: Node<K>, color: Color, up: Ctx<K>)

  ghost function Plug<K>(c: Ctx<K>, t: Tree<K>): Tree<K>
    decreases c
  {
    match c
    case Top => t
    case InLeft(n, col, r, up) => Plug(up, Bin(t, n, col, r))
    case InRight(l, n, col, up) => Plug(up, Bin(l, n, col, t))
  }

  // The subtree one level above the hole.
  ghost function Fill<K>(c: Ctx<K>, t: Tree<K>): Tree<K>
    requires !c.Top?
  {
    if c.InLeft? then Bin(t, c.node, c.color, c.right) else Bin(c.left, c.node, c.color, t)
  }

  // The subtree beside the hole.
  ghost function Sibling<K>(c: Ctx<K>): Tree<K>
    requires !c.Top?
  {
    if c.InLeft? then c.right else c.left
  }

  ghost function Root<K>(t: Tree<K>): Node?<K> {
    if t.Leaf? then null else t.node
  }

  // The node the hole hangs from.
  ghost function Parent<K>(c: Ctx<K>): Node?<K> {
    if c.Top? then null else c.node
  }

  ghost function Depth<K>(c: Ctx<K>): nat {
    if c.Top? then 0 else 1 + Depth(c.up)
  }

  // ---- Contents ----

  ghost function Inorder<K>(t: Tree<K>): seq<Node<K>> {
    match t
    case Leaf => []
    case Bin(l, n, _, r) => Inorder(l) + [n] + Inorder(r)
  }

  ghost function Before<K>(c: Ctx<K>): seq<Node<K>> {
    match c
    case Top => []
    case InLeft(_, _, _, up) => Before(up)
    case InRight(l, n, _, up) => Before(up) + Inorder(l) + [n]
  }

  ghost function After<K>(c: Ctx<K>): seq<Node<K>> {
    match c
    case Top => []
    case InLeft(n, _, r, up) => [n] + Inorder(r) + After(up)
    case InRight(_, _, _, up) => After(up)
  }

  ghost function Keys<K>(s: seq<Node<K>>): seq<K> {
    seq(|s|, i requires 0 <= i < |s| => s[i].key)
  }

  ghost function Nodes<K>(t: Tree<K>): set<Node<K>> {
    match t
    case Leaf => {}
    case Bin(l, n, _, r) => Nodes(l) + {n} + Nodes(r)
  }

  ghost function CtxNodes<K>(c: Ctx<K>): set<Node<K>> {
    match c
    case Top => {}
    case InLeft(n, _, r, up) => {n} + Nodes(r) + CtxNodes(up)
    case InRight(l, n, _, up) => Nodes(l) + {n} + CtxNodes(up)
  }

  // No element occurs twice.
  ghost predicate Distinct<K>(t: Tree<K>) {
    match t
    case Leaf => true
    case Bin(l, n, _, r) =>
      Distinct(l) && Distinct(r) && n !in Nodes(l) && n !in Nodes(r) && Nodes(l) !! Nodes(r)
  }

  ghost predicate CtxDistinct<K>(c: Ctx<K>) {
    match c
    case Top => true
    case InLeft(n, _, r, up) =>
      Distinct(r) && CtxDistinct(up) && n !in Nodes(r) && n !in CtxNodes(up) && Nodes(r) !! CtxNodes(up)
    case InRight(l, n, _, up) =>
      Distinct(l) && CtxDistinct(up) && n !in Nodes(l) && n !in CtxNodes(up) && Nodes(l) !! CtxNodes(up)
  }

  lemma PlugTop<K>(t: Tree<K>)
    ensures Plug(Top, t) == t
  {}

  lemma {:induction false} PlugInorder<K>(c: Ctx<K>, t: Tree<K>)
    ensures Inorder(Plug(c, t)) == Before(c) + Inorder(t) + After(c)
    decreases c
  {
    match c
    case Top =>
    case InLeft(n, col, r, up) =>
      PlugInorder(up, Bin(t, n, col, r));
      RegroupLeft(Before(up), Inorder(t), [n], Inorder(r), After(up));
    case InRight(l, n, col, up) =>
      PlugInorder(up, Bin(l, n, col, t));
      RegroupRight(Before(up), Inorder(l), [n], Inorder(t), After(up));
  }

  lemma {:induction false} PlugNodes<K>(c: Ctx<K>, t: Tree<K>)
    ensures Nodes(Plug(c, t)) == CtxNodes(c) + Nodes(t)
    ensures Distinct(Plug(c, t)) <==> Distinct(t) && CtxDistinct(c) && Nodes(t) !! CtxNodes(c)
    decreases c
  {
    match c
    case Top =>
    case InLeft(n, col, r, up) =>
      PlugNodes(up, Bin(t, n, col, r));
    case InRight(l, n, col, up) =>
      PlugNodes(up, Bin(l, n, col, t));
  }

  // ---- Link fields ----

  // What the four fields of a node hold.
  datatype Cell<K> = Cell(left: Node?<K>, right: Node?<K>, parent: Node?<K>, color: Color)

  ghost function Read<K>(n: Node<K>): Cell<K>
    reads n
  {
    Cell(n.left, n.right, n.parent, n.color)
  }

  // The fields node n must hold when t hangs under parent.
  ghost function At<K>(t: Tree<K>, parent: Node?<K>, n: Node<K>): Cell<K>
    requires n in Nodes(t)
  {
    if n == t.node then Cell(Root(t.left), Root(t.right), parent, t.color)
    else if n in Nodes(t.left) then At(t.left, t.node, n)
    else At(t.right, t.node, n)
  }

  lemma {:induction false} PlugAt<K>(c: Ctx<K>, t: Tree<K>, n: Node<K>)
    requires Distinct(Plug(c, t)) && n in Nodes(t)
    ensures n in Nodes(Plug(c, t)) && At(Plug(c, t), null, n) == At(t, Parent(c), n)
    decreases c
  {
    PlugNodes(c, t);
    match c
    case Top =>
    case InLeft(m, col, r, up) =>
      PlugAt(up, Bin(t, m, col, r), n);
    case InRight(l, m, col, up) =>
      PlugAt(up, Bin(l, m, col, t), n);
  }

  // The fields of the node the hole hangs from.
  lemma PlugAtParent<K>(c: Ctx<K>, t: Tree<K>)
    requires Distinct(Plug(c, t)) && !c.Top?
    ensures c.node in Nodes(Plug(c, t))
    ensures At(Plug(c, t), null, c.node) ==
      if c.InLeft? then Cell(Root(t), Root(c.right), Parent(c.up), c.color)
      else Cell(Root(c.left), Root(t), Parent(c.up), c.color)
  {
    match c
    case InLeft(m, col, r, up) =>
      PlugAt(up, Bin(t, m, col, r), m);
    case InRight(l, m, col, up) =>
      PlugAt(up, Bin(l, m, col, t), m);
  }

  // Filling the hole of c with another tree leaves every field of c alone, but the link to the hole.
  lemma {:induction false} PlugAtCtx<K>(c: Ctx<K>, t: Tree<K>, u: Tree<K>, n: Node<K>)
    requires Distinct(Plug(c, t)) && Distinct(Plug(c, u))
    requires n in CtxNodes(c) && n != Parent(c)
    ensures n in Nodes(Plug(c, t)) && n in Nodes(Plug(c, u))
    ensures At(Plug(c, t), null, n) == At(Plug(c, u), null, n)
    decreases c
  {
    PlugNodes(c, t);
    PlugNodes(c, u);
    var side := if c.InLeft? then c.right else c.left;
    var bt := if c.InLeft? then Bin(t, c.node, c.color, side) else Bin(side, c.node, c.color, t);
    var bu := if c.InLeft? then Bin(u, c.node, c.color, side) else Bin(side, c.node, c.color, u);
    if n in Nodes(side) {
      PlugAt(c.up, bt, n);
      PlugAt(c.up, bu, n);
    } else if n == Parent(c.up) {
      PlugAtParent(c.up, bt);
      PlugAtParent(c.up, bu);
    } else {
      PlugAtCtx(c.up, bt, bu, n);
    }
  }

  // Storing child in the link that leads to the hole of c.
  ghost function Relinked<K>(c: Ctx<K>, cell: Cell<K>, child: Node?<K>): Cell<K> {
    if c.InLeft? then cell.(left := child) else cell.(right := child)
  }

  // The fields of the whole tree when u stands in the hole of c, from those when t did.
  lemma ReplugAt<K>(c: Ctx<K>, t: Tree<K>, u: Tree<K>, n: Node<K>)
    requires Distinct(Plug(c, t)) && Distinct(u) && Nodes(u) !! CtxNodes(c) && n in Nodes(Plug(c, u))
    ensures Distinct(Plug(c, u))
    ensures n in Nodes(u) ==> At(Plug(c, u), null, n) == At(u, Parent(c), n)
    ensures n !in Nodes(u) ==>
      && n in Nodes(Plug(c, t))
      && At(Plug(c, u), null, n) ==
        if n == Parent(c) then Relinked(c, At(Plug(c, t), null, n), Root(u)) else At(Plug(c, t), null, n)
    ensures n in Nodes(t) ==> n in Nodes(Plug(c, t)) && At(Plug(c, t), null, n) == At(t, Parent(c), n)
  {
    PlugNodes(c, t);
    PlugNodes(c, u);
    if n in Nodes(t) {
      PlugAt(c, t, n);
    }
    if n in Nodes(u) {
      PlugAt(c, u, n);
    } else if n == Parent(c) {
      PlugAtParent(c, t);
      PlugAtParent(c, u);
    } else {
      PlugAtCtx(c, t, u, n);
    }
  }

  // A subtree may be exchanged for another with the same elements.
  lemma ReplugContents<K>(c: Ctx<K>, t: Tree<K>, u: Tree<K>)
    requires Inorder(t) == Inorder(u) && Nodes(t) == Nodes(u)
    ensures Inorder(Plug(c, t)) == Inorder(Plug(c, u)) && Nodes(Plug(c, t)) == Nodes(Plug(c, u))
  {
    PlugInorder(c, t);
    PlugInorder(c, u);
    PlugNodes(c, t);
    PlugNodes(c, u);
  }

  ghost function CtxRoot<K>(c: Ctx<K>, child: Node?<K>): Node?<K> {
    if c.Top? then child else CtxRoot(c.up, c.node)
  }

  lemma {:induction false} PlugRoot<K>(c: Ctx<K>, t: Tree<K>)
    ensures Root(Plug(c, t)) == CtxRoot(c, Root(t))
    decreases c
  {
    match c
    case Top =>
    case InLeft(n, col, r, up) =>
      PlugRoot(up, Bin(t, n, col, r));
    case InRight(l, n, col, up) =>
      PlugRoot(up, Bin(l, n, col, t));
  }

  lemma {:induction false} CtxRootInCtx<K>(c: Ctx<K>, child: Node?<K>)
    requires !c.Top?
    ensures CtxRoot(c, child) != null && CtxRoot(c, child) in CtxNodes(c)
  {
    if !c.up.Top? {
      CtxRootInCtx(c.up, c.node);
    }
  }

  // ---- The header's conditions (tree.h:46-56) ----

  ghost function Height<K>(t: Tree<K>): nat {
    if t.Leaf? then 0
    else 1 + if Height(t.left) > Height(t.right) then Height(t.left) else Height(t.right)
  }

  ghost function BlackHeight<K>(t: Tree<K>): nat {
    match t
    case Leaf => 0
    case Bin(l, _, col, _) => BlackHeight(l) + if col == Black then 1 else 0
  }

  ghost predicate IsRed<K>(t: Tree<K>) {
    t.Bin? && t.color == Red
  }

  // Every path down crosses the same number of black nodes.
  ghost predicate Balanced<K>(t: Tree<K>) {
    match t
    case Leaf => true
    case Bin(l, _, _, r) => Balanced(l) && Balanced(r) && BlackHeight(l) == BlackHeight(r)
  }

  // No red node has a red child.
  ghost predicate NoRedRed<K>(t: Tree<K>) {
    match t
    case Leaf => true
    case Bin(l, _, col, r) => NoRedRed(l) && NoRedRed(r) && (col == Red ==> !IsRed(l) && !IsRed(r))
  }

  ghost predicate RedBlack<K>(t: Tree<K>) {
    Balanced(t) && NoRedRed(t) && !IsRed(t)
  }

  // c becomes balanced when a balanced tree of black height h fills its hole.
  ghost predicate CtxBalanced<K>(c: Ctx<K>, h: nat) {
    match c
    case Top => true
    case InLeft(_, col, r, up) =>
      Balanced(r) && BlackHeight(r) == h && CtxBalanced(up, h + if col == Black then 1 else 0)
    case InRight(l, _, col, up) =>
      Balanced(l) && BlackHeight(l) == h && CtxBalanced(up, h + if col == Black then 1 else 0)
  }

  // c has no red node with a red child when the hole is filled by a red (or non-red) tree.
  ghost predicate CtxNoRedRed<K>(c: Ctx<K>, red: bool) {
    match c
    case Top => true
    case InLeft(_, col, r, up) =>
      NoRedRed(r) && (col == Red ==> !red && !IsRed(r)) && CtxNoRedRed(up, col == Red)
    case InRight(l, _, col, up) =>
      NoRedRed(l) && (col == Red ==> !red && !IsRed(l)) && CtxNoRedRed(up, col == Red)
  }

  ghost predicate CtxRootRed<K>(c: Ctx<K>, red: bool) {
    if c.Top? then red else CtxRootRed(c.up, c.color == Red)
  }

  lemma {:induction false} PlugColors<K>(c: Ctx<K>, t: Tree<K>)
    ensures Balanced(Plug(c, t)) <==> Balanced(t) && CtxBalanced(c, BlackHeight(t))
    ensures NoRedRed(Plug(c, t)) <==> NoRedRed(t) && CtxNoRedRed(c, IsRed(t))
    ensures IsRed(Plug(c, t)) <==> CtxRootRed(c, IsRed(t))
    decreases c
  {
    match c
    case Top =>
    case InLeft(n, col, r, up) =>
      PlugColors(up, Bin(t, n, col, r));
    case InRight(l, n, col, up) =>
      PlugColors(up, Bin(l, n, col, t));
  }
}
