/** Runs of the splay tree's interface, against the dictionary. */
module SplayRuns {
  import opened Dictionary
  import opened Ordering
  import opened Powers
  import opened SplayCost
  import opened SplayProducts
  import opened SplayShape
  import opened SplaySearch
  import opened SplayTree

  function SameKey<K>(cmp: (K, K) -> int): (Node<K>, Node<K>) -> bool {
    (a: Node<K>, b: Node<K>) => cmp(a.key, b.key) == 0
  }

  // A valid tree has one node for a key.
  lemma OneForKey<K(!new)>(head: Head<K>, key: K, x: Node<K>, y: Node<K>)
    requires head.Valid() && x in head.nodes && y in head.nodes
    requires head.cmp(key, x.key) == 0 && head.cmp(key, y.key) == 0
    ensures x == y
  {
    NodesInorder(head.tree, x);
    NodesInorder(head.tree, y);
    var s := Inorder(head.tree);
    var i :| 0 <= i < |s| && s[i] == x;
    var j :| 0 <= j < |s| && s[j] == y;
    SortedIndexUnique(head.cmp, Keys(s), i, j);
  }

  lemma ContentsNodes<K(!new)>(head: Head<K>)
    requires head.Valid()
    ensures Members(head.Contents()) == head.nodes
    ensures forall n :: n in head.nodes <==> n in head.Contents()
  {
    forall n | n in Members(head.Contents()) + head.nodes ensures n in head.Contents() <==> n in head.nodes {
      NodesInorder(head.tree, n);
    }
  }

  // A search answers what the list answers.
  lemma Hit<K(!new)>(head: Head<K>, list: seq<Node<K>>, e: Node<K>, found: Node<K>)
    requires head.Valid() && Members(list) == head.nodes
    requires found in head.nodes && head.cmp(e.key, found.key) == 0
    ensures Lookup(SameKey(head.cmp), list, e) == Found(found)
    ensures Members(Without(SameKey(head.cmp), list, e)) == head.nodes - {found}
  {
    var same := SameKey(head.cmp);
    forall y | y in head.nodes && same(e, y) ensures y == found {
      OneForKey(head, e.key, y, found);
    }
    Present(same, list, head.nodes, e, found);
  }

  // What an operation makes of a tree, and in how many rounds of SPLAY's loop: every operation on a tree that is not
  // empty splays, an insertion then grafts and a removal joins.
  ghost function Stepped<K(!new)>(cmp: (K, K) -> int, t: Tree<K>, op: Operation<Node<K>>): (Tree<K>, nat) {
    if t.Leaf? then (if op.Insert? then Bin(Leaf, op.element, Leaf) else Leaf, 0)
    else
      var o, k := Splayed(cmp, t, op.element.key), op.element.key;
      var comp := cmp(k, o.node.key);
      if op.Insert? && comp != 0 then (Grafted(Whole(o), op.element, comp < 0), o.rounds)
      else if op.Remove? && comp == 0 then
        var (rest, more) := Joined(cmp, Whole(o), k);
        (rest, o.rounds + more)
      else (Whole(o), o.rounds)
  }

  // A run from the empty tree.
  ghost function Stepping<K(!new)>(cmp: (K, K) -> int, ops: seq<Operation<Node<K>>>): (Tree<K>, nat) {
    if ops == [] then (Leaf, 0)
    else
      var (t, rounds) := Stepping(cmp, ops[..|ops| - 1]);
      var (u, more) := Stepped(cmp, t, ops[|ops| - 1]);
      (u, rounds + more)
  }

  lemma StepAfter<K(!new)>(cmp: (K, K) -> int, ops: seq<Operation<Node<K>>>, i: nat)
    requires i < |ops|
    ensures var before, after := Stepping(cmp, ops[..i]), Stepping(cmp, ops[..i + 1]);
      var last := Stepped(cmp, before.0, ops[i]);
      after.0 == last.0 && after.1 == before.1 + last.1
  {
    hide Stepped;
    assert ops[..i + 1][..i] == ops[..i];
  }

  // SPLAY_REMOVE looks the key up itself.
  method Perform<K(!new)>(head: Head<K>, op: Operation<Node<K>>, ghost list: seq<Node<K>>)
      returns (answer: Answer<Node<K>>, ghost rounds: nat)
    requires head.Valid() && Members(list) == head.nodes
    modifies head, head.nodes, op.element
    ensures head.Valid() && head.nodes <= old(head.nodes) + {op.element}
    ensures answer == Apply(SameKey(head.cmp), list, op).0
    ensures head.nodes == Members(Apply(SameKey(head.cmp), list, op).1)
    ensures |head.Contents()| <= |old(head.Contents())| + if op.Insert? then 1 else 0
    ensures (head.tree, rounds) == Stepped(head.cmp, old(head.tree), op)
    ensures Pow2(rounds) * Weight(head.tree) <= Cost(|old(head.Contents())|) * old(Weight(head.tree))
  {
    hide Pow2, Weight, Cost, Splayed, Joined, Grafted, Whole;
    hide Inorder, Nodes, Distinct, At, Sorted, Keys, Size, TotalOrder;
    ghost var same, nodes := SameKey(head.cmp), head.nodes;
    var e := op.element;
    ContentsNodes(head);
    answer := Nothing;
    if op.Remove? {
      forall n | n in nodes && same(e, n)
        ensures Lookup(same, list, e) == Found(n) && Members(Without(same, list, e)) == nodes - {n}
      {
        Hit(head, list, e, n);
      }
      ghost var order := head.Contents();
      var removed;
      ghost var k;
      removed, k, rounds := head.Remove(e);
      if removed == null {
        Missing(same, list, nodes, e);
      } else {
        assert order[k] in Members(order);
        answer := Gone;
      }
    } else {
      var found;
      if op.Insert? {
        ghost var k;
        found, k, rounds := head.Insert(e);
      } else {
        found, rounds := head.Find(e);
      }
      if found == null {
        Missing(same, list, nodes, e);
      } else {
        Hit(head, list, e, found);
        answer := Found(found);
      }
    }
  }

  // One operation more: m the size before it, n a bound on all sizes.
  lemma OneMore(spent: nat, rounds: nat, before: nat, after: nat, m: nat, n: nat, i: nat)
    requires Pow2(spent) * before <= Power(Cost(n), i) && Pow2(rounds) * after <= Cost(m) * before && m <= n
    ensures Pow2(spent + rounds) * after <= Power(Cost(n), i + 1)
  {
    hide Cost, Pow2;
    CostMonotone(m, n);
    Scale(Cost(m), Cost(n), before);
    Pow2Add(spent, rounds);
    Compose(Pow2(spent), Pow2(rounds), after, before, 1, Power(Cost(n), i), Cost(n));
    assert Power(Cost(n), i + 1) == Cost(n) * Power(Cost(n), i);
  }

  // Any run of operations from the empty tree answers, one by one, what the dictionary answers, and leaves the tree
  // with the dictionary's elements, in key order. All its splays together take at most 2 + 6 lg (n + 1) rounds for
  // each operation, n the number of insertions.
  method RunAll<K(!new)>(cmp: (K, K) -> int, ops: seq<Operation<Node<K>>>)
      returns (head: Head<K>, answers: seq<Answer<Node<K>>>, ghost rounds: nat)
    requires TotalOrder(cmp)
    modifies Elements(ops)
    ensures head.Valid() && head.cmp == cmp
    ensures answers == Run(SameKey(cmp), ops).0
    ensures Members(head.Contents()) == Members(Run(SameKey(cmp), ops).1)
    ensures (head.tree, rounds) == Stepping(cmp, ops)
    ensures Pow2(rounds) <= Power(Cost(Inserts(ops)), |ops|)
  {
    hide Apply, Cost, Pow2, Weight, Power, Stepped, Stepping, Inorder, Nodes, Distinct, At, Sorted, Keys;
    head := new Head(cmp);
    answers := [];
    rounds := 0;
    NothingSpent(cmp, head.tree, Cost(Inserts(ops)));
    assert ops[..0] == [];
    for i := 0 to |ops|
      invariant fresh(head) && head.Valid() && head.cmp == cmp && head.nodes <= Elements(ops)
      invariant answers == Run(SameKey(cmp), ops[..i]).0
      invariant head.nodes == Members(Run(SameKey(cmp), ops[..i]).1)
      invariant |head.Contents()| <= Inserts(ops[..i])
      invariant (head.tree, rounds) == Stepping(cmp, ops[..i])
      invariant Pow2(rounds) * Weight(head.tree) <= Power(Cost(Inserts(ops)), i)
    {
      assert ops[..i + 1][..i] == ops[..i];
      assert ops[i] in ops;
      StepAfter(cmp, ops, i);
      InsertsMonotone(ops, i);
      ghost var before, size := Weight(head.tree), |head.Contents()|;
      var answer;
      ghost var more;
      answer, more := Perform(head, ops[i], Run(SameKey(cmp), ops[..i]).1);
      answers := answers + [answer];
      OneMore(rounds, more, before, Weight(head.tree), size, Inserts(ops), i);
      rounds := rounds + more;
    }
    assert ops[..|ops|] == ops;
    ContentsNodes(head);
    Scale(1, Weight(head.tree), Pow2(rounds));
  }

  lemma NothingSpent<K(!new)>(cmp: (K, K) -> int, t: Tree<K>, b: nat)
    requires t.Leaf?
    ensures Pow2(0) * Weight(t) <= Power(b, 0) && Stepping(cmp, []) == (t, 0)
  {}
}
