/** Runs of the red-black tree's interface, against the dictionary. */
module RedBlackRuns {
  import opened Dictionary
  import opened Ordering
  import opened RedBlackShape
  import opened RedBlackSearch
  import opened Powers
  import opened RedBlackHeight
  import opened RedBlackTree

  function SameKey<K>(cmp: (K, K) -> int): (Node<K>, Node<K>) -> bool {
    (a: Node<K>, b: Node<K>) => cmp(a.key, b.key) == 0
  }

  // A valid tree has one node for a key.
  lemma OneForKey<K(!new)>(head: Head<K>, key: K, x: Node<K>, y: Node<K>)
    requires head.Valid() && x in head.nodes && y in head.nodes
    requires head.cmp(key, x.key) == 0 && head.cmp(key, y.key) == 0
    ensures x == y
  {
    NodesInorder(head.tree, x);
    NodesInorder(head.tree, y);
    var s := Inorder(head.tree);
    var i :| 0 <= i < |s| && s[i] == x;
    var j :| 0 <= j < |s| && s[j] == y;
    SortedIndexUnique(head.cmp, Keys(s), i, j);
  }

  lemma ContentsNodes<K(!new)>(head: Head<K>)
    requires head.Valid()
    ensures Members(head.Contents()) == head.nodes
    ensures forall n :: n in head.nodes <==> n in head.Contents()
  {
    forall n | n in Members(head.Contents()) + head.nodes ensures n in head.Contents() <==> n in head.nodes {
      NodesInorder(head.tree, n);
    }
  }

  // A search answers what the list answers.
  lemma Hit<K(!new)>(head: Head<K>, list: seq<Node<K>>, e: Node<K>, found: Node<K>)
    requires head.Valid() && Members(list) == head.nodes
    requires found in head.nodes && head.cmp(e.key, found.key) == 0
    ensures Lookup(SameKey(head.cmp), list, e) == Found(found)
    ensures Members(Without(SameKey(head.cmp), list, e)) == head.nodes - {found}
  {
    var same := SameKey(head.cmp);
    forall y | y in head.nodes && same(e, y) ensures y == found {
      OneForKey(head, e.key, y, found);
    }
    Present(same, list, head.nodes, e, found);
  }

  // At most 1 + 6 lg (n + 1) steps.
  ghost predicate Logarithmic(steps: nat, n: nat) {
    Pow2(steps) <= 2 * Power(n + 1, 6)
  }

  lemma LogarithmicMonotone(steps: nat, n: nat, m: nat)
    requires Logarithmic(steps, n) && n <= m
    ensures Logarithmic(steps, m)
  {
    PowerMonotone(n + 1, m + 1, 6);
  }

  // A search, an insertion, and a search followed by a removal.
  lemma SearchSteps(steps: nat, n: nat)
    requires Pow2(steps) <= (n + 1) * (n + 1)
    ensures Logarithmic(steps, n)
  {
    SearchAndMore(steps, 0, n) by {
      Positive(n);
    }
  }

  lemma InsertSteps(steps: nat, n: nat)
    requires Pow2(steps) <= 2 * Power(n + 1, 4)
    ensures Logarithmic(steps, n)
  {
    Positive(n);
    SearchAndMore(0, steps, n);
  }

  lemma SearchAndMore(search: nat, other: nat, n: nat)
    requires Pow2(search) <= (n + 1) * (n + 1) && Pow2(other) <= 2 * Power(n + 1, 4)
    ensures Logarithmic(search + other, n)
  {
    hide Pow2;
    var m, four := n + 1, Power(n + 1, 4);
    assert Power(m, 6) == m * (m * four) == m * m * four;
    hide Power;
    Pow2Add(search, other);
    ScaleBoth(Pow2(search), m * m, Pow2(other), 2 * four);
  }

  lemma Positive(n: nat)
    ensures Pow2(0) <= (n + 1) * (n + 1) && Pow2(0) <= 2 * Power(n + 1, 4)
  {
    FourthPower(n + 1);
    Square(1, n + 1);
    Square(1, (n + 1) * (n + 1));
  }

  // RB_REMOVE takes a node of the tree, so the key is looked up first.
  method Perform<K(!new)>(head: Head<K>, op: Operation<Node<K>>, ghost list: seq<Node<K>>)
      returns (answer: Answer<Node<K>>, ghost steps: nat)
    requires head.Valid() && Members(list) == head.nodes
    modifies head, head.nodes, op.element
    ensures head.Valid() && head.nodes <= old(head.nodes) + {op.element}
    ensures answer == Apply(SameKey(head.cmp), list, op).0
    ensures head.nodes == Members(Apply(SameKey(head.cmp), list, op).1)
    ensures |head.Contents()| <= |old(head.Contents())| + if op.Insert? then 1 else 0
    ensures Logarithmic(steps, |old(head.Contents())|)
  {
    hide Pow2, Power, Logarithmic, Inorder, Nodes, Distinct, Sorted, Keys, Balanced, NoRedRed;
    ContentsNodes(head);
    ghost var n := |head.Contents()|;
    ghost var same, nodes := SameKey(head.cmp), head.nodes;
    var e := op.element;
    answer := Nothing;
    var found;
    if op.Insert? {
      ghost var k;
      found, k, steps := head.Insert(e);
      InsertSteps(steps, n);
    } else {
      found, steps := head.Find(e);
      SearchSteps(steps, n);
    }
    if found == null {
      Missing(same, list, nodes, e);
    } else {
      Hit(head, list, e, found);
      answer := Found(found);
      if op.Remove? {
        ghost var k, more;
        found, k, more := head.Remove(found);
        SearchAndMore(steps, more, n);
        steps := steps + more;
        answer := Gone;
      }
    }
  }

  // Any run of operations from the empty tree answers, one by one, what the dictionary answers, and leaves the tree
  // with the dictionary's elements, in key order, and of height at most 2 lg (n + 1). Every single operation takes at
  // most 1 + 6 lg (n + 1) steps, n the number of insertions before it.
  method RunAll<K(!new)>(cmp: (K, K) -> int, ops: seq<Operation<Node<K>>>)
      returns (head: Head<K>, answers: seq<Answer<Node<K>>>, ghost steps: seq<nat>)
    requires TotalOrder(cmp)
    modifies Elements(ops)
    ensures head.Valid() && head.cmp == cmp
    ensures answers == Run(SameKey(cmp), ops).0
    ensures Members(head.Contents()) == Members(Run(SameKey(cmp), ops).1)
    ensures Pow2(Height(head.tree)) <= (|head.Contents()| + 1) * (|head.Contents()| + 1)
    ensures |steps| == |ops|
    ensures forall i :: 0 <= i < |ops| ==> Logarithmic(steps[i], Inserts(ops[..i]))
  {
    hide Apply, Pow2, Power, Logarithmic, Inorder, Nodes, Distinct, Sorted, Keys, Balanced, NoRedRed;
    head := new Head(cmp);
    answers, steps := [], [];
    for i := 0 to |ops|
      invariant fresh(head) && head.Valid() && head.cmp == cmp && head.nodes <= Elements(ops)
      invariant answers == Run(SameKey(cmp), ops[..i]).0
      invariant head.nodes == Members(Run(SameKey(cmp), ops[..i]).1)
      invariant |head.Contents()| <= Inserts(ops[..i]) && |steps| == i
      invariant forall j :: 0 <= j < i ==> Logarithmic(steps[j], Inserts(ops[..j]))
    {
      assert ops[..i + 1][..i] == ops[..i];
      assert ops[i] in ops;
      ghost var size := |head.Contents()|;
      var answer;
      ghost var more;
      answer, more := Perform(head, ops[i], Run(SameKey(cmp), ops[..i]).1);
      LogarithmicMonotone(more, size, Inserts(ops[..i]));
      answers, steps := answers + [answer], steps + [more];
    }
    assert ops[..|ops|] == ops;
    ContentsNodes(head);
    HeightBound(head.tree);
  }
}
