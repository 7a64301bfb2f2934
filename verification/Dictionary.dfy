/** What both trees of tree.h implement: a finite dictionary, kept here as an unordered association list. */
module Dictionary {

  datatype Operation<E> = Insert(element: E) | Remove(element: E) | Find(element: E)

  datatype Answer<E> = Nothing | Found(element: E) | Gone

  ghost function Members<E>(list: seq<E>): set<E> {
    set x | x in list
  }

  // The element of the list with the key of e.
  ghost function Lookup<E>(same: (E, E) -> bool, list: seq<E>, e: E): (a: Answer<E>)
    ensures a.Found? ==> a.element in list && same(e, a.element)
    ensures !a.Found? ==> a.Nothing? && forall x :: x in list ==> !same(e, x)
  {
    if list == [] then Nothing
    else if same(e, list[0]) then Found(list[0])
    else Lookup(same, list[1..], e)
  }

  ghost function Without<E>(same: (E, E) -> bool, list: seq<E>, e: E): (r: seq<E>)
    ensures Members(r) == set x | x in list && !same(e, x)
  {
    if list == [] then []
    else if same(e, list[0]) then Without(same, list[1..], e)
    else
      var rest := Without(same, list[1..], e);
      assert list == [list[0]] + list[1..];
      assert Members([list[0]] + rest) == {list[0]} + Members(rest);
      [list[0]] + rest
  }

  // One operation: what it answers and what it leaves. A key that is present is not inserted again.
  ghost function Apply<E>(same: (E, E) -> bool, list: seq<E>, op: Operation<E>): (Answer<E>, seq<E>) {
    var there := Lookup(same, list, op.element);
    match op
    case Insert(e) => (there, if there.Nothing? then list + [e] else list)
    case Remove(e) => (if there.Nothing? then Nothing else Gone, Without(same, list, e))
    case Find(_) => (there, list)
  }

  // A run from the empty dictionary.
  ghost function Run<E>(same: (E, E) -> bool, ops: seq<Operation<E>>): (seq<Answer<E>>, seq<E>) {
    if ops == [] then ([], [])
    else
      var before := Run(same, ops[..|ops| - 1]);
      var last := Apply(same, before.1, ops[|ops| - 1]);
      (before.0 + [last.0], last.1)
  }

  ghost function Elements<E>(ops: seq<Operation<E>>): set<E> {
    set op | op in ops :: op.element
  }

  ghost function Inserts<E>(ops: seq<Operation<E>>): nat {
    if ops == [] then 0 else Inserts(ops[..|ops| - 1]) + if ops[|ops| - 1].Insert? then 1 else 0
  }

  lemma {:induction false} InsertsMonotone<E>(ops: seq<Operation<E>>, i: nat)
    requires i <= |ops|
    ensures Inserts(ops[..i]) <= Inserts(ops)
    decreases |ops|
  {
    if i < |ops| {
      var front := ops[..|ops| - 1];
      assert front[..i] == ops[..i];
      InsertsMonotone(front, i);
    } else {
      assert ops[..i] == ops;
    }
  }

  // What a tree that finds x under the key of e lets the list do.
  lemma Present<E>(same: (E, E) -> bool, list: seq<E>, s: set<E>, e: E, x: E)
    requires Members(list) == s && x in s && same(e, x)
    requires forall y :: y in s && same(e, y) ==> y == x
    ensures Lookup(same, list, e) == Found(x)
    ensures Members(Without(same, list, e)) == s - {x}
  {
    assert x in list;
    assert Lookup(same, list, e).element in s;
  }

  // What a tree that finds nothing lets the list do.
  lemma Missing<E>(same: (E, E) -> bool, list: seq<E>, s: set<E>, e: E)
    requires Members(list) == s && forall y :: y in s ==> !same(e, y)
    ensures Lookup(same, list, e) == Nothing
    ensures Members(Without(same, list, e)) == s && Members(list + [e]) == s + {e}
  {
    assert forall x :: x in list ==> x in s;
  }
}
