/** Associativity of concatenation, one instance a lemma, splitting around an element,
    and flattening. */
module Sequences {

  lemma RegroupLeft<T>(a: seq<T>, b: seq<T>, x: seq<T>, c: seq<T>, d: seq<T>)
    ensures a + (b + x + c) + d == a + b + (x + c + d)
  {}

  lemma RegroupRight<T>(a: seq<T>, b: seq<T>, x: seq<T>, c: seq<T>, d: seq<T>)
    ensures a + (b + x + c) + d == a + b + x + c + d
  {}

  lemma RegroupAround<T>(a: seq<T>, b: seq<T>, x: seq<T>, c: seq<T>, d: seq<T>)
    ensures a + (b + x + c) + d == (a + b) + x + (c + d)
  {}

  lemma RegroupRotation<T>(a: seq<T>, x: seq<T>, b: seq<T>, y: seq<T>, c: seq<T>)
    ensures (a + x + b) + y + c == a + x + (b + y + c)
  {}

  lemma RegroupTail<T>(a: seq<T>, x: seq<T>, b: seq<T>, c: seq<T>)
    ensures a + x + (b + c) == a + (x + b + c)
    ensures a + x + b + c == a + (x + b + c)
    ensures a + (x + b) + c == a + x + (b + c)
  {}

  lemma SplitAround<T>(a: seq<T>, x: T, b: seq<T>)
    ensures var s := a + [x] + b; s[|a|] == x && s[..|a|] == a && s[|a| + 1..] == b
  {}

  // The pieces of a message put back together.
  ghost function Concat<T>(pieces: seq<seq<T>>): seq<T> {
    if pieces == [] then [] else Concat(pieces[..|pieces| - 1]) + pieces[|pieces| - 1]
  }

  function Repeat<T>(x: T, k: nat): (r: seq<T>)
    ensures |r| == k
  {
    seq(k, _ => x)
  }
}
