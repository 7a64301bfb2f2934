/** Messages cut into blocks of 64, as both digests do. */
module Blocks {

  lemma Multiple(k: int)
    ensures (64 * k) % 64 == 0
  {}

  lemma Multiples(m: int, n: int)
    requires m % 64 == 0 && n % 64 == 0
    ensures (m + n) % 64 == 0
  {
    assert m + n == 64 * (m / 64 + n / 64);
  }

  // A message as whole blocks and the rest.
  ghost function Whole<T>(m: seq<T>): (w: seq<T>)
    ensures |w| % 64 == 0
  {
    Multiple(|m| / 64);
    m[..|m| - |m| % 64]
  }

  ghost function Tail<T>(m: seq<T>): (t: seq<T>)
    ensures |t| == |m| % 64 && Whole(m) + t == m
  {
    m[|m| - |m| % 64..]
  }

  // How a message ends after its last whole block.
  lemma WholeAndTail<T>(done: seq<T>, tail: seq<T>, total: seq<T>)
    requires |done| % 64 == 0 && |tail| < 64 && done + tail == total
    ensures Whole(total) == done && Tail(total) == tail
  {
    assert |total| == 64 * (|done| / 64) + |tail|;
  }
}
