/** The comparison argument of the tree macros: any function whose sign is a total order on keys. */
module Ordering {

  // cmp may call several distinct keys equal, so only a total preorder is demanded of it.
  ghost predicate TotalOrder<K(!new)>(cmp: (K, K) -> int) {
    && (forall a, b :: cmp(a, b) < 0 <==> cmp(b, a) > 0)
    && (forall a, b, c :: cmp(a, b) <= 0 && cmp(b, c) <= 0 ==> cmp(a, c) <= 0)
  }

  // A strict step followed by any chain of steps is strict.
  lemma StrictLeft<K(!new)>(cmp: (K, K) -> int, a: K, b: K, c: K)
    requires TotalOrder(cmp)
    requires cmp(a, b) < 0 && cmp(b, c) <= 0
    ensures cmp(a, c) < 0
  {}

  lemma StrictRight<K(!new)>(cmp: (K, K) -> int, a: K, b: K, c: K)
    requires TotalOrder(cmp)
    requires cmp(a, b) <= 0 && cmp(b, c) < 0
    ensures cmp(a, c) < 0
  {}

  ghost predicate Sorted<K(!new)>(cmp: (K, K) -> int, s: seq<K>) {
    forall i, j :: 0 <= i < j < |s| ==> cmp(s[i], s[j]) < 0
  }

  ghost predicate Below<K(!new)>(cmp: (K, K) -> int, s: seq<K>, k: K) {
    forall i :: 0 <= i < |s| ==> cmp(s[i], k) < 0
  }

  ghost predicate Above<K(!new)>(cmp: (K, K) -> int, k: K, s: seq<K>) {
    forall i :: 0 <= i < |s| ==> cmp(k, s[i]) < 0
  }

  // Descending left of x: everything from x on lies above the probe.
  lemma GoLeft<K(!new)>(cmp: (K, K) -> int, k: K, pre: seq<K>, x: K, post: seq<K>)
    requires TotalOrder(cmp) && Sorted(cmp, pre + [x] + post) && cmp(k, x) < 0
    ensures Above(cmp, k, [x] + post)
  {
    var s := pre + [x] + post;
    forall i | 0 <= i < |[x] + post| ensures cmp(k, ([x] + post)[i]) < 0 {
      assert s[|pre|] == x && s[|pre| + i] == ([x] + post)[i];
      if i > 0 {
        StrictLeft(cmp, k, x, s[|pre| + i]);
      }
    }
  }

  // Descending right of x: everything up to x lies below the probe.
  lemma GoRight<K(!new)>(cmp: (K, K) -> int, k: K, pre: seq<K>, x: K, post: seq<K>)
    requires TotalOrder(cmp) && Sorted(cmp, pre + [x] + post) && cmp(k, x) > 0
    ensures Below(cmp, pre + [x], k)
  {
    var s := pre + [x] + post;
    forall i | 0 <= i < |pre + [x]| ensures cmp((pre + [x])[i], k) < 0 {
      assert s[|pre|] == x && s[i] == (pre + [x])[i];
      assert cmp(x, k) < 0;
      if i < |pre| {
        StrictRight(cmp, s[i], x, k);
      }
    }
  }

  // A probe no larger (no smaller) than x is below everything after x (above everything before it).
  lemma SortedAround<K(!new)>(cmp: (K, K) -> int, k: K, pre: seq<K>, x: K, post: seq<K>)
    requires TotalOrder(cmp) && Sorted(cmp, pre + [x] + post)
    ensures cmp(k, x) <= 0 ==> Above(cmp, k, post)
    ensures cmp(k, x) >= 0 ==> Below(cmp, pre, k)
  {
    var s := pre + [x] + post;
    assert s[|pre|] == x;
    forall i | 0 <= i < |post| && cmp(k, x) <= 0 ensures cmp(k, post[i]) < 0 {
      assert s[|pre| + 1 + i] == post[i];
      StrictRight(cmp, k, x, post[i]);
    }
    forall i | 0 <= i < |pre| && cmp(k, x) >= 0 ensures cmp(pre[i], k) < 0 {
      assert s[i] == pre[i] && cmp(x, k) <= 0;
      StrictLeft(cmp, pre[i], x, k);
    }
  }

  lemma SortedInsert<K(!new)>(cmp: (K, K) -> int, pre: seq<K>, k: K, post: seq<K>)
    requires TotalOrder(cmp) && Sorted(cmp, pre + post) && Below(cmp, pre, k) && Above(cmp, k, post)
    ensures Sorted(cmp, pre + [k] + post)
  {
    var s, u := pre + post, pre + [k] + post;
    forall i, j | 0 <= i < j < |u| ensures cmp(u[i], u[j]) < 0 {
      if i != |pre| && j != |pre| {
        assert u[i] == s[if i < |pre| then i else i - 1];
        assert u[j] == s[if j < |pre| then j else j - 1];
      }
    }
  }

  lemma SortedSub<K(!new)>(cmp: (K, K) -> int, pre: seq<K>, mid: seq<K>, post: seq<K>)
    requires Sorted(cmp, pre + mid + post)
    ensures Sorted(cmp, pre + post) && Sorted(cmp, mid)
  {
    var s, u := pre + mid + post, pre + post;
    forall i, j | 0 <= i < j < |u| ensures cmp(u[i], u[j]) < 0 {
      assert u[i] == s[if i < |pre| then i else i + |mid|];
      assert u[j] == s[if j < |pre| then j else j + |mid|];
    }
    forall i, j | 0 <= i < j < |mid| ensures cmp(mid[i], mid[j]) < 0 {
      assert mid[i] == s[|pre| + i] && mid[j] == s[|pre| + j];
    }
  }

  // In a strictly sorted sequence a key occurs at one index only.
  lemma SortedIndexUnique<K(!new)>(cmp: (K, K) -> int, s: seq<K>, i: nat, j: nat)
    requires TotalOrder(cmp) && Sorted(cmp, s)
    requires i < |s| && j < |s| && cmp(s[i], s[j]) == 0
    ensures i == j
  {}
}
