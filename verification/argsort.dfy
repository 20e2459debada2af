/**
 * `torch.argsort(lengths, descending=True)` over natural-number keys: a permutation
 * of the indices 0..n-1 that lists the keys in non-increasing order. The library does
 * not promise a tie order; the model's insertion sort fixes one, and its contract
 * promises only "some descending permutation".
 */
module ArgSort {

  /** The indices 0, 1, ..., n-1 in order. */
  function Range(n: nat): (r: seq<nat>)
    ensures |r| == n
    ensures forall i :: 0 <= i < n ==> r[i] == i
  {
    seq(n, i => i)
  }

  /** Every entry of `order` is an index below `n`. */
  ghost predicate InRange(order: seq<nat>, n: nat) {
    forall i :: 0 <= i < |order| ==> order[i] < n
  }

  /** `order` lists each of 0..n-1 exactly once. */
  ghost predicate IsPermutation(order: seq<nat>, n: nat) {
    multiset(order) == multiset(Range(n))
  }

  /** The keys selected by `order` never increase. */
  ghost predicate SortedDescending(order: seq<nat>, keys: seq<nat>)
    requires InRange(order, |keys|)
  {
    forall i, j :: 0 <= i < j < |order| ==> keys[order[i]] >= keys[order[j]]
  }

  /** `order` lists the indices of `keys` once each, by non-increasing key. */
  ghost predicate DescendingOrder(order: seq<nat>, keys: seq<nat>) {
    && |order| == |keys|
    && InRange(order, |keys|)
    && IsPermutation(order, |keys|)
    && SortedDescending(order, keys)
  }

  /** `xs` reordered by `order`: entry i is `xs[order[i]]`. */
  function Permute<X>(xs: seq<X>, order: seq<nat>): (r: seq<X>)
    requires InRange(order, |xs|)
  {
    seq(|order|, i requires 0 <= i < |order| => xs[order[i]])
  }

  /** Inserts index `x` into a descending `s`, after every index whose key is at least `keys[x]`. */
  function Insert(x: nat, s: seq<nat>, keys: seq<nat>): (r: seq<nat>)
    requires x < |keys| && InRange(s, |keys|)
    requires SortedDescending(s, keys)
    ensures multiset(r) == multiset(s) + multiset{x}
    ensures InRange(r, |keys|)
    ensures SortedDescending(r, keys)
  {
    if |s| == 0 then [x]
    else if keys[s[0]] >= keys[x] then
      TailSorted(s, keys);
      var rest := Insert(x, s[1..], keys);
      ConsSorted(s[0], rest, keys, s[1..], x);
      assert multiset(s) == multiset{s[0]} + multiset(s[1..]) by {
        assert s == [s[0]] + s[1..];
      }
      [s[0]] + rest
    else [x] + s
  }

  /** The tail of a sorted list is sorted, and its head's key bounds the tail's keys. */
  lemma TailSorted(s: seq<nat>, keys: seq<nat>)
    requires |s| > 0 && InRange(s, |keys|) && SortedDescending(s, keys)
    ensures InRange(s[1..], |keys|) && SortedDescending(s[1..], keys)
    ensures forall k :: 0 <= k < |s[1..]| ==> keys[s[0]] >= keys[s[1..][k]]
  {
  }

  /** A head whose key bounds every key of a sorted tail gives a sorted list. */
  lemma ConsSorted(h: nat, rest: seq<nat>, keys: seq<nat>, tail: seq<nat>, x: nat)
    requires h < |keys| && x < |keys| && InRange(rest, |keys|) && InRange(tail, |keys|)
    requires SortedDescending(rest, keys)
    requires multiset(rest) == multiset(tail) + multiset{x}
    requires keys[h] >= keys[x]
    requires forall k :: 0 <= k < |tail| ==> keys[h] >= keys[tail[k]]
    ensures InRange([h] + rest, |keys|)
    ensures SortedDescending([h] + rest, keys)
  {
    forall k | 0 <= k < |rest|
      ensures keys[h] >= keys[rest[k]]
    {
      assert rest[k] in multiset(tail) + multiset{x};
      if rest[k] != x {
        assert rest[k] in tail;
      }
    }
  }

  /** Sorts the indices 0..n-1 (n at most |keys|) by descending key. */
  function SortPrefix(keys: seq<nat>, n: nat): (r: seq<nat>)
    requires n <= |keys|
    ensures multiset(r) == multiset(Range(n))
    ensures InRange(r, |keys|)
    ensures SortedDescending(r, keys)
  {
    if n == 0 then []
    else
      assert Range(n) == Range(n - 1) + [n - 1];
      Insert(n - 1, SortPrefix(keys, n - 1), keys)
  }

  /** A permutation of the indices of `keys` that lists the keys in non-increasing order. */
  function ArgSortDescending(keys: seq<nat>): (order: seq<nat>)
    ensures |order| == |keys|
    ensures IsPermutation(order, |keys|)
    ensures InRange(order, |keys|)
    ensures SortedDescending(order, keys)
  {
    var r := SortPrefix(keys, |keys|);
    assert |r| == |multiset(r)| == |Range(|keys|)|;
    r
  }

  /** A permutation of 0..n-1 reaches every index. */
  lemma {:induction false} PermutationCovers(order: seq<nat>, n: nat, j: nat)
    requires IsPermutation(order, n)
    requires j < n
    ensures exists i :: 0 <= i < |order| && order[i] == j
  {
    assert Range(n)[j] == j;
    assert j in multiset(Range(n));
    assert j in order;
  }

  /** Permute distributes over concatenation of index sequences. */
  lemma PermuteAppend<X>(xs: seq<X>, a: seq<nat>, b: seq<nat>)
    requires InRange(a, |xs|) && InRange(b, |xs|)
    ensures Permute(xs, a + b) == Permute(xs, a) + Permute(xs, b)
  {
  }

  /** `s` without its entry at position k. */
  function RemoveAt<X>(s: seq<X>, k: nat): (r: seq<X>)
    requires k < |s|
  {
    s[..k] + s[k + 1..]
  }

  /** Removing position k removes one copy of `s[k]` from the multiset. */
  lemma RemoveAtMultiset<X>(s: seq<X>, k: nat)
    requires k < |s|
    ensures multiset(RemoveAt(s, k)) == multiset(s) - multiset{s[k]}
  {
    assert s == s[..k] + [s[k]] + s[k + 1..];
  }

  /** Selecting by `b` selects the elements selected by `b` without position k, plus `xs[b[k]]`. */
  lemma PermuteRemoveAt<X>(xs: seq<X>, b: seq<nat>, k: nat)
    requires InRange(b, |xs|) && k < |b|
    ensures InRange(RemoveAt(b, k), |xs|)
    ensures multiset(Permute(xs, b)) == multiset(Permute(xs, RemoveAt(b, k))) + multiset{xs[b[k]]}
  {
    assert b == b[..k] + [b[k]] + b[k + 1..];
    PermuteAppend(xs, b[..k] + [b[k]], b[k + 1..]);
    PermuteAppend(xs, b[..k], [b[k]]);
    PermuteAppend(xs, b[..k], b[k + 1..]);
  }

  /** Index sequences with the same multiset select the same multiset of elements. */
  lemma {:induction false} PermuteRespectsMultiset<X>(xs: seq<X>, a: seq<nat>, b: seq<nat>)
    requires InRange(a, |xs|) && InRange(b, |xs|)
    requires multiset(a) == multiset(b)
    ensures multiset(Permute(xs, a)) == multiset(Permute(xs, b))
    decreases |a|
  {
    if |a| == 0 {
      assert |b| == |multiset(b)| == 0;
    } else {
      var x := a[0];
      assert x in multiset(a);
      assert x in b;
      var k :| 0 <= k < |b| && b[k] == x;
      var a', b' := RemoveAt(a, 0), RemoveAt(b, k);
      RemoveAtMultiset(a, 0);
      RemoveAtMultiset(b, k);
      assert multiset(a') == multiset(b');
      PermuteRemoveAt(xs, a, 0);
      PermuteRemoveAt(xs, b, k);
      PermuteRespectsMultiset(xs, a', b');
    }
  }

  /** Reordering by a permutation keeps exactly the same elements. */
  lemma PermutePreservesMultiset<X>(xs: seq<X>, order: seq<nat>)
    requires InRange(order, |xs|)
    requires IsPermutation(order, |xs|)
    ensures multiset(Permute(xs, order)) == multiset(xs)
  {
    PermuteRespectsMultiset(xs, order, Range(|xs|));
    assert Permute(xs, Range(|xs|)) == xs;
  }
}
