/**
 * Sorting by a real-valued key.
 *
 * The scripts sort in several places: Python's `sorted` (window widths,
 * de-duplicated addresses), `list.sort(key=...)` (latency matches) and
 * NumPy's `argsort` (trace timestamps). All of them are modelled by one
 * insertion sort that places an element after every element whose key is
 * not larger, so equal keys keep their input order.
 */
module Sorting {

  /** `s` is in non-decreasing order of `key`. */
  predicate SortedBy<T>(s: seq<T>, key: T -> real) {
    forall i, j | 0 <= i < j < |s| :: key(s[i]) <= key(s[j])
  }

  /** A sequence of reals in non-decreasing order. */
  predicate Sorted(s: seq<real>) {
    forall i, j | 0 <= i < j < |s| :: s[i] <= s[j]
  }

  /** Inserts `x` right before the first element whose key is strictly larger. */
  function InsertBy<T>(x: T, s: seq<T>, key: T -> real): (r: seq<T>)
    requires SortedBy(s, key)
    ensures |r| == |s| + 1
    ensures multiset(r) == multiset(s) + multiset{x}
    ensures SortedBy(r, key)
  {
    if |s| == 0 then [x]
    else if key(x) < key(s[0]) then
      HeadIsLeast(s, key);
      ConsSorted(x, s, key);
      [x] + s
    else
      var rest := InsertBy(x, s[1..], key);
      assert s == [s[0]] + s[1..];
      HeadBelowInsert(s, x, rest, key);
      ConsSorted(s[0], rest, key);
      [s[0]] + rest
  }

  /** The head of a sorted sequence has the least key. */
  lemma HeadIsLeast<T>(s: seq<T>, key: T -> real)
    requires SortedBy(s, key) && |s| > 0
    ensures forall y | y in s :: key(s[0]) <= key(y)
  {
    forall y | y in s ensures key(s[0]) <= key(y) {
      var i :| 0 <= i < |s| && s[i] == y;
    }
  }

  /** Inserting an element not below the head into the tail keeps the head least. */
  lemma HeadBelowInsert<T>(s: seq<T>, x: T, rest: seq<T>, key: T -> real)
    requires SortedBy(s, key) && |s| > 0 && key(s[0]) <= key(x)
    requires multiset(rest) == multiset(s[1..]) + multiset{x}
    ensures forall y | y in rest :: key(s[0]) <= key(y)
  {
    HeadIsLeast(s, key);
    forall y | y in rest ensures key(s[0]) <= key(y) {
      assert y in multiset(rest);
      if y != x {
        assert y in multiset(s[1..]);
        assert y in s[1..];
        assert y in s;
      }
    }
  }

  /** Putting an element no larger than every element in front of a sorted sequence keeps it sorted. */
  lemma ConsSorted<T>(h: T, s: seq<T>, key: T -> real)
    requires SortedBy(s, key)
    requires forall y | y in s :: key(h) <= key(y)
    ensures SortedBy([h] + s, key)
  {
    var r := [h] + s;
    forall i, j | 0 <= i < j < |r| ensures key(r[i]) <= key(r[j]) {
      assert r[j] == s[j - 1];
      if i == 0 {
        assert s[j - 1] in s;
      } else {
        assert r[i] == s[i - 1];
      }
    }
  }

  /** Sorts `s` by `key`; elements with equal keys stay in input order. */
  function SortBy<T>(s: seq<T>, key: T -> real): (r: seq<T>)
    ensures |r| == |s|
    ensures multiset(r) == multiset(s)
    ensures SortedBy(r, key)
  {
    if |s| == 0 then []
    else
      assert s == s[..|s| - 1] + [s[|s| - 1]];
      InsertBy(s[|s| - 1], SortBy(s[..|s| - 1], key), key)
  }

  /** The identity key, for sorting reals themselves. */
  function Id(x: real): real { x }

  /** `sorted(xs)` on a list of reals. */
  function SortReals(xs: seq<real>): (r: seq<real>)
    ensures |r| == |xs|
    ensures multiset(r) == multiset(xs)
    ensures Sorted(r)
  {
    var r := SortBy(xs, Id);
    assert SortedBy(r, Id);
    r
  }

  /** The indices 0, 1, ..., n - 1. */
  function Range(n: nat): (r: seq<nat>)
    ensures |r| == n
    ensures forall i | 0 <= i < n :: r[i] == i
  {
    if n == 0 then [] else Range(n - 1) + [n - 1]
  }

  /** Every index below `n` occurs exactly once in `idx`, and nothing else does. */
  predicate IsPermutationOf(idx: seq<nat>, n: nat) {
    |idx| == n && multiset(idx) == multiset(Range(n))
  }

  lemma PermutationInRange(idx: seq<nat>, n: nat)
    requires IsPermutationOf(idx, n)
    ensures forall k | 0 <= k < |idx| :: idx[k] < n
  {
    forall k | 0 <= k < |idx| ensures idx[k] < n {
      assert idx[k] in multiset(idx);
      assert idx[k] in Range(n);
    }
  }

  /** The key of index `i` in `keys`, with a dummy value outside the range. */
  function KeyAt(keys: seq<real>, i: nat): real {
    if i < |keys| then keys[i] else 0.0
  }

  /**
   * `np.argsort(keys)`: a permutation of the indices of `keys` that lists
   * the keys in non-decreasing order.
   */
  function ArgSort(keys: seq<real>): (idx: seq<nat>)
    ensures IsPermutationOf(idx, |keys|)
    ensures forall k | 0 <= k < |idx| :: idx[k] < |keys|
    ensures forall a, b | 0 <= a < b < |idx| :: keys[idx[a]] <= keys[idx[b]]
  {
    var key := i => KeyAt(keys, i);
    var idx := SortBy(Range(|keys|), key);
    PermutationInRange(idx, |keys|);
    assert SortedBy(idx, key);
    idx
  }

  /** The elements of `s` with later repetitions removed, in first-occurrence order. */
  function Dedup(s: seq<int>): (r: seq<int>)
    ensures forall x :: x in r <==> x in s
    ensures forall i, j | 0 <= i < j < |r| :: r[i] != r[j]
  {
    if |s| == 0 then []
    else
      var rest := Dedup(s[..|s| - 1]);
      if s[|s| - 1] in rest then rest else rest + [s[|s| - 1]]
  }

  function IntKey(x: int): real { x as real }

  /**
   * `sorted(set(s))`: the distinct elements of `s` in strictly increasing
   * order.
   */
  function SortedSet(s: seq<int>): (r: seq<int>)
    ensures forall x :: x in r <==> x in s
    ensures forall i, j | 0 <= i < j < |r| :: r[i] < r[j]
  {
    var d := Dedup(s);
    var r := SortBy(d, IntKey);
    assert forall x :: x in r <==> x in multiset(d);
    forall i, j | 0 <= i < j < |r| ensures r[i] < r[j] {
      assert IntKey(r[i]) <= IntKey(r[j]);
      DistinctAfterPermutation(d, r, i, j);
    }
    r
  }

  lemma DistinctAfterPermutation(d: seq<int>, r: seq<int>, i: nat, j: nat)
    requires forall a, b | 0 <= a < b < |d| :: d[a] != d[b]
    requires multiset(r) == multiset(d)
    requires i < j < |r|
    ensures r[i] != r[j]
  {
    if r[i] == r[j] {
      var x := r[i];
      assert r == r[..i] + [x] + r[i + 1..j] + [x] + r[j + 1..];
      assert multiset(r)[x] >= 2;
      CountAtMostOne(d, x);
    }
  }

  lemma CountAtMostOne(d: seq<int>, x: int)
    requires forall a, b | 0 <= a < b < |d| :: d[a] != d[b]
    ensures multiset(d)[x] <= 1
  {
    if |d| > 0 {
      var last := d[|d| - 1];
      assert d == d[..|d| - 1] + [last];
      CountAtMostOne(d[..|d| - 1], x);
      if x == last {
        assert x !in d[..|d| - 1];
      }
    }
  }
}

/**
 * Reordering a sequence by a permutation of its indices, and the facts
 * that counting ignores such a reordering.
 */
module Permutations {
  import opened Sorting

  /** `s[idx]` in NumPy: the elements of `s` in the order given by `idx`. */
  function Permute<T>(s: seq<T>, idx: seq<nat>): (r: seq<T>)
    requires forall k | 0 <= k < |idx| :: idx[k] < |s|
    ensures |r| == |idx|
    ensures forall k | 0 <= k < |idx| :: r[k] == s[idx[k]]
  {
    seq(|idx|, k requires 0 <= k < |idx| => s[idx[k]])
  }

  /** The number of elements of `s` that satisfy `p`. */
  function CountWhere<T>(s: seq<T>, p: T -> bool): (n: nat)
    ensures n <= |s|
  {
    if |s| == 0 then 0
    else CountWhere(s[..|s| - 1], p) + (if p(s[|s| - 1]) then 1 else 0)
  }

  lemma CountWhereAppend<T>(a: seq<T>, b: seq<T>, p: T -> bool)
    ensures CountWhere(a + b, p) == CountWhere(a, p) + CountWhere(b, p)
  {
    if |b| == 0 {
      assert a + b == a;
    } else {
      assert (a + b)[..|a + b| - 1] == a + b[..|b| - 1];
      CountWhereAppend(a, b[..|b| - 1], p);
    }
  }

  /** Removing the element at index `k` removes one occurrence of it. */
  lemma RemoveAt<T>(b: seq<T>, k: nat)
    requires k < |b|
    ensures b == b[..k] + [b[k]] + b[k + 1..]
    ensures multiset(b[..k] + b[k + 1..]) == multiset(b) - multiset{b[k]}
  {
    assert b == b[..k] + [b[k]] + b[k + 1..];
    assert multiset(b) == multiset(b[..k]) + multiset{b[k]} + multiset(b[k + 1..]);
  }

  /** Counting depends only on the multiset of elements, not on their order. */
  lemma {:induction false} CountWhereMultiset<T>(a: seq<T>, b: seq<T>, p: T -> bool)
    requires multiset(a) == multiset(b)
    ensures CountWhere(a, p) == CountWhere(b, p)
    decreases |a|
  {
    if |a| == 0 {
      assert |b| == |multiset(b)| == 0;
    } else {
      var x := a[|a| - 1];
      var a' := a[..|a| - 1];
      assert a == a' + [x];
      assert x in multiset(b);
      var k :| 0 <= k < |b| && b[k] == x;
      var b' := b[..k] + b[k + 1..];
      RemoveAt(b, k);
      assert multiset(a) == multiset(a') + multiset{x};
      CountWhereMultiset(a', b', p);
      CountWhereRemoveAt(b, k, p);
      assert CountWhere(a, p) == CountWhere(a', p) + (if p(x) then 1 else 0);
    }
  }

  lemma CountWhereRemoveAt<T>(b: seq<T>, k: nat, p: T -> bool)
    requires k < |b|
    ensures CountWhere(b, p) == CountWhere(b[..k] + b[k + 1..], p) + (if p(b[k]) then 1 else 0)
  {
    var upTo, back := b[..k + 1], b[k + 1..];
    assert b == upTo + back;
    CountWhereAppend(upTo, back, p);
    CountWhereAppend(b[..k], back, p);
    assert upTo[..k] == b[..k];
  }

  /** Reordering by a permutation keeps the multiset of elements. */
  lemma PermutePreservesMultiset<T>(s: seq<T>, idx: seq<nat>)
    requires IsPermutationOf(idx, |s|)
    ensures forall k | 0 <= k < |idx| :: idx[k] < |s|
    ensures multiset(Permute(s, idx)) == multiset(s)
  {
    PermutationInRange(idx, |s|);
    if |s| > 0 {
      var f := (i: nat) => if i < |s| then s[i] else s[0];
      MapMultiset(idx, Range(|s|), f);
      assert Permute(s, idx) == Map(idx, f);
      assert s == Map(Range(|s|), f);
    }
  }

  /** `f` applied to every element of `a`. */
  function Map<A, B>(a: seq<A>, f: A -> B): (r: seq<B>)
    ensures |r| == |a|
    ensures forall k | 0 <= k < |a| :: r[k] == f(a[k])
  {
    seq(|a|, k requires 0 <= k < |a| => f(a[k]))
  }

  lemma MapRemoveAt<A, B>(b: seq<A>, k: nat, f: A -> B)
    requires k < |b|
    ensures multiset(Map(b, f)) == multiset(Map(b[..k] + b[k + 1..], f)) + multiset{f(b[k])}
  {
    var l, r := Map(b[..k], f), Map(b[k + 1..], f);
    assert Map(b, f) == l + [f(b[k])] + r;
    assert Map(b[..k] + b[k + 1..], f) == l + r;
  }

  /** Mapping preserves equality of multisets. */
  lemma {:induction false} MapMultiset<A, B>(a: seq<A>, b: seq<A>, f: A -> B)
    requires multiset(a) == multiset(b)
    ensures multiset(Map(a, f)) == multiset(Map(b, f))
    decreases |a|
  {
    if |a| == 0 {
      assert |b| == |multiset(b)| == 0;
    } else {
      var x := a[|a| - 1];
      var a' := a[..|a| - 1];
      assert a == a' + [x];
      assert x in multiset(b);
      var k :| 0 <= k < |b| && b[k] == x;
      var b' := b[..k] + b[k + 1..];
      RemoveAt(b, k);
      assert multiset(a) == multiset(a') + multiset{x};
      MapMultiset(a', b', f);
      MapRemoveAt(a, |a| - 1, f);
      assert a[..|a| - 1] + a[|a|..] == a';
      MapRemoveAt(b, k, f);
    }
  }

  /** Every index below `|idx|` is hit by a permutation. */
  lemma PermutationOnto(idx: seq<nat>, n: nat, j: nat)
    requires IsPermutationOf(idx, n) && j < n
    ensures exists k | 0 <= k < |idx| :: idx[k] == j
  {
    assert Range(n)[j] == j;
    assert j in multiset(Range(n));
    assert j in multiset(idx);
  }
}
