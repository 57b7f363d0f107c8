/**
 * Order-preserving filtering and sorting by an integer key: the two sequence
 * operations every table step of the pipeline is built from (boolean-mask
 * row selection, `dropna`, list comprehensions with a condition,
 * `sort_values` and `sort_index`).
 */
module Sequences {

  /** Non-decreasing by `key`. */
  predicate SortedBy<T>(s: seq<T>, key: T -> int) {
    forall i, j :: 0 <= i < j < |s| ==> key(s[i]) <= key(s[j])
  }

  /** Strictly increasing by `key`: sorted and no key repeated. */
  predicate StrictlySortedBy<T>(s: seq<T>, key: T -> int) {
    forall i, j :: 0 <= i < j < |s| ==> key(s[i]) < key(s[j])
  }

  /** No two positions carry the same key. */
  predicate UniqueKeys<T>(s: seq<T>, key: T -> int) {
    forall i, j :: 0 <= i < |s| && 0 <= j < |s| && i != j ==> key(s[i]) != key(s[j])
  }

  /** The set of keys occurring in `s`. */
  function KeySet<T(==)>(s: seq<T>, key: T -> int): set<int> {
    set x | x in s :: key(x)
  }

  /** The elements of `s` that satisfy `p`, in their original order. */
  function Filter<T(==, !new)>(s: seq<T>, p: T -> bool): (r: seq<T>)
    ensures |r| <= |s|
    ensures forall x :: x in r <==> x in s && p(x)
  {
    if s == [] then []
    else if p(s[0]) then [s[0]] + Filter(s[1..], p)
    else Filter(s[1..], p)
  }

  /** Filtering distributes over concatenation: the relative order of the kept elements is the input's. */
  lemma {:induction false} FilterConcat<T(!new)>(a: seq<T>, b: seq<T>, p: T -> bool)
    ensures Filter(a + b, p) == Filter(a, p) + Filter(b, p)
  {
    if a == [] {
      assert a + b == b;
    } else {
      assert (a + b)[1..] == a[1..] + b;
      FilterConcat(a[1..], b, p);
    }
  }

  /** Keeping everything is the identity; keeping nothing gives the empty sequence. */
  lemma {:induction false} FilterAll<T(!new)>(s: seq<T>, p: T -> bool)
    ensures (forall x :: x in s ==> p(x)) ==> Filter(s, p) == s
    ensures (forall x :: x in s ==> !p(x)) ==> Filter(s, p) == []
  {
    if s != [] {
      FilterAll(s[1..], p);
    }
  }

  /** Filtering twice with the same predicate is the same as filtering once. */
  lemma {:induction false} FilterIdempotent<T(!new)>(s: seq<T>, p: T -> bool)
    ensures Filter(Filter(s, p), p) == Filter(s, p)
  {
    if s != [] {
      FilterIdempotent(s[1..], p);
      if p(s[0]) {
        assert ([s[0]] + Filter(s[1..], p))[1..] == Filter(s[1..], p);
      }
    }
  }

  /** A filter of a sorted sequence is sorted. */
  lemma {:induction false} FilterSorted<T(!new)>(s: seq<T>, p: T -> bool, key: T -> int)
    requires SortedBy(s, key)
    ensures SortedBy(Filter(s, p), key)
  {
    if s != [] {
      FilterSorted(s[1..], p, key);
      var rest := Filter(s[1..], p);
      if p(s[0]) {
        forall y | y in rest ensures key(s[0]) <= key(y) {
          var k :| 0 <= k < |s[1..]| && s[1..][k] == y;
          assert s[k + 1] == y;
        }
      }
    }
  }

  /** A filter of a strictly sorted sequence is strictly sorted. */
  lemma {:induction false} FilterStrictlySorted<T(!new)>(s: seq<T>, p: T -> bool, key: T -> int)
    requires StrictlySortedBy(s, key)
    ensures StrictlySortedBy(Filter(s, p), key)
  {
    if s != [] {
      FilterStrictlySorted(s[1..], p, key);
      var rest := Filter(s[1..], p);
      if p(s[0]) {
        forall y | y in rest ensures key(s[0]) < key(y) {
          var k :| 0 <= k < |s[1..]| && s[1..][k] == y;
          assert s[k + 1] == y;
        }
      }
    }
  }

  /** A filter of a sequence with distinct keys has distinct keys. */
  lemma {:induction false} FilterUniqueKeys<T(!new)>(s: seq<T>, p: T -> bool, key: T -> int)
    requires UniqueKeys(s, key)
    ensures UniqueKeys(Filter(s, p), key)
  {
    if s != [] {
      var tail := s[1..];
      assert UniqueKeys(tail, key) by {
        forall i, j | 0 <= i < |tail| && 0 <= j < |tail| && i != j ensures key(tail[i]) != key(tail[j]) {
          assert tail[i] == s[i + 1] && tail[j] == s[j + 1];
        }
      }
      FilterUniqueKeys(tail, p, key);
      var rest := Filter(tail, p);
      if p(s[0]) {
        forall y | y in rest ensures key(s[0]) != key(y) {
          var k :| 0 <= k < |tail| && tail[k] == y;
          assert s[k + 1] == y;
        }
        var r := [s[0]] + rest;
        forall i, j | 0 <= i < |r| && 0 <= j < |r| && i != j ensures key(r[i]) != key(r[j]) {
          if i > 0 && j > 0 {
            assert r[i] == rest[i - 1] && r[j] == rest[j - 1];
          } else if i == 0 {
            assert r[j] in rest;
          } else {
            assert r[i] in rest;
          }
        }
      }
    }
  }

  /** A filter that keeps as many elements as it was given kept all of them. */
  lemma {:induction false} FilterFull<T(!new)>(s: seq<T>, p: T -> bool)
    requires |Filter(s, p)| == |s|
    ensures forall x :: x in s ==> p(x)
  {
    if s != [] {
      if p(s[0]) {
        FilterFull(s[1..], p);
        assert forall x :: x in s ==> x == s[0] || x in s[1..];
      }
    }
  }

  /** `idx` lists, in increasing order, positions of `s` that spell out `r`. */
  ghost predicate Embeds<T>(idx: seq<nat>, r: seq<T>, s: seq<T>) {
    && |idx| == |r|
    && (forall k :: 0 <= k < |idx| ==> idx[k] < |s| && r[k] == s[idx[k]])
    && (forall a, b :: 0 <= a < b < |idx| ==> idx[a] < idx[b])
  }

  /** Every position moved one place to the right. */
  function Shifted(idx: seq<nat>): (r: seq<nat>)
    ensures |r| == |idx|
    ensures forall k :: 0 <= k < |idx| ==> r[k] == idx[k] + 1
  {
    seq(|idx|, k requires 0 <= k < |idx| => idx[k] + 1)
  }

  /** An embedding into the tail of `s` is, shifted by one, an embedding into `s`. */
  lemma EmbedsTail<T>(idx: seq<nat>, r: seq<T>, s: seq<T>)
    requires s != [] && Embeds(idx, r, s[1..])
    ensures Embeds(Shifted(idx), r, s)
  {
    forall k | 0 <= k < |idx| ensures Shifted(idx)[k] < |s| && r[k] == s[Shifted(idx)[k]] {
      assert s[1..][idx[k]] == s[idx[k] + 1];
    }
  }

  /** Position 0 can be put in front of an embedding that avoids it. */
  lemma EmbedsCons<T>(idx: seq<nat>, r: seq<T>, s: seq<T>)
    requires s != [] && Embeds(idx, r, s)
    requires forall k :: 0 <= k < |idx| ==> 0 < idx[k]
    ensures Embeds([0] + idx, [s[0]] + r, s)
  {
    var idx', r' := [0] + idx, [s[0]] + r;
    assert forall k :: 0 < k < |idx'| ==> idx'[k] == idx[k - 1] && r'[k] == r[k - 1];
  }

  /**
   * A filter keeps the relative order of what it keeps: its result is a
   * subsequence of the input, and the returned positions show it.
   */
  lemma {:induction false} FilterEmbedding<T(!new)>(s: seq<T>, p: T -> bool) returns (idx: seq<nat>)
    ensures Embeds(idx, Filter(s, p), s)
    ensures forall k :: 0 <= k < |idx| ==> p(s[idx[k]])
  {
    if s == [] {
      idx := [];
    } else {
      var fr := Filter(s[1..], p);
      var rest := FilterEmbedding(s[1..], p);
      EmbedsTail(rest, fr, s);
      var shifted := Shifted(rest);
      assert forall k :: 0 <= k < |shifted| ==> p(s[shifted[k]]) by {
        forall k | 0 <= k < |shifted| ensures p(s[shifted[k]]) {
          assert s[shifted[k]] == s[1..][rest[k]];
        }
      }
      if p(s[0]) {
        EmbedsCons(shifted, fr, s);
        idx := [0] + shifted;
        assert Filter(s, p) == [s[0]] + fr;
        assert forall k :: 0 < k < |idx| ==> idx[k] == shifted[k - 1];
      } else {
        idx := shifted;
        assert Filter(s, p) == fr;
      }
    }
  }

  /** The integers `lo`, `lo + 1`, ..., `hi - 1`. */
  function Range(lo: int, hi: int): (r: seq<int>)
    requires lo <= hi
    ensures |r| == hi - lo
    ensures forall k :: 0 <= k < |r| ==> r[k] == lo + k
    ensures forall x :: x in r <==> lo <= x < hi
  {
    var r := seq(hi - lo, k requires 0 <= k < hi - lo => lo + k);
    assert forall x :: lo <= x < hi ==> r[x - lo] == x && x in r;
    r
  }

  /** Filtering 0..n-1 when nothing below `cut` passes is filtering cut..n-1. */
  lemma FilterSkipsPrefix(n: int, cut: int, p: int -> bool)
    requires 0 <= cut <= n && forall i :: 0 <= i < cut ==> !p(i)
    ensures Filter(Range(0, n), p) == Filter(Range(cut, n), p)
  {
    var front, back := Range(0, cut), Range(cut, n);
    assert Range(0, n) == front + back;
    FilterConcat(front, back, p);
    FilterAll(front, p);
  }

  /** The keys of a concatenation are the keys of its parts. */
  lemma KeySetConcat<T>(a: seq<T>, b: seq<T>, key: T -> int)
    ensures KeySet(a + b, key) == KeySet(a, key) + KeySet(b, key)
  {
    forall k | k in KeySet(a + b, key) ensures k in KeySet(a, key) + KeySet(b, key) {
      var x :| x in a + b && key(x) == k;
    }
    forall k | k in KeySet(a, key) + KeySet(b, key) ensures k in KeySet(a + b, key) {
      if k in KeySet(a, key) {
        var x :| x in a && key(x) == k;
        assert x in a + b;
      } else {
        var x :| x in b && key(x) == k;
        assert x in a + b;
      }
    }
  }

  /** Two sequences with the same key at every position have the same key set. */
  lemma KeySetPointwise<T, U>(a: seq<T>, b: seq<U>, ka: T -> int, kb: U -> int)
    requires |a| == |b| && forall i :: 0 <= i < |a| ==> ka(a[i]) == kb(b[i])
    ensures KeySet(a, ka) == KeySet(b, kb)
  {
    forall k | k in KeySet(a, ka) ensures k in KeySet(b, kb) {
      var x :| x in a && ka(x) == k;
      var i :| 0 <= i < |a| && a[i] == x;
      assert b[i] in b;
    }
    forall k | k in KeySet(b, kb) ensures k in KeySet(a, ka) {
      var y :| y in b && kb(y) == k;
      var i :| 0 <= i < |b| && b[i] == y;
      assert a[i] in a;
    }
  }

  /** Inserts `x` into a sorted sequence before the first element with a larger-or-equal key. */
  function Insert<T(==)>(x: T, s: seq<T>, key: T -> int): (r: seq<T>)
    requires SortedBy(s, key)
    ensures SortedBy(r, key)
    ensures multiset(r) == multiset(s) + multiset{x}
    decreases |s|
  {
    if s == [] then [x]
    else if key(x) <= key(s[0]) then [x] + s
    else
      var rest := Insert(x, s[1..], key);
      assert s == [s[0]] + s[1..];
      InsertLowerBound(x, s, rest, key);
      SortedCons(s[0], rest, key);
      [s[0]] + rest
  }

  /** What is inserted after the head of a sorted sequence has keys no smaller than the head's. */
  lemma InsertLowerBound<T>(x: T, s: seq<T>, rest: seq<T>, key: T -> int)
    requires s != [] && SortedBy(s, key) && key(s[0]) < key(x)
    requires multiset(rest) == multiset(s[1..]) + multiset{x}
    ensures forall y :: y in rest ==> key(s[0]) <= key(y)
  {
    forall y | y in rest ensures key(s[0]) <= key(y) {
      assert y in multiset(rest);
      if y != x {
        assert y in multiset(s[1..]);
        var j :| 0 <= j < |s[1..]| && s[1..][j] == y;
        assert s[j + 1] == y;
      }
    }
  }

  /** An element no larger than anything in a sorted sequence can go in front of it. */
  lemma SortedCons<T>(a: T, rest: seq<T>, key: T -> int)
    requires SortedBy(rest, key) && forall y :: y in rest ==> key(a) <= key(y)
    ensures SortedBy([a] + rest, key)
  {
    var r := [a] + rest;
    forall i, j | 0 <= i < j < |r| ensures key(r[i]) <= key(r[j]) {
      assert r[j] == rest[j - 1];
      if 0 < i {
        assert r[i] == rest[i - 1];
      } else {
        assert rest[j - 1] in rest;
      }
    }
  }

  /** Two sorted sequences, the first entirely below the second, concatenate to a sorted one. */
  lemma SortedConcat<T>(a: seq<T>, b: seq<T>, key: T -> int)
    requires SortedBy(a, key) && SortedBy(b, key)
    requires forall x, y :: x in a && y in b ==> key(x) <= key(y)
    ensures SortedBy(a + b, key)
  {
    var r := a + b;
    forall i, j | 0 <= i < j < |r| ensures key(r[i]) <= key(r[j]) {
      if j < |a| {
        assert r[i] == a[i] && r[j] == a[j];
      } else if i < |a| {
        assert r[i] in a && r[j] == b[j - |a|] && r[j] in b;
      } else {
        assert r[i] == b[i - |a|] && r[j] == b[j - |a|];
      }
    }
  }

  /**
   * Sorts by `key`. The result is ordered and a permutation of the input; how
   * equal keys are ordered is not part of the contract.
   */
  function SortBy<T(==)>(s: seq<T>, key: T -> int): (r: seq<T>)
    ensures SortedBy(r, key)
    ensures multiset(r) == multiset(s)
  {
    if s == [] then []
    else
      assert s == [s[0]] + s[1..];
      Insert(s[0], SortBy(s[1..], key), key)
  }

  /** Sorting neither adds nor loses elements. */
  lemma SortByMembers<T>(s: seq<T>, key: T -> int)
    ensures forall x :: x in SortBy(s, key) <==> x in s
  {
    var r := SortBy(s, key);
    forall x ensures x in r <==> x in s {
      assert x in r <==> x in multiset(r);
      assert x in s <==> x in multiset(s);
    }
  }

  /** Two permutations of each other carry the same keys. */
  lemma SameMultisetSameKeys<T>(a: seq<T>, b: seq<T>, key: T -> int)
    requires multiset(a) == multiset(b)
    ensures KeySet(a, key) == KeySet(b, key)
  {
    forall k | k in KeySet(a, key) ensures k in KeySet(b, key) {
      var x :| x in a && key(x) == k;
      assert x in multiset(b);
    }
    forall k | k in KeySet(b, key) ensures k in KeySet(a, key) {
      var x :| x in b && key(x) == k;
      assert x in multiset(a);
    }
  }

  /** Keys that are distinct before sorting are distinct after. */
  lemma {:induction false} SortByKeepsUniqueKeys<T>(s: seq<T>, key: T -> int)
    requires UniqueKeys(s, key)
    ensures StrictlySortedBy(SortBy(s, key), key)
  {
    if s != [] {
      var tail := s[1..];
      assert UniqueKeys(tail, key) by {
        forall i, j | 0 <= i < |tail| && 0 <= j < |tail| && i != j ensures key(tail[i]) != key(tail[j]) {
          assert tail[i] == s[i + 1] && tail[j] == s[j + 1];
        }
      }
      SortByKeepsUniqueKeys(tail, key);
      var sortedTail := SortBy(tail, key);
      SameMultisetSameKeys(sortedTail, tail, key);
      forall j | 0 <= j < |tail| ensures key(tail[j]) != key(s[0]) {
        assert tail[j] == s[j + 1];
      }
      InsertStrict(s[0], sortedTail, key);
    }
  }

  lemma {:induction false} InsertStrict<T>(x: T, s: seq<T>, key: T -> int)
    requires StrictlySortedBy(s, key)
    requires key(x) !in KeySet(s, key)
    ensures StrictlySortedBy(Insert(x, s, key), key)
    decreases |s|
  {
    if s != [] && key(x) > key(s[0]) {
      var tail := s[1..];
      assert KeySet(tail, key) <= KeySet(s, key);
      InsertStrict(x, tail, key);
      var rest := Insert(x, tail, key);
      forall y | y in rest ensures key(s[0]) < key(y) {
        assert y in multiset(rest);
        if y != x {
          var j :| 0 <= j < |tail| && tail[j] == y;
          assert s[j + 1] == y;
        }
      }
    }
  }
}
