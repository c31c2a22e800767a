/**
 * Sequence helpers standing in for the document store's query operators:
 * `find(filter)` is `Filter`, `.sort(...)` is `SortBy`, `.limit(n)` is `Take`,
 * and `countDocuments` is the length of a `Filter`.
 */
module Seqs {
  import opened Wrappers

  /** The elements of `s` that satisfy `p`, in their original order. */
  function Filter<T(!new)>(s: seq<T>, p: T -> bool): (r: seq<T>)
    ensures |r| <= |s|
    ensures forall x :: x in r ==> x in s && p(x)
    ensures forall x :: x in s && p(x) ==> x in r
    decreases |s|
  {
    if s == [] then []
    else
      var init := s[..|s| - 1];
      var last := s[|s| - 1];
      assert s == init + [last];
      Filter(init, p) + (if p(last) then [last] else [])
  }

  /** Filtering keeps every satisfying element as often as it occurs, and no other. */
  lemma {:induction false} FilterMultiset<T(!new)>(s: seq<T>, p: T -> bool)
    ensures forall x :: multiset(Filter(s, p))[x] == if p(x) then multiset(s)[x] else 0
    decreases |s|
  {
    if s != [] {
      var init, last := s[..|s| - 1], s[|s| - 1];
      assert s == init + [last];
      FilterMultiset(init, p);
      assert multiset(s) == multiset(init) + multiset{last};
      assert multiset(Filter(s, p)) == multiset(Filter(init, p)) + multiset(if p(last) then [last] else []);
    }
  }

  /** Filtering distributes over concatenation; loops that scan a collection rely on this. */
  lemma {:induction false} FilterAppend<T(!new)>(a: seq<T>, b: seq<T>, p: T -> bool)
    ensures Filter(a + b, p) == Filter(a, p) + Filter(b, p)
    decreases |b|
  {
    if b == [] {
      assert a + b == a;
    } else {
      var b', last := b[..|b| - 1], b[|b| - 1];
      var tail := if p(last) then [last] else [];
      assert (a + b)[..|a + b| - 1] == a + b';
      assert (a + b)[|a + b| - 1] == last;
      assert Filter(a + b, p) == Filter(a + b', p) + tail;
      assert Filter(b, p) == Filter(b', p) + tail;
      FilterAppend(a, b', p);
    }
  }

  /** A filter nothing passes is empty. */
  lemma FilterNone<T(!new)>(s: seq<T>, p: T -> bool)
    requires forall x :: x in s ==> !p(x)
    ensures Filter(s, p) == []
  {
    var r := Filter(s, p);
    assert forall i :: 0 <= i < |r| ==> r[i] in r;
  }

  /** A filter everything passes changes nothing. */
  lemma {:induction false} FilterAll<T(!new)>(s: seq<T>, p: T -> bool)
    requires forall x :: x in s ==> p(x)
    ensures Filter(s, p) == s
    decreases |s|
  {
    if s != [] {
      var init, last := s[..|s| - 1], s[|s| - 1];
      assert s == init + [last];
      assert last in s;
      assert forall x :: x in init ==> x in s;
      FilterAll(init, p);
    }
  }

  /** Two filters, one after the other, are one filter by the conjunction. */
  lemma {:induction false} FilterFilter<T(!new)>(s: seq<T>, p: T -> bool, q: T -> bool)
    ensures Filter(Filter(s, p), q) == Filter(s, x => p(x) && q(x))
    decreases |s|
  {
    if s != [] {
      var init := s[..|s| - 1];
      var last := s[|s| - 1];
      FilterFilter(init, p, q);
      FilterAppend(Filter(init, p), if p(last) then [last] else [], q);
    }
  }

  /** The number of elements of `s` that satisfy `p`. */
  function Count<T(!new)>(s: seq<T>, p: T -> bool): (n: nat)
    ensures n <= |s|
    ensures n == 0 <==> forall x :: x in s ==> !p(x)
  {
    var r := Filter(s, p);
    assert r != [] ==> r[0] in r;
    |r|
  }

  /** `s` lists its elements in non-decreasing `key` order. */
  predicate SortedBy<T>(s: seq<T>, key: T -> int) {
    forall i, j :: 0 <= i < j < |s| ==> key(s[i]) <= key(s[j])
  }

  /** Inserts `x` in front of the first element whose key is not smaller. */
  function Insert<T>(x: T, s: seq<T>, key: T -> int): (r: seq<T>)
    requires SortedBy(s, key)
    ensures |r| == |s| + 1
    ensures multiset(r) == multiset(s) + multiset{x}
    ensures forall y :: y in r ==> y == x || y in s
    ensures SortedBy(r, key)
    decreases |s|
  {
    if s == [] then [x]
    else if key(x) <= key(s[0]) then [x] + s
    else
      assert s == [s[0]] + s[1..];
      var rest := Insert(x, s[1..], key);
      assert forall y :: y in rest ==> key(s[0]) <= key(y);
      [s[0]] + rest
  }

  /** `s` in non-decreasing `key` order; elements with equal keys keep their relative order (`SortByStable`). */
  function SortBy<T>(s: seq<T>, key: T -> int): (r: seq<T>)
    ensures |r| == |s|
    ensures multiset(r) == multiset(s)
    ensures SortedBy(r, key)
    decreases |s|
  {
    if s == [] then []
    else
      assert s == [s[0]] + s[1..];
      Insert(s[0], SortBy(s[1..], key), key)
  }

  /** The first `n` elements of `s`, or all of it when it is shorter (a query's `.limit(n)`). */
  function Take<T>(s: seq<T>, n: nat): (r: seq<T>)
    ensures |r| == if |s| < n then |s| else n
    ensures r <= s
  {
    if |s| < n then s else s[..n]
  }

  /**
   * The first `n` by `key`: drawn from `s`, in key order, and all of `s`
   * when it has no more than `n` elements.
   */
  lemma TopBy<T>(s: seq<T>, key: T -> int, n: nat)
    ensures forall x :: x in Take(SortBy(s, key), n) ==> x in s
    ensures SortedBy(Take(SortBy(s, key), n), key)
    ensures |s| <= n ==> forall x :: x in s ==> x in Take(SortBy(s, key), n)
  {
    var sorted := SortBy(s, key);
    var t := Take(sorted, n);
    forall x | x in t ensures x in s {
      var k :| 0 <= k < |t| && t[k] == x;
      assert sorted[k] == x;
      assert x in multiset(sorted);
    }
    forall i, j | 0 <= i < j < |t| ensures key(t[i]) <= key(t[j]) {
      assert t[i] == sorted[i] && t[j] == sorted[j];
    }
    if |s| <= n {
      forall x | x in s ensures x in t {
        assert x in multiset(sorted);
      }
    }
  }

  /**
   * The first `n` by `key` are drawn from `s` as often as they occur there at
   * most, and an element of `s` that is left out ranks no earlier than any
   * that is kept.
   */
  lemma TopByCut<T>(s: seq<T>, key: T -> int, n: nat)
    ensures multiset(Take(SortBy(s, key), n)) <= multiset(s)
    ensures forall x, k :: x in s && x !in Take(SortBy(s, key), n) && 0 <= k < |Take(SortBy(s, key), n)| ==>
      key(Take(SortBy(s, key), n)[k]) <= key(x)
  {
    var sorted := SortBy(s, key);
    var t := Take(sorted, n);
    assert sorted == t + sorted[|t|..];
    assert multiset(sorted) == multiset(t) + multiset(sorted[|t|..]);
    var rest := sorted[|t|..];
    forall x, k | x in s && x !in t && 0 <= k < |t| ensures key(t[k]) <= key(x) {
      assert x in multiset(sorted);
      assert x !in multiset(t);
      assert x in multiset(rest);
      var j :| 0 <= j < |rest| && rest[j] == x;
      assert sorted[|t| + j] == x;
      assert t[k] == sorted[k];
    }
  }

  /** The elements whose key is `c`. */
  function KeyIs<T>(key: T -> int, c: int): T -> bool {
    (x: T) => key(x) == c
  }

  lemma FilterCons<T(!new)>(x: T, s: seq<T>, p: T -> bool)
    ensures Filter([x] + s, p) == (if p(x) then [x] else []) + Filter(s, p)
  {
    FilterAppend([x], s, p);
    assert [x] == [] + [x];
    assert Filter([x], p) == Filter([], p) + (if p(x) then [x] else []);
  }

  /** Inserting `x` puts it in front of every element with the same key. */
  lemma {:induction false} InsertStable<T(!new)>(x: T, s: seq<T>, key: T -> int, c: int)
    requires SortedBy(s, key)
    ensures Filter(Insert(x, s, key), KeyIs(key, c)) == (if key(x) == c then [x] else []) + Filter(s, KeyIs(key, c))
    decreases |s|
  {
    var p := KeyIs(key, c);
    if s == [] {
      assert Insert(x, s, key) == [x] + s;
      FilterCons(x, s, p);
    } else if key(x) <= key(s[0]) {
      assert Insert(x, s, key) == [x] + s;
      FilterCons(x, s, p);
    } else {
      var head, tail := s[0], s[1..];
      assert s == [head] + tail;
      assert SortedBy(tail, key);
      var r := Insert(x, tail, key);
      assert Insert(x, s, key) == [head] + r;
      InsertStable(x, tail, key, c);
      FilterCons(head, r, p);
      FilterCons(head, tail, p);
      var mid := if p(head) then [head] else [];
      var front := if key(x) == c then [x] else [];
      assert Filter(Insert(x, s, key), p) == mid + (front + Filter(tail, p));
      assert Filter(s, p) == mid + Filter(tail, p);
      if key(x) == c {
        // head sorts before x, so its key differs from x's.
        assert mid == [];
        assert Filter(Insert(x, s, key), p) == front + Filter(tail, p);
      } else {
        assert front + Filter(tail, p) == Filter(tail, p);
      }
    }
  }

  /** `SortBy` is stable: the elements sharing any one key keep their original order. */
  lemma {:induction false} SortByStable<T(!new)>(s: seq<T>, key: T -> int, c: int)
    ensures Filter(SortBy(s, key), KeyIs(key, c)) == Filter(s, KeyIs(key, c))
    decreases |s|
  {
    if s != [] {
      assert s == [s[0]] + s[1..];
      SortByStable(s[1..], key, c);
      InsertStable(s[0], SortBy(s[1..], key), key, c);
      FilterCons(s[0], s[1..], KeyIs(key, c));
    }
  }

  /** Sum of `f` over the elements of `s`. */
  function Sum<T>(s: seq<T>, f: T -> int): int
    decreases |s|
  {
    if s == [] then 0 else Sum(s[..|s| - 1], f) + f(s[|s| - 1])
  }

  /** Summing a pointwise difference is the difference of the sums. */
  lemma {:induction false} SumDifference<T>(s: seq<T>, f: T -> int, g: T -> int, h: T -> int)
    requires forall x :: h(x) == f(x) - g(x)
    ensures Sum(s, h) == Sum(s, f) - Sum(s, g)
    decreases |s|
  {
    if s != [] {
      SumDifference(s[..|s| - 1], f, g, h);
    }
  }

  /** A sum of non-negative terms is non-negative. */
  lemma {:induction false} SumNonNegative<T>(s: seq<T>, f: T -> int)
    requires forall i :: 0 <= i < |s| ==> f(s[i]) >= 0
    ensures Sum(s, f) >= 0
    decreases |s|
  {
    if s != [] {
      SumNonNegative(s[..|s| - 1], f);
    }
  }

  /** Counting by a disjoint union adds the two counts. */
  lemma {:induction false} CountDisjointUnion<T(!new)>(s: seq<T>, p: T -> bool, q: T -> bool, r: T -> bool)
    requires forall x :: r(x) == (p(x) || q(x))
    requires forall x :: !(p(x) && q(x))
    ensures Count(s, r) == Count(s, p) + Count(s, q)
    decreases |s|
  {
    if s != [] {
      var init := s[..|s| - 1];
      CountDisjointUnion(init, p, q, r);
      assert s == init + [s[|s| - 1]];
    }
  }

  /** No element of `s` occurs twice. */
  predicate Distinct<T(==)>(s: seq<T>) {
    forall i, j :: 0 <= i < j < |s| ==> s[i] != s[j]
  }

  /** A sequence in which no element has multiplicity above one is distinct. */
  lemma DistinctFromMultiset<T>(s: seq<T>)
    requires forall x :: multiset(s)[x] <= 1
    ensures Distinct(s)
  {
    forall i, j | 0 <= i < j < |s|
      ensures s[i] != s[j]
    {
      assert s == s[..j] + s[j..];
      assert s[i] in s[..j];
      assert s[j] in s[j..];
      assert multiset(s)[s[j]] == multiset(s[..j])[s[j]] + multiset(s[j..])[s[j]];
    }
  }

  /** The indices 0 .. n-1 in ascending order. */
  function Indices(n: nat): (r: seq<nat>)
    ensures |r| == n
    ensures forall i :: 0 <= i < n ==> r[i] == i
  {
    seq(n, i => i)
  }

  /** The indices below `n` that satisfy `p`: exactly those, each once, in ascending order. */
  lemma FilterIndices(n: nat, p: nat -> bool)
    ensures forall j: nat :: j in Filter(Indices(n), p) <==> j < n && p(j)
    ensures Distinct(Filter(Indices(n), p))
  {
    IndicesMultiset(n);
    FilterMultiset(Indices(n), p);
    DistinctFromMultiset(Filter(Indices(n), p));
  }

  /** In a distinct sequence every element has multiplicity at most one. */
  lemma {:induction false} MultisetOfDistinct<T>(s: seq<T>)
    requires Distinct(s)
    ensures forall x :: multiset(s)[x] <= 1
    decreases |s|
  {
    if s != [] {
      var init, last := s[..|s| - 1], s[|s| - 1];
      assert s == init + [last];
      assert Distinct(init);
      MultisetOfDistinct(init);
      assert last !in init;
      assert multiset(s) == multiset(init) + multiset{last};
    }
  }

  /** Sorting keeps every element as often as before, so it keeps distinctness. */
  lemma SortByDistinct<T>(s: seq<T>, key: T -> int)
    requires Distinct(s)
    ensures Distinct(SortBy(s, key))
  {
    MultisetOfDistinct(s);
    DistinctFromMultiset(SortBy(s, key));
  }

  /** Each index occurs in `Indices(n)` exactly once when it is below `n`, never otherwise. */
  lemma IndicesMultiset(n: nat)
    ensures forall x: nat :: multiset(Indices(n))[x] == if x < n then 1 else 0
  {
    if n > 0 {
      var m: nat := n - 1;
      assert Indices(n) == Indices(m) + [m];
      assert multiset(Indices(n)) == multiset(Indices(m)) + multiset{m};
      IndicesMultiset(m);
      forall x: nat
        ensures multiset(Indices(n))[x] == if x < n then 1 else 0
      {
        assert multiset(Indices(n))[x] == multiset(Indices(m))[x] + multiset{m}[x];
      }
    }
  }

  /** The index of the first element satisfying `p` (a query's `findOne`), if any. */
  function FindFirst<T>(s: seq<T>, p: T -> bool): (r: Option<nat>)
    ensures r.Some? ==> r.value < |s| && p(s[r.value]) && forall j :: 0 <= j < r.value ==> !p(s[j])
    ensures r.None? ==> forall j :: 0 <= j < |s| ==> !p(s[j])
    decreases |s|
  {
    if s == [] then None
    else if p(s[0]) then Some(0)
    else
      var r := FindFirst(s[1..], p);
      if r.Some? then Some(r.value + 1) else None
  }

  /** No two elements of `s` share a `key` (a unique index). */
  predicate DistinctBy<T, K(==)>(s: seq<T>, key: T -> K) {
    forall i, j :: 0 <= i < j < |s| ==> key(s[i]) != key(s[j])
  }

  /** Deleting documents keeps a unique index unique. */
  lemma {:induction false} FilterDistinctBy<T(!new), K>(s: seq<T>, key: T -> K, p: T -> bool)
    requires DistinctBy(s, key)
    ensures DistinctBy(Filter(s, p), key)
    decreases |s|
  {
    if s != [] {
      var init, last := s[..|s| - 1], s[|s| - 1];
      FilterDistinctBy(init, key, p);
      var f := Filter(init, p);
      forall x | x in f ensures key(x) != key(last) {
        var k :| 0 <= k < |init| && init[k] == x;
        assert s[k] == x;
      }
    }
  }

  /** Adding a document whose key is new keeps a unique index unique. */
  lemma AppendDistinctBy<T, K>(s: seq<T>, key: T -> K, x: T)
    requires DistinctBy(s, key)
    requires forall j :: 0 <= j < |s| ==> key(s[j]) != key(x)
    ensures DistinctBy(s + [x], key)
  {
  }

  /** `s` without its element at index `i` (a `deleteOne`). */
  function RemoveAt<T>(s: seq<T>, i: nat): (r: seq<T>)
    requires i < |s|
    ensures |r| == |s| - 1
    ensures multiset(r) == multiset(s) - multiset{s[i]}
  {
    assert s == s[..i] + [s[i]] + s[i + 1..];
    s[..i] + s[i + 1..]
  }
}
