/**
 * The two list-shaping operations the services are built from: `filter`
 * (keep what a predicate accepts, in order, duplicates and all) and the
 * first-occurrence-wins deduplication of `createMany`, which skips every
 * element whose key is already known or already treated.
 */
module Seqs {
  import opened Results

  /** `a` is `b` with some elements removed, order kept. */
  ghost predicate IsSubseq<T>(a: seq<T>, b: seq<T>)
    decreases |b|
  {
    if a == [] then true
    else if b == [] then false
    else (a[0] == b[0] && IsSubseq(a[1..], b[1..])) || IsSubseq(a, b[1..])
  }

  /** Every sequence is a subsequence of itself. */
  lemma {:induction false} SubseqRefl<T>(a: seq<T>)
    ensures IsSubseq(a, a)
    decreases |a|
  {
    if a != [] {
      SubseqRefl(a[1..]);
    }
  }

  /** A subsequence draws its elements from the bigger sequence. */
  lemma {:induction false} SubseqMembers<T>(a: seq<T>, b: seq<T>)
    requires IsSubseq(a, b)
    ensures forall x :: x in a ==> x in b
    decreases |b|
  {
    if a != [] && b != [] {
      if a[0] == b[0] && IsSubseq(a[1..], b[1..]) {
        SubseqMembers(a[1..], b[1..]);
        assert a == [a[0]] + a[1..];
      } else {
        SubseqMembers(a, b[1..]);
      }
    }
  }

  /** The keys of the elements of `xs`. */
  function KeysOf<T(==), K>(xs: seq<T>, key: T -> K): set<K> {
    set x | x in xs :: key(x)
  }

  /** No two elements of `xs` share a key. */
  predicate DistinctKeys<T, K(==)>(xs: seq<T>, key: T -> K) {
    forall i, j :: 0 <= i < j < |xs| ==> key(xs[i]) != key(xs[j])
  }

  /** No element of `xs` occurs twice. */
  predicate NoDuplicates<T(==)>(xs: seq<T>) {
    forall i, j :: 0 <= i < j < |xs| ==> xs[i] != xs[j]
  }

  /** `array.filter(p)`: the elements `p` accepts, in order; an accepted
      element keeps all its copies and a rejected one keeps none. */
  function Filter<T(==,!new)>(xs: seq<T>, p: T -> bool): (r: seq<T>)
    ensures IsSubseq(r, xs)
    ensures forall x :: x in r ==> x in xs && p(x)
    ensures forall x :: multiset(r)[x] == if p(x) then multiset(xs)[x] else 0
    decreases |xs|
  {
    if xs == [] then []
    else
      var rest := Filter(xs[1..], p);
      assert xs == [xs[0]] + xs[1..];
      if p(xs[0]) then [xs[0]] + rest else rest
  }

  /** An accepted element of `xs` is kept by `Filter`. */
  lemma FilterKeeps<T(!new)>(xs: seq<T>, p: T -> bool, x: T)
    requires x in xs && p(x)
    ensures x in Filter(xs, p)
  {
    assert multiset(Filter(xs, p))[x] == multiset(xs)[x];
  }

  /** `Filter` of a non-empty sequence: the head, when accepted, then the filtered tail. */
  lemma FilterCons<T(!new)>(xs: seq<T>, p: T -> bool)
    requires xs != []
    ensures Filter(xs, p) == (if p(xs[0]) then [xs[0]] else []) + Filter(xs[1..], p)
  {
  }

  /** Filtering distributes over concatenation. */
  lemma {:induction false} FilterAppend<T(!new)>(a: seq<T>, b: seq<T>, p: T -> bool)
    ensures Filter(a + b, p) == Filter(a, p) + Filter(b, p)
    decreases |a|
  {
    if a == [] {
      assert a + b == b;
    } else {
      var ab := a + b;
      assert ab[0] == a[0] && ab[1..] == a[1..] + b;
      FilterCons(ab, p);
      FilterCons(a, p);
      FilterAppend(a[1..], b, p);
      AppendAssoc(if p(a[0]) then [a[0]] else [], Filter(a[1..], p), Filter(b, p));
    }
  }

  /** Concatenation is associative. */
  lemma AppendAssoc<T>(x: seq<T>, y: seq<T>, z: seq<T>)
    ensures x + (y + z) == (x + y) + z
  {
  }

  /** Filtering with a predicate every element meets changes nothing. */
  lemma {:induction false} FilterAll<T(!new)>(xs: seq<T>, p: T -> bool)
    requires forall x :: x in xs ==> p(x)
    ensures Filter(xs, p) == xs
    decreases |xs|
  {
    if xs != [] {
      FilterAll(xs[1..], p);
      assert xs == [xs[0]] + xs[1..];
    }
  }

  /** The first element of `xs` whose key is `k`. */
  function FirstWithKey<T(==), K(==)>(xs: seq<T>, key: T -> K, k: K): (x: T)
    requires k in KeysOf(xs, key)
    ensures x in xs && key(x) == k
    decreases |xs|
  {
    if key(xs[0]) == k then xs[0]
    else
      assert forall y :: y in xs && y != xs[0] ==> y in xs[1..];
      FirstWithKey(xs[1..], key, k)
  }

  /**
   * The `createMany` deduplication: walk `xs` in order, skip an element
   * whose key is in `existing` or in `treated`, otherwise keep it and add
   * its key to `treated`. The result is an order-preserving subsequence
   * with pairwise-distinct keys, none of them `existing` or `treated`,
   * covering every other key of `xs`, and each kept element is the first
   * element of `xs` with its key.
   */
  function FirstWins<T(==), K(==)>(xs: seq<T>, key: T -> K, existing: set<K>, treated: set<K>): (r: seq<T>)
    ensures IsSubseq(r, xs)
    ensures forall x :: x in r ==> x in xs && key(x) !in existing && key(x) !in treated
    ensures DistinctKeys(r, key)
    ensures KeysOf(r, key) == KeysOf(xs, key) - existing - treated
    ensures forall x :: x in r ==> x == FirstWithKey(xs, key, key(x))
    decreases |xs|
  {
    if xs == [] then []
    else
      var k := key(xs[0]);
      assert xs == [xs[0]] + xs[1..];
      assert KeysOf(xs, key) == {k} + KeysOf(xs[1..], key);
      if k in existing || k in treated then
        FirstWins(xs[1..], key, existing, treated)
      else
        var rest := FirstWins(xs[1..], key, existing, treated + {k});
        var r := [xs[0]] + rest;
        assert forall x :: x in rest ==> key(x) != k;
        assert KeysOf(r, key) == {k} + KeysOf(rest, key);
        r
  }

  /** A subsequence of a duplicate-free sequence is duplicate-free. */
  lemma {:induction false} SubseqNoDuplicates<T>(a: seq<T>, b: seq<T>)
    requires IsSubseq(a, b) && NoDuplicates(b)
    ensures NoDuplicates(a)
    decreases |b|
  {
    if a != [] && b != [] {
      assert NoDuplicates(b[1..]) by {
        forall i, j | 0 <= i < j < |b[1..]|
          ensures b[1..][i] != b[1..][j]
        {
          assert b[1..][i] == b[i + 1] && b[1..][j] == b[j + 1];
        }
      }
      if a[0] == b[0] && IsSubseq(a[1..], b[1..]) {
        SubseqNoDuplicates(a[1..], b[1..]);
        SubseqMembers(a[1..], b[1..]);
        forall j | 0 < j < |a|
          ensures a[0] != a[j]
        {
          assert a[j] == a[1..][j - 1];
          assert a[j] in b[1..];
        }
        forall i, j | 0 < i < j < |a|
          ensures a[i] != a[j]
        {
          assert a[i] == a[1..][i - 1] && a[j] == a[1..][j - 1];
        }
      } else {
        SubseqNoDuplicates(a, b[1..]);
      }
    }
  }

  /** `array.findIndex(p)`: the index of the first element `p` accepts, or
      `None` when it accepts none. */
  function FindFirst<T>(xs: seq<T>, p: T -> bool): (r: Option<nat>)
    ensures r.None? <==> forall k :: 0 <= k < |xs| ==> !p(xs[k])
    ensures r.Some? ==> r.value < |xs| && p(xs[r.value]) && forall k :: 0 <= k < r.value ==> !p(xs[k])
    decreases |xs|
  {
    if xs == [] then None
    else if p(xs[0]) then Some(0)
    else
      match FindFirst(xs[1..], p)
      case None => None
      case Some(k) => Some(k + 1)
  }
}
