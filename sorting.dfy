/**
 * A stable sort by an integer key: the behaviour ECMAScript (since its 2019
 * edition) requires of `Array.prototype.sort` when the comparator is
 * `(a, b) => key(a) - key(b)`, or any comparator whose sign agrees with it.
 */
module Sorting {
  import opened Seqs

  /** Keys are non-decreasing from left to right. */
  ghost predicate SortedBy<T>(key: T -> int, s: seq<T>) {
    forall i, j :: 0 <= i < j < |s| ==> key(s[i]) <= key(s[j])
  }

  /** The elements of `s` whose key is `k`, in their order in `s`. */
  function WithKey<T(!new)>(key: T -> int, k: int, s: seq<T>): seq<T> {
    Filter(x => key(x) == k, s)
  }

  /** Equal keys keep their relative order: every key class of `r` is that of `s`. */
  ghost predicate StableWrt<T(!new)>(key: T -> int, r: seq<T>, s: seq<T>) {
    forall k :: WithKey(key, k, r) == WithKey(key, k, s)
  }

  /** Prepending an element no larger than the head keeps a sorted sequence sorted. */
  lemma SortedCons<T>(key: T -> int, a: T, s: seq<T>)
    requires SortedBy(key, s)
    requires s != [] ==> key(a) <= key(s[0])
    ensures SortedBy(key, [a] + s)
  {
  }

  /** Puts `x` in front of the first element of `s` whose key is not smaller than its own. */
  function Insert<T>(key: T -> int, x: T, s: seq<T>): (r: seq<T>)
    requires SortedBy(key, s)
    ensures SortedBy(key, r)
    ensures multiset(r) == multiset(s) + multiset{x}
    ensures r != [] && (r[0] == x || (s != [] && r[0] == s[0]))
    decreases |s|
  {
    if s == [] || key(x) <= key(s[0]) then
      SortedCons(key, x, s);
      [x] + s
    else
      var rest := Insert(key, x, s[1..]);
      SortedCons(key, s[0], rest);
      assert s == [s[0]] + s[1..];
      [s[0]] + rest
  }

  /** Insertion sort: insert the head into the sorted tail. */
  function SortByKey<T>(key: T -> int, s: seq<T>): (r: seq<T>)
    ensures SortedBy(key, r)
    ensures multiset(r) == multiset(s)
    decreases |s|
  {
    if s == [] then []
    else
      assert s == [s[0]] + s[1..];
      Insert(key, s[0], SortByKey(key, s[1..]))
  }

  lemma WithKeyCons<T(!new)>(key: T -> int, k: int, a: T, s: seq<T>)
    ensures WithKey(key, k, [a] + s) == (if key(a) == k then [a] else []) + WithKey(key, k, s)
  {
    assert ([a] + s)[0] == a && ([a] + s)[1..] == s;
  }

  /** Two adjacent elements with different keys can change places without changing any key class. */
  lemma SwapHeads<T(!new)>(key: T -> int, k: int, a: T, b: T, t: seq<T>)
    requires key(a) != key(b)
    ensures WithKey(key, k, [a] + ([b] + t)) == WithKey(key, k, [b] + ([a] + t))
  {
    WithKeyCons(key, k, a, [b] + t);
    WithKeyCons(key, k, b, t);
    WithKeyCons(key, k, b, [a] + t);
    WithKeyCons(key, k, a, t);
  }

  lemma {:induction false} InsertStable<T(!new)>(key: T -> int, x: T, s: seq<T>, k: int)
    requires SortedBy(key, s)
    ensures WithKey(key, k, Insert(key, x, s)) == WithKey(key, k, [x] + s)
    decreases |s|
  {
    if s != [] && key(x) > key(s[0]) {
      var t := s[1..];
      assert s == [s[0]] + t;
      assert SortedBy(key, t);
      var rest := Insert(key, x, t);
      assert Insert(key, x, s) == [s[0]] + rest;
      calc {
        WithKey(key, k, [s[0]] + rest);
        { WithKeyCons(key, k, s[0], rest); }
        (if key(s[0]) == k then [s[0]] else []) + WithKey(key, k, rest);
        { InsertStable(key, x, t, k); }
        (if key(s[0]) == k then [s[0]] else []) + WithKey(key, k, [x] + t);
        { WithKeyCons(key, k, s[0], [x] + t); }
        WithKey(key, k, [s[0]] + ([x] + t));
        { SwapHeads(key, k, s[0], x, t); }
        WithKey(key, k, [x] + ([s[0]] + t));
      }
    }
  }

  /** The sort is stable: elements with equal keys appear in their input order. */
  lemma {:induction false} SortStable<T(!new)>(key: T -> int, s: seq<T>)
    ensures StableWrt(key, SortByKey(key, s), s)
    decreases |s|
  {
    if s != [] {
      SortStable(key, s[1..]);
      var sorted := SortByKey(key, s[1..]);
      forall k ensures WithKey(key, k, SortByKey(key, s)) == WithKey(key, k, s) {
        InsertStable(key, s[0], sorted, k);
        WithKeyCons(key, k, s[0], sorted);
        assert s == [s[0]] + s[1..];
        WithKeyCons(key, k, s[0], s[1..]);
      }
    }
  }

  /** A sequence already in key order is left as it is. */
  lemma {:induction false} SortSortedIdentity<T>(key: T -> int, s: seq<T>)
    requires SortedBy(key, s)
    ensures SortByKey(key, s) == s
    decreases |s|
  {
    if s != [] {
      assert SortedBy(key, s[1..]);
      SortSortedIdentity(key, s[1..]);
    }
  }

  /** With a key that is the same for every element the order is unchanged. */
  lemma ConstantKeyIdentity<T>(key: T -> int, s: seq<T>, c: int)
    requires forall x :: key(x) == c
    ensures SortByKey(key, s) == s
  {
    SortSortedIdentity(key, s);
  }

  /** Sorting twice is sorting once. */
  lemma SortIdempotent<T>(key: T -> int, s: seq<T>)
    ensures SortByKey(key, SortByKey(key, s)) == SortByKey(key, s)
  {
    SortSortedIdentity(key, SortByKey(key, s));
  }
}
