/** The stable sort `Array.prototype.sort` performs with the comparator
    `(a, b) => key(b) - key(a)`: highest key first, ties in input order. */
module Sorting {
  import opened Sequences

  /** Keys never increase from left to right. */
  predicate Descending<T>(s: seq<T>, key: T -> real) {
    forall i, j :: 0 <= i < j < |s| ==> key(s[i]) >= key(s[j])
  }

  /** The elements of `s` whose key is `k`, in their order in `s`. */
  function WithKey<T(==,!new)>(s: seq<T>, key: T -> real, k: real): seq<T> {
    Filter(s, KeyIs(key, k))
  }

  function KeyIs<T>(key: T -> real, k: real): T -> bool {
    x => key(x) == k
  }

  /** Places `x` in front of the first element whose key is not above its own. */
  function Insert<T(==)>(x: T, s: seq<T>, key: T -> real): (r: seq<T>)
    ensures multiset(r) == multiset(s) + multiset{x}
  {
    if s == [] then [x]
    else if key(x) >= key(s[0]) then [x] + s
    else
      assert s == [s[0]] + s[1..];
      [s[0]] + Insert(x, s[1..], key)
  }

  /** A bound on every key of `s` and on `x` bounds every key after inserting `x`. */
  lemma {:induction false} InsertBelow<T>(x: T, s: seq<T>, key: T -> real, b: real)
    requires forall i :: 0 <= i < |s| ==> key(s[i]) <= b
    requires key(x) <= b
    ensures forall i :: 0 <= i < |Insert(x, s, key)| ==> key(Insert(x, s, key)[i]) <= b
  {
    if s != [] && key(x) < key(s[0]) {
      InsertBelow(x, s[1..], key, b);
    }
  }

  /** Inserting into a descending sequence gives a descending sequence. */
  lemma {:induction false} InsertDescending<T>(x: T, s: seq<T>, key: T -> real)
    requires Descending(s, key)
    ensures Descending(Insert(x, s, key), key)
  {
    if s != [] && key(x) < key(s[0]) {
      InsertDescending(x, s[1..], key);
      InsertBelow(x, s[1..], key, key(s[0]));
    }
  }

  /** Insertion sort: the result is a permutation of `s` in descending key order. */
  function SortDescending<T(==)>(s: seq<T>, key: T -> real): (r: seq<T>)
    ensures multiset(r) == multiset(s)
    ensures Descending(r, key)
  {
    if s == [] then []
    else
      assert s == [s[0]] + s[1..];
      InsertDescending(s[0], SortDescending(s[1..], key), key);
      Insert(s[0], SortDescending(s[1..], key), key)
  }

  /** Inserting `x` adds it in front of the elements that share its key. */
  lemma {:induction false} InsertWithKey<T(!new)>(x: T, s: seq<T>, key: T -> real, k: real)
    ensures WithKey(Insert(x, s, key), key, k)
         == (if key(x) == k then [x] else []) + WithKey(s, key, k)
  {
    var p := KeyIs(key, k);
    if s == [] {
      FilterCons(x, [], p);
    } else if key(x) >= key(s[0]) {
      FilterCons(x, s, p);
    } else {
      var rest := Insert(x, s[1..], key);
      var w := WithKey(s[1..], key, k);
      assert Insert(x, s, key) == [s[0]] + rest;
      assert s == [s[0]] + s[1..];
      InsertWithKey(x, s[1..], key, k);
      FilterCons(s[0], rest, p);
      FilterCons(s[0], s[1..], p);
      assert p(s[0]) == (key(s[0]) == k);
      if key(s[0]) == k {
        assert key(x) != k;
        assert WithKey(rest, key, k) == w;
        assert WithKey([s[0]] + rest, key, k) == [s[0]] + w;
        assert WithKey(s, key, k) == [s[0]] + w;
      } else {
        assert WithKey([s[0]] + rest, key, k) == WithKey(rest, key, k);
        assert WithKey(s, key, k) == w;
      }
    }
  }

  /** The sort is stable: among elements with equal keys, input order is kept. */
  lemma {:induction false} SortStable<T(!new)>(s: seq<T>, key: T -> real, k: real)
    ensures WithKey(SortDescending(s, key), key, k) == WithKey(s, key, k)
  {
    if s != [] {
      SortStable(s[1..], key, k);
      InsertWithKey(s[0], SortDescending(s[1..], key), key, k);
      FilterCons(s[0], s[1..], KeyIs(key, k));
      assert s == [s[0]] + s[1..];
    }
  }
}
