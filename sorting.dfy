/** A stable sort on an integer sort key.

    The three keyed sorts of the system are stable: `pr_data.sort` by `pr_number` and
    `sorted` of the contributors by `pr_count` (Timsort, stable even with `reverse=True`),
    and the registry page's `Array.prototype.sort` (stable since ES2019). The fourth sort,
    `sorted(set(...))` of the author handles, is not a keyed sort and is modelled by
    `UserCollection.SortedDistinct`. A descending sort is a sort on the
    negated key, which is what `reverse=True` means for a stable sort: records with equal
    keys keep their original order. */
module Sorting {

  /** `s` is in non-decreasing order of `key`. */
  ghost predicate SortedBy<T>(s: seq<T>, key: T -> int) {
    forall i, j :: 0 <= i < j < |s| ==> key(s[i]) <= key(s[j])
  }

  /** The elements of `s` whose key is `k`, in their order in `s`. */
  function WithKey<T>(s: seq<T>, key: T -> int, k: int): (r: seq<T>)
    ensures |r| <= |s|
  {
    if s == [] then [] else (if key(s[0]) == k then [s[0]] else []) + WithKey(s[1..], key, k)
  }

  /** Inserts `x` in front of the first element of `t` whose key is not smaller. */
  function Insert<T>(x: T, t: seq<T>, key: T -> int): (r: seq<T>)
    ensures |r| == |t| + 1
  {
    if t == [] then [x]
    else if key(x) <= key(t[0]) then [x] + t
    else [t[0]] + Insert(x, t[1..], key)
  }

  /** The two cases of `Insert` on a non-empty sequence. */
  lemma InsertFront<T>(x: T, t: seq<T>, key: T -> int)
    requires t != [] && key(x) <= key(t[0])
    ensures Insert(x, t, key) == [x] + t
  {
  }

  lemma InsertBehind<T>(x: T, t: seq<T>, key: T -> int)
    requires t != [] && key(t[0]) < key(x)
    ensures Insert(x, t, key) == [t[0]] + Insert(x, t[1..], key)
  {
  }

  /** Insertion adds `x` and loses nothing. */
  lemma {:induction false} InsertPermutes<T>(x: T, t: seq<T>, key: T -> int)
    ensures multiset(Insert(x, t, key)) == multiset(t) + multiset{x}
  {
    if t != [] && key(t[0]) < key(x) {
      InsertPermutes(x, t[1..], key);
      assert t == [t[0]] + t[1..];
    }
  }

  lemma {:induction false} InsertSorted<T>(x: T, t: seq<T>, key: T -> int)
    requires SortedBy(t, key)
    ensures SortedBy(Insert(x, t, key), key)
  {
    if t != [] && key(t[0]) < key(x) {
      var rest := Insert(x, t[1..], key);
      InsertSorted(x, t[1..], key);
      InsertPermutes(x, t[1..], key);
      var r := [t[0]] + rest;
      forall i, j | 0 <= i < j < |r| ensures key(r[i]) <= key(r[j]) {
        var y := rest[j - 1];
        assert y in multiset(rest);
        if i == 0 && y != x {
          assert y in multiset(t[1..]);
          var k :| 0 <= k < |t[1..]| && t[1..][k] == y;
          assert t[k + 1] == y;
        }
      }
    }
  }

  /** Stable insertion sort of `s` by `key`. */
  function SortBy<T>(s: seq<T>, key: T -> int): (r: seq<T>)
    ensures |r| == |s|
    ensures multiset(r) == multiset(s)
    ensures SortedBy(r, key)
  {
    if s == [] then [] else
      assert s == [s[0]] + s[1..];
      InsertSorted(s[0], SortBy(s[1..], key), key);
      InsertPermutes(s[0], SortBy(s[1..], key), key);
      Insert(s[0], SortBy(s[1..], key), key)
  }

  lemma {:induction false} InsertWithKey<T>(x: T, t: seq<T>, key: T -> int, k: int)
    ensures WithKey(Insert(x, t, key), key, k)
         == (if key(x) == k then [x] else []) + WithKey(t, key, k)
  {
    var front := if key(x) == k then [x] else [];
    if t == [] {
      assert [x][1..] == [];
    } else if key(x) <= key(t[0]) {
      assert ([x] + t)[1..] == t;
    } else {
      var rest := Insert(x, t[1..], key);
      var head := if key(t[0]) == k then [t[0]] else [];
      assert ([t[0]] + rest)[1..] == rest;
      calc {
        WithKey(Insert(x, t, key), key, k);
        head + WithKey(rest, key, k);
        { InsertWithKey(x, t[1..], key, k); }
        head + (front + WithKey(t[1..], key, k));
        { assert head == [] || front == []; }
        front + (head + WithKey(t[1..], key, k));
      }
    }
  }

  /** Stability: for every key value, the elements with that key keep their relative order. */
  lemma {:induction false} SortByStable<T>(s: seq<T>, key: T -> int, k: int)
    ensures WithKey(SortBy(s, key), key, k) == WithKey(s, key, k)
  {
    if s != [] {
      InsertWithKey(s[0], SortBy(s[1..], key), key, k);
      SortByStable(s[1..], key, k);
    }
  }

  lemma SortByStableAll<T>(s: seq<T>, key: T -> int)
    ensures forall k :: WithKey(SortBy(s, key), key, k) == WithKey(s, key, k)
  {
    forall k ensures WithKey(SortBy(s, key), key, k) == WithKey(s, key, k) {
      SortByStable(s, key, k);
    }
  }

  /** The elements of `s` carry pairwise different labels `f`. */
  ghost predicate DistinctBy<T, U>(s: seq<T>, f: T -> U) {
    forall i, j :: 0 <= i < j < |s| ==> f(s[i]) != f(s[j])
  }

  lemma {:induction false} InsertKeepsDistinct<T, U>(x: T, t: seq<T>, key: T -> int, f: T -> U)
    requires DistinctBy(t, f)
    requires forall i :: 0 <= i < |t| ==> f(t[i]) != f(x)
    ensures DistinctBy(Insert(x, t, key), f)
  {
    if t != [] && key(t[0]) < key(x) {
      var rest := Insert(x, t[1..], key);
      InsertKeepsDistinct(x, t[1..], key, f);
      InsertPermutes(x, t[1..], key);
      forall j | 0 < j < |rest| + 1
        ensures f(([t[0]] + rest)[0]) != f(([t[0]] + rest)[j])
      {
        var y := rest[j - 1];
        assert y in multiset(rest);
        if y != x {
          assert y in multiset(t[1..]);
          var k :| 0 <= k < |t[1..]| && t[1..][k] == y;
          assert t[k + 1] == y;
        }
      }
    }
  }

  /** Sorting neither merges nor duplicates records: distinct labels stay distinct. */
  lemma {:induction false} SortByKeepsDistinct<T, U>(s: seq<T>, key: T -> int, f: T -> U)
    requires DistinctBy(s, f)
    ensures DistinctBy(SortBy(s, key), f)
  {
    if s != [] {
      var sorted := SortBy(s[1..], key);
      SortByKeepsDistinct(s[1..], key, f);
      forall i | 0 <= i < |sorted| ensures f(sorted[i]) != f(s[0]) {
        assert sorted[i] in multiset(s[1..]);
        var j :| 0 <= j < |s[1..]| && s[1..][j] == sorted[i];
        assert s[j + 1] == sorted[i];
      }
      InsertKeepsDistinct(s[0], sorted, key, f);
    }
  }

  lemma {:induction false} WithKeyHas<T>(s: seq<T>, key: T -> int, x: T)
    requires x in s
    ensures x in WithKey(s, key, key(x))
  {
    if s[0] != x {
      WithKeyHas(s[1..], key, x);
    }
  }

  lemma {:induction false} WithKeyFrom<T>(s: seq<T>, key: T -> int, k: int, y: T)
    requires y in WithKey(s, key, k)
    ensures y in s && key(y) == k
  {
    if !(key(s[0]) == k && y == s[0]) {
      WithKeyFrom(s[1..], key, k, y);
    }
  }

  /** A stable sort has only one possible outcome: two sequences sorted by `key` that keep
      the same order within every key are equal. Any stable sort by a comparator that
      orders as `key` does therefore computes `SortBy`. */
  lemma {:induction false} StableSortUnique<T>(r: seq<T>, q: seq<T>, key: T -> int)
    requires SortedBy(r, key) && SortedBy(q, key)
    requires forall k :: WithKey(r, key, k) == WithKey(q, key, k)
    ensures r == q
    decreases |r|
  {
    if r != [] {
      WithKeyHas(r, key, r[0]);
      WithKeyFrom(q, key, key(r[0]), r[0]);  // so q is not empty either
    }
    if q != [] {
      WithKeyHas(q, key, q[0]);
      WithKeyFrom(r, key, key(q[0]), q[0]);
    }
    if r != [] {
      // both start with the least key, and with its first element
      var i :| 0 <= i < |q| && q[i] == r[0];
      var j :| 0 <= j < |r| && r[j] == q[0];
      assert key(r[0]) == key(q[0]);
      assert WithKey(r, key, key(r[0]))[0] == r[0];
      assert WithKey(q, key, key(q[0]))[0] == q[0];
      forall k ensures WithKey(r[1..], key, k) == WithKey(q[1..], key, k) {
        var head := if key(r[0]) == k then [r[0]] else [];
        assert WithKey(r, key, k) == head + WithKey(r[1..], key, k);
        assert WithKey(q, key, k) == head + WithKey(q[1..], key, k);
        assert (head + WithKey(r[1..], key, k))[|head|..] == WithKey(r[1..], key, k);
        assert (head + WithKey(q[1..], key, k))[|head|..] == WithKey(q[1..], key, k);
      }
      StableSortUnique(r[1..], q[1..], key);
      assert r == [r[0]] + r[1..] && q == [q[0]] + q[1..];
    }
  }
}
