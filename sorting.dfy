/**
 * `Array.prototype.sort` with a numeric comparator `(a, b) => key(a) - key(b)`.
 * The language has required the sort to be stable since ECMAScript 2019, so
 * the model is a stable insertion sort by an integer key; a descending order
 * is the ascending order of the negated key.
 */
module Sorting {

  /** Non-decreasing by `key`. */
  ghost predicate SortedBy<T>(s: seq<T>, key: T -> int) {
    forall i, j :: 0 <= i < j < |s| ==> key(s[i]) <= key(s[j])
  }

  /** The elements of `s` whose key is `k`, in their order in `s`. */
  function WithKey<T>(s: seq<T>, key: T -> int, k: int): seq<T> {
    if s == [] then []
    else (if key(s[0]) == k then [s[0]] else []) + WithKey(s[1..], key, k)
  }

  /** `x` inserted into sorted `s` before the first element whose key is not smaller. */
  function Insert<T>(x: T, s: seq<T>, key: T -> int): (r: seq<T>)
    requires SortedBy(s, key)
    ensures multiset(r) == multiset(s) + multiset{x}
    ensures SortedBy(r, key)
  {
    if s == [] || key(x) <= key(s[0]) then
      ConsSorted(x, s, key);
      [x] + s
    else
      var r' := Insert(x, s[1..], key);
      InsertBehindHead(x, s, r', key);
      [s[0]] + r'
  }

  /** A sorted sequence stays sorted behind a head no larger than its elements. */
  lemma ConsSorted<T>(h: T, t: seq<T>, key: T -> int)
    requires SortedBy(t, key)
    requires t == [] || key(h) <= key(t[0])
    ensures SortedBy([h] + t, key)
  {
    var r := [h] + t;
    forall i, j | 0 <= i < j < |r| ensures key(r[i]) <= key(r[j]) {
      assert r[j] == t[j - 1];
      if i > 0 { assert r[i] == t[i - 1]; }
    }
  }

  /** The recursive case of `Insert`: the head of `s` stays in front. */
  lemma InsertBehindHead<T>(x: T, s: seq<T>, r': seq<T>, key: T -> int)
    requires s != [] && SortedBy(s, key) && key(s[0]) < key(x)
    requires multiset(r') == multiset(s[1..]) + multiset{x} && SortedBy(r', key)
    ensures multiset([s[0]] + r') == multiset(s) + multiset{x}
    ensures SortedBy([s[0]] + r', key)
  {
    assert s == [s[0]] + s[1..];
    forall j | 0 <= j < |r'| ensures key(s[0]) <= key(r'[j]) {
      assert r'[j] in multiset(r');
      if r'[j] != x {
        assert r'[j] in multiset(s[1..]);
        var m :| 0 <= m < |s[1..]| && s[1..][m] == r'[j];
        assert s[m + 1] == r'[j];
      }
    }
    var r := [s[0]] + r';
    forall i, j | 0 <= i < j < |r| ensures key(r[i]) <= key(r[j]) {
      assert r[j] == r'[j - 1];
      if i > 0 { assert r[i] == r'[i - 1]; }
    }
  }

  /** The stable sort of `s` by `key`. */
  function SortBy<T>(s: seq<T>, key: T -> int): (r: seq<T>)
    ensures multiset(r) == multiset(s)
    ensures SortedBy(r, key)
  {
    if s == [] then []
    else
      assert s == [s[0]] + s[1..];
      Insert(s[0], SortBy(s[1..], key), key)
  }

  lemma WithKeyCons<T>(h: T, t: seq<T>, key: T -> int, k: int)
    ensures WithKey([h] + t, key, k) == (if key(h) == k then [h] else []) + WithKey(t, key, k)
  {
    assert ([h] + t)[0] == h && ([h] + t)[1..] == t;
  }

  /** Inserting `x` puts it ahead of the elements that share its key. */
  lemma {:induction false} InsertWithKey<T>(x: T, s: seq<T>, key: T -> int, k: int)
    requires SortedBy(s, key)
    ensures WithKey(Insert(x, s, key), key, k) == (if key(x) == k then [x] else []) + WithKey(s, key, k)
  {
    if s == [] || key(x) <= key(s[0]) {
      WithKeyCons(x, s, key, k);
    } else {
      var h, t := s[0], s[1..];
      assert SortedBy(t, key);
      var r' := Insert(x, t, key);
      assert Insert(x, s, key) == [h] + r';
      assert s == [h] + t;
      InsertWithKey(x, t, key, k);
      InsertBehindWithKey(x, h, t, r', key, k);
    }
  }

  /** The step behind a smaller head: `h` stays in front of `x`, and at most one of them has key `k`. */
  lemma InsertBehindWithKey<T>(x: T, h: T, t: seq<T>, r': seq<T>, key: T -> int, k: int)
    requires key(h) < key(x)
    requires WithKey(r', key, k) == (if key(x) == k then [x] else []) + WithKey(t, key, k)
    ensures WithKey([h] + r', key, k) == (if key(x) == k then [x] else []) + WithKey([h] + t, key, k)
  {
    WithKeyCons(h, r', key, k);
    WithKeyCons(h, t, key, k);
    var xs: seq<T> := if key(x) == k then [x] else [];
    var hs: seq<T> := if key(h) == k then [h] else [];
    assert xs == [] || hs == [];
    assert hs + (xs + WithKey(t, key, k)) == xs + (hs + WithKey(t, key, k));
  }

  /** Stability: elements with equal keys keep their relative order. */
  lemma {:induction false} SortByStable<T>(s: seq<T>, key: T -> int, k: int)
    ensures WithKey(SortBy(s, key), key, k) == WithKey(s, key, k)
  {
    if s != [] {
      SortByStable(s[1..], key, k);
      InsertWithKey(s[0], SortBy(s[1..], key), key, k);
    }
  }

  /** A sequence that is already sorted is left as it is. */
  lemma {:induction false} SortByOfSorted<T>(s: seq<T>, key: T -> int)
    requires SortedBy(s, key)
    ensures SortBy(s, key) == s
  {
    if s != [] {
      assert SortedBy(s[1..], key);
      SortByOfSorted(s[1..], key);
      assert [s[0]] + s[1..] == s;
    }
  }
}
