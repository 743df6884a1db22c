/**
 * A stable sort by a numeric key: what both `Array.prototype.sort` (stable since
 * ES2019) with a subtracting comparator and Python's `sorted(..., key=...)` compute
 * when the key is compared with `<`. Insertion sort written as functions.
 */
module StableSort {

  /** Keys never decrease from left to right. */
  ghost predicate SortedBy<T>(s: seq<T>, key: T -> real)
  {
    forall i, j :: 0 <= i < j < |s| ==> key(s[i]) <= key(s[j])
  }

  /** The elements of `s` whose key is `k`, in their order in `s`. */
  function WithKey<T>(s: seq<T>, key: T -> real, k: real): seq<T>
    decreases |s|
  {
    if s == [] then []
    else (if key(s[0]) == k then [s[0]] else []) + WithKey(s[1..], key, k)
  }

  lemma {:induction false} WithKeyAppend<T>(a: seq<T>, b: seq<T>, key: T -> real, k: real)
    ensures WithKey(a + b, key, k) == WithKey(a, key, k) + WithKey(b, key, k)
    decreases |a|
  {
    if a == [] {
      assert a + b == b;
    } else {
      assert (a + b)[0] == a[0] && (a + b)[1..] == a[1..] + b;
      WithKeyAppend(a[1..], b, key, k);
      var h := if key(a[0]) == k then [a[0]] else [];
      assert WithKey(a + b, key, k) == h + WithKey(a[1..] + b, key, k);
      assert WithKey(a, key, k) == h + WithKey(a[1..], key, k);
      assert h + (WithKey(a[1..], key, k) + WithKey(b, key, k)) ==
             (h + WithKey(a[1..], key, k)) + WithKey(b, key, k);
    }
  }

  /** Puts `x` in front of the first element whose key is at least `key(x)`. */
  function Insert<T>(x: T, s: seq<T>, key: T -> real): (r: seq<T>)
    requires SortedBy(s, key)
    ensures SortedBy(r, key)
    ensures multiset(r) == multiset(s) + multiset{x}
    decreases |s|
  {
    if s == [] || key(x) <= key(s[0]) then
      SortedCons(x, s, key);
      [x] + s
    else
      var t := Insert(x, s[1..], key);
      assert s == [s[0]] + s[1..];
      HeadBelowInserted(x, s, t, key);
      SortedCons(s[0], t, key);
      [s[0]] + t
  }

  /** Putting an element no larger than the rest in front keeps a sequence sorted. */
  lemma SortedCons<T>(h: T, t: seq<T>, key: T -> real)
    requires SortedBy(t, key)
    requires t == [] || key(h) <= key(t[0])
    ensures SortedBy([h] + t, key)
  {
    var r := [h] + t;
    forall i, j | 0 <= i < j < |r| ensures key(r[i]) <= key(r[j]) {
      if i == 0 {
        assert r[j] == t[j - 1];
        assert key(t[0]) <= key(t[j - 1]) || j == 1;
      } else {
        assert r[i] == t[i - 1] && r[j] == t[j - 1];
      }
    }
  }

  /** What is inserted into the tail of a sorted `s` all has keys at least that of `s[0]`. */
  lemma HeadBelowInserted<T>(x: T, s: seq<T>, t: seq<T>, key: T -> real)
    requires SortedBy(s, key) && s != [] && key(s[0]) < key(x)
    requires multiset(t) == multiset(s[1..]) + multiset{x}
    ensures t == [] || key(s[0]) <= key(t[0])
  {
    if t != [] {
      assert t[0] in multiset(t);
      if t[0] != x {
        assert t[0] in multiset(s[1..]);
        var j :| 0 <= j < |s[1..]| && s[1..][j] == t[0];
        assert s[j + 1] == t[0];
      }
    }
  }

  /** Inserting keeps the elements of every key in the order of `[x] + s`. */
  lemma {:induction false} InsertWithKey<T>(x: T, s: seq<T>, key: T -> real, k: real)
    requires SortedBy(s, key)
    ensures WithKey(Insert(x, s, key), key, k) == WithKey([x] + s, key, k)
    decreases |s|
  {
    if s != [] && key(s[0]) < key(x) {
      var t := Insert(x, s[1..], key);
      InsertWithKey(x, s[1..], key, k);
      assert Insert(x, s, key)[1..] == t;
      assert ([x] + s)[1..] == s;
      assert s == [s[0]] + s[1..];
      assert ([x] + s[1..])[1..] == s[1..];
    }
  }

  /** A stable sort of `s` by ascending key. */
  function SortByKey<T>(s: seq<T>, key: T -> real): (r: seq<T>)
    ensures SortedBy(r, key)
    ensures multiset(r) == multiset(s)
    ensures forall k :: WithKey(r, key, k) == WithKey(s, key, k)
    decreases |s|
  {
    if s == [] then []
    else
      var rest := SortByKey(s[1..], key);
      var r := Insert(s[0], rest, key);
      assert s == [s[0]] + s[1..];
      forall k ensures WithKey(r, key, k) == WithKey(s, key, k) {
        InsertKeepsKeyOrder(s, rest, key, k);
      }
      r
  }

  lemma InsertKeepsKeyOrder<T>(s: seq<T>, rest: seq<T>, key: T -> real, k: real)
    requires s != [] && SortedBy(rest, key)
    requires WithKey(rest, key, k) == WithKey(s[1..], key, k)
    ensures WithKey(Insert(s[0], rest, key), key, k) == WithKey(s, key, k)
  {
    InsertWithKey(s[0], rest, key, k);
    assert ([s[0]] + rest)[1..] == rest;
    assert s == [s[0]] + s[1..];
  }

  /** An already sorted input comes back unchanged. */
  lemma {:induction false} SortSorted<T>(s: seq<T>, key: T -> real)
    requires SortedBy(s, key)
    ensures SortByKey(s, key) == s
    decreases |s|
  {
    if s != [] {
      SortSorted(s[1..], key);
      assert s == [s[0]] + s[1..];
    }
  }
}
