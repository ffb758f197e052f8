/** `Array.prototype.sort` with a comparator that compares one integer key
    per element (`key(a) - key(b)`, or 0 for every pair). The sort is stable
    (required since ECMAScript 2019), so for such a comparator its result is
    the stable sort by that key, written here as an insertion sort. */
module Sorting {

  /** Keys never decrease from left to right. */
  predicate SortedByKey<T>(s: seq<T>, key: T -> int) {
    forall i, j | 0 <= i < j < |s| :: key(s[i]) <= key(s[j])
  }

  /** The elements of `s` whose key is `k`, in their order in `s`. */
  function WithKey<T>(s: seq<T>, key: T -> int, k: int): seq<T> {
    if s == [] then []
    else (if key(s[0]) == k then [s[0]] else []) + WithKey(s[1..], key, k)
  }

  /** Insert `x` before the first element whose key is not smaller. */
  function Insert<T(==)>(x: T, s: seq<T>, key: T -> int): (r: seq<T>)
    ensures multiset(r) == multiset(s) + multiset{x}
  {
    if s == [] || key(x) <= key(s[0]) then [x] + s
    else
      assert s == [s[0]] + s[1..];
      [s[0]] + Insert(x, s[1..], key)
  }

  /** The stable sort of `s` by `key`: a permutation of `s` whose keys never
      decrease. */
  function SortByKey<T(==)>(s: seq<T>, key: T -> int): (r: seq<T>)
    ensures multiset(r) == multiset(s)
    ensures SortedByKey(r, key)
  {
    if s == [] then []
    else
      assert s == [s[0]] + s[1..];
      InsertSorted(s[0], SortByKey(s[1..], key), key);
      Insert(s[0], SortByKey(s[1..], key), key)
  }

  // ---------------------------------------------------------------------
  // Lemmas

  /** Inserting into a sorted sequence keeps it sorted. */
  lemma {:induction false} InsertSorted<T>(x: T, s: seq<T>, key: T -> int)
    requires SortedByKey(s, key)
    ensures SortedByKey(Insert(x, s, key), key)
  {
    if !(s == [] || key(x) <= key(s[0])) {
      var t := s[1..];
      var rest := Insert(x, t, key);
      InsertSorted(x, t, key);
      InsertBound(x, t, key, key(s[0]));
      var r := Insert(x, s, key);
      assert r == [s[0]] + rest;
      forall i, j | 0 <= i < j < |r|
        ensures key(r[i]) <= key(r[j])
      {
        assert r[j] == rest[j - 1];
        if i > 0 {
          assert r[i] == rest[i - 1];
        }
      }
    }
  }

  /** A lower bound on all keys survives an insertion that respects it. */
  lemma {:induction false} InsertBound<T>(x: T, t: seq<T>, key: T -> int, b: int)
    requires b <= key(x)
    requires forall i | 0 <= i < |t| :: b <= key(t[i])
    ensures forall j | 0 <= j < |Insert(x, t, key)| :: b <= key(Insert(x, t, key)[j])
  {
    if !(t == [] || key(x) <= key(t[0])) {
      InsertBound(x, t[1..], key, b);
      assert Insert(x, t, key) == [t[0]] + Insert(x, t[1..], key);
    }
  }

  lemma WithKeyCons<T>(y: T, t: seq<T>, key: T -> int, k: int)
    ensures WithKey([y] + t, key, k) == (if key(y) == k then [y] else []) + WithKey(t, key, k)
  {
    assert ([y] + t)[0] == y && ([y] + t)[1..] == t;
  }

  /** Inserting `x` keeps the relative order of every group of equal keys,
      with `x` ahead of the elements that share its key. */
  lemma {:induction false} InsertStable<T>(x: T, s: seq<T>, key: T -> int, k: int)
    ensures WithKey(Insert(x, s, key), key, k) == WithKey([x] + s, key, k)
  {
    if s == [] || key(x) <= key(s[0]) {
    } else {
      var t := s[1..];
      assert s == [s[0]] + t;
      var rest := Insert(x, t, key);
      assert Insert(x, s, key) == [s[0]] + rest;
      InsertStable(x, t, key, k);
      var hx := if key(x) == k then [x] else [];
      var h0 := if key(s[0]) == k then [s[0]] else [];
      WithKeyCons(s[0], rest, key, k);
      WithKeyCons(x, t, key, k);
      WithKeyCons(s[0], t, key, k);
      WithKeyCons(x, s, key, k);
      assert h0 == [] || hx == [];
      assert h0 + (hx + WithKey(t, key, k)) == hx + (h0 + WithKey(t, key, k));
    }
  }

  /** Stability: within each key, the sorted sequence lists the elements in
      the order they had in the input. */
  lemma {:induction false} SortStable<T>(s: seq<T>, key: T -> int, k: int)
    ensures WithKey(SortByKey(s, key), key, k) == WithKey(s, key, k)
  {
    if s != [] {
      var t := s[1..];
      assert s == [s[0]] + t;
      var sorted := SortByKey(t, key);
      assert SortByKey(s, key) == Insert(s[0], sorted, key);
      SortStable(t, key, k);
      InsertStable(s[0], sorted, key, k);
      WithKeyCons(s[0], sorted, key, k);
      WithKeyCons(s[0], t, key, k);
    }
  }

  lemma {:induction false} WithKeyAll<T>(s: seq<T>, key: T -> int, k: int)
    requires forall i | 0 <= i < |s| :: key(s[i]) == k
    ensures WithKey(s, key, k) == s
  {
    if s != [] {
      WithKeyAll(s[1..], key, k);
    }
  }

  /** When every element has the same key (a comparator that always returns
      0) the sort leaves the order unchanged. */
  lemma SortConstantKey<T>(s: seq<T>, key: T -> int, k: int)
    requires forall i | 0 <= i < |s| :: key(s[i]) == k
    ensures SortByKey(s, key) == s
  {
    var r := SortByKey(s, key);
    forall i | 0 <= i < |r|
      ensures key(r[i]) == k
    {
      assert r[i] in multiset(s);
    }
    SortStable(s, key, k);
    WithKeyAll(s, key, k);
    WithKeyAll(r, key, k);
  }
}
