/**
 * Python's `sorted(xs, key=...)`: a stable sort by a real-valued key.
 * Both the candidate ranking and the best-path search sort this way, and
 * both rely on ties keeping their input order.
 */
module Sorting {

  /** Keys never decrease from left to right. */
  predicate SortedBy<T>(xs: seq<T>, key: T -> real) {
    forall i, j :: 0 <= i < j < |xs| ==> key(xs[i]) <= key(xs[j])
  }

  /** The elements of `xs` whose key is `k`, in their order in `xs`. */
  function WithKey<T>(xs: seq<T>, key: T -> real, k: real): seq<T> {
    if xs == [] then []
    else (if key(xs[0]) == k then [xs[0]] else []) + WithKey(xs[1..], key, k)
  }

  /** Puts `x` in front of the first element whose key is not smaller. */
  function Insert<T(==)>(x: T, ys: seq<T>, key: T -> real): (r: seq<T>)
    requires SortedBy(ys, key)
    ensures |r| == |ys| + 1
    ensures r[0] == x || (ys != [] && r[0] == ys[0])
    ensures multiset(r) == multiset(ys) + multiset{x}
    ensures SortedBy(r, key)
  {
    if ys == [] || key(x) <= key(ys[0]) then
      ConsSorted(x, ys, key);
      [x] + ys
    else
      assert ys == [ys[0]] + ys[1..];
      var rest := Insert(x, ys[1..], key);
      ConsSorted(ys[0], rest, key);
      [ys[0]] + rest
  }

  /** A sorted sequence stays sorted behind an element whose key is not larger than its head's. */
  lemma ConsSorted<T>(y: T, xs: seq<T>, key: T -> real)
    requires SortedBy(xs, key) && (xs != [] ==> key(y) <= key(xs[0]))
    ensures SortedBy([y] + xs, key)
  {
    var r := [y] + xs;
    forall i, j | 0 <= i < j < |r| ensures key(r[i]) <= key(r[j]) {
      if i == 0 {
        assert key(y) <= key(xs[0]) <= key(xs[j - 1]);
      } else {
        assert r[i] == xs[i - 1] && r[j] == xs[j - 1];
      }
    }
  }

  /** Insertion sort, inserting the head into the sorted tail. */
  function SortBy<T(==)>(xs: seq<T>, key: T -> real): (r: seq<T>)
    ensures |r| == |xs|
    ensures multiset(r) == multiset(xs)
    ensures SortedBy(r, key)
  {
    if xs == [] then []
    else
      assert xs == [xs[0]] + xs[1..];
      var r := Insert(xs[0], SortBy(xs[1..], key), key);
      assert |r| == |multiset(r)|;
      r
  }

  lemma {:induction false} WithKeyAppend<T>(xs: seq<T>, ys: seq<T>, key: T -> real, k: real)
    ensures WithKey(xs + ys, key, k) == WithKey(xs, key, k) + WithKey(ys, key, k)
  {
    if xs != [] {
      var head := if key(xs[0]) == k then [xs[0]] else [];
      assert (xs + ys)[0] == xs[0];
      assert (xs + ys)[1..] == xs[1..] + ys;
      WithKeyAppend(xs[1..], ys, key, k);
      assert WithKey(xs, key, k) == head + WithKey(xs[1..], key, k);
      calc {
        WithKey(xs + ys, key, k);
        head + WithKey(xs[1..] + ys, key, k);
        head + (WithKey(xs[1..], key, k) + WithKey(ys, key, k));
        (head + WithKey(xs[1..], key, k)) + WithKey(ys, key, k);
      }
    } else {
      assert xs + ys == ys;
    }
  }

  lemma {:induction false} InsertStable<T>(x: T, ys: seq<T>, key: T -> real, k: real)
    requires SortedBy(ys, key)
    ensures WithKey(Insert(x, ys, key), key, k)
         == (if key(x) == k then [x] else []) + WithKey(ys, key, k)
  {
    if ys == [] || key(x) <= key(ys[0]) {
      WithKeyAppend([x], ys, key, k);
    } else {
      var rest := Insert(x, ys[1..], key);
      assert Insert(x, ys, key) == [ys[0]] + rest;
      InsertStable(x, ys[1..], key, k);
      WithKeyAppend([ys[0]], rest, key, k);
      assert ys == [ys[0]] + ys[1..];
      WithKeyAppend([ys[0]], ys[1..], key, k);
      if key(x) == k {
        assert WithKey([ys[0]], key, k) == [];
      }
    }
  }

  /**
   * The sort is stable: among elements with equal keys the input order is
   * kept.
   */
  lemma {:induction false} SortByStable<T>(xs: seq<T>, key: T -> real, k: real)
    ensures WithKey(SortBy(xs, key), key, k) == WithKey(xs, key, k)
  {
    if xs != [] {
      SortByStable(xs[1..], key, k);
      InsertStable(xs[0], SortBy(xs[1..], key), key, k);
    }
  }

  /**
   * The first element with key `k` is the first element of `xs` with that
   * key.
   */
  lemma {:induction false} FirstWithKey<T>(xs: seq<T>, key: T -> real, k: real)
    requires WithKey(xs, key, k) != []
    ensures exists i :: 0 <= i < |xs| && xs[i] == WithKey(xs, key, k)[0] && key(xs[i]) == k
                        && forall j :: 0 <= j < i ==> key(xs[j]) != k
  {
    if key(xs[0]) != k {
      FirstWithKey(xs[1..], key, k);
      var i :| 0 <= i < |xs[1..]| && xs[1..][i] == WithKey(xs[1..], key, k)[0] && key(xs[1..][i]) == k
               && forall j :: 0 <= j < i ==> key(xs[1..][j]) != k;
      assert xs[i + 1] == xs[1..][i];
      forall j | 0 <= j < i + 1 ensures key(xs[j]) != k {
        if j > 0 {
          assert xs[j] == xs[1..][j - 1];
        }
      }
    }
  }

  /** `xs[k]` has the least key of `xs`, and every element before it has a larger key. */
  predicate FirstLeast<T>(xs: seq<T>, key: T -> real, k: int) {
    && 0 <= k < |xs|
    && (forall j :: 0 <= j < |xs| ==> key(xs[k]) <= key(xs[j]))
    && (forall j :: 0 <= j < k ==> key(xs[j]) > key(xs[k]))
  }

  /**
   * The head of the sorted sequence is the first element of least key in
   * the input: the sort breaks ties by input order.
   */
  lemma SortByHeadFirstOfLeast<T>(xs: seq<T>, key: T -> real)
    requires xs != []
    ensures exists k :: FirstLeast(xs, key, k) && SortBy(xs, key)[0] == xs[k]
  {
    var sorted := SortBy(xs, key);
    var m := key(sorted[0]);
    forall j | 0 <= j < |xs| ensures m <= key(xs[j]) {
      assert xs[j] in multiset(xs);
      var i :| 0 <= i < |sorted| && sorted[i] == xs[j];
      assert i == 0 || key(sorted[0]) <= key(sorted[i]);
    }
    SortByStable(xs, key, m);
    assert WithKey(sorted, key, m)[0] == sorted[0];
    FirstWithKey(xs, key, m);
    var k :| 0 <= k < |xs| && xs[k] == WithKey(xs, key, m)[0] && key(xs[k]) == m
             && forall j :: 0 <= j < k ==> key(xs[j]) != m;
    assert FirstLeast(xs, key, k);
  }

  /** Sorting keeps exactly the elements it was given. */
  lemma SortByMembers<T>(xs: seq<T>, key: T -> real, x: T)
    ensures x in SortBy(xs, key) <==> x in xs
  {
    assert x in SortBy(xs, key) <==> x in multiset(SortBy(xs, key));
  }
}
