/**
 * `Array.prototype.sort` with a comparator that subtracts two numeric keys.
 * The sort is stable, so its result is the unique ordering that is sorted by
 * the key and keeps elements with equal keys in their original order; an
 * insertion sort computes exactly that ordering.
 */
module Sorting {

  /** Keys never decrease along `xs`. */
  ghost predicate SortedBy<T>(xs: seq<T>, key: T -> real)
  {
    forall i, j :: 0 <= i < j < |xs| ==> key(xs[i]) <= key(xs[j])
  }

  /** The elements of `xs` whose key is `k`, in order. */
  function WithKey<T>(xs: seq<T>, key: T -> real, k: real): (r: seq<T>)
    ensures |r| <= |xs|
    decreases |xs|
  {
    if |xs| == 0 then []
    else (if key(xs[0]) == k then [xs[0]] else []) + WithKey(xs[1..], key, k)
  }

  /** `x` placed before the first element whose key is not smaller. */
  function Insert<T>(x: T, ys: seq<T>, key: T -> real): (r: seq<T>)
    ensures multiset(r) == multiset(ys) + multiset{x}
    ensures |r| == |ys| + 1
    ensures r[0] == if |ys| == 0 || key(x) <= key(ys[0]) then x else ys[0]
    decreases |ys|
  {
    if |ys| == 0 || key(x) <= key(ys[0]) then [x] + ys
    else
      assert ys == [ys[0]] + ys[1..];
      [ys[0]] + Insert(x, ys[1..], key)
  }

  /** The stable sort of `xs` by ascending key. */
  function SortBy<T>(xs: seq<T>, key: T -> real): (r: seq<T>)
    ensures multiset(r) == multiset(xs) && |r| == |xs|
    decreases |xs|
  {
    if |xs| == 0 then []
    else
      assert xs == [xs[0]] + xs[1..];
      Insert(xs[0], SortBy(xs[1..], key), key)
  }

  lemma {:induction false} InsertSorted<T>(x: T, ys: seq<T>, key: T -> real)
    requires SortedBy(ys, key)
    ensures SortedBy(Insert(x, ys, key), key)
    decreases |ys|
  {
    if |ys| == 0 || key(x) <= key(ys[0]) {
      ConsSorted(x, ys, key);
    } else {
      TailSorted(ys, key);
      InsertSorted(x, ys[1..], key);
      var t := Insert(x, ys[1..], key);
      assert |ys| > 1 ==> key(ys[0]) <= key(ys[1]);
      ConsSorted(ys[0], t, key);
    }
  }

  lemma TailSorted<T>(ys: seq<T>, key: T -> real)
    requires |ys| > 0 && SortedBy(ys, key)
    ensures SortedBy(ys[1..], key)
  {
    forall i, j | 0 <= i < j < |ys| - 1 ensures key(ys[1..][i]) <= key(ys[1..][j]) {
      assert ys[1..][i] == ys[i + 1] && ys[1..][j] == ys[j + 1];
    }
  }

  /** An element no larger than the head of a sorted sequence extends it. */
  lemma ConsSorted<T>(a: T, t: seq<T>, key: T -> real)
    requires SortedBy(t, key) && (|t| > 0 ==> key(a) <= key(t[0]))
    ensures SortedBy([a] + t, key)
  {
    var s := [a] + t;
    forall i, j | 0 <= i < j < |s| ensures key(s[i]) <= key(s[j]) {
      assert s[j] == t[j - 1];
      if i > 0 {
        assert s[i] == t[i - 1];
      } else if j > 1 {
        assert key(t[0]) <= key(t[j - 1]);
      }
    }
  }

  /** The result is ordered by key and holds the same elements. */
  lemma {:induction false} SortBySorted<T>(xs: seq<T>, key: T -> real)
    ensures SortedBy(SortBy(xs, key), key)
    ensures multiset(SortBy(xs, key)) == multiset(xs)
    decreases |xs|
  {
    if |xs| > 0 {
      SortBySorted(xs[1..], key);
      InsertSorted(xs[0], SortBy(xs[1..], key), key);
    }
  }

  /** Inserting into a sorted sequence puts `x` before every element with its key. */
  lemma {:induction false} InsertWithKey<T>(x: T, ys: seq<T>, key: T -> real, k: real)
    requires SortedBy(ys, key)
    ensures WithKey(Insert(x, ys, key), key, k)
         == (if key(x) == k then [x] else []) + WithKey(ys, key, k)
    decreases |ys|
  {
    if |ys| == 0 || key(x) <= key(ys[0]) {
      WithKeyCons(x, ys, key, k);
    } else {
      var y := ys[0];
      TailSorted(ys, key);
      InsertWithKey(x, ys[1..], key, k);
      var t := Insert(x, ys[1..], key);
      assert Insert(x, ys, key) == [y] + t;
      var h := if key(y) == k then [y] else [];
      var xh := if key(x) == k then [x] else [];
      WithKeyCons(y, t, key, k);
      WithKeyCons(y, ys[1..], key, k);
      assert ys == [y] + ys[1..];
      assert key(x) > key(y);
      assert h == [] || xh == [];
      SwapEmpty(h, xh, WithKey(ys[1..], key, k));
    }
  }

  lemma SwapEmpty<T>(a: seq<T>, b: seq<T>, c: seq<T>)
    requires a == [] || b == []
    ensures a + (b + c) == b + (a + c)
  {
    if a == [] {
      assert a + (b + c) == b + c == b + (a + c);
    } else {
      assert a + (b + c) == a + c == b + (a + c);
    }
  }

  /** The elements of `a` followed by `t` with key `k`. */
  lemma WithKeyCons<T>(a: T, t: seq<T>, key: T -> real, k: real)
    ensures WithKey([a] + t, key, k) == (if key(a) == k then [a] else []) + WithKey(t, key, k)
  {
    assert ([a] + t)[1..] == t;
  }

  /** The sort is stable: elements with equal keys keep their order. */
  lemma {:induction false} SortByStable<T>(xs: seq<T>, key: T -> real, k: real)
    ensures WithKey(SortBy(xs, key), key, k) == WithKey(xs, key, k)
    decreases |xs|
  {
    if |xs| > 0 {
      SortByStable(xs[1..], key, k);
      SortBySorted(xs[1..], key);
      InsertWithKey(xs[0], SortBy(xs[1..], key), key, k);
    }
  }

  /** Every element of the sorted sequence comes from the input. */
  lemma SortByMembers<T>(xs: seq<T>, key: T -> real)
    ensures forall i :: 0 <= i < |SortBy(xs, key)| ==> SortBy(xs, key)[i] in xs
  {
    var r := SortBy(xs, key);
    forall i | 0 <= i < |r| ensures r[i] in xs {
      assert r[i] in multiset(r);
    }
  }

  /** No two elements share a value of `f`. */
  ghost predicate DistinctBy<T, U>(xs: seq<T>, f: T -> U)
  {
    forall i, j :: 0 <= i < j < |xs| ==> f(xs[i]) != f(xs[j])
  }

  lemma InsertMembers<T>(x: T, ys: seq<T>, key: T -> real)
    ensures forall i :: 0 <= i < |Insert(x, ys, key)| ==> Insert(x, ys, key)[i] == x || Insert(x, ys, key)[i] in ys
  {
    var r := Insert(x, ys, key);
    forall i | 0 <= i < |r| ensures r[i] == x || r[i] in ys {
      assert r[i] in multiset(r);
    }
  }

  lemma {:induction false} InsertDistinct<T, U>(x: T, ys: seq<T>, key: T -> real, f: T -> U)
    requires DistinctBy(ys, f) && forall i :: 0 <= i < |ys| ==> f(ys[i]) != f(x)
    ensures DistinctBy(Insert(x, ys, key), f)
    decreases |ys|
  {
    var r := Insert(x, ys, key);
    if |ys| == 0 || key(x) <= key(ys[0]) {
      forall i, j | 0 <= i < j < |r| ensures f(r[i]) != f(r[j]) {
        assert r[j] == ys[j - 1];
        if i > 0 {
          assert r[i] == ys[i - 1];
        }
      }
    } else {
      var y, t := ys[0], Insert(x, ys[1..], key);
      assert DistinctBy(ys[1..], f) by {
        forall i, j | 0 <= i < j < |ys[1..]| ensures f(ys[1..][i]) != f(ys[1..][j]) {
          assert ys[1..][i] == ys[i + 1] && ys[1..][j] == ys[j + 1];
        }
      }
      InsertDistinct(x, ys[1..], key, f);
      InsertMembers(x, ys[1..], key);
      assert r == [y] + t;
      forall i, j | 0 <= i < j < |r| ensures f(r[i]) != f(r[j]) {
        assert r[j] == t[j - 1];
        if i > 0 {
          assert r[i] == t[i - 1];
        } else if t[j - 1] != x {
          var m :| 0 <= m < |ys[1..]| && ys[1..][m] == t[j - 1];
          assert t[j - 1] == ys[m + 1];
        }
      }
    }
  }

  /** Sorting keeps elements apart that were apart. */
  lemma {:induction false} SortByDistinct<T, U>(xs: seq<T>, key: T -> real, f: T -> U)
    requires DistinctBy(xs, f)
    ensures DistinctBy(SortBy(xs, key), f)
    decreases |xs|
  {
    if |xs| > 0 {
      var t := SortBy(xs[1..], key);
      assert DistinctBy(xs[1..], f) by {
        forall i, j | 0 <= i < j < |xs[1..]| ensures f(xs[1..][i]) != f(xs[1..][j]) {
          assert xs[1..][i] == xs[i + 1] && xs[1..][j] == xs[j + 1];
        }
      }
      SortByDistinct(xs[1..], key, f);
      SortByMembers(xs[1..], key);
      forall i | 0 <= i < |t| ensures f(t[i]) != f(xs[0]) {
        var m :| 0 <= m < |xs[1..]| && xs[1..][m] == t[i];
        assert t[i] == xs[m + 1];
      }
      InsertDistinct(xs[0], t, key, f);
    }
  }
}
