/**
 * Python's `sorted(xs, key=k)` and `sorted(xs, key=k, reverse=True)`: a stable
 * sort that compares keys with one strict order `lt` (for `reverse=True`, the
 * order with its arguments swapped: equal keys still keep their input order).
 * Also `sorted(set(xs))` over integers.
 */
module StableSort {

  ghost predicate StrictTotalOrder<K(!new)>(lt: (K, K) -> bool)
  {
    && (forall a :: !lt(a, a))
    && (forall a, b, c :: lt(a, b) && lt(b, c) ==> lt(a, c))
    && (forall a, b :: a == b || lt(a, b) || lt(b, a))
  }

  /** No element is strictly smaller, by key, than an element before it. */
  ghost predicate SortedBy<T, K>(s: seq<T>, key: T -> K, lt: (K, K) -> bool)
  {
    forall i, j :: 0 <= i < j < |s| ==> !lt(key(s[j]), key(s[i]))
  }

  /** The elements of `s` whose key is `k`, in their order in `s`. */
  function WithKey<T, K(==)>(s: seq<T>, key: T -> K, k: K): seq<T>
  {
    if s == [] then [] else (if key(s[0]) == k then [s[0]] else []) + WithKey(s[1..], key, k)
  }

  /** Puts `x` in front of the first element whose key is not smaller than its own. */
  function Insert<T, K>(x: T, s: seq<T>, key: T -> K, lt: (K, K) -> bool): seq<T>
  {
    if s == [] then [x]
    else if lt(key(s[0]), key(x)) then [s[0]] + Insert(x, s[1..], key, lt)
    else [x] + s
  }

  /** Stable sort by key: the value Python's `sorted` returns. */
  function SortBy<T, K>(s: seq<T>, key: T -> K, lt: (K, K) -> bool): seq<T>
  {
    if s == [] then [] else Insert(s[0], SortBy(s[1..], key, lt), key, lt)
  }

  lemma {:induction false} InsertPermutes<T, K>(x: T, s: seq<T>, key: T -> K, lt: (K, K) -> bool)
    ensures multiset(Insert(x, s, key, lt)) == multiset(s) + multiset{x}
  {
    if s != [] && lt(key(s[0]), key(x)) {
      InsertPermutes(x, s[1..], key, lt);
      assert s == [s[0]] + s[1..];
    }
  }

  /** The sort is a permutation of its input. */
  lemma {:induction false} SortByPermutes<T, K>(s: seq<T>, key: T -> K, lt: (K, K) -> bool)
    ensures multiset(SortBy(s, key, lt)) == multiset(s)
    ensures |SortBy(s, key, lt)| == |s|
  {
    if s != [] {
      SortByPermutes(s[1..], key, lt);
      InsertPermutes(s[0], SortBy(s[1..], key, lt), key, lt);
      assert s == [s[0]] + s[1..];
    }
    assert |multiset(SortBy(s, key, lt))| == |multiset(s)|;
  }

  lemma {:induction false} InsertSorted<T, K(!new)>(x: T, s: seq<T>, key: T -> K, lt: (K, K) -> bool)
    requires StrictTotalOrder(lt)
    requires SortedBy(s, key, lt)
    ensures SortedBy(Insert(x, s, key, lt), key, lt)
    ensures |Insert(x, s, key, lt)| == |s| + 1
  {
    if s != [] {
      if lt(key(s[0]), key(x)) {
        InsertSorted(x, s[1..], key, lt);
        var r := Insert(x, s, key, lt);
        var t := Insert(x, s[1..], key, lt);
        assert r == [s[0]] + t;
        InsertElements(x, s[1..], key, lt);
        forall j | 0 < j < |r|
          ensures !lt(key(r[j]), key(r[0]))
        {
          assert r[j] == t[j - 1];
          if t[j - 1] == x {
            // s[0] < x, so x is not below s[0]
          } else {
            var m :| 0 <= m < |s[1..]| && t[j - 1] == s[1..][m];
            assert s[1..][m] == s[m + 1];
          }
        }
      } else {
        var r := [x] + s;
        forall j | 0 < j < |r|
          ensures !lt(key(r[j]), key(r[0]))
        {
          assert r[j] == s[j - 1];
          if j > 1 {
            assert !lt(key(s[j - 1]), key(s[0]));
          }
          assert key(s[j - 1]) == key(s[0]) || lt(key(s[0]), key(s[j - 1]));
        }
      }
    }
  }

  /** Every element of `Insert(x, s)` is `x` or an element of `s`. */
  lemma {:induction false} InsertElements<T, K>(x: T, s: seq<T>, key: T -> K, lt: (K, K) -> bool)
    ensures |Insert(x, s, key, lt)| == |s| + 1
    ensures forall j :: 0 <= j < |Insert(x, s, key, lt)| ==>
      Insert(x, s, key, lt)[j] == x || exists m :: 0 <= m < |s| && Insert(x, s, key, lt)[j] == s[m]
  {
    if s != [] && lt(key(s[0]), key(x)) {
      InsertElements(x, s[1..], key, lt);
      var r := Insert(x, s, key, lt);
      var t := Insert(x, s[1..], key, lt);
      forall j | 0 < j < |r|
        ensures r[j] == x || exists m :: 0 <= m < |s| && r[j] == s[m]
      {
        assert r[j] == t[j - 1];
        if t[j - 1] != x {
          var m :| 0 <= m < |s[1..]| && t[j - 1] == s[1..][m];
          assert s[m + 1] == r[j];
        }
      }
      assert r[0] == s[0];
    } else if s != [] {
      var r := Insert(x, s, key, lt);
      forall j | 0 < j < |r|
        ensures exists m :: 0 <= m < |s| && r[j] == s[m]
      {
        assert r[j] == s[j - 1];
      }
    }
  }

  /** The sort's output is ordered by key. */
  lemma {:induction false} SortBySorted<T, K(!new)>(s: seq<T>, key: T -> K, lt: (K, K) -> bool)
    requires StrictTotalOrder(lt)
    ensures SortedBy(SortBy(s, key, lt), key, lt)
  {
    if s != [] {
      SortBySorted(s[1..], key, lt);
      InsertSorted(s[0], SortBy(s[1..], key, lt), key, lt);
    }
  }

  lemma {:induction false} InsertStable<T, K(!new)>(x: T, s: seq<T>, key: T -> K, lt: (K, K) -> bool, k: K)
    requires forall a :: !lt(a, a)
    ensures WithKey(Insert(x, s, key, lt), key, k) == WithKey([x] + s, key, k)
  {
    if s != [] && lt(key(s[0]), key(x)) {
      InsertStable(x, s[1..], key, lt, k);
      var t := Insert(x, s[1..], key, lt);
      assert ([s[0]] + t)[1..] == t;
      assert ([x] + s)[1..] == s;
      assert ([x] + s[1..])[1..] == s[1..];
      assert s == [s[0]] + s[1..];
      assert !lt(key(x), key(x));
    }
  }

  /**
   * Stability: for every key, the elements carrying it appear in the output in
   * the same order as in the input.
   */
  lemma {:induction false} SortByStable<T, K(!new)>(s: seq<T>, key: T -> K, lt: (K, K) -> bool, k: K)
    requires forall a :: !lt(a, a)
    ensures WithKey(SortBy(s, key, lt), key, k) == WithKey(s, key, k)
  {
    if s != [] {
      SortByStable(s[1..], key, lt, k);
      InsertStable(s[0], SortBy(s[1..], key, lt), key, lt, k);
      assert ([s[0]] + SortBy(s[1..], key, lt))[1..] == SortBy(s[1..], key, lt);
    }
  }

  /** Strictly increasing. */
  ghost predicate Increasing(s: seq<int>)
  {
    forall i, j :: 0 <= i < j < |s| ==> s[i] < s[j]
  }

  /** Adds `x` to a strictly increasing sequence unless it is already there. */
  function InsertDistinct(x: int, s: seq<int>): (r: seq<int>)
    requires Increasing(s)
    ensures Increasing(r)
    ensures forall y :: y in r <==> y == x || y in s
  {
    if s == [] then [x]
    else if s[0] < x then
      var r := InsertDistinct(x, s[1..]);
      assert forall i :: 0 <= i < |r| ==> r[i] in r;
      [s[0]] + r
    else if s[0] == x then s
    else [x] + s
  }

  /** Python `sorted(set(xs))` for integers. */
  function SortedDistinct(xs: seq<int>): (keys: seq<int>)
    ensures Increasing(keys)
    ensures forall y :: y in keys <==> y in xs
  {
    if xs == [] then [] else InsertDistinct(xs[0], SortedDistinct(xs[1..]))
  }

  /** Two strictly increasing sequences with the same elements are equal. */
  lemma {:induction false} IncreasingUnique(a: seq<int>, b: seq<int>)
    requires Increasing(a) && Increasing(b)
    requires forall y :: y in a <==> y in b
    ensures a == b
  {
    assert a != [] ==> a[0] in a && a[0] in b;
    assert b != [] ==> b[0] in b && b[0] in a;
    if a != [] && b != [] {
      assert a[0] in b && b[0] in a;
      assert a[0] == b[0];
      forall y
        ensures y in a[1..] <==> y in b[1..]
      {
        if y in a[1..] { assert y > a[0]; assert y in b; }
        if y in b[1..] { assert y > b[0]; assert y in a; }
      }
      IncreasingUnique(a[1..], b[1..]);
      assert a == [a[0]] + a[1..] && b == [b[0]] + b[1..];
    }
  }
}
