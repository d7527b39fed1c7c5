/** Python's `list.sort(key=...)`: a stable sort by an integer key, written as an
    insertion sort. */
module Sorting {

  predicate SortedBy<T>(s: seq<T>, key: T -> int) {
    forall i, j | 0 <= i < j < |s| :: key(s[i]) <= key(s[j])
  }

  /** Puts `x` before the first element whose key is not smaller, so that `x` precedes
      every element of `s` with the same key. */
  function InsertBy<T>(x: T, s: seq<T>, key: T -> int): seq<T>
    decreases |s|
  {
    if s == [] || key(x) <= key(s[0]) then [x] + s
    else [s[0]] + InsertBy(x, s[1..], key)
  }

  function SortBy<T>(s: seq<T>, key: T -> int): seq<T>
    decreases |s|
  {
    if s == [] then [] else InsertBy(s[0], SortBy(s[1..], key), key)
  }

  lemma {:induction false} InsertByPerm<T>(x: T, s: seq<T>, key: T -> int)
    ensures multiset(InsertBy(x, s, key)) == multiset(s) + multiset{x}
    ensures |InsertBy(x, s, key)| == |s| + 1
    decreases |s|
  {
    if s != [] && key(x) > key(s[0]) {
      InsertByPerm(x, s[1..], key);
      assert s == [s[0]] + s[1..];
    }
  }

  /** Every key of `InsertBy(x, s, key)` is at least `b` when those of `x` and `s` are. */
  lemma {:induction false} InsertByLower<T>(x: T, s: seq<T>, key: T -> int, b: int)
    requires b <= key(x)
    requires forall k | 0 <= k < |s| :: b <= key(s[k])
    ensures forall k | 0 <= k < |InsertBy(x, s, key)| :: b <= key(InsertBy(x, s, key)[k])
    decreases |s|
  {
    if s != [] && key(x) > key(s[0]) {
      InsertByLower(x, s[1..], key, b);
    }
  }

  lemma {:induction false} InsertByProps<T>(x: T, s: seq<T>, key: T -> int)
    requires SortedBy(s, key)
    ensures SortedBy(InsertBy(x, s, key), key)
    ensures multiset(InsertBy(x, s, key)) == multiset(s) + multiset{x}
    decreases |s|
  {
    InsertByPerm(x, s, key);
    if s != [] && key(x) > key(s[0]) {
      InsertByProps(x, s[1..], key);
      InsertByLower(x, s[1..], key, key(s[0]));
    }
  }

  /** The sort orders by key and is a permutation of its input. */
  lemma {:induction false} SortByProps<T>(s: seq<T>, key: T -> int)
    ensures SortedBy(SortBy(s, key), key)
    ensures multiset(SortBy(s, key)) == multiset(s)
    ensures |SortBy(s, key)| == |s|
    decreases |s|
  {
    if s != [] {
      SortByProps(s[1..], key);
      InsertByProps(s[0], SortBy(s[1..], key), key);
      assert s == [s[0]] + s[1..];
    }
    assert |multiset(SortBy(s, key))| == |SortBy(s, key)|;
  }

  /** The head of a sorted non-empty sequence has the least key, and is an element. */
  lemma SortByHeadIsLeast<T>(s: seq<T>, key: T -> int)
    requires s != []
    ensures SortBy(s, key) != []
    ensures SortBy(s, key)[0] in s
    ensures forall x | x in s :: key(SortBy(s, key)[0]) <= key(x)
  {
    SortByProps(s, key);
    var r := SortBy(s, key);
    assert r[0] in multiset(r);
    forall x | x in s ensures key(r[0]) <= key(x) {
      assert x in multiset(r);
      var k :| 0 <= k < |r| && r[k] == x;
    }
  }

  /** Stability: among elements with equal keys the original order is kept. */
  lemma {:induction false} SortByStable<T>(s: seq<T>, key: T -> int, v: int)
    ensures Keyed(SortBy(s, key), key, v) == Keyed(s, key, v)
    decreases |s|
  {
    if s != [] {
      SortByStable(s[1..], key, v);
      InsertByKeyed(s[0], SortBy(s[1..], key), key, v);
      assert s == [s[0]] + s[1..];
      KeyedAppend([s[0]], s[1..], key, v);
    }
  }

  /** The elements of `s` whose key is `v`, in order. */
  function Keyed<T>(s: seq<T>, key: T -> int, v: int): seq<T>
    decreases |s|
  {
    if s == [] then [] else (if key(s[0]) == v then [s[0]] else []) + Keyed(s[1..], key, v)
  }

  lemma {:induction false} KeyedAppend<T>(a: seq<T>, b: seq<T>, key: T -> int, v: int)
    ensures Keyed(a + b, key, v) == Keyed(a, key, v) + Keyed(b, key, v)
    decreases |a|
  {
    if a != [] {
      KeyedAppend(a[1..], b, key, v);
      assert (a + b)[1..] == a[1..] + b;
    } else {
      assert a + b == b;
    }
  }

  lemma {:induction false} InsertByKeyed<T>(x: T, s: seq<T>, key: T -> int, v: int)
    ensures Keyed(InsertBy(x, s, key), key, v) == (if key(x) == v then [x] else []) + Keyed(s, key, v)
    decreases |s|
  {
    if s != [] && key(x) > key(s[0]) {
      InsertByKeyed(x, s[1..], key, v);
      assert ([s[0]] + InsertBy(x, s[1..], key))[1..] == InsertBy(x, s[1..], key);
    } else {
      assert ([x] + s)[1..] == s;
    }
  }
}
