/**
 Stable descending sort by a real-valued key: the behaviour of Rust's
 `sort_by(|a, b| key(b).partial_cmp(&key(a)))` on values that are never NaN.
 It is specified by sortedness, permutation and stability; insertion sort is
 only the witness that such a result exists.
 */
module Sorting {
  import opened Seqs

  /** Keys never increase from left to right. */
  predicate SortedDesc<T>(s: seq<T>, key: T -> real) {
    forall i, j :: 0 <= i < j < |s| ==> key(s[i]) >= key(s[j])
  }

  /** The elements whose key is `v`, in their order in `s`. */
  function WithKey<T>(s: seq<T>, key: T -> real, v: real): (r: seq<T>)
    ensures |r| <= |s|
  {
    if s == [] then []
    else (if key(s[0]) == v then [s[0]] else []) + WithKey(s[1..], key, v)
  }

  /** Puts `x` in front of the first element whose key is not greater than its own. */
  function Insert<T>(x: T, s: seq<T>, key: T -> real): (r: seq<T>)
    requires SortedDesc(s, key)
    ensures SortedDesc(r, key)
    ensures |r| == |s| + 1
    ensures r[0] == x || (s != [] && r[0] == s[0])
  {
    if s == [] then [x]
    else if key(x) >= key(s[0]) then
      ConsSorted(x, s, key);
      [x] + s
    else
      var rest := Insert(x, s[1..], key);
      assert s == [s[0]] + s[1..];
      ConsSorted(s[0], rest, key);
      [s[0]] + rest
  }

  /** Insertion adds exactly one copy of `x`. */
  lemma {:induction false} InsertPermutes<T>(x: T, s: seq<T>, key: T -> real)
    requires SortedDesc(s, key)
    ensures multiset(Insert(x, s, key)) == multiset(s) + multiset{x}
  {
    if s != [] && key(x) < key(s[0]) {
      InsertPermutes(x, s[1..], key);
      assert s == [s[0]] + s[1..];
    }
  }

  /** An element no smaller than the head of a sorted sequence can go in front of it. */
  lemma ConsSorted<T>(y: T, s: seq<T>, key: T -> real)
    requires SortedDesc(s, key)
    requires s != [] ==> key(y) >= key(s[0])
    ensures SortedDesc([y] + s, key)
  {
    var r := [y] + s;
    forall i, j | 0 <= i < j < |r| ensures key(r[i]) >= key(r[j]) {
      if i == 0 {
        assert r[j] == s[j - 1];
      } else {
        assert r[i] == s[i - 1] && r[j] == s[j - 1];
      }
    }
  }

  /** `s` ordered by descending key; equal keys keep their relative order. */
  function SortDesc<T>(s: seq<T>, key: T -> real): (r: seq<T>)
    ensures SortedDesc(r, key)
    ensures multiset(r) == multiset(s)
    ensures |r| == |s|
  {
    if s == [] then []
    else
      var r := Insert(s[0], SortDesc(s[1..], key), key);
      InsertPermutes(s[0], SortDesc(s[1..], key), key);
      assert s == [s[0]] + s[1..];
      assert |multiset(r)| == |multiset(s)|;
      r
  }

  lemma {:induction false} WithKeyAppend<T>(a: seq<T>, b: seq<T>, key: T -> real, v: real)
    ensures WithKey(a + b, key, v) == WithKey(a, key, v) + WithKey(b, key, v)
  {
    if a != [] {
      var head := if key(a[0]) == v then [a[0]] else [];
      assert (a + b)[0] == a[0];
      assert (a + b)[1..] == a[1..] + b;
      WithKeyAppend(a[1..], b, key, v);
      calc {
        WithKey(a + b, key, v);
        head + WithKey(a[1..] + b, key, v);
        head + (WithKey(a[1..], key, v) + WithKey(b, key, v));
        (head + WithKey(a[1..], key, v)) + WithKey(b, key, v);
        WithKey(a, key, v) + WithKey(b, key, v);
      }
    } else {
      assert a + b == b;
    }
  }

  /** Inserting `x` keeps it in front of every element with the same key. */
  lemma {:induction false} InsertIsStable<T>(x: T, s: seq<T>, key: T -> real, v: real)
    requires SortedDesc(s, key)
    ensures WithKey(Insert(x, s, key), key, v) == WithKey([x] + s, key, v)
  {
    if s != [] && key(x) < key(s[0]) {
      InsertIsStable(x, s[1..], key, v);
      assert s == [s[0]] + s[1..];
      PassLarger(x, s[0], Insert(x, s[1..], key), s[1..], key, v);
    }
  }

  /** Moving `x` behind an element with a strictly larger key does not change any key's subsequence. */
  lemma PassLarger<T>(x: T, y: T, rest: seq<T>, tail: seq<T>, key: T -> real, v: real)
    requires key(x) < key(y)
    requires WithKey(rest, key, v) == WithKey([x] + tail, key, v)
    ensures WithKey([y] + rest, key, v) == WithKey([x] + ([y] + tail), key, v)
  {
    var hx := WithKey([x], key, v);
    var hy := WithKey([y], key, v);
    assert hx == [] || hy == [];
    calc {
      WithKey([y] + rest, key, v);
      { WithKeyAppend([y], rest, key, v); }
      hy + WithKey([x] + tail, key, v);
      { WithKeyAppend([x], tail, key, v); }
      hy + (hx + WithKey(tail, key, v));
      hx + (hy + WithKey(tail, key, v));
      { WithKeyAppend([y], tail, key, v); }
      hx + WithKey([y] + tail, key, v);
      { WithKeyAppend([x], [y] + tail, key, v); }
      WithKey([x] + ([y] + tail), key, v);
    }
  }

  /** Stability: for every key value, the elements with that key appear in the same order as in the input. */
  lemma {:induction false} SortIsStable<T>(s: seq<T>, key: T -> real, v: real)
    ensures WithKey(SortDesc(s, key), key, v) == WithKey(s, key, v)
  {
    if s != [] {
      SortIsStable(s[1..], key, v);
      InsertIsStable(s[0], SortDesc(s[1..], key), key, v);
      WithKeyAppend([s[0]], SortDesc(s[1..], key), key, v);
      WithKeyAppend([s[0]], s[1..], key, v);
      assert s == [s[0]] + s[1..];
    }
  }

  /** WithKey of a prefix is a prefix of WithKey of the whole. */
  lemma WithKeyPrefix<T>(a: seq<T>, b: seq<T>, key: T -> real, v: real)
    requires a <= b
    ensures WithKey(a, key, v) <= WithKey(b, key, v)
  {
    assert b == a + b[|a|..];
    WithKeyAppend(a, b[|a|..], key, v);
  }

  /**
   The first `k` elements of the stable descending sort: sorted, drawn from
   `s`, not outranked by anything left out, and, for each key, the earliest
   elements of `s` with that key in their order in `s`.
   */
  function TopK<T>(s: seq<T>, key: T -> real, k: nat): (r: seq<T>)
    ensures |r| == Min(k, |s|)
    ensures SortedDesc(r, key)
    ensures multiset(r) <= multiset(s)
    ensures forall x :: x in s && x !in r ==> forall i :: 0 <= i < |r| ==> key(x) <= key(r[i])
    ensures forall v :: WithKey(r, key, v) <= WithKey(s, key, v)
  {
    var sorted := SortDesc(s, key);
    TopOfSorted(s, sorted, Take(sorted, k), key);
    TopKIsStable(s, key, k);
    Take(sorted, k)
  }

  lemma TopKIsStable<T>(s: seq<T>, key: T -> real, k: nat)
    ensures forall v :: WithKey(Take(SortDesc(s, key), k), key, v) <= WithKey(s, key, v)
  {
    var sorted := SortDesc(s, key);
    forall v ensures WithKey(Take(sorted, k), key, v) <= WithKey(s, key, v) {
      SortIsStable(s, key, v);
      WithKeyPrefix(Take(sorted, k), sorted, key, v);
    }
  }

  /** A prefix of a sorted permutation of `s` is sorted, is a sub-multiset of `s`, and outranks what is left out. */
  lemma TopOfSorted<T>(s: seq<T>, sorted: seq<T>, r: seq<T>, key: T -> real)
    requires SortedDesc(sorted, key) && multiset(sorted) == multiset(s)
    requires r <= sorted
    ensures SortedDesc(r, key)
    ensures multiset(r) <= multiset(s)
    ensures forall x :: x in s && x !in r ==> forall i :: 0 <= i < |r| ==> key(x) <= key(r[i])
  {
    assert sorted == r + sorted[|r|..];
    assert forall i :: 0 <= i < |r| ==> r[i] == sorted[i];
    forall x | x in s && x !in r ensures forall i :: 0 <= i < |r| ==> key(x) <= key(r[i]) {
      assert x in multiset(s);
      assert x in sorted;
      var j :| 0 <= j < |sorted| && sorted[j] == x;
      assert j >= |r|;
    }
  }
}
