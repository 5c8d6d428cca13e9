/**
 * `sorted(descending by key).limit(n)` of a Java stream, as a pure
 * function: a stable insertion sort on a key in non-increasing order,
 * followed by taking a prefix.
 */
module Ranking {

  /** Inserts `x` before the first element whose key is not larger than its own. */
  function InsertDesc<T>(x: T, s: seq<T>, key: T -> int): (r: seq<T>)
    ensures multiset(r) == multiset(s) + multiset{x}
    ensures |r| == |s| + 1
  {
    if s == [] || key(s[0]) <= key(x) then [x] + s
    else
      assert s == [s[0]] + s[1..];
      [s[0]] + InsertDesc(x, s[1..], key)
  }

  /** `s` sorted by non-increasing key; equal keys keep their input order. */
  function SortDesc<T>(s: seq<T>, key: T -> int): (r: seq<T>)
    ensures multiset(r) == multiset(s)
    ensures |r| == |s|
  {
    if s == [] then []
    else
      assert s == [s[0]] + s[1..];
      InsertDesc(s[0], SortDesc(s[1..], key), key)
  }

  /** The first `n` elements of `s` sorted by non-increasing key. */
  function TopN<T>(s: seq<T>, key: T -> int, n: nat): seq<T> {
    var sorted := SortDesc(s, key);
    if |sorted| <= n then sorted else sorted[..n]
  }

  predicate NonIncreasing<T>(s: seq<T>, key: T -> int) {
    forall i, j :: 0 <= i < j < |s| ==> key(s[i]) >= key(s[j])
  }

  lemma {:induction false} InsertDescSorted<T>(x: T, s: seq<T>, key: T -> int)
    requires NonIncreasing(s, key)
    ensures NonIncreasing(InsertDesc(x, s, key), key)
  {
    if s != [] && key(s[0]) > key(x) {
      InsertDescSorted(x, s[1..], key);
      var tail := InsertDesc(x, s[1..], key);
      HeadAboveInsert(x, s, key);
      ConsSorted(s[0], tail, key);
      assert InsertDesc(x, s, key) == [s[0]] + tail;
    }
  }

  /** The head of a sorted list that stays in front bounds everything inserted behind it. */
  lemma HeadAboveInsert<T>(x: T, s: seq<T>, key: T -> int)
    requires NonIncreasing(s, key) && s != [] && key(s[0]) > key(x)
    ensures forall y :: y in multiset(InsertDesc(x, s[1..], key)) ==> key(s[0]) >= key(y)
  {
    forall y | y in multiset(InsertDesc(x, s[1..], key)) ensures key(s[0]) >= key(y) {
      assert y in multiset(s[1..]) + multiset{x};
      if y != x {
        assert y in s[1..];
      }
    }
  }

  /** A sorted list stays sorted under a head whose key bounds all of it. */
  lemma ConsSorted<T>(h: T, tail: seq<T>, key: T -> int)
    requires NonIncreasing(tail, key)
    requires forall y :: y in multiset(tail) ==> key(h) >= key(y)
    ensures NonIncreasing([h] + tail, key)
  {
    var r := [h] + tail;
    forall i, j | 0 <= i < j < |r| ensures key(r[i]) >= key(r[j]) {
      if i == 0 {
        assert r[j] in multiset(tail);
      } else {
        assert r[i] == tail[i - 1] && r[j] == tail[j - 1];
      }
    }
  }

  /** The sort returns its input in non-increasing key order. */
  lemma {:induction false} SortDescSorted<T>(s: seq<T>, key: T -> int)
    ensures NonIncreasing(SortDesc(s, key), key)
  {
    if s != [] {
      SortDescSorted(s[1..], key);
      InsertDescSorted(s[0], SortDesc(s[1..], key), key);
    }
  }

  /** In a sorted list, everything after position `n` has a key no larger than anything before it. */
  lemma PrefixDominates<T>(sorted: seq<T>, key: T -> int, n: nat)
    requires NonIncreasing(sorted, key) && n <= |sorted|
    ensures forall x, y :: x in sorted[..n] && y in sorted[n..] ==> key(y) <= key(x)
  {
    forall x, y | x in sorted[..n] && y in sorted[n..] ensures key(y) <= key(x) {
      var i :| 0 <= i < n && sorted[..n][i] == x;
      var j :| 0 <= j < |sorted| - n && sorted[n..][j] == y;
      assert sorted[i] == x && sorted[n + j] == y;
    }
  }

  /** `limit(n)` keeps `min(n, |s|)` elements, all taken from the input. */
  lemma TopNSize<T>(s: seq<T>, key: T -> int, n: nat)
    ensures |TopN(s, key, n)| == if |s| <= n then |s| else n
    ensures multiset(TopN(s, key, n)) <= multiset(s)
  {
    var sorted := SortDesc(s, key);
    if |sorted| > n {
      assert sorted == sorted[..n] + sorted[n..];
      assert multiset(sorted) == multiset(sorted[..n]) + multiset(sorted[n..]);
    }
  }

  /** The kept elements come in non-increasing key order. */
  lemma TopNSorted<T>(s: seq<T>, key: T -> int, n: nat)
    ensures NonIncreasing(TopN(s, key, n), key)
  {
    SortDescSorted(s, key);
    var sorted := SortDesc(s, key);
    if |sorted| > n {
      assert forall i :: 0 <= i < n ==> sorted[..n][i] == sorted[i];
    }
  }

  /** No element left out has a larger key than an element kept. */
  lemma TopNDominates<T>(s: seq<T>, key: T -> int, n: nat)
    ensures forall x, y :: x in TopN(s, key, n) && y in multiset(s) - multiset(TopN(s, key, n)) ==>
      key(y) <= key(x)
  {
    var sorted := SortDesc(s, key);
    SortDescSorted(s, key);
    if |sorted| > n {
      assert sorted == sorted[..n] + sorted[n..];
      assert multiset(s) - multiset(sorted[..n]) == multiset(sorted[n..]);
      PrefixDominates(sorted, key, n);
    } else {
      assert multiset(s) - multiset(sorted) == multiset{};
    }
  }
}
