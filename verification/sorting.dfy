/**
  Descending sort by a real-valued key, used for the analytics list (by sales
  rate) and for each stock group of the recommendation list (by amount).
  std::sort is not stable, so the source leaves the order of equal keys open;
  this insertion sort is one admissible outcome.
*/
module Sorting {

  /** Keys never increase from left to right. */
  ghost predicate SortedDesc<T>(s: seq<T>, key: T -> real) {
    forall i, j :: 0 <= i < j < |s| ==> key(s[i]) >= key(s[j])
  }

  function InsertDesc<T>(x: T, s: seq<T>, key: T -> real): (r: seq<T>)
    requires SortedDesc(s, key)
    ensures SortedDesc(r, key)
    ensures multiset(r) == multiset(s) + multiset{x}
  {
    if |s| == 0 then [x]
    else if key(x) >= key(s[0]) then [x] + s
    else
      var tail := InsertDesc(x, s[1..], key);
      assert s == [s[0]] + s[1..];
      HeadDominates(x, s, tail, key);
      [s[0]] + tail
  }

  /** The head of a sorted list outranks every element of its tail with a smaller key inserted. */
  lemma HeadDominates<T>(x: T, s: seq<T>, tail: seq<T>, key: T -> real)
    requires SortedDesc(s, key) && |s| > 0 && key(x) < key(s[0])
    requires multiset(tail) == multiset(s[1..]) + multiset{x}
    ensures forall k :: 0 <= k < |tail| ==> key(s[0]) >= key(tail[k])
  {
    forall k | 0 <= k < |tail| ensures key(s[0]) >= key(tail[k]) {
      assert tail[k] in multiset(tail);
      if tail[k] != x {
        assert tail[k] in multiset(s[1..]);
        var m :| 0 <= m < |s[1..]| && s[1..][m] == tail[k];
        assert s[m + 1] == tail[k];
      }
    }
  }

  /** Insertion sort: a permutation of `s` whose keys never increase. */
  function SortDesc<T>(s: seq<T>, key: T -> real): (r: seq<T>)
    ensures SortedDesc(r, key)
    ensures multiset(r) == multiset(s)
    ensures |r| == |s|
  {
    if |s| == 0 then []
    else
      assert s == [s[0]] + s[1..];
      InsertDesc(s[0], SortDesc(s[1..], key), key)
  }
}
