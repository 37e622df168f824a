/** Stable sorting by a key. JavaScript's `Array.prototype.sort` is stable, so
    sorting with a comparator that is consistent with a key order puts the
    elements in key order and keeps equal-key elements in their earlier order.
    The key is a pair of integers compared lexicographically, enough to
    encode every comparator of the query engine. */
module Sorting {
  import opened Seqs

  datatype Rank = Rank(major: int, minor: int)

  /** Lexicographic order on ranks: a total preorder. */
  predicate RankLe(a: Rank, b: Rank) {
    a.major < b.major || (a.major == b.major && a.minor <= b.minor)
  }

  predicate Sorted<T>(s: seq<T>, key: T -> Rank) {
    forall i, j :: 0 <= i < j < |s| ==> RankLe(key(s[i]), key(s[j]))
  }

  /** The elements whose key is `k`, as a predicate. */
  function HasKey<T>(key: T -> Rank, k: Rank): T -> bool {
    x => key(x) == k
  }

  /** `x` put into `s` just before the first element whose key is not smaller:
      everything it passes has a strictly smaller key. */
  function Insert<T(==,!new)>(x: T, s: seq<T>, key: T -> Rank): (r: seq<T>)
    ensures multiset(r) == multiset(s) + multiset{x}
  {
    if |s| == 0 || RankLe(key(x), key(s[0])) then [x] + s
    else
      assert s == [s[0]] + s[1..];
      [s[0]] + Insert(x, s[1..], key)
  }

  /** Inserting into a sorted sequence yields a sorted sequence. */
  lemma {:induction false} InsertSorted<T(!new)>(x: T, s: seq<T>, key: T -> Rank)
    requires Sorted(s, key)
    ensures Sorted(Insert(x, s, key), key)
    decreases |s|
  {
    if |s| > 0 && !RankLe(key(x), key(s[0])) {
      var rest := Insert(x, s[1..], key);
      InsertSorted(x, s[1..], key);
      assert Insert(x, s, key) == [s[0]] + rest by {}
      InsertSortedStep(x, s, key, rest);
    }
  }

  /** The step case of `Insert`: the head of `s` stays in front. */
  lemma InsertSortedStep<T(!new)>(x: T, s: seq<T>, key: T -> Rank, rest: seq<T>)
    requires |s| > 0 && !RankLe(key(x), key(s[0]))
    requires multiset(rest) == multiset(s[1..]) + multiset{x}
    requires Sorted(s, key) && Sorted(rest, key)
    ensures Sorted([s[0]] + rest, key)
  {
    var r := [s[0]] + rest;
    forall i, j | 0 <= i < j < |r|
      ensures RankLe(key(r[i]), key(r[j]))
    {
      if i == 0 {
        var y := r[j];
        assert y == rest[j - 1];
        assert y in multiset(rest);
        if y != x {
          assert y in multiset(s[1..]);
          var m :| 0 <= m < |s[1..]| && s[1..][m] == y;
          assert s[m + 1] == y;
        }
      } else {
        assert r[i] == rest[i - 1] && r[j] == rest[j - 1];
      }
    }
  }

  /** Insertion keeps the order within every key class and places `x` first in its own. */
  lemma {:induction false} InsertStable<T(!new)>(x: T, s: seq<T>, key: T -> Rank, k: Rank)
    ensures Keep(Insert(x, s, key), HasKey(key, k))
         == (if key(x) == k then [x] else []) + Keep(s, HasKey(key, k))
    decreases |s|
  {
    var p := HasKey(key, k);
    if |s| == 0 || RankLe(key(x), key(s[0])) {
      assert Insert(x, s, key) == [x] + s;
      KeepCons(x, s, p);
    } else {
      InsertStable(x, s[1..], key, k);
      InsertStableStep(x, s, key, k);
    }
  }

  lemma InsertStableStep<T(!new)>(x: T, s: seq<T>, key: T -> Rank, k: Rank)
    requires |s| > 0 && !RankLe(key(x), key(s[0]))
    requires Keep(Insert(x, s[1..], key), HasKey(key, k))
          == (if key(x) == k then [x] else []) + Keep(s[1..], HasKey(key, k))
    ensures Keep(Insert(x, s, key), HasKey(key, k))
         == (if key(x) == k then [x] else []) + Keep(s, HasKey(key, k))
  {
    var p := HasKey(key, k);
    var rest := Insert(x, s[1..], key);
    assert Insert(x, s, key) == [s[0]] + rest by {}
    assert Keep(s, p) == Keep([s[0]] + s[1..], p) by {
      assert s == [s[0]] + s[1..];
    }
    KeepPassOver(s[0], rest, s[1..], if key(x) == k then [x] else [], p);
  }

  /** Moving an element that the filter drops (or passing it when nothing is
      kept in front) does not change the filtered sequence. */
  lemma KeepPassOver<T(!new)>(y: T, rest: seq<T>, tail: seq<T>, front: seq<T>, p: T -> bool)
    requires Keep(rest, p) == front + Keep(tail, p)
    requires front == [] || !p(y)
    ensures Keep([y] + rest, p) == front + Keep([y] + tail, p)
  {
    KeepCons(y, rest, p);
    KeepCons(y, tail, p);
    if front == [] {
      assert front + Keep(tail, p) == Keep(tail, p);
    }
  }

  /** Insertion sort: the elements of `s` in key order. */
  function SortBy<T(==,!new)>(s: seq<T>, key: T -> Rank): (r: seq<T>)
    ensures multiset(r) == multiset(s)
    ensures Sorted(r, key)
  {
    if |s| == 0 then []
    else
      assert s == [s[0]] + s[1..];
      InsertSorted(s[0], SortBy(s[1..], key), key);
      Insert(s[0], SortBy(s[1..], key), key)
  }

  /** Stability: within each key class the sorted sequence keeps the input's order. */
  lemma {:induction false} SortByStable<T(!new)>(s: seq<T>, key: T -> Rank, k: Rank)
    ensures Keep(SortBy(s, key), HasKey(key, k)) == Keep(s, HasKey(key, k))
    decreases |s|
  {
    if |s| > 0 {
      SortByStable(s[1..], key, k);
      InsertStable(s[0], SortBy(s[1..], key), key, k);
    }
  }
}
