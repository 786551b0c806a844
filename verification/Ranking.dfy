/**
 Python's stable `sorted(..., reverse=True)`: highest key first, equal keys in
 their original order.
 */
module Ranking {
  import opened Sequences

  function Insert<T>(x: T, s: seq<T>, key: T -> real): seq<T> {
    if s == [] || key(s[0]) <= key(x) then [x] + s
    else [s[0]] + Insert(x, s[1..], key)
  }

  function SortDescending<T>(s: seq<T>, key: T -> real): (r: seq<T>)
    ensures |r| == |s|
  {
    if s == [] then [] else
      var rest := SortDescending(s[1..], key);
      InsertLength(s[0], rest, key);
      Insert(s[0], rest, key)
  }

  lemma {:induction false} InsertLength<T>(x: T, s: seq<T>, key: T -> real)
    ensures |Insert(x, s, key)| == |s| + 1
  {
    if s != [] {
      InsertLength(x, s[1..], key);
    }
  }

  ghost predicate Descending<T>(s: seq<T>, key: T -> real) {
    forall i, j :: 0 <= i < j < |s| ==> key(s[i]) >= key(s[j])
  }

  /** The elements with a given key, in order. */
  function WithKey<T>(s: seq<T>, key: T -> real, v: real): seq<T> {
    if s == [] then []
    else if key(s[0]) == v then [s[0]] + WithKey(s[1..], key, v)
    else WithKey(s[1..], key, v)
  }

  lemma {:induction false} InsertOrders<T>(x: T, s: seq<T>, key: T -> real)
    requires Descending(s, key)
    ensures Descending(Insert(x, s, key), key)
    ensures multiset(Insert(x, s, key)) == multiset{x} + multiset(s)
  {
    if s == [] || key(s[0]) <= key(x) {
    } else {
      InsertOrders(x, s[1..], key);
      var r := Insert(x, s[1..], key);
      assert s == [s[0]] + s[1..];
      InsertedBelow(x, s, key);
      DescendingCons(s[0], r, key);
    }
  }

  lemma InsertedBelow<T>(x: T, s: seq<T>, key: T -> real)
    requires Descending(s, key) && s != [] && key(s[0]) > key(x)
    ensures var r := Insert(x, s[1..], key); forall i :: 0 <= i < |r| ==> key(s[0]) >= key(r[i])
  {
    var rest := s[1..];
    var r := Insert(x, rest, key);
    forall i | 0 <= i < |r|
      ensures key(s[0]) >= key(r[i])
    {
      InsertMembers(x, rest, key, r[i]);
      if r[i] in rest {
        var j :| 0 <= j < |rest| && rest[j] == r[i];
        assert key(s[0]) >= key(s[j + 1]);
      }
    }
  }

  lemma DescendingCons<T>(x: T, s: seq<T>, key: T -> real)
    requires Descending(s, key) && forall i :: 0 <= i < |s| ==> key(x) >= key(s[i])
    ensures Descending([x] + s, key)
  {
  }

  lemma {:induction false} InsertMembers<T>(x: T, s: seq<T>, key: T -> real, y: T)
    ensures y in Insert(x, s, key) <==> y == x || y in s
  {
    if s != [] {
      InsertMembers(x, s[1..], key, y);
      assert s == [s[0]] + s[1..];
    }
  }

  lemma {:induction false} InsertIsStable<T>(x: T, s: seq<T>, key: T -> real, v: real)
    requires Descending(s, key)
    ensures WithKey(Insert(x, s, key), key, v) == WithKey([x] + s, key, v)
  {
    assert ([x] + s)[1..] == s;
    if s != [] && key(s[0]) > key(x) {
      InsertIsStable(x, s[1..], key, v);
      assert ([x] + s[1..])[1..] == s[1..];
      assert ([s[0]] + Insert(x, s[1..], key))[1..] == Insert(x, s[1..], key);
      if key(x) == v {
        assert WithKey([x] + s[1..], key, v) == [x] + WithKey(s[1..], key, v);
      }
    }
  }

  /** A stable descending sort: ordered, a permutation, and equal keys keep their order. */
  lemma {:induction false} SortsStably<T>(s: seq<T>, key: T -> real)
    ensures Descending(SortDescending(s, key), key)
    ensures multiset(SortDescending(s, key)) == multiset(s)
    ensures forall v :: WithKey(SortDescending(s, key), key, v) == WithKey(s, key, v)
  {
    if s != [] {
      SortsStably(s[1..], key);
      var rest := SortDescending(s[1..], key);
      InsertOrders(s[0], rest, key);
      assert s == [s[0]] + s[1..];
      forall v: real
        ensures WithKey(SortDescending(s, key), key, v) == WithKey(s, key, v)
      {
        InsertIsStable(s[0], rest, key, v);
        assert ([s[0]] + rest)[1..] == rest;
      }
    }
  }

  /** Sorting a list that is already in order changes nothing. */
  lemma {:induction false} SortedIsFixed<T>(s: seq<T>, key: T -> real)
    requires Descending(s, key)
    ensures SortDescending(s, key) == s
  {
    if s != [] {
      SortedIsFixed(s[1..], key);
    }
  }

  /** Membership, from the permutation. */
  lemma SortMembers<T>(s: seq<T>, key: T -> real, x: T)
    ensures x in SortDescending(s, key) <==> x in s
  {
    SortsStably(s, key);
    assert x in multiset(SortDescending(s, key)) <==> x in multiset(s);
  }

  // ------------------------------------------------ the sorted list as a ranking

  type Hit = (int, real)

  function Score(h: Hit): real { h.1 }

  /** The index of a hit decides between equal scores: lists are built in index order. */
  predicate Beats(a: Hit, b: Hit) {
    a.1 > b.1 || (a.1 == b.1 && a.0 < b.0)
  }

  ghost predicate Ranked(r: seq<Hit>) {
    forall i, j :: 0 <= i < j < |r| ==> Beats(r[i], r[j])
  }

  ghost predicate IndexOrdered(s: seq<Hit>) {
    forall i, j :: 0 <= i < j < |s| ==> s[i].0 < s[j].0
  }

  lemma {:induction false} InsertRanks(x: Hit, s: seq<Hit>)
    requires Ranked(s) && forall i :: 0 <= i < |s| ==> x.0 < s[i].0
    ensures Ranked(Insert(x, s, Score))
    ensures forall h :: h in Insert(x, s, Score) <==> h == x || h in s
  {
    if s == [] || s[0].1 <= x.1 {
      forall j | 0 <= j < |s|
        ensures Beats(x, s[j])
      {
        assert j > 0 ==> Beats(s[0], s[j]);
      }
    } else {
      InsertRanks(x, s[1..]);
      var r := Insert(x, s[1..], Score);
      forall j | 0 <= j < |r|
        ensures Beats(s[0], r[j])
      {
        assert r[j] in r;
        if r[j] != x {
          var k :| 0 <= k < |s[1..]| && s[1..][k] == r[j];
          assert s[k + 1] == r[j];
        }
      }
    }
  }

  /** Sorting a list built in index order ranks it strictly. */
  lemma {:induction false} SortRanks(s: seq<Hit>)
    requires IndexOrdered(s)
    ensures Ranked(SortDescending(s, Score))
    ensures forall h :: h in SortDescending(s, Score) <==> h in s
  {
    if s != [] {
      SortRanks(s[1..]);
      var rest := SortDescending(s[1..], Score);
      forall i | 0 <= i < |rest|
        ensures s[0].0 < rest[i].0
      {
        assert rest[i] in rest;
        var k :| 0 <= k < |s[1..]| && s[1..][k] == rest[i];
      }
      InsertRanks(s[0], rest);
      assert s == [s[0]] + s[1..];
    }
  }

  lemma {:induction false} PrefixCardinality(r: seq<Hit>, p: nat)
    requires Ranked(r) && p <= |r|
    ensures |set i | 0 <= i < p :: r[i]| == p
  {
    if p > 0 {
      PrefixCardinality(r, p - 1);
      var small, big := set i | 0 <= i < p - 1 :: r[i], set i | 0 <= i < p :: r[i];
      assert big == small + {r[p - 1]};
      forall i | 0 <= i < p - 1
        ensures r[i] != r[p - 1]
      {
        assert Beats(r[i], r[p - 1]);
      }
    }
  }

  /** The hits that beat `h` are exactly those before it, so its position counts them. */
  lemma PositionCountsBetter(s: seq<Hit>, p: nat)
    requires IndexOrdered(s) && p < |s|
    ensures var r := SortDescending(s, Score);
            |set h | h in s && Beats(h, r[p])| == p
  {
    var r := SortDescending(s, Score);
    SortRanks(s);
    var better, before := set h | h in s && Beats(h, r[p]), set i | 0 <= i < p :: r[i];
    forall i | p <= i < |r|
      ensures !Beats(r[i], r[p])
    {
      assert i == p || Beats(r[p], r[i]);
    }
    forall h | h in better
      ensures h in before
    {
      assert h in r;
    }
    forall h | h in before
      ensures h in better
    {
      var i :| 0 <= i < p && r[i] == h;
      assert r[i] in r && Beats(r[i], r[p]);
    }
    assert better == before;
    PrefixCardinality(r, p);
  }

  /** The top-k prefix, exactly: a hit is in it if and only if fewer than k hits beat it. */
  lemma TopKExactly(s: seq<Hit>, k: nat, h: Hit)
    requires IndexOrdered(s)
    ensures var r := SortDescending(s, Score);
            h in (Take(r, k)) <==> h in s && |set g | g in s && Beats(g, h)| < k
  {
    var r := SortDescending(s, Score);
    var top := Take(r, k);
    SortRanks(s);
    if h in s {
      assert h in r;
      var p :| 0 <= p < |r| && r[p] == h;
      PositionCountsBetter(s, p);
      if p < k {
        assert top[p] == h;
      } else {
        forall q | 0 <= q < k
          ensures r[q] != h
        {
          assert Beats(r[q], r[p]);
        }
      }
    } else {
      assert h !in r;
    }
  }

  // ------------------------------------------------ lists of hits by index

  ghost predicate HasKey(scores: seq<Hit>, index: int) {
    exists i :: 0 <= i < |scores| && scores[i].0 == index
  }

  predicate DistinctKeys(scores: seq<Hit>) {
    forall i, j :: 0 <= i < j < |scores| ==> scores[i].0 != scores[j].0
  }

  /** A ranked list names no index twice, and neither does its prefix. */
  lemma TopIsDistinct(s: seq<Hit>, k: nat)
    requires IndexOrdered(s)
    ensures var r := SortDescending(s, Score); DistinctKeys(Take(r, k))
  {
    var r := SortDescending(s, Score);
    SortRanks(s);
    forall i, j | 0 <= i < j < |r|
      ensures r[i].0 != r[j].0
    {
      assert r[i] in r && r[j] in r;
      if r[i].0 == r[j].0 {
        SameIndexSameHit(s, r[i], r[j]);
      }
      assert Beats(r[i], r[j]);
    }
  }

  lemma SameIndexSameHit(s: seq<Hit>, g: Hit, h: Hit)
    requires IndexOrdered(s) && g in s && h in s && g.0 == h.0
    ensures g == h
  {
    var a :| 0 <= a < |s| && s[a] == g;
    var b :| 0 <= b < |s| && s[b] == h;
  }

  function Keys(hits: seq<Hit>): set<int> {
    if hits == [] then {} else {hits[0].0} + Keys(hits[1..])
  }

  lemma {:induction false} KeysAreIndices(hits: seq<Hit>, i: int)
    ensures i in Keys(hits) <==> HasKey(hits, i)
  {
    if hits != [] {
      KeysAreIndices(hits[1..], i);
      if HasKey(hits, i) && hits[0].0 != i {
        var j :| 0 <= j < |hits| && hits[j].0 == i;
        assert hits[1..][j - 1].0 == i;
      }
      if HasKey(hits[1..], i) {
        var j :| 0 <= j < |hits[1..]| && hits[1..][j].0 == i;
        assert hits[j + 1].0 == i;
      }
    }
  }

  lemma {:induction false} DistinctKeysCount(hits: seq<Hit>)
    requires DistinctKeys(hits)
    ensures |Keys(hits)| == |hits|
  {
    if hits != [] {
      DistinctKeysCount(hits[1..]);
      KeysAreIndices(hits[1..], hits[0].0);
    }
  }

  function UpTo(n: nat): set<int> {
    if n == 0 then {} else UpTo(n - 1) + {n - 1}
  }

  lemma {:induction false} UpToCount(n: nat)
    ensures |UpTo(n)| == n && forall i :: i in UpTo(n) <==> 0 <= i < n
  {
    if n > 0 {
      UpToCount(n - 1);
    }
  }

  lemma SubsetCount(a: set<int>, b: set<int>)
    requires a <= b
    ensures |a| <= |b|
  {
    assert b == a + (b - a);
  }

  /** Distinct indices below `n` that leave one out are fewer than `n`. */
  lemma OneLeftOut(hits: seq<Hit>, n: nat, i: nat)
    requires DistinctKeys(hits) && i < n && !HasKey(hits, i)
    requires forall p :: 0 <= p < |hits| ==> 0 <= hits[p].0 < n
    ensures |hits| < n
  {
    DistinctKeysCount(hits);
    UpToCount(n);
    forall k | k in Keys(hits)
      ensures k in UpTo(n) - {i}
    {
      KeysAreIndices(hits, k);
    }
    SubsetCount(Keys(hits), UpTo(n) - {i});
  }
}
