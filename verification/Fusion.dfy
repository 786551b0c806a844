/**
 Reciprocal-rank fusion of the vector and keyword hit lists
 (backend/retriever.py `_rrf_fuse`). The score dictionary is a list of pairs in
 insertion order, as Python keeps it.
 */
module Fusion {
  import opened Ranking

  /** `scores[index] += amount` on a defaultdict. */
  function Bump(scores: seq<Hit>, index: int, amount: real): seq<Hit> {
    if scores == [] then [(index, amount)]
    else if scores[0].0 == index then [(index, scores[0].1 + amount)] + scores[1..]
    else [scores[0]] + Bump(scores[1..], index, amount)
  }

  function RankWeight(weight: real, k: nat, rank: nat): real
    requires k + rank > 0
  {
    weight / (k + rank) as real
  }

  /** Adds the first `n` hits; ranks start at 1. */
  function AddHits(scores: seq<Hit>, hits: seq<Hit>, n: nat, weight: real, k: nat): seq<Hit>
    requires n <= |hits|
  {
    if n == 0 then scores
    else Bump(AddHits(scores, hits, n - 1, weight, k), hits[n - 1].0, RankWeight(weight, k, n))
  }

  datatype Weights = Weights(vector: real, keyword: real, k: nat)

  function Fuse(vectorHits: seq<Hit>, keywordHits: seq<Hit>, w: Weights): seq<Hit> {
    AddHits(AddHits([], vectorHits, |vectorHits|, w.vector, w.k), keywordHits, |keywordHits|, w.keyword, w.k)
  }

  /** `_rrf_fuse`. */
  method RrfFuse(vectorHits: seq<Hit>, keywordHits: seq<Hit>, w: Weights) returns (fused: seq<Hit>)
    ensures fused == Fuse(vectorHits, keywordHits, w)
  {
    fused := [];
    for rank := 1 to |vectorHits| + 1
      invariant fused == AddHits([], vectorHits, rank - 1, w.vector, w.k)
    {
      fused := Bump(fused, vectorHits[rank - 1].0, w.vector / (w.k + rank) as real);
    }
    ghost var dense := fused;
    for rank := 1 to |keywordHits| + 1
      invariant fused == AddHits(dense, keywordHits, rank - 1, w.keyword, w.k)
    {
      fused := Bump(fused, keywordHits[rank - 1].0, w.keyword / (w.k + rank) as real);
    }
  }

  // ---------------------------------------------------------- the dictionary as a map

  /** The value stored for a key, 0 if there is none. */
  function ValueOf(scores: seq<Hit>, index: int): real {
    if scores == [] then 0.0
    else if scores[0].0 == index then scores[0].1
    else ValueOf(scores[1..], index)
  }

  lemma {:induction false} ValueOfMember(scores: seq<Hit>, h: Hit)
    requires DistinctKeys(scores) && h in scores
    ensures ValueOf(scores, h.0) == h.1
  {
    if scores[0] != h {
      ValueOfMember(scores[1..], h);
    }
  }

  lemma {:induction false} BumpMeans(scores: seq<Hit>, index: int, amount: real)
    requires DistinctKeys(scores)
    ensures DistinctKeys(Bump(scores, index, amount))
    ensures forall i :: HasKey(Bump(scores, index, amount), i) <==> HasKey(scores, i) || i == index
    ensures forall i :: ValueOf(Bump(scores, index, amount), i)
              == ValueOf(scores, i) + (if i == index then amount else 0.0)
  {
    var r := Bump(scores, index, amount);
    if scores == [] {
      assert r[0].0 == index;
    } else if scores[0].0 == index {
      assert r[1..] == scores[1..];
      forall i
        ensures HasKey(r, i) <==> HasKey(scores, i)
      {
        KeyOfCons(r, i);
        KeyOfCons(scores, i);
      }
      AbsentValue(scores[1..], index);
    } else {
      BumpMeans(scores[1..], index, amount);
      assert r[1..] == Bump(scores[1..], index, amount);
      forall i
        ensures HasKey(r, i) <==> HasKey(scores, i) || i == index
      {
        KeyOfCons(r, i);
        KeyOfCons(scores, i);
      }
      KeyOfTail(scores);
      assert !HasKey(r[1..], scores[0].0);
      DistinctCons(r);
    }
  }

  lemma KeyOfCons(scores: seq<Hit>, i: int)
    requires scores != []
    ensures HasKey(scores, i) <==> scores[0].0 == i || HasKey(scores[1..], i)
  {
    if HasKey(scores[1..], i) {
      var j :| 0 <= j < |scores[1..]| && scores[1..][j].0 == i;
      assert scores[j + 1].0 == i;
    }
    if HasKey(scores, i) && scores[0].0 != i {
      var j :| 0 <= j < |scores| && scores[j].0 == i;
      assert scores[1..][j - 1].0 == i;
    }
  }

  lemma KeyOfTail(scores: seq<Hit>)
    requires scores != [] && DistinctKeys(scores)
    ensures !HasKey(scores[1..], scores[0].0)
  {
  }

  lemma DistinctCons(scores: seq<Hit>)
    requires scores != [] && DistinctKeys(scores[1..]) && !HasKey(scores[1..], scores[0].0)
    ensures DistinctKeys(scores)
  {
    forall i, j | 0 <= i < j < |scores|
      ensures scores[i].0 != scores[j].0
    {
      assert scores[j] == scores[1..][j - 1];
      assert i > 0 ==> scores[i] == scores[1..][i - 1];
    }
  }

  lemma {:induction false} AbsentValue(scores: seq<Hit>, index: int)
    ensures !HasKey(scores, index) ==> ValueOf(scores, index) == 0.0
  {
    if scores != [] {
      AbsentValue(scores[1..], index);
      KeyOfCons(scores, index);
    }
  }

  // -------------------------------------------------------------- what fusion computes

  /** What a hit list adds for an index: the weight over k plus the rank, for every occurrence. */
  function Share(hits: seq<Hit>, n: nat, index: int, weight: real, k: nat): real
    requires n <= |hits|
  {
    if n == 0 then 0.0
    else Share(hits, n - 1, index, weight, k) + (if hits[n - 1].0 == index then RankWeight(weight, k, n) else 0.0)
  }

  lemma {:induction false} AddHitsMeans(scores: seq<Hit>, hits: seq<Hit>, n: nat, weight: real, k: nat)
    requires n <= |hits| && DistinctKeys(scores)
    ensures var r := AddHits(scores, hits, n, weight, k);
            && DistinctKeys(r)
            && (forall i :: HasKey(r, i) <==> HasKey(scores, i) || HasKey(hits[..n], i))
            && (forall i :: ValueOf(r, i) == ValueOf(scores, i) + Share(hits, n, i, weight, k))
  {
    if n > 0 {
      AddHitsMeans(scores, hits, n - 1, weight, k);
      BumpMeans(AddHits(scores, hits, n - 1, weight, k), hits[n - 1].0, RankWeight(weight, k, n));
      forall i
        ensures HasKey(hits[..n], i) <==> HasKey(hits[..n - 1], i) || hits[n - 1].0 == i
      {
        KeyOfSnoc(hits, n, i);
      }
    }
  }

  lemma KeyOfSnoc(hits: seq<Hit>, n: nat, i: int)
    requires 0 < n <= |hits|
    ensures HasKey(hits[..n], i) <==> HasKey(hits[..n - 1], i) || hits[n - 1].0 == i
  {
    if HasKey(hits[..n - 1], i) {
      var j :| 0 <= j < n - 1 && hits[..n - 1][j].0 == i;
      assert hits[..n][j].0 == i;
    }
    if hits[n - 1].0 == i {
      assert hits[..n][n - 1].0 == i;
    }
    if HasKey(hits[..n], i) {
      var j :| 0 <= j < n && hits[..n][j].0 == i;
      assert j < n - 1 ==> hits[..n - 1][j].0 == i;
    }
  }

  /**
   The fused keys are the union of both lists, each once, and a key's score is
   the sum of its shares.
   */
  lemma FuseMeans(vectorHits: seq<Hit>, keywordHits: seq<Hit>, w: Weights)
    ensures var r := Fuse(vectorHits, keywordHits, w);
            && DistinctKeys(r)
            && (forall i :: HasKey(r, i) <==> HasKey(vectorHits, i) || HasKey(keywordHits, i))
            && (forall i :: ValueOf(r, i) == Share(vectorHits, |vectorHits|, i, w.vector, w.k)
                                             + Share(keywordHits, |keywordHits|, i, w.keyword, w.k))
  {
    var dense := AddHits([], vectorHits, |vectorHits|, w.vector, w.k);
    AddHitsMeans([], vectorHits, |vectorHits|, w.vector, w.k);
    AddHitsMeans(dense, keywordHits, |keywordHits|, w.keyword, w.k);
    assert vectorHits[..|vectorHits|] == vectorHits && keywordHits[..|keywordHits|] == keywordHits;
  }

  // ------------------------------------------------------------ dominance and bounds

  lemma {:induction false} ShareAtRank(hits: seq<Hit>, n: nat, index: int, weight: real, k: nat, r: nat)
    requires n <= |hits| && DistinctKeys(hits) && r < n && hits[r].0 == index
    ensures Share(hits, n, index, weight, k) == RankWeight(weight, k, r + 1)
  {
    if r == n - 1 {
      ShareAbsent(hits, n - 1, index, weight, k);
    } else {
      ShareAtRank(hits, n - 1, index, weight, k, r);
    }
  }

  lemma {:induction false} ShareAbsent(hits: seq<Hit>, n: nat, index: int, weight: real, k: nat)
    requires n <= |hits| && forall i :: 0 <= i < n ==> hits[i].0 != index
    ensures Share(hits, n, index, weight, k) == 0.0
  {
    if n > 0 {
      ShareAbsent(hits, n - 1, index, weight, k);
    }
  }

  /** The share of an index in a list without repeats: by its rank, 0 when absent. */
  lemma ShareByRank(hits: seq<Hit>, index: int, weight: real, k: nat)
    requires DistinctKeys(hits)
    ensures !HasKey(hits, index) ==> Share(hits, |hits|, index, weight, k) == 0.0
    ensures forall r :: 0 <= r < |hits| && hits[r].0 == index ==>
              Share(hits, |hits|, index, weight, k) == weight / (k + r + 1) as real
  {
    if !HasKey(hits, index) {
      ShareAbsent(hits, |hits|, index, weight, k);
    }
    forall r | 0 <= r < |hits| && hits[r].0 == index
      ensures Share(hits, |hits|, index, weight, k) == weight / (k + r + 1) as real
    {
      ShareAtRank(hits, |hits|, index, weight, k, r);
    }
  }

  /** `i` ranks no worse than `j`; an absent index ranks worst. */
  ghost predicate NoWorse(hits: seq<Hit>, i: int, j: int) {
    forall q :: 0 <= q < |hits| && hits[q].0 == j ==> exists r :: 0 <= r <= q && hits[r].0 == i
  }

  ghost predicate StrictlyBetter(hits: seq<Hit>, i: int, j: int) {
    exists r :: 0 <= r < |hits| && hits[r].0 == i && forall q :: 0 <= q <= r ==> hits[q].0 != j
  }

  lemma RankWeightFalls(weight: real, k: nat, r: nat, q: nat)
    requires weight > 0.0 && 0 < r < q
    ensures RankWeight(weight, k, r) > RankWeight(weight, k, q) > 0.0
  {
    var x, y := (k + r) as real, (k + q) as real;
    var a, b := weight / x, weight / y;
    assert a * x == weight && b * y == weight;
    assert b > 0.0;
    assert a * x == b * x + b * (y - x);
    assert b * (y - x) > 0.0;
    assert a * x > b * x;
  }

  lemma ShareCompared(hits: seq<Hit>, i: int, j: int, weight: real, k: nat)
    requires DistinctKeys(hits) && weight > 0.0 && i != j
    ensures NoWorse(hits, i, j) ==> Share(hits, |hits|, i, weight, k) >= Share(hits, |hits|, j, weight, k)
    ensures StrictlyBetter(hits, i, j) ==> Share(hits, |hits|, i, weight, k) > Share(hits, |hits|, j, weight, k)
  {
    ShareByRank(hits, i, weight, k);
    ShareByRank(hits, j, weight, k);
    ShareBounds(hits, i, weight, k);
    if HasKey(hits, j) {
      var q :| 0 <= q < |hits| && hits[q].0 == j;
      if NoWorse(hits, i, j) {
        var r :| 0 <= r <= q && hits[r].0 == i;
        RankWeightFalls(weight, k, r + 1, q + 1);
      }
      if StrictlyBetter(hits, i, j) {
        var r :| 0 <= r < |hits| && hits[r].0 == i && forall q :: 0 <= q <= r ==> hits[q].0 != j;
        RankWeightFalls(weight, k, r + 1, q + 1);
      }
    } else if StrictlyBetter(hits, i, j) {
      var r :| 0 <= r < |hits| && hits[r].0 == i;
      RankWeightFalls(weight, k, r + 1, r + 2);
    }
  }

  lemma ShareBounds(hits: seq<Hit>, i: int, weight: real, k: nat)
    requires DistinctKeys(hits) && weight > 0.0
    ensures Share(hits, |hits|, i, weight, k) >= 0.0
    ensures Share(hits, |hits|, i, weight, k) <= RankWeight(weight, k, 1)
    ensures Share(hits, |hits|, i, weight, k) == RankWeight(weight, k, 1) <==> hits != [] && hits[0].0 == i
  {
    ShareByRank(hits, i, weight, k);
    RankWeightFalls(weight, k, 1, 2);
    if HasKey(hits, i) {
      var r :| 0 <= r < |hits| && hits[r].0 == i;
      if r > 0 {
        RankWeightFalls(weight, k, 1, r + 1);
      }
    } else if hits != [] {
      assert hits[0].0 != i;
    }
  }

  /** Dominance: no worse in both lists and strictly better in one means a strictly higher fused score. */
  lemma FusionDominance(vectorHits: seq<Hit>, keywordHits: seq<Hit>, w: Weights, i: int, j: int)
    requires DistinctKeys(vectorHits) && DistinctKeys(keywordHits) && w.vector > 0.0 && w.keyword > 0.0 && i != j
    requires NoWorse(vectorHits, i, j) && NoWorse(keywordHits, i, j)
    requires StrictlyBetter(vectorHits, i, j) || StrictlyBetter(keywordHits, i, j)
    ensures ValueOf(Fuse(vectorHits, keywordHits, w), i) > ValueOf(Fuse(vectorHits, keywordHits, w), j)
  {
    FuseMeans(vectorHits, keywordHits, w);
    ShareCompared(vectorHits, i, j, w.vector, w.k);
    ShareCompared(keywordHits, i, j, w.keyword, w.k);
  }

  /** No fused score exceeds the weights over k + 1, and only the first hit of both lists reaches it. */
  lemma FusionBound(vectorHits: seq<Hit>, keywordHits: seq<Hit>, w: Weights, i: int)
    requires DistinctKeys(vectorHits) && DistinctKeys(keywordHits) && w.vector > 0.0 && w.keyword > 0.0
    ensures var value := ValueOf(Fuse(vectorHits, keywordHits, w), i);
            var bound := (w.vector + w.keyword) / (w.k + 1) as real;
            && 0.0 <= value <= bound
            && (value == bound <==> && vectorHits != [] && vectorHits[0].0 == i
                                    && keywordHits != [] && keywordHits[0].0 == i)
  {
    FuseMeans(vectorHits, keywordHits, w);
    ShareBounds(vectorHits, i, w.vector, w.k);
    ShareBounds(keywordHits, i, w.keyword, w.k);
    SumOfQuotients(w.vector, w.keyword, (w.k + 1) as real);
  }

  lemma SumOfQuotients(a: real, b: real, y: real)
    requires y > 0.0
    ensures a / y + b / y == (a + b) / y
  {
  }
}
