/**
 The neighbours that `search` keeps from the vector index's answer
 (backend/retriever.py `search`): those that exist and score enough.
 */
module Neighbours {
  import opened Sequences
  import opened Ranking
  import opened VectorIndex

  predicate Passes(h: Hit, minScore: real) {
    h.0 >= 0 && h.1 >= minScore
  }

  /** The vector hits: an index below 0 marks a missing neighbour. */
  function Passing(nearest: seq<Hit>, minScore: real): seq<Hit> {
    if nearest == [] then []
    else (if Passes(nearest[0], minScore) then [nearest[0]] else []) + Passing(nearest[1..], minScore)
  }

  method KeepPassing(nearest: seq<Hit>, minScore: real) returns (vectorHits: seq<Hit>)
    ensures vectorHits == Passing(nearest, minScore)
  {
    vectorHits := [];
    for i := 0 to |nearest|
      invariant Passing(nearest, minScore) == vectorHits + Passing(nearest[i..], minScore)
    {
      assert nearest[i..][1..] == nearest[i + 1..];
      if !(nearest[i].0 < 0 || nearest[i].1 < minScore) {
        vectorHits := vectorHits + [nearest[i]];
      }
    }
  }

  // ------------------------------------------------------------------- what the filter keeps

  function Shifted(at: seq<nat>): (r: seq<nat>)
    ensures |r| == |at| && forall k :: 0 <= k < |at| ==> r[k] == at[k] + 1
  {
    seq(|at|, k requires 0 <= k < |at| => at[k] + 1)
  }

  lemma ShiftedMembers(at: seq<nat>, p: nat)
    ensures p in Shifted(at) <==> p > 0 && p - 1 in at
  {
    if p > 0 && p - 1 in at {
      var k :| 0 <= k < |at| && at[k] == p - 1;
      assert Shifted(at)[k] == p;
    }
  }

  /** The positions that the filter keeps. */
  function Kept(nearest: seq<Hit>, minScore: real): seq<nat> {
    if nearest == [] then []
    else (if Passes(nearest[0], minScore) then [0] else []) + Shifted(Kept(nearest[1..], minScore))
  }

  lemma InEither(a: seq<nat>, b: seq<nat>, p: nat)
    ensures p in a + b <==> p in a || p in b
  {
  }

  lemma KeptCons(nearest: seq<Hit>, minScore: real, p: nat)
    requires nearest != []
    ensures p in Kept(nearest, minScore)
            <==> if p == 0 then Passes(nearest[0], minScore) else p - 1 in Kept(nearest[1..], minScore)
  {
    var first, rest := if Passes(nearest[0], minScore) then [0] else [], Kept(nearest[1..], minScore);
    assert Kept(nearest, minScore) == first + Shifted(rest);
    hide Kept, Passes, Shifted;
    ShiftedMembers(rest, p);
    InEither(first, Shifted(rest), p);
  }

  lemma {:induction false} KeptPositions(nearest: seq<Hit>, minScore: real, p: nat)
    ensures p in Kept(nearest, minScore) <==> p < |nearest| && Passes(nearest[p], minScore)
  {
    if nearest != [] {
      KeptCons(nearest, minScore, p);
      hide Kept, Passes;
      if p > 0 {
        KeptPositions(nearest[1..], minScore, p - 1);
      }
    }
  }

  /** The hits at the given positions. */
  predicate Selects(hits: seq<Hit>, nearest: seq<Hit>, at: seq<nat>) {
    && |at| == |hits| && Increasing(at)
    && forall k :: 0 <= k < |at| ==> at[k] < |nearest| && hits[k] == nearest[at[k]]
  }

  lemma SelectsShifted(hits: seq<Hit>, nearest: seq<Hit>, at: seq<nat>)
    requires nearest != [] && Selects(hits, nearest[1..], at)
    ensures Selects(hits, nearest, Shifted(at))
    ensures Selects([nearest[0]] + hits, nearest, [0] + Shifted(at))
  {
  }

  lemma {:induction false} KeptInOrder(nearest: seq<Hit>, minScore: real)
    ensures Selects(Passing(nearest, minScore), nearest, Kept(nearest, minScore))
  {
    hide Selects;
    if nearest == [] {
      NothingSelected();
    } else {
      KeptInOrder(nearest[1..], minScore);
      SelectsShifted(Passing(nearest[1..], minScore), nearest, Kept(nearest[1..], minScore));
      assert [] + Passing(nearest[1..], minScore) == Passing(nearest[1..], minScore);
      assert [] + Shifted(Kept(nearest[1..], minScore)) == Shifted(Kept(nearest[1..], minScore));
    }
  }

  lemma NothingSelected()
    ensures Selects([], [], [])
  {
  }

  /** The filter keeps exactly the hits that name a row and score enough, in their order. */
  lemma PassingExactly(nearest: seq<Hit>, minScore: real) returns (at: seq<nat>)
    ensures Selects(Passing(nearest, minScore), nearest, at)
    ensures forall p: nat :: p in at <==> p < |nearest| && Passes(nearest[p], minScore)
  {
    hide Selects, Passing;
    at := Kept(nearest, minScore);
    KeptInOrder(nearest, minScore);
    forall p: nat
      ensures p in at <==> p < |nearest| && Passes(nearest[p], minScore)
    {
      KeptPositions(nearest, minScore, p);
    }
  }

  // ------------------------------------------------------------------- on a flat search

  lemma {:induction false} PassingPrefix(nearest: seq<Hit>, minScore: real, m: nat)
    requires m <= |nearest|
    requires forall p :: 0 <= p < m ==> Passes(nearest[p], minScore)
    requires forall p :: m <= p < |nearest| ==> !Passes(nearest[p], minScore)
    ensures Passing(nearest, minScore) == nearest[..m]
  {
    if nearest != [] {
      var rest := nearest[1..];
      assert forall p :: 0 <= p < |rest| ==> rest[p] == nearest[p + 1];
      PassingPrefix(rest, minScore, if m > 0 then m - 1 else 0);
      if m > 0 {
        assert nearest[..m] == [nearest[0]] + rest[..m - 1];
      }
    }
  }

  lemma AnswerAt(nearest: seq<Hit>, rows: seq<Vector>, query: Vector, k: nat, p: nat)
    requires Answers(nearest, rows, query, k) && p < |nearest|
    ensures p < Min(k, |rows|) ==> Names(nearest[p], rows, query)
    ensures p >= Min(k, |rows|) ==> nearest[p].0 == -1
  {
  }

  lemma AnswerFalls(nearest: seq<Hit>, rows: seq<Vector>, query: Vector, k: nat, p: nat, q: nat)
    requires Answers(nearest, rows, query, k) && p <= q < Min(k, |rows|)
    ensures nearest[q].1 <= nearest[p].1
  {
    var found := nearest[..Min(k, |rows|)];
    assert found[p] == nearest[p] && found[q] == nearest[q];
    assert p < q ==> Score(found[p]) >= Score(found[q]);
  }

  /** Of a flat search's answer the filter keeps a prefix: what scores enough comes first. */
  lemma PassingCuts(nearest: seq<Hit>, rows: seq<Vector>, query: Vector, k: nat, minScore: real) returns (m: nat)
    requires Answers(nearest, rows, query, k)
    ensures m <= Min(k, |rows|) && Passing(nearest, minScore) == nearest[..m]
    ensures forall p :: 0 <= p < m ==> nearest[p].1 >= minScore
    ensures forall p :: m <= p < Min(k, |rows|) ==> nearest[p].1 < minScore
  {
    hide Passing;
    var n := Min(k, |rows|);
    m := 0;
    while m < n && nearest[m].1 >= minScore
      invariant m <= n && forall p :: 0 <= p < m ==> nearest[p].1 >= minScore
    {
      m := m + 1;
    }
    forall p | 0 <= p < |nearest|
      ensures Passes(nearest[p], minScore) <==> p < m
      ensures m <= p < n ==> nearest[p].1 < minScore
    {
      AnswerAt(nearest, rows, query, k, p);
      if m <= p < n {
        AnswerFalls(nearest, rows, query, k, m, p);
      }
    }
    PassingPrefix(nearest, minScore, m);
  }

  /** A row that scores enough and is not among the first `m` hits: then `k` hits at least as close are. */
  lemma MissingRow(nearest: seq<Hit>, rows: seq<Vector>, query: Vector, k: nat, minScore: real, m: nat, i: nat)
    requires Answers(nearest, rows, query, k) && m <= Min(k, |rows|) && i < |rows|
    requires forall p :: m <= p < Min(k, |rows|) ==> nearest[p].1 < minScore
    requires Dot(query, rows[i]) >= minScore && !HasKey(nearest[..m], i)
    ensures m == k && forall p :: 0 <= p < m ==> nearest[p].1 >= Dot(query, rows[i])
  {
    var n := Min(k, |rows|);
    var found := nearest[..n];
    forall p | 0 <= p < n
      ensures found[p].0 != i && 0 <= found[p].0 < |rows|
    {
      AnswerAt(nearest, rows, query, k, p);
      assert p < m ==> nearest[..m][p].0 != i;
    }
    OneLeftOut(found, |rows|, i);
    if k > 0 {
      assert Dot(query, rows[i]) <= nearest[n - 1].1;
      forall p | 0 <= p < m
        ensures nearest[p].1 >= Dot(query, rows[i])
      {
        AnswerFalls(nearest, rows, query, k, p, n - 1);
      }
    }
  }

  /**
   The vector hits of a flat search: rows of the index with their inner products,
   each once, none below the minimum score; and a row that scores enough is
   missing only if `k` rows at least as close were found.
   */
  lemma VectorHitsExactly(nearest: seq<Hit>, rows: seq<Vector>, query: Vector, k: nat, minScore: real)
    requires Answers(nearest, rows, query, k)
    ensures var hits := Passing(nearest, minScore);
            && DistinctKeys(hits)
            && (forall p :: 0 <= p < |hits| ==> Names(hits[p], rows, query) && hits[p].1 >= minScore)
            && forall i :: 0 <= i < |rows| && Dot(query, rows[i]) >= minScore && !HasKey(hits, i) ==>
                 |hits| == k && forall p :: 0 <= p < |hits| ==> hits[p].1 >= Dot(query, rows[i])
  {
    hide Passing;
    var m := PassingCuts(nearest, rows, query, k, minScore);
    var hits := nearest[..m];
    forall p | 0 <= p < m
      ensures Names(hits[p], rows, query)
    {
      AnswerAt(nearest, rows, query, k, p);
    }
    DistinctPrefix(nearest, Min(k, |rows|), m);
    forall i | 0 <= i < |rows| && Dot(query, rows[i]) >= minScore && !HasKey(hits, i)
      ensures |hits| == k && forall p :: 0 <= p < |hits| ==> hits[p].1 >= Dot(query, rows[i])
    {
      MissingRow(nearest, rows, query, k, minScore, m, i);
    }
  }

  lemma DistinctPrefix(hits: seq<Hit>, n: nat, m: nat)
    requires m <= n <= |hits| && DistinctKeys(hits[..n])
    ensures DistinctKeys(hits[..m])
  {
    forall i, j | 0 <= i < j < m
      ensures hits[i].0 != hits[j].0
    {
      assert hits[..n][i].0 != hits[..n][j].0;
    }
  }
}
