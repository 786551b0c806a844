/**
 Exact vector search by inner product, as FAISS's flat index answers it
 (backend/retriever.py `_rebuild_index`, `search`). The embedding model is an
 arbitrary function of the text.
 */
module VectorIndex {
  import opened Sequences
  import opened Ranking

  type Vector = seq<real>

  /** The embedding model, text by text. */
  type Embedder = string -> Vector

  function EmbedAll(contents: seq<string>, embed: Embedder): (r: seq<Vector>)
    ensures |r| == |contents| && forall i :: 0 <= i < |r| ==> r[i] == embed(contents[i])
  {
    seq(|contents|, i requires 0 <= i < |contents| => embed(contents[i]))
  }

  /** The inner product. */
  function Dot(a: Vector, b: Vector): real {
    if a == [] || b == [] then 0.0 else a[0] * b[0] + Dot(a[1..], b[1..])
  }

  /** A row that the answer names, with its inner product. */
  predicate Names(h: Hit, rows: seq<Vector>, query: Vector) {
    0 <= h.0 < |rows| && h.1 == Dot(query, rows[h.0])
  }

  /** No row outside the first `n` hits is closer than the last of them. */
  ghost predicate NoneCloser(nearest: seq<Hit>, n: nat, rows: seq<Vector>, query: Vector) {
    forall i :: 0 <= i < |rows| && 0 < n <= |nearest| && !HasKey(nearest[..n], i) ==>
                  Dot(query, rows[i]) <= nearest[n - 1].1
  }

  /**
   What a flat search for `k` neighbours answers: the `k` closest rows, or all of
   them, closest first, and index -1 in the places that are left. Equally close
   rows may come in any order.
   */
  ghost predicate Answers(nearest: seq<Hit>, rows: seq<Vector>, query: Vector, k: nat) {
    var n := Min(k, |rows|);
    && |nearest| == k
    && (forall p :: 0 <= p < n ==> Names(nearest[p], rows, query))
    && (forall p :: n <= p < k ==> nearest[p].0 == -1)
    && DistinctKeys(nearest[..n])
    && Descending(nearest[..n], Score)
    && NoneCloser(nearest, n, rows, query)
  }

  // ------------------------------------------------------------------- such an answer exists

  function AllHits(rows: seq<Vector>, query: Vector): (r: seq<Hit>)
    ensures |r| == |rows| && forall i :: 0 <= i < |r| ==> r[i] == (i, Dot(query, rows[i]))
  {
    seq(|rows|, i requires 0 <= i < |rows| => (i, Dot(query, rows[i])))
  }

  function Missing(n: nat): (r: seq<Hit>)
    ensures |r| == n && forall i :: 0 <= i < n ==> r[i].0 == -1
  {
    seq(n, i => (-1, 0.0))
  }

  /** Sorting all rows by inner product is one such search. */
  function FlatSearch(rows: seq<Vector>, query: Vector, k: nat): seq<Hit> {
    var ranked := SortDescending(AllHits(rows, query), Score);
    ranked[..Min(k, |rows|)] + Missing(k - Min(k, |rows|))
  }

  lemma RankedNames(rows: seq<Vector>, query: Vector, p: nat)
    requires p < |rows|
    ensures Names(SortDescending(AllHits(rows, query), Score)[p], rows, query)
  {
    var all := AllHits(rows, query);
    var ranked := SortDescending(all, Score);
    SortRanks(all);
    assert ranked[p] in ranked;
  }

  lemma FlatNoneCloser(rows: seq<Vector>, query: Vector, n: nat)
    requires n <= |rows|
    ensures NoneCloser(SortDescending(AllHits(rows, query), Score), n, rows, query)
  {
    var all := AllHits(rows, query);
    var ranked := SortDescending(all, Score);
    SortRanks(all);
    SortsStably(all, Score);
    forall i | 0 <= i < |rows| && 0 < n && !HasKey(ranked[..n], i)
      ensures Dot(query, rows[i]) <= ranked[n - 1].1
    {
      forall p | 0 <= p < n
        ensures ranked[p].0 != i
      {
        assert ranked[..n][p] == ranked[p];
      }
      assert all[i] in all;
      var q :| 0 <= q < |ranked| && ranked[q] == all[i];
      assert Score(ranked[n - 1]) >= Score(ranked[q]);
    }
  }

  lemma FlatSearchAnswers(rows: seq<Vector>, query: Vector, k: nat)
    ensures Answers(FlatSearch(rows, query, k), rows, query, k)
  {
    hide SortDescending, NoneCloser, Names;
    var n := Min(k, |rows|);
    var ranked, nearest := SortDescending(AllHits(rows, query), Score), FlatSearch(rows, query, k);
    assert nearest[..n] == ranked[..n];
    SortsStably(AllHits(rows, query), Score);
    TopIsDistinct(AllHits(rows, query), n);
    FlatNoneCloser(rows, query, n);
    SamePrefix(ranked, nearest, n, rows, query);
    forall p | 0 <= p < n
      ensures Names(nearest[p], rows, query)
    {
      RankedNames(rows, query, p);
    }
  }

  lemma SamePrefix(a: seq<Hit>, b: seq<Hit>, n: nat, rows: seq<Vector>, query: Vector)
    requires n <= |a| && n <= |b| && a[..n] == b[..n] && NoneCloser(a, n, rows, query)
    ensures NoneCloser(b, n, rows, query)
  {
    assert n > 0 ==> a[n - 1] == a[..n][n - 1] == b[n - 1];
  }
}
