/**
 The two hit lists of `search` as the two indexes really give them, and what
 fusing them then means (backend/retriever.py `search`): the vector index's
 answer over aligned rows, and the keyword ranking over aligned counters.
 */
module HybridSearch {
  import opened Sequences
  import opened Ranking
  import opened Tokenizer
  import Bm25
  import opened KeywordIndex
  import opened VectorIndex
  import opened Neighbours
  import opened Fusion

  /** What one search asks: the query's vector and tokens, how many candidates, and the thresholds. */
  datatype Ask = Ask(vector: Vector, tokens: seq<string>, vectorK: nat, keywordK: int, minScore: real,
                     params: Bm25.Params, enabled: bool)

  /** The keyword hits. */
  function KeywordHits(docs: seq<Bm25.Doc>, a: Ask, ln: Bm25.Log): seq<Hit>
    requires Bm25.Sensible(a.params)
  {
    Bm25.Results(docs, a.tokens, a.params, ln, a.enabled, a.keywordK)
  }

  /** Neither list names a chunk twice. */
  lemma ListsAreDistinct(nearest: seq<Hit>, rows: seq<Vector>, docs: seq<Bm25.Doc>, a: Ask, ln: Bm25.Log)
    requires Answers(nearest, rows, a.vector, a.vectorK) && Bm25.Sensible(a.params)
    ensures DistinctKeys(Passing(nearest, a.minScore)) && DistinctKeys(KeywordHits(docs, a, ln))
  {
    VectorHitsExactly(nearest, rows, a.vector, a.vectorK, a.minScore);
    if KeywordHits(docs, a, ln) != [] {
      Bm25.ScoredExactly(docs, a.tokens, a.params, ln, |docs|);
      TopIsDistinct(Bm25.Scored(docs, a.tokens, a.params, ln, |docs|), a.keywordK);
    }
  }

  // ------------------------------------------------------------------- who comes first

  /** Whenever `j` is listed, `i` is listed before it. */
  ghost predicate Precedes(hits: seq<Hit>, i: int, j: int) {
    forall q :: 0 <= q < |hits| && hits[q].0 == j ==> HasKey(hits[..q], i)
  }

  lemma PrecedingIsBetter(hits: seq<Hit>, i: int, j: int)
    requires Precedes(hits, i, j) && DistinctKeys(hits) && i != j
    ensures NoWorse(hits, i, j)
    ensures HasKey(hits, i) ==> StrictlyBetter(hits, i, j)
  {
    forall q | 0 <= q < |hits| && hits[q].0 == j
      ensures exists r :: 0 <= r <= q && hits[r].0 == i
    {
      var r :| 0 <= r < |hits[..q]| && hits[..q][r].0 == i;
      assert hits[r].0 == i;
    }
    if HasKey(hits, i) {
      var r :| 0 <= r < |hits| && hits[r].0 == i;
      forall q | 0 <= q <= r
        ensures hits[q].0 != j
      {
        forall p | 0 <= p < q
          ensures hits[..q][p].0 != i
        {
          assert hits[p].0 != hits[r].0;
        }
        assert !HasKey(hits[..q], i);
      }
    }
  }

  lemma PrecedingIsFound(hits: seq<Hit>, i: int, j: int)
    requires Precedes(hits, i, j)
    ensures HasKey(hits, j) ==> HasKey(hits, i)
  {
    if HasKey(hits, j) {
      var q :| 0 <= q < |hits| && hits[q].0 == j;
      var r :| 0 <= r < |hits[..q]| && hits[..q][r].0 == i;
      assert hits[r].0 == i;
    }
  }

  /** If row `j` scores enough to be a vector hit, row `i` is strictly closer to the query. */
  predicate VectorAhead(rows: seq<Vector>, a: Ask, i: nat, j: nat)
    requires i < |rows| && j < |rows|
  {
    a.vectorK > 0 && Dot(a.vector, rows[j]) >= a.minScore ==> Dot(a.vector, rows[i]) > Dot(a.vector, rows[j])
  }

  /** A row that is ahead precedes among the vector hits. */
  lemma CloserPrecedes(nearest: seq<Hit>, rows: seq<Vector>, a: Ask, i: nat, j: nat)
    requires Answers(nearest, rows, a.vector, a.vectorK) && i < |rows| && j < |rows| && VectorAhead(rows, a, i, j)
    ensures Precedes(Passing(nearest, a.minScore), i, j)
  {
    hide Passing;
    var m := PassingCuts(nearest, rows, a.vector, a.vectorK, a.minScore);
    forall q | 0 <= q < m && nearest[..m][q].0 == j
      ensures HasKey(nearest[..m][..q], i)
    {
      assert nearest[..m][..q] == nearest[..q];
      AnswerAt(nearest, rows, a.vector, a.vectorK, q);
      CloserFound(nearest, rows, a, i, j, q);
    }
  }

  lemma CloserFound(nearest: seq<Hit>, rows: seq<Vector>, a: Ask, i: nat, j: nat, q: nat)
    requires Answers(nearest, rows, a.vector, a.vectorK) && i < |rows| && j < |rows|
    requires Dot(a.vector, rows[i]) > Dot(a.vector, rows[j])
    requires q < Min(a.vectorK, |rows|) && nearest[q].0 == j
    ensures HasKey(nearest[..q], i)
  {
    var n := Min(a.vectorK, |rows|);
    AnswerAt(nearest, rows, a.vector, a.vectorK, q);
    AnswerFalls(nearest, rows, a.vector, a.vectorK, q, n - 1);
    assert HasKey(nearest[..n], i);
    var p :| 0 <= p < |nearest[..n]| && nearest[..n][p].0 == i;
    AnswerAt(nearest, rows, a.vector, a.vectorK, p);
    if p >= q {
      AnswerFalls(nearest, rows, a.vector, a.vectorK, q, p);
      assert false;
    }
    assert nearest[..q][p].0 == i;
  }

  /**
   If chunk `j` can be a keyword hit at all, the keyword ranking puts `i` ahead of
   it: higher score, or equal score and earlier chunk.
   */
  ghost predicate KeywordAhead(docs: seq<Bm25.Doc>, a: Ask, ln: Bm25.Log, i: nat, j: nat)
    requires i < |docs| && j < |docs| && Bm25.Sensible(a.params)
  {
    (a.enabled && a.keywordK > 0 && Bm25.AverageLength(docs) > 0.0
     && Bm25.DocScore(docs, j, a.tokens, a.params, ln) > 0.0) ==>
      Beats((i, Bm25.DocScore(docs, i, a.tokens, a.params, ln)), (j, Bm25.DocScore(docs, j, a.tokens, a.params, ln)))
  }

  /** A chunk that is ahead by keywords precedes among the keyword hits. */
  lemma AheadPrecedes(docs: seq<Bm25.Doc>, a: Ask, ln: Bm25.Log, i: nat, j: nat)
    requires Bm25.Sensible(a.params) && i < |docs| && j < |docs| && KeywordAhead(docs, a, ln, i, j)
    ensures Precedes(KeywordHits(docs, a, ln), i, j)
  {
    var hits := KeywordHits(docs, a, ln);
    if hits != [] {
      hide Bm25.Scored, Bm25.DocScore, SortDescending;
      var scored := Bm25.Scored(docs, a.tokens, a.params, ln, |docs|);
      var ranked := SortDescending(scored, Score);
      Bm25.ScoredExactly(docs, a.tokens, a.params, ln, |docs|);
      SortRanks(scored);
      forall q | 0 <= q < |hits| && hits[q].0 == j
        ensures HasKey(hits[..q], i)
      {
        assert hits[q] == ranked[q] && ranked[q] in ranked;
        RankedBefore(ranked, (i, Bm25.DocScore(docs, i, a.tokens, a.params, ln)), q);
        assert ranked[..q] == hits[..q];
      }
    }
  }

  lemma RankedBefore(ranked: seq<Hit>, h: Hit, q: nat)
    requires Ranked(ranked) && h in ranked && q < |ranked| && Beats(h, ranked[q])
    ensures HasKey(ranked[..q], h.0)
  {
    forall p | q <= p < |ranked|
      ensures ranked[p] != h
    {
      assert p == q || Beats(ranked[q], ranked[p]);
    }
    var p :| 0 <= p < |ranked| && ranked[p] == h;
    assert ranked[..q][p].0 == h.0;
  }

  // ------------------------------------------------------------------- what search promises

  /**
   Rank-fusion dominance of the search itself: over aligned indexes, a chunk that
   is ahead of another by either measure, wherever the other can be a hit by that
   measure, scores strictly higher once fused, if either is found at all. Neither
   the numbers of candidates nor the minimum score can reverse that. A search that
   only one of the indexes answers is included: the other measure then asks nothing.
   */
  lemma SearchDominance(contents: seq<string>, nearest: seq<Hit>, a: Ask, w: Weights, embed: Embedder, low: Lowering,
                        ln: Bm25.Log, i: nat, j: nat)
    requires Bm25.Sensible(a.params) && w.vector > 0.0 && w.keyword > 0.0
    requires i < |contents| && j < |contents| && i != j
    requires Answers(nearest, EmbedAll(contents, embed), a.vector, a.vectorK)
    requires VectorAhead(EmbedAll(contents, embed), a, i, j)
    requires KeywordAhead(TokenizeAll(contents, low), a, ln, i, j)
    ensures var fused := Fuse(Passing(nearest, a.minScore), KeywordHits(TokenizeAll(contents, low), a, ln), w);
            HasKey(fused, i) || HasKey(fused, j) ==> HasKey(fused, i) && ValueOf(fused, i) > ValueOf(fused, j)
  {
    var rows, docs := EmbedAll(contents, embed), TokenizeAll(contents, low);
    var vectorHits, keywordHits := Passing(nearest, a.minScore), KeywordHits(docs, a, ln);
    ListsAreDistinct(nearest, rows, docs, a, ln);
    CloserPrecedes(nearest, rows, a, i, j);
    AheadPrecedes(docs, a, ln, i, j);
    PrecedingIsBetter(vectorHits, i, j);
    PrecedingIsBetter(keywordHits, i, j);
    PrecedingIsFound(vectorHits, i, j);
    PrecedingIsFound(keywordHits, i, j);
    FuseMeans(vectorHits, keywordHits, w);
    if HasKey(vectorHits, i) || HasKey(keywordHits, i) {
      FusionDominance(vectorHits, keywordHits, w, i, j);
    }
  }

  /** The fusion bound of the search itself. */
  lemma SearchBound(nearest: seq<Hit>, rows: seq<Vector>, docs: seq<Bm25.Doc>, a: Ask, w: Weights, ln: Bm25.Log, i: int)
    requires Answers(nearest, rows, a.vector, a.vectorK) && Bm25.Sensible(a.params)
    requires w.vector > 0.0 && w.keyword > 0.0
    ensures var vectorHits, keywordHits := Passing(nearest, a.minScore), KeywordHits(docs, a, ln);
            var value := ValueOf(Fuse(vectorHits, keywordHits, w), i);
            var bound := (w.vector + w.keyword) / (w.k + 1) as real;
            && 0.0 <= value <= bound
            && (value == bound <==> && vectorHits != [] && vectorHits[0].0 == i
                                    && keywordHits != [] && keywordHits[0].0 == i)
  {
    ListsAreDistinct(nearest, rows, docs, a, ln);
    FusionBound(Passing(nearest, a.minScore), KeywordHits(docs, a, ln), w, i);
  }
}
