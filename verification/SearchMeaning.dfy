/**
 What a search without overview results and reranker returns, in terms of the
 fused scores and the fields of the chunks alone (backend/retriever.py `search`).
 */
module SearchMeaning {
  import opened Sequences
  import opened Ranking
  import opened Fusion
  import opened DocumentIndex
  import opened Retrieval
  import opened Tokenizer

  /** The same parent id; a chunk without one is its own parent. */
  predicate SameParent(a: Chunk, b: Chunk) {
    (if a.parentId == "" then a.id else a.parentId) == (if b.parentId == "" then b.id else b.parentId)
  }

  /** The parent's text if there is one, with the source and page of the chunk. */
  predicate Shows(r: SearchResult, c: Chunk) {
    && r.source == c.body.source && r.page == c.body.passage.page
    && r.content == if c.body.passage.parentContent == "" then c.body.passage.content else c.body.passage.parentContent
  }

  /** Results that are taken for the same passage. */
  predicate Alike(r: SearchResult, s: SearchResult) {
    && r.source == s.source && r.page == s.page
    && (if |r.content| > 160 then r.content[..160] else r.content)
       == (if |s.content| > 160 then s.content[..160] else s.content)
  }

  ghost predicate IsHit(fused: seq<Hit>, chunks: seq<Chunk>, i: int) {
    0 <= i < |chunks| && HasKey(fused, i)
  }

  /** A hit that no hit of the same parent outscores. */
  ghost predicate BestHit(fused: seq<Hit>, chunks: seq<Chunk>, i: int) {
    && IsHit(fused, chunks, i)
    && forall j :: IsHit(fused, chunks, j) && SameParent(chunks[i], chunks[j]) ==>
                     ValueOf(fused, j) <= ValueOf(fused, i)
  }

  /** The result of the best hit `i`, with its rounded fused score. */
  ghost predicate Reports(r: SearchResult, fused: seq<Hit>, chunks: seq<Chunk>, i: int) {
    && BestHit(fused, chunks, i) && Shows(r, chunks[i])
    && r.score == r.retrievalScore == Round4(ValueOf(fused, i))
  }

  /** Listed, or taken for another result that is listed and scores no less, or outscored by a full list. */
  ghost predicate Covered(r: SearchResult, results: seq<SearchResult>, topK: nat) {
    || (exists s :: s in results && Alike(s, r) && s.score >= r.score)
    || (|results| == topK && forall s :: s in results ==> s.score >= r.score)
  }

  ghost predicate Accounted(fused: seq<Hit>, chunks: seq<Chunk>, j: int, results: seq<SearchResult>, topK: nat) {
    exists r, i :: IsHit(fused, chunks, j) && Reports(r, fused, chunks, i) && SameParent(chunks[i], chunks[j])
                   && Covered(r, results, topK)
  }

  /** What the results of a search are, given the fused scores. */
  ghost predicate Presents(results: seq<SearchResult>, fused: seq<Hit>, chunks: seq<Chunk>, topK: nat) {
    && |results| <= topK
    && (forall r :: r in results ==> exists i :: Reports(r, fused, chunks, i))
    && (forall p, q :: 0 <= p < q < |results| ==> results[p].score >= results[q].score)
    && (forall p, q :: 0 <= p < q < |results| ==> !Alike(results[p], results[q]))
    && (forall j :: IsHit(fused, chunks, j) ==> Accounted(fused, chunks, j, results, topK))
  }

  // ------------------------------------------------------------------- the best hit of a parent

  /** Every entry comes from the first in-range hit of its parent. */
  lemma {:induction false} FirstHitsFirst(hits: seq<Hit>, n: nat, chunks: seq<Chunk>, p: nat) returns (j: nat)
    requires n <= |hits| && p < |FirstHits(hits, n, chunks)|
    ensures j < n && InRange(hits[j], chunks)
    ensures FirstHits(hits, n, chunks)[p] == (ParentKey(chunks[hits[j].0]), ResultOf(chunks[hits[j].0], hits[j].1))
    ensures forall q :: 0 <= q < j && InRange(hits[q], chunks) ==>
                          ParentKey(chunks[hits[q].0]) != ParentKey(chunks[hits[j].0])
  {
    var groups := FirstHits(hits, n - 1, chunks);
    if p < |groups| {
      j := FirstHitsFirst(hits, n - 1, chunks, p);
      assert FirstHits(hits, n, chunks)[p] == groups[p];
    } else {
      j := n - 1;
      forall q | 0 <= q < j && InRange(hits[q], chunks)
        ensures ParentKey(chunks[hits[q].0]) != ParentKey(chunks[hits[j].0])
      {
        ParentListed(hits, n - 1, chunks, q);
      }
    }
  }

  lemma {:induction false} ParentListed(hits: seq<Hit>, n: nat, chunks: seq<Chunk>, q: nat)
    requires q < n <= |hits| && InRange(hits[q], chunks)
    ensures HasParent(FirstHits(hits, n, chunks), ParentKey(chunks[hits[q].0]))
  {
    var groups, after := FirstHits(hits, n - 1, chunks), FirstHits(hits, n, chunks);
    var key := ParentKey(chunks[hits[q].0]);
    if q < n - 1 {
      ParentListed(hits, n - 1, chunks, q);
      var i :| 0 <= i < |groups| && groups[i].0 == key;
      assert after[i].0 == key;
    } else if !HasParent(groups, key) {
      assert after[|groups|].0 == key;
    }
  }

  lemma SortedHits(fused: seq<Hit>, i: int)
    requires DistinctKeys(fused) && HasKey(fused, i)
    ensures (i, ValueOf(fused, i)) in SortDescending(fused, Score)
  {
    var k :| 0 <= k < |fused| && fused[k].0 == i;
    ValueOfMember(fused, fused[k]);
    SortMembers(fused, Score, fused[k]);
  }

  /** The grouped results, before deduplication: one per parent, of its best hit. */
  lemma GroupReports(fused: seq<Hit>, chunks: seq<Chunk>, p: nat) returns (i: int)
    requires DistinctKeys(fused)
    requires var sorted := SortDescending(fused, Score); p < |FirstHits(sorted, |sorted|, chunks)|
    ensures var sorted := SortDescending(fused, Score);
            var g := FirstHits(sorted, |sorted|, chunks);
            Reports(g[p].1, fused, chunks, i) && g[p].0 == ParentKey(chunks[i])
  {
    var sorted := SortDescending(fused, Score);
    var j := FirstHitsFirst(sorted, |sorted|, chunks, p);
    i := sorted[j].0;
    SortMembers(fused, Score, sorted[j]);
    ValueOfMember(fused, sorted[j]);
    SortsStably(fused, Score);
    forall k | IsHit(fused, chunks, k) && SameParent(chunks[i], chunks[k])
      ensures ValueOf(fused, k) <= ValueOf(fused, i)
    {
      SortedHits(fused, k);
      var q :| 0 <= q < |sorted| && sorted[q] == (k, ValueOf(fused, k));
      assert q >= j;
      assert q > j ==> Score(sorted[j]) >= Score(sorted[q]);
    }
    var k :| 0 <= k < |fused| && fused[k] == sorted[j];
    assert HasKey(fused, i);
  }

  // ------------------------------------------------------------------- deduplication and the limit

  lemma {:induction false} DedupDescends(results: seq<SearchResult>)
    requires Descending(results, ResultScore)
    ensures Descending(Dedup(results), ResultScore)
  {
    if results != [] {
      var init, last := results[..|results| - 1], results[|results| - 1];
      assert Descending(init, ResultScore) by {
        assert forall i :: 0 <= i < |init| ==> init[i] == results[i];
      }
      DedupDescends(init);
      var d := Dedup(init);
      forall i | 0 <= i < |d|
        ensures d[i].score >= last.score
      {
        DedupKeepsFirsts(init, d[i]);
        var j :| FirstOfKey(init, j) && init[j] == d[i];
        assert ResultScore(results[j]) >= ResultScore(results[|results| - 1]);
      }
    }
  }

  lemma AlikeMeansSameKey(r: SearchResult, s: SearchResult)
    ensures Alike(r, s) <==> MergeKey(r) == MergeKey(s)
  {
  }

  /** Whatever is not listed was taken for a listed result, or the list is full of results that score no less. */
  lemma ListedOrCovered(results: seq<SearchResult>, p: nat, topK: nat)
    requires p < |results| && Descending(results, ResultScore)
    ensures Covered(results[p], Take(Dedup(results), topK), topK)
  {
    var q := FirstAlike(results, p);
    var all := Dedup(results);
    DedupKeepsFirsts(results, results[q]);
    DedupDescends(results);
    hide Dedup, FirstOfKey, Descending, Alike;
    var m :| 0 <= m < |all| && all[m] == results[q];
    if m < topK {
      assert Take(all, topK)[m] == results[q];
    } else {
      FullListIsHigher(all, m, topK);
    }
  }

  lemma FullListIsHigher(all: seq<SearchResult>, m: nat, topK: nat)
    requires topK <= m < |all| && Descending(all, ResultScore)
    ensures var listed := Take(all, topK); |listed| == topK && forall s :: s in listed ==> s.score >= all[m].score
  {
    var listed := Take(all, topK);
    forall s | s in listed
      ensures s.score >= all[m].score
    {
      var x :| 0 <= x < |listed| && listed[x] == s;
      assert ResultScore(all[x]) >= ResultScore(all[m]);
    }
  }

  lemma {:induction false} FirstAlike(results: seq<SearchResult>, p: nat) returns (q: nat)
    requires p < |results| && Descending(results, ResultScore)
    ensures q <= p && FirstOfKey(results, q) && Alike(results[q], results[p])
    ensures results[q].score >= results[p].score
  {
    q := p;
    if j: nat :| j < p && MergeKey(results[j]) == MergeKey(results[p]) {
      assert ResultScore(results[j]) >= ResultScore(results[p]);
      q := FirstAlike(results, j);
      AlikeMeansSameKey(results[q], results[j]);
    }
    AlikeMeansSameKey(results[q], results[p]);
  }

  // ------------------------------------------------------------------- the search

  /** The results are those of the grouping, cut to the first distinct ones. */
  lemma GroupedPresents(fused: seq<Hit>, chunks: seq<Chunk>, topK: nat)
    requires DistinctKeys(fused)
    ensures var sorted := SortDescending(fused, Score);
            Presents(Take(Dedup(Results(FirstHits(sorted, |sorted|, chunks))), topK), fused, chunks, topK)
  {
    var sorted := SortDescending(fused, Score);
    var g := FirstHits(sorted, |sorted|, chunks);
    var all := Results(g);
    var listed := Take(Dedup(all), topK);
    SortsStably(fused, Score);
    FirstHitsDescend(sorted, |sorted|, chunks);
    DedupDescends(all);
    DedupIsDistinct(all);
    hide FirstHits, Dedup, SortDescending, Reports;
    forall r | r in listed
      ensures exists i :: Reports(r, fused, chunks, i)
    {
      DedupKeepsFirsts(all, r);
      var q :| FirstOfKey(all, q) && all[q] == r;
      var i := GroupReports(fused, chunks, q);
    }
    forall p, q | 0 <= p < q < |listed|
      ensures listed[p].score >= listed[q].score && !Alike(listed[p], listed[q])
    {
      assert ResultScore(Dedup(all)[p]) >= ResultScore(Dedup(all)[q]);
      AlikeMeansSameKey(listed[p], listed[q]);
    }
    forall j | IsHit(fused, chunks, j)
      ensures Accounted(fused, chunks, j, listed, topK)
    {
      HitIsAccounted(fused, chunks, j, topK);
    }
  }

  lemma HitIsAccounted(fused: seq<Hit>, chunks: seq<Chunk>, j: int, topK: nat)
    requires DistinctKeys(fused) && IsHit(fused, chunks, j)
    ensures var sorted := SortDescending(fused, Score);
            Accounted(fused, chunks, j, Take(Dedup(Results(FirstHits(sorted, |sorted|, chunks))), topK), topK)
  {
    var sorted := SortDescending(fused, Score);
    var g := FirstHits(sorted, |sorted|, chunks);
    SortsStably(fused, Score);
    FirstHitsDescend(sorted, |sorted|, chunks);
    SortedHits(fused, j);
    var q :| 0 <= q < |sorted| && sorted[q] == (j, ValueOf(fused, j));
    ParentListed(sorted, |sorted|, chunks, q);
    var p :| 0 <= p < |g| && g[p].0 == ParentKey(chunks[j]);
    var i := GroupReports(fused, chunks, p);
    ListedOrCovered(Results(g), p, topK);
    assert SameParent(chunks[i], chunks[j]);
    assert Results(g)[p] == g[p].1;
  }

  /**
   What `search` returns without overview results and reranker: at most `top_k`
   results in descending order, no two taken for the same passage; each shows the
   parent of a hit that no other hit of that parent outscores, with that hit's
   source, page and rounded fused score; and the parent of a hit is missing only if
   it is taken for a listed result, or the list is full of results that score no less.
   */
  lemma SearchMeans(chunks: seq<Chunk>, vectorHits: seq<Hit>, keywordHits: seq<Hit>, w: Weights, topK: nat,
                     low: Lowering)
    requires topK >= 1
    ensures Presents(Found(chunks, vectorHits, keywordHits, w, false, topK, low), Fuse(vectorHits, keywordHits, w),
                    chunks, topK)
  {
    var fused := Fuse(vectorHits, keywordHits, w);
    FuseMeans(vectorHits, keywordHits, w);
    GroupedPresents(fused, chunks, topK);
    var sorted := SortDescending(fused, Score);
    var grouped := Results(FirstHits(sorted, |sorted|, chunks));
    assert [] + grouped == grouped;
  }

  /**
   With overview results these come first, each of them or one taken for it; the
   rest are results of hits as above, and no two are taken for the same passage.
   */
  lemma OverviewSearchMeans(chunks: seq<Chunk>, vectorHits: seq<Hit>, keywordHits: seq<Hit>, w: Weights, topK: nat,
                            low: Lowering)
    requires topK >= 1
    ensures var results := Found(chunks, vectorHits, keywordHits, w, true, topK, low);
            var overview, fused := OverviewResults(chunks, topK, low), Fuse(vectorHits, keywordHits, w);
            && |results| <= topK
            && Dedup(overview) <= results
            && (forall r :: r in results ==> r in overview || exists i :: Reports(r, fused, chunks, i))
            && (forall p, q :: 0 <= p < q < |results| ==> !Alike(results[p], results[q]))
  {
    var overview, fused := OverviewResults(chunks, topK, low), Fuse(vectorHits, keywordHits, w);
    var sorted := SortDescending(fused, Score);
    var grouped := Results(FirstHits(sorted, |sorted|, chunks));
    var all := overview + grouped;
    var results := Take(Dedup(all), topK);
    FuseMeans(vectorHits, keywordHits, w);
    DedupPrefix(all, |overview|);
    assert all[..|overview|] == overview;
    DedupIsNoLonger(overview);
    DedupIsDistinct(all);
    DistinctMeansUnalike(Dedup(all), topK);
    hide Dedup, OverviewResults, FirstHits, SortDescending, Reports, MergeKey, Alike;
    forall r | r in results
      ensures r in overview || exists i :: Reports(r, fused, chunks, i)
    {
      DedupedIsGiven(overview, grouped, r);
      if r in grouped {
        var q :| 0 <= q < |grouped| && grouped[q] == r;
        var i := GroupReports(fused, chunks, q);
      }
    }
  }

  lemma DistinctMeansUnalike(results: seq<SearchResult>, topK: nat)
    requires DistinctResults(results)
    ensures var listed := Take(results, topK);
            forall p, q :: 0 <= p < q < |listed| ==> !Alike(listed[p], listed[q])
  {
    var listed := Take(results, topK);
    forall p, q | 0 <= p < q < |listed|
      ensures !Alike(listed[p], listed[q])
    {
      AlikeMeansSameKey(results[p], results[q]);
    }
  }

  lemma DedupedIsGiven(a: seq<SearchResult>, b: seq<SearchResult>, r: SearchResult)
    requires r in Dedup(a + b)
    ensures r in a || r in b
  {
    DedupKeepsFirsts(a + b, r);
  }

  lemma {:induction false} DedupIsNoLonger(results: seq<SearchResult>)
    ensures |Dedup(results)| <= |results|
  {
    if results != [] {
      DedupIsNoLonger(results[..|results| - 1]);
    }
  }
}
