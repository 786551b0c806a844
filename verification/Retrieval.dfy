/**
 From fused hits to search results: grouping by parent, the second sort, the
 overview results and the deduplicating merge (backend/retriever.py `search`,
 `_overview_results`, `_overview_score`, `_merge_search_results`).
 */
module Retrieval {
  import Text
  import opened Sequences
  import opened Ranking
  import opened Fusion
  import opened Tokenizer
  import opened DocumentIndex
  import opened Neighbours

  datatype SearchResult = SearchResult(content: string, source: string, page: int, score: real, retrievalScore: real)

  // -------------------------------------------------------------------- rounding

  /** Half-to-even rounding to an integer. */
  function RoundHalfEven(y: real): int {
    var f := y.Floor;
    if y - f as real < 0.5 then f
    else if y - f as real > 0.5 then f + 1
    else if f % 2 == 0 then f else f + 1
  }

  /** Python's `round(x, 4)` on exact reals. */
  function Round4(x: real): real {
    RoundHalfEven(x * 10000.0) as real / 10000.0
  }

  lemma RoundingIsMonotone(x: real, y: real)
    requires x <= y
    ensures Round4(x) <= Round4(y)
  {
    var a, b := x * 10000.0, y * 10000.0;
    assert RoundHalfEven(a) <= RoundHalfEven(b);
  }

  /** Rounding goes to a nearest multiple of a ten-thousandth, and to an even one from the middle between two. */
  lemma RoundingIsNearest(x: real) returns (n: int)
    ensures Round4(x) == n as real / 10000.0
    ensures -0.5 <= n as real - x * 10000.0 <= 0.5
    ensures n as real - x * 10000.0 == 0.5 || n as real - x * 10000.0 == -0.5 ==> n % 2 == 0
  {
    n := RoundHalfEven(x * 10000.0);
  }

  /** Numbers with four decimals are not changed by rounding. */
  lemma RoundingFixesFourDecimals(n: int)
    ensures Round4(n as real / 10000.0) == n as real / 10000.0
  {
    assert n as real / 10000.0 * 10000.0 == n as real;
  }

  // ---------------------------------------------------------------- parent grouping

  function ParentKey(c: Chunk): string {
    if c.parentId != "" then c.parentId else c.id
  }

  function ResultText(c: Chunk): string {
    if c.body.passage.parentContent != "" then c.body.passage.parentContent else c.body.passage.content
  }

  function ResultOf(c: Chunk, score: real): SearchResult {
    SearchResult(ResultText(c), c.body.source, c.body.passage.page, Round4(score), Round4(score))
  }

  /** A dictionary from parent key to result, in insertion order. */
  type Groups = seq<(string, SearchResult)>

  predicate HasParent(groups: Groups, key: string) {
    exists i :: 0 <= i < |groups| && groups[i].0 == key
  }

  predicate InRange(h: Hit, chunks: seq<Chunk>) {
    0 <= h.0 < |chunks|
  }

  /** The simple form: the first hit of every parent, in order. */
  function FirstHits(hits: seq<Hit>, n: nat, chunks: seq<Chunk>): Groups
    requires n <= |hits|
  {
    if n == 0 then []
    else
      var groups, h := FirstHits(hits, n - 1, chunks), hits[n - 1];
      if !InRange(h, chunks) || HasParent(groups, ParentKey(chunks[h.0])) then groups
      else groups + [(ParentKey(chunks[h.0]), ResultOf(chunks[h.0], h.1))]
  }

  /** The position of a parent in the dictionary, or its length. */
  function Position(groups: Groups, key: string): (n: nat)
    ensures n <= |groups|
    ensures n < |groups| ==> groups[n].0 == key
    ensures n < |groups| <==> HasParent(groups, key)
  {
    if groups == [] then 0
    else if groups[0].0 == key then 0
    else
      var n := Position(groups[1..], key);
      assert HasParent(groups, key) <==> HasParent(groups[1..], key) by { ParentOfTail(groups, key); }
      n + 1
  }

  lemma ParentOfTail(groups: Groups, key: string)
    requires groups != [] && groups[0].0 != key
    ensures HasParent(groups, key) <==> HasParent(groups[1..], key)
  {
    if HasParent(groups[1..], key) {
      var i :| 0 <= i < |groups[1..]| && groups[1..][i].0 == key;
      assert groups[i + 1].0 == key;
    }
    if HasParent(groups, key) {
      var i :| 0 <= i < |groups| && groups[i].0 == key;
      assert groups[1..][i - 1].0 == key;
    }
  }

  /** The entry of every in-range hit among the first `n` scores at least as much as the hit. */
  lemma {:induction false} FirstHitsCover(hits: seq<Hit>, n: nat, chunks: seq<Chunk>, j: nat)
    requires n <= |hits| && Descending(hits, Score) && j < n && InRange(hits[j], chunks)
    ensures exists g :: g in FirstHits(hits, n, chunks) && g.0 == ParentKey(chunks[hits[j].0])
              && g.1.score >= Round4(hits[j].1)
  {
    var groups := FirstHits(hits, n - 1, chunks);
    if j < n - 1 {
      FirstHitsCover(hits, n - 1, chunks, j);
      var g :| g in groups && g.0 == ParentKey(chunks[hits[j].0]) && g.1.score >= Round4(hits[j].1);
      assert g in FirstHits(hits, n, chunks);
    } else if HasParent(groups, ParentKey(chunks[hits[j].0])) {
      var p := Position(groups, ParentKey(chunks[hits[j].0]));
      FirstHitsOrigin(hits, n - 1, chunks, p);
      RoundingIsMonotone(hits[j].1, hits[j].1);
      assert groups[p] in FirstHits(hits, n, chunks);
      ScoresFall(hits, n - 1, chunks, p, j);
    } else {
      assert (ParentKey(chunks[hits[j].0]), ResultOf(chunks[hits[j].0], hits[j].1)) in FirstHits(hits, n, chunks);
    }
  }

  /** Every entry comes from an in-range hit of that parent. */
  lemma {:induction false} FirstHitsOrigin(hits: seq<Hit>, n: nat, chunks: seq<Chunk>, p: nat)
    requires n <= |hits| && p < |FirstHits(hits, n, chunks)|
    ensures exists j :: 0 <= j < n && InRange(hits[j], chunks)
              && FirstHits(hits, n, chunks)[p] == (ParentKey(chunks[hits[j].0]), ResultOf(chunks[hits[j].0], hits[j].1))
  {
    var groups := FirstHits(hits, n - 1, chunks);
    if p < |groups| {
      FirstHitsOrigin(hits, n - 1, chunks, p);
      assert FirstHits(hits, n, chunks)[p] == groups[p];
    }
  }

  /** Entries made from earlier hits score at least as much as any later hit. */
  lemma ScoresFall(hits: seq<Hit>, n: nat, chunks: seq<Chunk>, p: nat, j: nat)
    requires n <= j < |hits| && Descending(hits, Score) && p < |FirstHits(hits, n, chunks)|
    ensures FirstHits(hits, n, chunks)[p].1.score >= Round4(hits[j].1)
  {
    FirstHitsOrigin(hits, n, chunks, p);
    var i :| 0 <= i < n && InRange(hits[i], chunks)
      && FirstHits(hits, n, chunks)[p] == (ParentKey(chunks[hits[i].0]), ResultOf(chunks[hits[i].0], hits[i].1));
    assert Score(hits[i]) >= Score(hits[j]);
    RoundingIsMonotone(hits[j].1, hits[i].1);
  }

  /**
   The grouping loop of `search`, with its replacement branch. On hits sorted
   by score it keeps the first hit of every parent: the branch never fires.
   */
  method GroupByParent(hits: seq<Hit>, chunks: seq<Chunk>) returns (groups: Groups)
    requires Descending(hits, Score)
    ensures groups == FirstHits(hits, |hits|, chunks)
  {
    groups := [];
    for n := 0 to |hits|
      invariant groups == FirstHits(hits, n, chunks)
    {
      var index, fused := hits[n].0, hits[n].1;
      if 0 <= index < |chunks| {
        var chunk := chunks[index];
        var result := ResultOf(chunk, fused);
        var at := Position(groups, ParentKey(chunk));
        if at == |groups| {
          groups := groups + [(ParentKey(chunk), result)];
        } else {
          ScoresFall(hits, n, chunks, at, n);
          if result.score > groups[at].1.score {
            groups := groups[at := (ParentKey(chunk), result)];
          }
        }
      }
    }
  }

  function Results(groups: Groups): (r: seq<SearchResult>)
    ensures |r| == |groups| && forall i :: 0 <= i < |r| ==> r[i] == groups[i].1
  {
    seq(|groups|, i requires 0 <= i < |groups| => groups[i].1)
  }

  function ResultScore(r: SearchResult): real { r.score }

  lemma {:induction false} FirstHitsDescend(hits: seq<Hit>, n: nat, chunks: seq<Chunk>)
    requires n <= |hits| && Descending(hits, Score)
    ensures Descending(Results(FirstHits(hits, n, chunks)), ResultScore)
  {
    if n > 0 {
      FirstHitsDescend(hits, n - 1, chunks);
      var groups, after := FirstHits(hits, n - 1, chunks), FirstHits(hits, n, chunks);
      var r := Results(after);
      if |after| > |groups| {
        forall i, j | 0 <= i < j < |r|
          ensures r[i].score >= r[j].score
        {
          if j < |groups| {
            assert Results(groups)[i] == r[i] && Results(groups)[j] == r[j];
          } else {
            ScoresFall(hits, n - 1, chunks, i, n - 1);
            assert after[i] == groups[i];
          }
        }
      }
    }
  }

  /** The second sort of `search` is the identity. */
  lemma SecondSortIsIdentity(hits: seq<Hit>, chunks: seq<Chunk>)
    requires Descending(hits, Score)
    ensures SortDescending(Results(FirstHits(hits, |hits|, chunks)), ResultScore)
            == Results(FirstHits(hits, |hits|, chunks))
  {
    FirstHitsDescend(hits, |hits|, chunks);
    SortedIsFixed(Results(FirstHits(hits, |hits|, chunks)), ResultScore);
  }

  predicate DistinctParents(groups: Groups) {
    forall i, j :: 0 <= i < j < |groups| ==> groups[i].0 != groups[j].0
  }

  lemma {:induction false} ParentsAppearOnce(hits: seq<Hit>, n: nat, chunks: seq<Chunk>)
    requires n <= |hits|
    ensures DistinctParents(FirstHits(hits, n, chunks))
  {
    if n > 0 {
      ParentsAppearOnce(hits, n - 1, chunks);
      var groups, after := FirstHits(hits, n - 1, chunks), FirstHits(hits, n, chunks);
      forall i, j | 0 <= i < j < |after|
        ensures after[i].0 != after[j].0
      {
        assert after[i] == groups[i];
        assert j < |groups| ==> after[j] == groups[j];
      }
    }
  }

  /** Some hit of the parent has exactly this rounded score. */
  ghost predicate AttainedBy(hits: seq<Hit>, chunks: seq<Chunk>, key: string, score: real) {
    exists j :: 0 <= j < |hits| && InRange(hits[j], chunks) && ParentKey(chunks[hits[j].0]) == key
                && Round4(hits[j].1) == score
  }

  /**
   Grouping means: a parent appears at most once, and its score is the maximum
   of the rounded scores of its children's hits.
   */
  lemma GroupsAreMaxima(hits: seq<Hit>, chunks: seq<Chunk>, p: nat)
    requires Descending(hits, Score) && p < |FirstHits(hits, |hits|, chunks)|
    ensures var g := FirstHits(hits, |hits|, chunks);
            && (forall q :: 0 <= q < |g| && q != p ==> g[q].0 != g[p].0)
            && AttainedBy(hits, chunks, g[p].0, g[p].1.score)
            && forall j :: 0 <= j < |hits| && InRange(hits[j], chunks) && ParentKey(chunks[hits[j].0]) == g[p].0
                 ==> Round4(hits[j].1) <= g[p].1.score
  {
    var g := FirstHits(hits, |hits|, chunks);
    ParentsAppearOnce(hits, |hits|, chunks);
    FirstHitsOrigin(hits, |hits|, chunks, p);
    forall j | 0 <= j < |hits| && InRange(hits[j], chunks) && ParentKey(chunks[hits[j].0]) == g[p].0
      ensures Round4(hits[j].1) <= g[p].1.score
    {
      FirstHitsCover(hits, |hits|, chunks, j);
      var e :| e in g && e.0 == ParentKey(chunks[hits[j].0]) && e.1.score >= Round4(hits[j].1);
      var q :| 0 <= q < |g| && g[q] == e;
    }
  }

  /** And no parent with a hit is left out. */
  lemma EveryHitParentAppears(hits: seq<Hit>, chunks: seq<Chunk>, j: nat)
    requires Descending(hits, Score) && j < |hits| && InRange(hits[j], chunks)
    ensures HasParent(FirstHits(hits, |hits|, chunks), ParentKey(chunks[hits[j].0]))
  {
    var g := FirstHits(hits, |hits|, chunks);
    FirstHitsCover(hits, |hits|, chunks, j);
    var e :| e in g && e.0 == ParentKey(chunks[hits[j].0]);
    var q :| 0 <= q < |g| && g[q] == e;
    assert g[q].0 == ParentKey(chunks[hits[j].0]);
  }

  // --------------------------------------------------------------- deduplicating merge

  /** Results count as the same when source, page and the first 160 characters agree. */
  function MergeKey(r: SearchResult): (string, int, string) {
    (r.source, r.page, Take(r.content, 160))
  }

  predicate Seen(results: seq<SearchResult>, key: (string, int, string)) {
    exists i :: 0 <= i < |results| && MergeKey(results[i]) == key
  }

  /** The first result of every key, in order. */
  function Dedup(results: seq<SearchResult>): seq<SearchResult> {
    if results == [] then []
    else
      var init, last := results[..|results| - 1], results[|results| - 1];
      if Seen(init, MergeKey(last)) then Dedup(init) else Dedup(init) + [last]
  }

  function Limit(topK: int): nat { if topK < 1 then 1 else topK }

  lemma {:induction false} DedupPrefix(results: seq<SearchResult>, n: nat)
    requires n <= |results|
    ensures |Dedup(results[..n])| <= |Dedup(results)|
    ensures Dedup(results)[..|Dedup(results[..n])|] == Dedup(results[..n])
  {
    if n == |results| {
      assert results[..n] == results;
    } else {
      var init := results[..|results| - 1];
      DedupPrefix(init, n);
      assert init[..n] == results[..n];
    }
  }

  lemma DedupPrefixIsTop(results: seq<SearchResult>, n: nat, limit: nat)
    requires n <= |results| && |Dedup(results[..n])| == limit
    ensures Take(Dedup(results), limit) == Dedup(results[..n])
  {
    DedupPrefix(results, n);
  }

  /**
   `_merge_search_results`: the first distinct results, at most `top_k` of them
   (but one if `top_k` is below 1, because the limit is tested after appending).
   */
  method MergeSearchResults(primary: seq<SearchResult>, secondary: seq<SearchResult>, topK: int)
    returns (merged: seq<SearchResult>)
    ensures merged == Take(Dedup(primary + secondary), Limit(topK))
  {
    merged := FirstDistinct(primary + secondary, topK);
  }

  method FirstDistinct(all: seq<SearchResult>, topK: int) returns (merged: seq<SearchResult>)
    ensures merged == Take(Dedup(all), Limit(topK))
  {
    hide Dedup, Remembers, MergeKey;
    var seen: set<(string, int, string)> := {};
    merged := [];
    NothingMerged();
    assert all[..0] == [];
    for i := 0 to |all|
      invariant merged == Dedup(all[..i])
      invariant Remembers(seen, all[..i])
      invariant |merged| < Limit(topK)
    {
      var key := MergeKey(all[i]);
      MergeOne(seen, all, i);
      if key !in seen {
        seen := seen + {key};
        merged := merged + [all[i]];
        if |merged| >= topK {
          DedupPrefixIsTop(all, i + 1, |merged|);
          return;
        }
      }
    }
    assert all[..|all|] == all;
  }

  lemma NothingMerged()
    ensures Dedup([]) == [] && Remembers({}, [])
  {
  }

  ghost predicate Remembers(seen: set<(string, int, string)>, results: seq<SearchResult>) {
    forall key :: key in seen <==> Seen(results, key)
  }

  lemma DedupSnoc(all: seq<SearchResult>, i: nat)
    requires i < |all|
    ensures Dedup(all[..i + 1])
            == if Seen(all[..i], MergeKey(all[i])) then Dedup(all[..i]) else Dedup(all[..i]) + [all[i]]
  {
    assert all[..i + 1][..i] == all[..i];
  }

  lemma SeenSnoc(all: seq<SearchResult>, i: nat, key: (string, int, string))
    requires i < |all|
    ensures Seen(all[..i + 1], key) <==> Seen(all[..i], key) || key == MergeKey(all[i])
  {
    var shorter, longer := all[..i], all[..i + 1];
    if Seen(shorter, key) {
      var j :| 0 <= j < i && MergeKey(shorter[j]) == key;
      assert MergeKey(longer[j]) == key;
    }
    if key == MergeKey(all[i]) {
      assert MergeKey(longer[i]) == key;
    }
    if Seen(longer, key) {
      var j :| 0 <= j < i + 1 && MergeKey(longer[j]) == key;
      assert j < i ==> MergeKey(shorter[j]) == key;
    }
  }

  lemma RemembersSnoc(seen: set<(string, int, string)>, all: seq<SearchResult>, i: nat)
    requires i < |all| && Remembers(seen, all[..i])
    ensures Remembers(seen + {MergeKey(all[i])}, all[..i + 1])
    ensures MergeKey(all[i]) in seen ==> seen + {MergeKey(all[i])} == seen
  {
    forall key: (string, int, string)
      ensures key in seen + {MergeKey(all[i])} <==> Seen(all[..i + 1], key)
    {
      SeenSnoc(all, i, key);
    }
  }

  lemma MergeOne(seen: set<(string, int, string)>, all: seq<SearchResult>, i: nat)
    requires i < |all| && Remembers(seen, all[..i])
    ensures MergeKey(all[i]) in seen ==> Dedup(all[..i + 1]) == Dedup(all[..i]) && Remembers(seen, all[..i + 1])
    ensures MergeKey(all[i]) !in seen ==>
              Dedup(all[..i + 1]) == Dedup(all[..i]) + [all[i]] && Remembers(seen + {MergeKey(all[i])}, all[..i + 1])
  {
    DedupSnoc(all, i);
    RemembersSnoc(seen, all, i);
  }

  ghost predicate FirstOfKey(results: seq<SearchResult>, i: int) {
    0 <= i < |results| && forall j :: 0 <= j < i ==> MergeKey(results[j]) != MergeKey(results[i])
  }

  lemma FirstOfKeySnoc(results: seq<SearchResult>, i: nat)
    requires i < |results|
    ensures var init := results[..|results| - 1];
            FirstOfKey(results, i) <==>
            if i < |init| then FirstOfKey(init, i) else !Seen(init, MergeKey(results[i]))
  {
    var init := results[..|results| - 1];
    assert forall j :: 0 <= j < |init| ==> init[j] == results[j];
  }

  /** Deduplication keeps exactly the results that are the first of their key. */
  lemma {:induction false} DedupKeepsFirsts(results: seq<SearchResult>, r: SearchResult)
    ensures r in Dedup(results) <==> exists i :: FirstOfKey(results, i) && results[i] == r
  {
    if results != [] {
      var n := |results| - 1;
      var init := results[..n];
      DedupKeepsFirsts(init, r);
      FirstOfKeySnoc(results, n);
      if r in Dedup(init) {
        var i :| FirstOfKey(init, i) && init[i] == r;
        FirstOfKeySnoc(results, i);
        assert FirstOfKey(results, i) && results[i] == r;
      } else {
        forall i | FirstOfKey(results, i) && results[i] == r
          ensures i == n
        {
          FirstOfKeySnoc(results, i);
        }
      }
    }
  }

  predicate DistinctResults(results: seq<SearchResult>) {
    forall i, j :: 0 <= i < j < |results| ==> MergeKey(results[i]) != MergeKey(results[j])
  }

  /** No two merged results agree in source, page and opening text. */
  lemma {:induction false} DedupIsDistinct(results: seq<SearchResult>)
    ensures DistinctResults(Dedup(results))
  {
    if results != [] {
      var init, last := results[..|results| - 1], results[|results| - 1];
      DedupIsDistinct(init);
      var d := Dedup(init);
      if !Seen(init, MergeKey(last)) {
        forall i | 0 <= i < |d|
          ensures MergeKey(d[i]) != MergeKey(last)
        {
          DedupKeepsFirsts(init, d[i]);
          var j :| FirstOfKey(init, j) && init[j] == d[i];
        }
      }
    }
  }

  // ------------------------------------------------------------------ overview results

  predicate ContainsAny(text: string, markers: seq<string>) {
    exists i :: 0 <= i < |markers| && Text.Contains(text, markers[i])
  }

  function OverviewScore(c: Chunk, low: Lowering): (score: real)
    ensures score >= 1.0
  {
    var text := Lower(ResultText(c), low);
    1.0
    + (if c.body.passage.page <= 2 then 3.0 else 0.0)
    + (if c.body.passage.parentIndex == 0 then 2.0 else 0.0)
    + (if ContainsAny(text, ["abstract", "a b s t r a c t", "摘要"]) then 4.0 else 0.0)
    + (if ContainsAny(text, ["introduction", "related work", "引言", "背景"]) then 2.0 else 0.0)
    + (if ContainsAny(text, ["conclusion", "conclusions", "结论", "summary"]) then 3.0 else 0.0)
  }

  /** The first chunk of every parent, in order. */
  function FirstChunks(chunks: seq<Chunk>): seq<Chunk> {
    if chunks == [] then []
    else
      var init, last := FirstChunks(chunks[..|chunks| - 1]), chunks[|chunks| - 1];
      if exists i :: 0 <= i < |init| && ParentKey(init[i]) == ParentKey(last) then init else init + [last]
  }

  function Scoring(low: Lowering): Chunk -> real {
    (c: Chunk) => OverviewScore(c, low)
  }

  /** The first chunks, highest overview score first. */
  function OverviewOrder(chunks: seq<Chunk>, low: Lowering): seq<Chunk> {
    SortDescending(FirstChunks(chunks), Scoring(low))
  }

  function OverviewResults(chunks: seq<Chunk>, topK: nat, low: Lowering): seq<SearchResult> {
    var top := Take(OverviewOrder(chunks, low), topK);
    seq(|top|, i requires 0 <= i < |top| => ResultOf(top[i], OverviewScore(top[i], low)))
  }

  lemma OverviewIsNotEmpty(chunks: seq<Chunk>, topK: nat, low: Lowering)
    requires chunks != [] && topK >= 1
    ensures OverviewResults(chunks, topK, low) != []
    ensures OverviewResults(chunks, topK, low)[0].score >= 1.0
  {
    FirstChunksNotEmpty(chunks);
    var scored := OverviewOrder(chunks, low);
    assert OverviewResults(chunks, topK, low)[0] == ResultOf(scored[0], OverviewScore(scored[0], low));
    RoundingIsMonotone(1.0, OverviewScore(scored[0], low));
    RoundingFixesFourDecimals(10000);
    assert 10000 as real / 10000.0 == 1.0;
  }

  lemma {:induction false} FirstChunksNotEmpty(chunks: seq<Chunk>)
    requires chunks != []
    ensures FirstChunks(chunks) != []
  {
    if |chunks| > 1 {
      FirstChunksNotEmpty(chunks[..|chunks| - 1]);
    }
  }

  // ------------------------------------------------------------------------- search

  /** What `search` returns without a reranker, given the two hit lists. */
  function Found(chunks: seq<Chunk>, vectorHits: seq<Hit>, keywordHits: seq<Hit>, w: Weights, overview: bool,
                 topK: nat, low: Lowering): seq<SearchResult>
    requires topK >= 1
  {
    var fused := SortDescending(Fuse(vectorHits, keywordHits, w), Score);
    var grouped := Results(FirstHits(fused, |fused|, chunks));
    Take(Dedup((if overview then OverviewResults(chunks, topK, low) else []) + grouped), topK)
  }

  /** The part of `search` after the two indexes have answered. */
  method FuseAndGroup(chunks: seq<Chunk>, nearest: seq<Hit>, minScore: real, keywordHits: seq<Hit>, w: Weights,
                      overview: bool, topK: nat, low: Lowering) returns (results: seq<SearchResult>)
    requires topK >= 1
    ensures results == Found(chunks, Passing(nearest, minScore), keywordHits, w, overview, topK, low)
  {
    var overviewResults := if overview then OverviewResults(chunks, topK, low) else [];
    var vectorHits := KeepPassing(nearest, minScore);
    var fused := RrfFuse(vectorHits, keywordHits, w);
    var sorted := SortDescending(fused, Score);
    SortsStably(fused, Score);
    var groups := GroupByParent(sorted, chunks);
    SecondSortIsIdentity(sorted, chunks);
    var grouped := SortDescending(Results(groups), ResultScore);
    results := MergeSearchResults(overviewResults, grouped, topK);
  }
}
