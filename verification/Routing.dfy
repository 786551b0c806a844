/**
 How search scores decide the answering route (backend/graph.py
 `local_results_confident`, `choose_route`, `grade_documents`, `decide_*`).
 Keyword lists and the language model's verdicts are inputs.
 */
module Routing {
  import Text
  import opened Sequences
  import opened Ranking
  import opened Fusion
  import opened Tokenizer
  import opened DocumentIndex
  import opened Neighbours
  import opened Retrieval
  import opened HybridSearch
  import opened VectorIndex
  import opened Overlap
  import Bm25

  datatype Route = Auto | Local | Web | Model

  /** Which of the marker lists the question matches. */
  datatype Markers = Markers(document: bool, web: bool, direct: bool)

  function ChooseRoute(m: Markers): Route {
    if m.document then Local
    else if m.web then Web
    else if m.direct then Model
    else Auto
  }

  /** A retrieved document: text and score. */
  datatype Document = Document(content: string, score: real)

  function DocumentsOf(results: seq<SearchResult>): (r: seq<Document>)
    ensures |r| == |results|
    ensures forall i :: 0 <= i < |r| ==> r[i] == Document(results[i].content, results[i].score)
  {
    seq(|results|, i requires 0 <= i < |results| => Document(results[i].content, results[i].score))
  }

  function BestScore(documents: seq<Document>): real
    requires documents != []
  {
    if |documents| == 1 then documents[0].score
    else
      var rest := BestScore(documents[1..]);
      if documents[0].score >= rest then documents[0].score else rest
  }

  lemma {:induction false} BestScoreIsMaximum(documents: seq<Document>)
    requires documents != []
    ensures forall i :: 0 <= i < |documents| ==> documents[i].score <= BestScore(documents)
    ensures exists i :: 0 <= i < |documents| && documents[i].score == BestScore(documents)
  {
    if |documents| > 1 {
      BestScoreIsMaximum(documents[1..]);
      var i :| 0 <= i < |documents[1..]| && documents[1..][i].score == BestScore(documents[1..]);
      assert documents[i + 1].score == BestScore(documents[1..]);
      assert documents[0].score == BestScore(documents) || documents[i + 1].score == BestScore(documents);
      assert forall j :: 1 <= j < |documents| ==> documents[j] == documents[1..][j - 1];
    } else {
      assert documents[0].score == BestScore(documents);
    }
  }

  predicate Stopword(t: string) {
    t == "这个" || t == "那个" || t == "什么" || t == "怎么" || t == "如何" || t == "一下"
  }

  function QueryTerms(question: string, low: Lowering): set<string> {
    set t | t in Tokens(question, low) && |t| >= 2 && !Stopword(t)
  }

  /** The first 1200 characters of the first three documents, lowered. */
  function Openings(documents: seq<Document>, low: Lowering): (r: seq<string>)
    ensures |r| == Min(3, |documents|)
    ensures forall i :: 0 <= i < |r| ==> r[i] == Lower(Take(documents[i].content, 1200), low)
  {
    seq(Min(3, |documents|), i requires 0 <= i < |documents| => Lower(Take(documents[i].content, 1200), low))
  }

  function Context(documents: seq<Document>, low: Lowering): string {
    Text.Join(Openings(documents, low), "\n")
  }

  /** At least two of the query's terms, or all of them if there are fewer, occur in the context. */
  predicate EnoughOverlap(question: string, documents: seq<Document>, low: Lowering) {
    var terms := QueryTerms(question, low);
    var found := set t | t in terms && Text.Contains(Context(documents, low), t);
    && terms != {}
    && |found| >= (if |terms| < 2 then |terms| else 2)
  }

  // -------------------------------------------------------------------- what overlap decides

  /** A token of the question that tells something: of two characters or more, and none of six stopwords. */
  predicate Telling(t: string, question: string, low: Lowering) {
    && t in Tokens(question, low) && |t| >= 2
    && t !in ["这个", "那个", "什么", "怎么", "如何", "一下"]
  }

  /** It occurs in the lowered first 1200 characters of one of the first three documents. */
  ghost predicate Shown(t: string, documents: seq<Document>, low: Lowering) {
    exists i :: 0 <= i < |documents| && i < 3 && ShownIn(t, documents[i].content, low)
  }

  ghost predicate ShownIn(t: string, content: string, low: Lowering) {
    Occurs(t, Lower(if |content| > 1200 then content[..1200] else content, low))
  }

  /** Two different telling tokens are shown, or the only one is. */
  ghost predicate Overlaps(question: string, documents: seq<Document>, low: Lowering) {
    || (exists t, u :: t != u && Telling(t, question, low) && Telling(u, question, low)
                       && Shown(t, documents, low) && Shown(u, documents, low))
    || (exists t :: Telling(t, question, low) && Shown(t, documents, low)
                    && forall u :: Telling(u, question, low) ==> u == t)
  }

  lemma ContextShows(t: string, question: string, documents: seq<Document>, low: Lowering)
    requires t in Tokens(question, low) && t != ""
    ensures Text.Contains(Context(documents, low), t) <==> Shown(t, documents, low)
  {
    TokensChars(question, low, t);
    assert AllOf(t, NoNewline);
    ContainsIsOccurs(Context(documents, low), t);
    var parts := Openings(documents, low);
    OccursInJoin(parts, t);
    hide Occurs, Lower, Openings;
    if i :| 0 <= i < |parts| && Occurs(t, parts[i]) {
      assert ShownIn(t, documents[i].content, low);
    }
    if i :| 0 <= i < |documents| && i < 3 && ShownIn(t, documents[i].content, low) {
      assert Occurs(t, parts[i]);
    }
  }

  /**
   There is enough overlap exactly when two different telling tokens of the
   question are shown, or its only telling token is.
   */
  lemma OverlapExactly(question: string, documents: seq<Document>, low: Lowering)
    ensures EnoughOverlap(question, documents, low) <==> Overlaps(question, documents, low)
  {
    var terms := QueryTerms(question, low);
    var found := set t | t in terms && Text.Contains(Context(documents, low), t);
    forall t
      ensures t in terms <==> Telling(t, question, low)
      ensures t in found <==> Telling(t, question, low) && Shown(t, documents, low)
    {
      if t in Tokens(question, low) && t != "" {
        ContextShows(t, question, documents, low);
      }
    }
    OverlapByCount(terms, found, question, documents, low);
  }

  lemma OverlapByCount(terms: set<string>, found: set<string>, question: string, documents: seq<Document>,
                       low: Lowering)
    requires forall t :: t in terms <==> Telling(t, question, low)
    requires forall t :: t in found <==> Telling(t, question, low) && Shown(t, documents, low)
    ensures Overlaps(question, documents, low)
            <==> terms != {} && |found| >= (if |terms| < 2 then |terms| else 2)
  {
    hide Telling, Shown;
    TwoMembers(terms);
    TwoMembers(found);
    if |terms| == 1 {
      var t :| t in terms;
      OneMember(terms, t);
      assert |found| >= 1 <==> t in found;
    }
  }

  /** `local_results_confident`. */
  predicate Confident(question: string, documents: seq<Document>, threshold: real, low: Lowering) {
    && documents != []
    && (BestScore(documents) >= threshold || EnoughOverlap(question, documents, low))
  }

  /** Local results are trusted exactly if one scores enough or enough of the question's tokens are shown. */
  lemma ConfidentExactly(question: string, documents: seq<Document>, threshold: real, low: Lowering)
    ensures Confident(question, documents, threshold, low)
            <==> && documents != []
                 && ((exists i :: 0 <= i < |documents| && documents[i].score >= threshold)
                     || Overlaps(question, documents, low))
  {
    hide EnoughOverlap, Overlaps;
    OverlapExactly(question, documents, low);
    if documents != [] {
      BestScoreIsMaximum(documents);
    }
  }

  // ---------------------------------------------------------------------- grading

  datatype Graded = Graded(route: Route, documents: seq<Document>, webFallback: bool)

  /** The documents the language model judged useful. */
  function Kept(documents: seq<Document>, verdicts: seq<bool>): seq<Document>
    requires |verdicts| == |documents|
  {
    if documents == [] then []
    else (if verdicts[0] then [documents[0]] else []) + Kept(documents[1..], verdicts[1..])
  }

  function Grade(route: Route, documents: seq<Document>, confident: bool, verdicts: seq<bool>): Graded
    requires |verdicts| == |documents|
  {
    if documents == [] then Graded(if route == Local then Local else Model, [], false)
    else if route == Local || (route == Auto && confident) then Graded(Local, documents, false)
    else if route == Auto then Graded(Model, [], false)
    else
      // the flag is raised when nothing is kept, and lowered again together with keeping everything
      var kept := Kept(documents, verdicts);
      var webFallback := kept == [];
      if webFallback then Graded(Local, documents, false) else Graded(Local, kept, webFallback)
  }

  lemma KeptNext(documents: seq<Document>, verdicts: seq<bool>, i: nat)
    requires i < |documents| == |verdicts|
    ensures Kept(documents[i..], verdicts[i..])
            == (if verdicts[i] then [documents[i]] else []) + Kept(documents[i + 1..], verdicts[i + 1..])
  {
    assert documents[i..][1..] == documents[i + 1..] && verdicts[i..][1..] == verdicts[i + 1..];
  }

  lemma KeptEnds(documents: seq<Document>, verdicts: seq<bool>)
    requires |documents| == |verdicts|
    ensures Kept(documents[0..], verdicts[0..]) == Kept(documents, verdicts)
    ensures Kept(documents[|documents|..], verdicts[|documents|..]) == []
  {
    assert documents[0..] == documents && verdicts[0..] == verdicts;
  }

  /** The loop of `grade_documents` over the documents. */
  method KeepUseful(documents: seq<Document>, verdicts: seq<bool>) returns (kept: seq<Document>)
    requires |verdicts| == |documents|
    ensures kept == Kept(documents, verdicts)
  {
    KeptEnds(documents, verdicts);
    hide Kept;
    kept := [];
    for i := 0 to |documents|
      invariant Kept(documents, verdicts) == kept + Kept(documents[i..], verdicts[i..])
    {
      KeptNext(documents, verdicts, i);
      if verdicts[i] {
        kept := kept + [documents[i]];
      }
    }
  }

  /** `grade_documents`: the fallback flag is computed and then reset in the same branch. */
  method GradeDocuments(route: Route, documents: seq<Document>, confident: bool, verdicts: seq<bool>)
    returns (r: Graded)
    requires |verdicts| == |documents|
    ensures r == Grade(route, documents, confident, verdicts) && !r.webFallback
  {
    if |documents| == 0 {
      return Graded(if route == Local then Local else Model, [], false);
    }
    if route == Local {
      return Graded(Local, documents, false);
    }
    if route == Auto && confident {
      return Graded(Local, documents, false);
    }
    if route == Auto {
      return Graded(Model, [], false);
    }
    var kept := KeepUseful(documents, verdicts);
    var webFallback := |kept| == 0;
    if webFallback {
      kept := documents;
      webFallback := false;
    }
    r := Graded(Local, kept, webFallback);
  }

  lemma {:induction false} KeptAreJudgedUseful(documents: seq<Document>, verdicts: seq<bool>, d: Document)
    requires |verdicts| == |documents|
    ensures d in Kept(documents, verdicts) <==> exists i :: 0 <= i < |documents| && documents[i] == d && verdicts[i]
  {
    if documents != [] {
      KeptAreJudgedUseful(documents[1..], verdicts[1..], d);
      if d in Kept(documents[1..], verdicts[1..]) {
        var i :| 0 <= i < |documents[1..]| && documents[1..][i] == d && verdicts[1..][i];
        assert documents[i + 1] == d && verdicts[i + 1];
      }
      forall i | 0 <= i < |documents| && documents[i] == d && verdicts[i]
        ensures d in Kept(documents, verdicts)
      {
        assert i > 0 ==> documents[1..][i - 1] == d && verdicts[1..][i - 1];
      }
    }
  }

  lemma {:induction false} NoneKept(documents: seq<Document>, verdicts: seq<bool>)
    requires |verdicts| == |documents|
    ensures Kept(documents, verdicts) == [] <==> true !in verdicts
  {
    if documents != [] {
      NoneKept(documents[1..], verdicts[1..]);
      assert verdicts == [verdicts[0]] + verdicts[1..];
    }
  }

  /**
   Grading never turns evidence into none: unless an automatic question is not
   confident, documents stay, and a document is dropped only if it was judged
   useless beside a useful one.
   */
  lemma GradingKeepsEvidence(route: Route, documents: seq<Document>, confident: bool, verdicts: seq<bool>, d: Document)
    requires |verdicts| == |documents| && documents != []
    ensures var r := Grade(route, documents, confident, verdicts);
            && (r.documents == [] <==> route == Auto && !confident)
            && (r.route == Local <==> r.documents != [])
            && (d in r.documents <==>
                  && r.documents != []
                  && exists i :: 0 <= i < |documents| && documents[i] == d
                                 && (route == Local || route == Auto || true !in verdicts || verdicts[i]))
  {
    hide Kept;
    KeptAreJudgedUseful(documents, verdicts, d);
    NoneKept(documents, verdicts);
  }

  // -------------------------------------------------------- what the score can decide

  lemma GroupedComesFromHits(hits: seq<Hit>, chunks: seq<Chunk>, result: SearchResult) returns (h: Hit)
    requires result in Retrieval.Results(FirstHits(hits, |hits|, chunks))
    ensures h in hits && result.score == Round4(h.1)
  {
    var groups := FirstHits(hits, |hits|, chunks);
    var p :| 0 <= p < |groups| && Retrieval.Results(groups)[p] == result;
    FirstHitsOrigin(hits, |hits|, chunks, p);
    var j :| 0 <= j < |hits| && InRange(hits[j], chunks)
      && groups[p] == (ParentKey(chunks[hits[j].0]), ResultOf(chunks[hits[j].0], hits[j].1));
    h := hits[j];
  }

  lemma DedupMembers(results: seq<SearchResult>, r: SearchResult)
    requires r in Dedup(results)
    ensures r in results
  {
    DedupKeepsFirsts(results, r);
  }

  lemma FoundComesFromHits(chunks: seq<Chunk>, vectorHits: seq<Hit>, keywordHits: seq<Hit>, w: Weights, topK: nat,
                           low: Lowering, i: nat)
    returns (h: Hit)
    requires topK >= 1 && i < |Found(chunks, vectorHits, keywordHits, w, false, topK, low)|
    ensures h in Fuse(vectorHits, keywordHits, w)
    ensures Found(chunks, vectorHits, keywordHits, w, false, topK, low)[i].score == Round4(h.1)
  {
    var grouped := GroupedHits(vectorHits, keywordHits, w, chunks);
    FoundWithoutOverview(chunks, vectorHits, keywordHits, w, topK, low);
    var result := Take(Dedup(grouped), topK)[i];
    assert result in Dedup(grouped);
    DedupMembers(grouped, result);
    var scores := Fuse(vectorHits, keywordHits, w);
    h := GroupedComesFromHits(SortDescending(scores, Score), chunks, result);
    SortMembers(scores, Score, h);
  }

  function GroupedHits(vectorHits: seq<Hit>, keywordHits: seq<Hit>, w: Weights, chunks: seq<Chunk>): seq<SearchResult> {
    var fused := SortDescending(Fuse(vectorHits, keywordHits, w), Score);
    Retrieval.Results(FirstHits(fused, |fused|, chunks))
  }

  lemma FoundWithoutOverview(chunks: seq<Chunk>, vectorHits: seq<Hit>, keywordHits: seq<Hit>, w: Weights, topK: nat,
                             low: Lowering)
    requires topK >= 1
    ensures Found(chunks, vectorHits, keywordHits, w, false, topK, low)
            == Take(Dedup(GroupedHits(vectorHits, keywordHits, w, chunks)), topK)
  {
    var grouped := GroupedHits(vectorHits, keywordHits, w, chunks);
    assert [] + grouped == grouped;
  }

  /** Without overview results no score exceeds the rounded fusion bound. */
  lemma FoundScoresBounded(chunks: seq<Chunk>, vectorHits: seq<Hit>, keywordHits: seq<Hit>, w: Weights, topK: nat,
                           low: Lowering, i: nat)
    requires DistinctKeys(vectorHits) && DistinctKeys(keywordHits) && w.vector > 0.0 && w.keyword > 0.0
    requires topK >= 1 && i < |Found(chunks, vectorHits, keywordHits, w, false, topK, low)|
    ensures Found(chunks, vectorHits, keywordHits, w, false, topK, low)[i].score
            <= Round4((w.vector + w.keyword) / (w.k + 1) as real)
  {
    var h := FoundComesFromHits(chunks, vectorHits, keywordHits, w, topK, low, i);
    FuseMeans(vectorHits, keywordHits, w);
    ValueOfMember(Fuse(vectorHits, keywordHits, w), h);
    FusionBound(vectorHits, keywordHits, w, h.0);
    RoundingIsMonotone(h.1, (w.vector + w.keyword) / (w.k + 1) as real);
  }

  /**
   When the rounded bound lies below the threshold, the score test of a search
   without overview results never passes: confidence is term overlap alone.
   */
  lemma ConfidenceIsOverlap(question: string, chunks: seq<Chunk>, vectorHits: seq<Hit>, keywordHits: seq<Hit>,
                            w: Weights, topK: nat, threshold: real, low: Lowering)
    requires DistinctKeys(vectorHits) && DistinctKeys(keywordHits) && w.vector > 0.0 && w.keyword > 0.0 && topK >= 1
    requires Round4((w.vector + w.keyword) / (w.k + 1) as real) < threshold
    ensures var documents := DocumentsOf(Found(chunks, vectorHits, keywordHits, w, false, topK, low));
            Confident(question, documents, threshold, low)
            <==> documents != [] && Overlaps(question, documents, low)
  {
    hide EnoughOverlap, Overlaps;
    var documents := DocumentsOf(Found(chunks, vectorHits, keywordHits, w, false, topK, low));
    ConfidentExactly(question, documents, threshold, low);
    if i :| 0 <= i < |documents| && documents[i].score >= threshold {
      FoundScoresBounded(chunks, vectorHits, keywordHits, w, topK, low, i);
    }
  }

  const DEFAULT_WEIGHTS := Weights(1.0, 1.0, 60)

  /**
   With the default weights and threshold and without a reranker, an automatically
   routed question that is not an overview question is answered locally exactly
   when enough of its terms occur in what the search found.
   */
  lemma DefaultsRouteByOverlap(question: string, chunks: seq<Chunk>, nearest: seq<Hit>, rows: seq<Vector>,
                               docs: seq<Bm25.Doc>, a: Ask, ln: Bm25.Log, topK: nat, low: Lowering, verdicts: seq<bool>)
    requires Answers(nearest, rows, a.vector, a.vectorK) && Bm25.Sensible(a.params) && topK >= 1
    requires |verdicts| == |Found(chunks, Passing(nearest, a.minScore), KeywordHits(docs, a, ln),
                                  DEFAULT_WEIGHTS, false, topK, low)|
    ensures var documents := DocumentsOf(Found(chunks, Passing(nearest, a.minScore), KeywordHits(docs, a, ln),
                                               DEFAULT_WEIGHTS, false, topK, low));
            Grade(Auto, documents, Confident(question, documents, 0.55, low), verdicts).route == Local
            <==> documents != [] && Overlaps(question, documents, low)
  {
    hide Found, Passing, KeywordHits, Answers, Overlaps;
    var w := DEFAULT_WEIGHTS;
    DefaultBoundIsLow();
    ListsAreDistinct(nearest, rows, docs, a, ln);
    ConfidenceIsOverlap(question, chunks, Passing(nearest, a.minScore), KeywordHits(docs, a, ln), w, topK, 0.55, low);
  }

  lemma DefaultBoundIsLow()
    ensures Round4((DEFAULT_WEIGHTS.vector + DEFAULT_WEIGHTS.keyword) / (DEFAULT_WEIGHTS.k + 1) as real) < 0.55
  {
    var bound := (DEFAULT_WEIGHTS.vector + DEFAULT_WEIGHTS.keyword) / (DEFAULT_WEIGHTS.k + 1) as real;
    assert bound <= 5499 as real / 10000.0;
    RoundingIsMonotone(bound, 5499 as real / 10000.0);
    RoundingFixesFourDecimals(5499);
  }

  /** An overview search of a non-empty store is always confident: its first result scores at least 1. */
  lemma OverviewIsAlwaysConfident(question: string, chunks: seq<Chunk>, vectorHits: seq<Hit>, keywordHits: seq<Hit>,
                                  w: Weights, topK: nat, threshold: real, low: Lowering)
    requires chunks != [] && topK >= 1 && threshold <= 1.0
    ensures Confident(question, DocumentsOf(Found(chunks, vectorHits, keywordHits, w, true, topK, low)), threshold, low)
  {
    var overview := OverviewResults(chunks, topK, low);
    OverviewIsNotEmpty(chunks, topK, low);
    var fused := SortDescending(Fuse(vectorHits, keywordHits, w), Score);
    var all := overview + Retrieval.Results(FirstHits(fused, |fused|, chunks));
    DedupPrefix(all, 1);
    assert all[..1] == [overview[0]];
    assert Dedup([overview[0]]) == [overview[0]];
    var documents := DocumentsOf(Found(chunks, vectorHits, keywordHits, w, true, topK, low));
    assert Dedup(all)[0] == overview[0];
    assert documents[0].score == overview[0].score;
    BestScoreIsMaximum(documents);
  }
}
