/**
 The in-memory BM25 index as an object (backend/retriever.py `BM25Index`): its
 counters are rebuilt in place, and its search loop is proved to compute the
 ranking that module Bm25 describes.
 */
module KeywordIndex {
  import opened Tokenizer
  import opened Ranking
  import opened Sequences
  import opened Bm25

  function TokenizeAll(contents: seq<string>, low: Lowering): (docs: seq<Doc>)
    ensures |docs| == |contents| && forall i :: 0 <= i < |docs| ==> docs[i] == Tokens(contents[i], low)
  {
    seq(|contents|, i requires 0 <= i < |contents| => Tokens(contents[i], low))
  }

  function Sum(lens: seq<nat>): nat {
    if lens == [] then 0 else Sum(lens[..|lens| - 1]) + lens[|lens| - 1]
  }

  /** `Counter.update(keys)`. */
  function CountKeys(df: map<string, nat>, keys: set<string>): map<string, nat> {
    map t | t in df.Keys + keys :: (if t in df then df[t] else 0) + (if t in keys then 1 else 0)
  }

  /** The document frequencies of a list of documents. */
  ghost predicate Frequencies(df: map<string, nat>, docs: seq<Doc>) {
    && (forall t :: t in df <==> DocFreq(docs, t) > 0)
    && (forall t :: t in df ==> df[t] == DocFreq(docs, t))
  }

  lemma FrequenciesGrow(df: map<string, nat>, docs: seq<Doc>, doc: Doc)
    requires Frequencies(df, docs)
    ensures Frequencies(CountKeys(df, CounterOf(doc).Keys), docs + [doc])
  {
    assert (docs + [doc])[..|docs|] == docs;
    forall t: string
      ensures DocFreq(docs + [doc], t) == DocFreq(docs, t) + (if t in doc then 1 else 0)
    {
    }
  }

  /** Lengths and term counts of a list of documents. */
  ghost predicate Counted(lens: seq<nat>, freqs: seq<map<string, nat>>, docs: seq<Doc>) {
    && |lens| == |freqs| == |docs|
    && (forall i :: 0 <= i < |docs| ==> lens[i] == |docs[i]|)
    && (forall i :: 0 <= i < |docs| ==> freqs[i] == CounterOf(docs[i]))
    && Sum(lens) == TotalLength(docs)
  }

  lemma CountedGrow(lens: seq<nat>, freqs: seq<map<string, nat>>, docs: seq<Doc>, doc: Doc)
    requires Counted(lens, freqs, docs)
    ensures Counted(lens + [|doc|], freqs + [CounterOf(doc)], docs + [doc])
  {
    assert (docs + [doc])[..|docs|] == docs;
    assert (lens + [|doc|])[..|lens|] == lens;
  }

  lemma NothingCounted()
    ensures Counted([], [], []) && Frequencies(map[], [])
  {
  }

  /** The source multiplies and divides from left to right; over the reals the grouping does not matter. */
  lemma Regroup(weight: real, idf: real, x: real, y: real)
    requires y > 0.0
    ensures weight * idf * x / y == weight * (idf * (x / y))
  {
    assert x == x / y * y;
    assert weight * idf * x == weight * (idf * (x / y)) * y;
  }

  /** What the search loop adds for a term that occurs `freq` times. */
  function TermScore(weight: nat, idf: real, freq: nat, k1: real, norm: real): real
    requires freq as real + norm > 0.0
  {
    weight as real * idf * (freq as real * (k1 + 1.0)) / (freq as real + norm)
  }

  lemma TermScoreIsContribution(docs: seq<Doc>, i: nat, term: string, weight: nat, p: Params, ln: Log)
    requires i < |docs| && AverageLength(docs) > 0.0 && Sensible(p)
    requires Count(docs[i], term) > 0 && LengthNorm(docs, i, p) >= 0.0
    ensures TermScore(weight, Idf(docs, term, ln), Count(docs[i], term), p.k1, LengthNorm(docs, i, p))
            == Times(weight, Contribution(docs, i, term, p, ln))
  {
    var f, norm, idf := Count(docs[i], term), LengthNorm(docs, i, p), Idf(docs, term, ln);
    var c := Contribution(docs, i, term, p, ln);
    assert c == idf * Saturation(f, norm, p.k1);
    GroupedTerm(weight, idf, f, p.k1, norm, c);
    TimesMultiplies(weight, c);
  }

  lemma GroupedTerm(weight: nat, idf: real, f: nat, k1: real, norm: real, c: real)
    requires f > 0 && norm >= 0.0 && c == idf * Saturation(f, norm, k1)
    ensures TermScore(weight, idf, f, k1, norm) == weight as real * c
  {
    var x, y := f as real * (k1 + 1.0), f as real + norm;
    Regroup(weight as real, idf, x, y);
    assert c == idf * (x / y);
    assert TermScore(weight, idf, f, k1, norm) == weight as real * idf * x / y;
  }

  /** What the loop adds for term `j`: nothing when the document lacks it. */
  lemma TermAdds(docs: seq<Doc>, i: nat, terms: seq<string>, j: nat, query: seq<string>, p: Params, ln: Log)
    requires i < |docs| && AverageLength(docs) > 0.0 && Sensible(p) && j < |terms|
    requires LengthNorm(docs, i, p) >= 0.0
    ensures var freq := Count(docs[i], terms[j]);
            WeightedScore(docs, i, terms[..j + 1], query, p, ln)
            == WeightedScore(docs, i, terms[..j], query, p, ln)
               + if freq == 0 then 0.0
                 else TermScore(Count(query, terms[j]), Idf(docs, terms[j], ln), freq, p.k1, LengthNorm(docs, i, p))
  {
    assert terms[..j + 1][..j] == terms[..j];
    if Count(docs[i], terms[j]) > 0 {
      TermScoreIsContribution(docs, i, terms[j], Count(query, terms[j]), p, ln);
    } else {
      TimesMultiplies(Count(query, terms[j]), 0.0);
    }
  }

  lemma IdfTable(df: map<string, nat>, docs: seq<Doc>, ln: Log)
    requires Frequencies(df, docs)
    ensures forall t :: t in df ==> df[t] <= |docs| && Idf(docs, t, ln) == ln(Rarity(|docs|, df[t]))
  {
    forall t | t in df
      ensures df[t] <= |docs| && Idf(docs, t, ln) == ln(Rarity(|docs|, df[t]))
    {
      DocFreqBounds(docs, t);
    }
  }

  class BM25Index {
    const enabled: bool
    const params: Params
    var docCount: nat
    var avgDocLen: real
    var docLens: seq<nat>
    var termFreqs: seq<map<string, nat>>
    var idf: map<string, real>

    constructor (enabled: bool, params: Params, ghost ln: Log)
      ensures this.enabled == enabled && this.params == params
      ensures Built([], ln)
    {
      this.enabled, this.params := enabled, params;
      docCount, avgDocLen, docLens, termFreqs, idf := 0, 0.0, [], [], map[];
    }

    /** The counters describe exactly these documents. */
    ghost predicate Built(docs: seq<Doc>, ln: Log)
      reads this
    {
      && docCount == |docs|
      && Counted(docLens, termFreqs, docs)
      && avgDocLen == AverageLength(docs)
      && (forall t :: t in idf <==> DocFreq(docs, t) > 0)
      && (forall t :: t in idf ==> idf[t] == Idf(docs, t, ln))
    }

    /** `rebuild`: correct from any earlier state. */
    method Rebuild(contents: seq<string>, low: Lowering, ln: Log)
      modifies this
      ensures Built(TokenizeAll(contents, low), ln)
    {
      ghost var docs := TokenizeAll(contents, low);
      docCount := |contents|;
      docLens := [];
      termFreqs := [];
      idf := map[];
      if |contents| == 0 {
        avgDocLen := 0.0;
        return;
      }
      var documentFrequency := CountDocuments(contents, low);
      avgDocLen := Sum(docLens) as real / docCount as real;
      IdfTable(documentFrequency, docs, ln);
      idf := map t | t in documentFrequency :: ln(Rarity(docCount, documentFrequency[t]));
    }

    /** The loop of `rebuild` over the documents. */
    method CountDocuments(contents: seq<string>, low: Lowering) returns (documentFrequency: map<string, nat>)
      requires docLens == [] && termFreqs == []
      modifies `docLens, `termFreqs
      ensures Counted(docLens, termFreqs, TokenizeAll(contents, low))
      ensures Frequencies(documentFrequency, TokenizeAll(contents, low))
    {
      hide Tokens, Counted, Frequencies, CountKeys;
      ghost var docs := TokenizeAll(contents, low);
      documentFrequency := map[];
      NothingCounted();
      assert docs[..0] == [];
      for i := 0 to |contents|
        invariant Counted(docLens, termFreqs, docs[..i])
        invariant Frequencies(documentFrequency, docs[..i])
      {
        var tokens := Tokenize(contents[i], low);
        assert tokens == docs[i];
        var termFrequency := CounterOf(tokens);
        FrequenciesGrow(documentFrequency, docs[..i], docs[i]);
        CountedGrow(docLens, termFreqs, docs[..i], docs[i]);
        assert docs[..i + 1] == docs[..i] + [docs[i]];
        termFreqs := termFreqs + [termFrequency];
        docLens := docLens + [|tokens|];
        documentFrequency := CountKeys(documentFrequency, termFrequency.Keys);
      }
      assert docs[..|contents|] == docs;
    }

    /** `search`. */
    method Search(query: string, topK: int, low: Lowering, ghost docs: seq<Doc>, ghost ln: Log) returns (hits: seq<Hit>)
      requires Built(docs, ln) && Sensible(params)
      ensures hits == Results(docs, Tokens(query, low), params, ln, enabled, topK)
    {
      if !enabled || |termFreqs| == 0 || topK <= 0 {
        return [];
      }
      var queryTerms := Tokenize(query, low);
      if |queryTerms| == 0 || avgDocLen <= 0.0 {
        return [];
      }
      hide Tokens, WeightedScore, DocScore, Distinct;
      var queryCounts := CounterOf(queryTerms);
      var terms := Distinct(queryTerms);
      DistinctTerms(queryTerms);
      var scored: seq<Hit> := [];
      for docIndex := 0 to |termFreqs|
        invariant scored == Scored(docs, queryTerms, params, ln, docIndex)
      {
        var score := ScoreOf(docIndex, terms, queryTerms, queryCounts, docs, ln);
        CountedScoreIsScore(docs, docIndex, queryTerms, params, ln);
        if score > 0.0 {
          scored := scored + [(docIndex, score)];
        }
      }
      hits := Take(SortDescending(scored, Score), topK);
    }

    /** The inner loop of `search` over the items of the query counter. */
    method ScoreOf(docIndex: nat, terms: seq<string>, ghost query: seq<string>, queryCounts: map<string, nat>,
                   ghost docs: seq<Doc>, ghost ln: Log)
      returns (score: real)
      requires Built(docs, ln) && Sensible(params) && docIndex < |docs| && AverageLength(docs) > 0.0
      requires queryCounts == CounterOf(query) && forall t :: t in terms ==> t in query
      ensures score == WeightedScore(docs, docIndex, terms, query, params, ln)
    {
      var termFrequency := termFreqs[docIndex];
      var docLen := if docLens[docIndex] == 0 then 1 else docLens[docIndex];
      score := 0.0;
      var lengthNorm := params.k1 * (1.0 - params.b + params.b * docLen as real / avgDocLen);
      assert lengthNorm == LengthNorm(docs, docIndex, params);
      LengthNormBounds(docs, docIndex, params);
      for j := 0 to |terms|
        invariant score == WeightedScore(docs, docIndex, terms[..j], query, params, ln)
      {
        var term := terms[j];
        assert term in query;
        var weight := queryCounts[term];
        TermAdds(docs, docIndex, terms, j, query, params, ln);
        CountPositive(docs[docIndex], term);
        if term in termFrequency {
          DocFreqBounds(docs, term);
          score := score + TermScore(weight, idf[term], termFrequency[term], params.k1, lengthNorm);
        }
      }
      assert terms[..|terms|] == terms;
    }
  }

  lemma {:induction false} AverageOfTokens(docs: seq<Doc>, i: nat)
    requires i < |docs| && docs[i] != []
    ensures TotalLength(docs) > 0 && AverageLength(docs) > 0.0
  {
    if i < |docs| - 1 {
      AverageOfTokens(docs[..|docs| - 1], i);
    }
  }

  /**
   Chinese recall end to end: if the index is enabled and top_k is at least the
   number of chunks, an all-Chinese query of two or more characters returns
   every chunk whose text contains it.
   */
  lemma ChineseRecall(contents: seq<string>, i: nat, query: string, low: Lowering, p: Params, ln: Log, topK: int)
    requires i < |contents| && KeepsCjk(low) && Sensible(p) && IsLog(ln)
    requires AllCjk(query) && |query| >= 2 && Occurs(query, contents[i]) && topK >= |contents|
    ensures exists h :: h in Results(TokenizeAll(contents, low), Tokens(query, low), p, ln, true, topK) && h.0 == i
  {
    var token := ChineseQuerySharesToken(query, contents[i], low);
    SharingDocumentIsFound(TokenizeAll(contents, low), i, Tokens(query, low), token, p, ln, topK);
  }

  /** With room for every document, a document that shares a token with the query is returned. */
  lemma SharingDocumentIsFound(docs: seq<Doc>, i: nat, query: seq<string>, token: string, p: Params, ln: Log, topK: int)
    requires i < |docs| && Sensible(p) && IsLog(ln) && topK >= |docs|
    requires token in query && token in docs[i]
    ensures exists h :: h in Results(docs, query, p, ln, true, topK) && h.0 == i
  {
    AverageOfTokens(docs, i);
    ScoreBounds(docs, i, query, p, ln);
    ScoredExactly(docs, query, p, ln, |docs|);
    ScoredLength(docs, query, p, ln, |docs|);
    var hits := Scored(docs, query, p, ln, |docs|);
    var hit: Hit := (i, DocScore(docs, i, query, p, ln));
    SortMembers(hits, Score, hit);
    assert hit in SortDescending(hits, Score);
  }

  lemma {:induction false} ScoredLength(docs: seq<Doc>, query: seq<string>, p: Params, ln: Log, n: nat)
    requires n <= |docs| && AverageLength(docs) > 0.0 && Sensible(p)
    ensures |Scored(docs, query, p, ln, n)| <= n
  {
    if n > 0 {
      ScoredLength(docs, query, p, ln, n - 1);
    }
  }
}
