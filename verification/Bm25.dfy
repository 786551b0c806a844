/**
 BM25 keyword search (backend/retriever.py `BM25Index`). Scores are exact real
 numbers; the logarithm is a parameter of which only monotonicity is used.
 */
module Bm25 {
  import opened Tokenizer
  import opened Sequences
  import opened Ranking

  type Log = real -> real

  ghost predicate IsLog(ln: Log) {
    && ln(1.0) == 0.0
    && forall x: real, y: real :: 0.0 < x < y ==> ln(x) < ln(y)
  }

  /** k1 is at least 0 and b lies in [0, 1]; by default 1.5 and 0.75. */
  datatype Params = Params(k1: real, b: real)

  predicate Sensible(p: Params) {
    p.k1 >= 0.0 && 0.0 <= p.b <= 1.0
  }

  type Doc = seq<string>

  // ------------------------------------------------------------------ counting

  function Count(tokens: seq<string>, term: string): nat {
    if tokens == [] then 0
    else (if tokens[|tokens| - 1] == term then 1 else 0) + Count(tokens[..|tokens| - 1], term)
  }

  lemma {:induction false} CountPositive(tokens: seq<string>, term: string)
    ensures Count(tokens, term) > 0 <==> term in tokens
    ensures Count(tokens, term) <= |tokens|
  {
    if tokens != [] {
      var init := tokens[..|tokens| - 1];
      CountPositive(init, term);
      assert tokens == init + [tokens[|tokens| - 1]];
    }
  }

  /** `Counter(tokens)`. */
  function CounterOf(tokens: seq<string>): map<string, nat> {
    map t | t in tokens :: Count(tokens, t)
  }

  /** The keys of `Counter(tokens)` in iteration order: by first occurrence. */
  function Distinct(tokens: seq<string>): seq<string> {
    if tokens == [] then []
    else
      var init, last := tokens[..|tokens| - 1], tokens[|tokens| - 1];
      if last in init then Distinct(init) else Distinct(init) + [last]
  }

  // ------------------------------------------------------------- the simple form

  /** The number of documents that contain a term. */
  function DocFreq(docs: seq<Doc>, term: string): nat {
    if docs == [] then 0
    else DocFreq(docs[..|docs| - 1], term) + (if term in docs[|docs| - 1] then 1 else 0)
  }

  function TotalLength(docs: seq<Doc>): nat {
    if docs == [] then 0 else TotalLength(docs[..|docs| - 1]) + |docs[|docs| - 1]|
  }

  function AverageLength(docs: seq<Doc>): real {
    if docs == [] then 0.0 else TotalLength(docs) as real / |docs| as real
  }

  function Rarity(n: nat, df: nat): real
    requires df <= n
  {
    1.0 + ((n - df) as real + 0.5) / (df as real + 0.5)
  }

  lemma {:induction false} DocFreqBounds(docs: seq<Doc>, term: string)
    ensures DocFreq(docs, term) <= |docs|
    ensures DocFreq(docs, term) > 0 <==> exists i :: 0 <= i < |docs| && term in docs[i]
  {
    if docs != [] {
      var init := docs[..|docs| - 1];
      DocFreqBounds(init, term);
      assert forall i :: 0 <= i < |init| ==> init[i] == docs[i];
    }
  }

  function Idf(docs: seq<Doc>, term: string, ln: Log): real {
    DocFreqBounds(docs, term);
    if DocFreq(docs, term) == 0 then 0.0 else ln(Rarity(|docs|, DocFreq(docs, term)))
  }

  function LengthNorm(docs: seq<Doc>, i: nat, p: Params): real
    requires i < |docs| && AverageLength(docs) > 0.0
  {
    var len := if |docs[i]| == 0 then 1 else |docs[i]|;
    p.k1 * (1.0 - p.b + p.b * len as real / AverageLength(docs))
  }

  lemma LengthNormBounds(docs: seq<Doc>, i: nat, p: Params)
    requires i < |docs| && AverageLength(docs) > 0.0 && Sensible(p)
    ensures LengthNorm(docs, i, p) >= 0.0
  {
    var len := if |docs[i]| == 0 then 1 else |docs[i]|;
    var avg := AverageLength(docs);
    assert p.b * len as real >= 0.0;
    assert p.b * len as real / avg >= 0.0;
  }

  /** How much `f` occurrences weigh against the length norm: between 0 and k1 + 1. */
  function Saturation(f: nat, norm: real, k1: real): real
    requires norm >= 0.0 && f > 0
  {
    f as real * (k1 + 1.0) / (f as real + norm)
  }

  /** What one occurrence of a query term adds to the score of document `i`. */
  function Contribution(docs: seq<Doc>, i: nat, term: string, p: Params, ln: Log): real
    requires i < |docs| && AverageLength(docs) > 0.0 && Sensible(p)
  {
    LengthNormBounds(docs, i, p);
    var f := Count(docs[i], term);
    if f == 0 then 0.0 else Idf(docs, term, ln) * Saturation(f, LengthNorm(docs, i, p), p.k1)
  }

  /** What one occurrence of each term is worth to document `i`. */
  function Worth(docs: seq<Doc>, i: nat, p: Params, ln: Log): string -> real
    requires i < |docs| && AverageLength(docs) > 0.0 && Sensible(p)
  {
    term => Contribution(docs, i, term, p, ln)
  }

  function Total(query: seq<string>, worth: string -> real): real {
    if query == [] then 0.0 else Total(query[..|query| - 1], worth) + worth(query[|query| - 1])
  }

  /** The score of a document: the sum over the query's tokens, repeats included. */
  function DocScore(docs: seq<Doc>, i: nat, query: seq<string>, p: Params, ln: Log): real
    requires i < |docs| && AverageLength(docs) > 0.0 && Sensible(p)
  {
    Total(query, Worth(docs, i, p, ln))
  }

  // ------------------------------------- the counted form equals the simple form

  /** `c` added up `n` times. */
  function Times(n: nat, c: real): real {
    if n == 0 then 0.0 else Times(n - 1, c) + c
  }

  lemma {:induction false} TimesMultiplies(n: nat, c: real)
    ensures Times(n, c) == n as real * c
  {
    if n > 0 {
      TimesMultiplies(n - 1, c);
      assert (n - 1) as real * c + c == n as real * c;
    }
  }

  /** Each of `terms` once, weighted by its count in the query. */
  function Weighted(terms: seq<string>, query: seq<string>, worth: string -> real): real {
    if terms == [] then 0.0
    else
      Weighted(terms[..|terms| - 1], query, worth)
      + Times(Count(query, terms[|terms| - 1]), worth(terms[|terms| - 1]))
  }

  /** The sum that the source's loop computes for a document. */
  function WeightedScore(docs: seq<Doc>, i: nat, terms: seq<string>, query: seq<string>, p: Params, ln: Log): real
    requires i < |docs| && AverageLength(docs) > 0.0 && Sensible(p)
  {
    Weighted(terms, query, Worth(docs, i, p, ln))
  }

  predicate NoDuplicates(terms: seq<string>) {
    forall i, j :: 0 <= i < j < |terms| ==> terms[i] != terms[j]
  }

  lemma {:induction false} DistinctTerms(tokens: seq<string>)
    ensures NoDuplicates(Distinct(tokens))
    ensures forall t :: t in Distinct(tokens) <==> t in tokens
  {
    if tokens != [] {
      var init := tokens[..|tokens| - 1];
      DistinctTerms(init);
      assert tokens == init + [tokens[|tokens| - 1]];
    }
  }

  lemma {:induction false} WeightsIgnoreOthers(terms: seq<string>, query: seq<string>, last: string,
                                               worth: string -> real)
    requires last !in terms
    ensures Weighted(terms, query + [last], worth) == Weighted(terms, query, worth)
  {
    if terms != [] {
      WeightsIgnoreOthers(terms[..|terms| - 1], query, last, worth);
      CountSnoc(query, last, terms[|terms| - 1]);
    }
  }

  lemma CountSnoc(query: seq<string>, last: string, term: string)
    ensures Count(query + [last], term) == Count(query, term) + (if last == term then 1 else 0)
  {
    assert (query + [last])[..|query|] == query;
  }

  lemma {:induction false} WeightsGrowByOne(terms: seq<string>, query: seq<string>, last: string, worth: string -> real)
    requires NoDuplicates(terms) && last in terms
    ensures Weighted(terms, query + [last], worth) == Weighted(terms, query, worth) + worth(last)
  {
    var init, end := terms[..|terms| - 1], terms[|terms| - 1];
    CountSnoc(query, last, end);
    if end == last {
      WeightsIgnoreOthers(init, query, last, worth);
      assert Times(Count(query, end) + 1, worth(end)) == Times(Count(query, end), worth(end)) + worth(end);
    } else {
      assert terms == init + [end];
      WeightsGrowByOne(init, query, last, worth);
    }
  }

  lemma WeightsOfNewTerm(terms: seq<string>, query: seq<string>, last: string, worth: string -> real)
    requires last !in terms && last !in query
    ensures Weighted(terms + [last], query + [last], worth) == Weighted(terms, query, worth) + worth(last)
  {
    WeightsIgnoreOthers(terms, query, last, worth);
    CountSnoc(query, last, last);
    CountPositive(query, last);
    var all := terms + [last];
    assert all[..|all| - 1] == terms && all[|all| - 1] == last;
    assert Weighted(all, query + [last], worth) == Weighted(terms, query + [last], worth) + Times(1, worth(last));
  }

  /** Counting first gives the same sum as adding up one by one, whatever the terms are worth. */
  lemma {:induction false} CountedTotalIsTotal(query: seq<string>, worth: string -> real)
    ensures Weighted(Distinct(query), query, worth) == Total(query, worth)
  {
    if query != [] {
      var init, last := query[..|query| - 1], query[|query| - 1];
      CountedTotalIsTotal(init, worth);
      DistinctTerms(init);
      assert query == init + [last];
      if last in init {
        WeightsGrowByOne(Distinct(init), init, last, worth);
      } else {
        WeightsOfNewTerm(Distinct(init), init, last, worth);
      }
    }
  }

  /** Counting the query's terms first gives the same score as adding up its tokens. */
  lemma CountedScoreIsScore(docs: seq<Doc>, i: nat, query: seq<string>, p: Params, ln: Log)
    requires i < |docs| && AverageLength(docs) > 0.0 && Sensible(p)
    ensures WeightedScore(docs, i, Distinct(query), query, p, ln) == DocScore(docs, i, query, p, ln)
  {
    CountedTotalIsTotal(query, Worth(docs, i, p, ln));
  }

  // --------------------------------------------------------------- score bounds

  lemma PositiveQuotient(x: real, y: real)
    requires x > 0.0 && y > 0.0
    ensures x / y > 0.0
  {
    assert x / y * y == x;
  }

  /** Every indexed term is worth something, however common. */
  lemma IdfPositive(docs: seq<Doc>, term: string, ln: Log)
    requires IsLog(ln)
    ensures Idf(docs, term, ln) >= 0.0
    ensures Idf(docs, term, ln) > 0.0 <==> exists i :: 0 <= i < |docs| && term in docs[i]
  {
    DocFreqBounds(docs, term);
    var df := DocFreq(docs, term);
    if df > 0 {
      RarityPositive(|docs|, df);
    }
  }

  lemma SaturationBounds(f: nat, norm: real, k1: real)
    requires f > 0 && norm >= 0.0 && k1 >= 0.0
    ensures 0.0 < Saturation(f, norm, k1) <= k1 + 1.0
  {
    QuotientBounds(f as real, f as real + norm, k1 + 1.0, Saturation(f, norm, k1));
  }

  lemma QuotientBounds(x: real, y: real, k: real, q: real)
    requires 0.0 < x <= y && k > 0.0 && q == x * k / y
    ensures 0.0 < q <= k
  {
    assert q * y == x * k;
    ScaleBoth(0.0, x, k);
    ScaleBoth(x, y, k);
    ScaleBoth(0.0, q, y);
    ScaleBoth(q, k, y);
    assert y * k == k * y;
  }

  /** More occurrences never weigh less, and weigh strictly more exactly when lengths matter. */
  lemma SaturationGrows(f: nat, g: nat, norm: real, k1: real)
    requires 0 < f < g && norm >= 0.0 && k1 >= 0.0
    ensures Saturation(f, norm, k1) <= Saturation(g, norm, k1)
    ensures Saturation(f, norm, k1) < Saturation(g, norm, k1) <==> norm > 0.0
  {
    var x, y := f as real, g as real;
    var a, b := x + norm, y + norm;
    var s, t := x / a, y / b;
    assert x * b == x * y + x * norm && y * a == x * y + y * norm;
    assert x * norm <= y * norm && (x * norm < y * norm <==> norm > 0.0);
    CrossDivide(x, a, y, b);
    assert Saturation(f, norm, k1) == s * (k1 + 1.0);
    assert Saturation(g, norm, k1) == t * (k1 + 1.0);
    ScaleBoth(s, t, k1 + 1.0);
  }

  lemma CrossDivide(x: real, a: real, y: real, b: real)
    requires a > 0.0 && b > 0.0
    ensures x * b <= y * a <==> x / a <= y / b
    ensures x * b < y * a <==> x / a < y / b
  {
    var s, t := x / a, y / b;
    assert x == s * a && y == t * b;
    assert x * b == s * (a * b) && y * a == t * (a * b);
    assert a * b > 0.0;
    ScaleBoth(s, t, a * b);
  }

  lemma ScaleBoth(s: real, t: real, k: real)
    requires k > 0.0
    ensures s <= t <==> s * k <= t * k
    ensures s < t <==> s * k < t * k
  {
    assert t * k - s * k == (t - s) * k;
  }

  lemma RarityPositive(n: nat, d: nat)
    requires d <= n
    ensures Rarity(n, d) > 1.0
  {
    PositiveQuotient((n - d) as real + 0.5, d as real + 0.5);
  }

  lemma RarityFalls(n: nat, d: nat, e: nat)
    requires d < e <= n
    ensures Rarity(n, e) < Rarity(n, d)
  {
    var x, a := (n - e) as real + 0.5, e as real + 0.5;
    var y, b := (n - d) as real + 0.5, d as real + 0.5;
    ScaleBoth(x, y, b);
    ScaleBoth(b, a, y);
    assert x * b < y * a;
    CrossDivide(x, a, y, b);
  }

  /** A term in fewer documents is worth strictly more. */
  lemma RarerTermsWeighMore(docs: seq<Doc>, rare: string, common: string, ln: Log)
    requires IsLog(ln) && 0 < DocFreq(docs, rare) < DocFreq(docs, common)
    ensures Idf(docs, rare, ln) > Idf(docs, common, ln) > 0.0
  {
    DocFreqBounds(docs, rare);
    DocFreqBounds(docs, common);
    hide DocFreq;
    RarityFalls(|docs|, DocFreq(docs, rare), DocFreq(docs, common));
    IdfPositive(docs, common, ln);
    RarityPositive(|docs|, DocFreq(docs, common));
    hide Rarity;
    var x, y := Rarity(|docs|, DocFreq(docs, common)), Rarity(|docs|, DocFreq(docs, rare));
    assert 0.0 < x < y;
  }

  lemma ContributionBounds(docs: seq<Doc>, i: nat, term: string, p: Params, ln: Log)
    requires i < |docs| && AverageLength(docs) > 0.0 && Sensible(p) && IsLog(ln)
    ensures 0.0 <= Contribution(docs, i, term, p, ln) <= Idf(docs, term, ln) * (p.k1 + 1.0)
    ensures Contribution(docs, i, term, p, ln) > 0.0 <==> term in docs[i]
  {
    CountPositive(docs[i], term);
    IdfPositive(docs, term, ln);
    var f, idf := Count(docs[i], term), Idf(docs, term, ln);
    if f > 0 {
      LengthNormBounds(docs, i, p);
      var norm := LengthNorm(docs, i, p);
      hide Idf, LengthNorm, Saturation;
      var w := Saturation(f, norm, p.k1);
      SaturationBounds(f, norm, p.k1);
      assert Contribution(docs, i, term, p, ln) == idf * w;
      WeightedBounds(idf, w, p.k1 + 1.0);
    } else {
      hide Idf;
      WeightedBounds(idf, 0.0, p.k1 + 1.0);
    }
  }

  lemma WeightedBounds(idf: real, w: real, most: real)
    requires idf >= 0.0 && 0.0 <= w <= most
    ensures 0.0 <= idf * w <= idf * most
    ensures idf > 0.0 && w > 0.0 ==> idf * w > 0.0
  {
    if idf > 0.0 {
      ScaleBoth(0.0, w, idf);
      ScaleBoth(w, most, idf);
      assert w * idf == idf * w && most * idf == idf * most;
    } else {
      assert idf == 0.0;
    }
  }

  /** What one occurrence of a term is worth at full saturation. */
  function Saturated(docs: seq<Doc>, term: string, p: Params, ln: Log): real {
    Idf(docs, term, ln) * (p.k1 + 1.0)
  }

  /** The most that a query can score anywhere: each occurrence at full saturation. */
  function Ceiling(docs: seq<Doc>, query: seq<string>, p: Params, ln: Log): real {
    if query == [] then 0.0
    else Ceiling(docs, query[..|query| - 1], p, ln) + Saturated(docs, query[|query| - 1], p, ln)
  }

  predicate SharesToken(doc: Doc, query: seq<string>) {
    exists t :: t in query && t in doc
  }

  lemma SharesSnoc(doc: Doc, query: seq<string>)
    requires query != []
    ensures SharesToken(doc, query) <==> SharesToken(doc, query[..|query| - 1]) || query[|query| - 1] in doc
  {
    var init, last := query[..|query| - 1], query[|query| - 1];
    assert query == init + [last];
    if SharesToken(doc, init) {
      var t :| t in init && t in doc;
      assert t in query;
    }
  }

  lemma SharesNothing(doc: Doc)
    ensures !SharesToken(doc, [])
  {
  }

  /**
   A document scores above 0 exactly when it shares a token with the query, and
   never more than the query's tokens are worth at full saturation.
   */
  lemma {:induction false} ScoreBounds(docs: seq<Doc>, i: nat, query: seq<string>, p: Params, ln: Log)
    requires i < |docs| && AverageLength(docs) > 0.0 && Sensible(p) && IsLog(ln)
    ensures 0.0 <= DocScore(docs, i, query, p, ln) <= Ceiling(docs, query, p, ln)
    ensures DocScore(docs, i, query, p, ln) > 0.0 <==> SharesToken(docs[i], query)
  {
    if query != [] {
      var init, last := query[..|query| - 1], query[|query| - 1];
      ContributionBounds(docs, i, last, p, ln);
      assert Contribution(docs, i, last, p, ln) <= Saturated(docs, last, p, ln);
      hide Contribution, Saturated, Idf, SharesToken;
      ScoreBounds(docs, i, init, p, ln);
      SharesSnoc(docs[i], query);
    } else {
      SharesNothing(docs[i]);
    }
  }

  // -------------------------------------------------------------------- ranking

  /** The documents with positive score among the first `n`, in index order. */
  function Scored(docs: seq<Doc>, query: seq<string>, p: Params, ln: Log, n: nat): seq<Hit>
    requires n <= |docs| && AverageLength(docs) > 0.0 && Sensible(p)
  {
    if n == 0 then []
    else
      var score := DocScore(docs, n - 1, query, p, ln);
      Scored(docs, query, p, ln, n - 1) + (if score > 0.0 then [(n - 1, score)] else [])
  }

  function Results(docs: seq<Doc>, query: seq<string>, p: Params, ln: Log, enabled: bool, topK: int): seq<Hit>
    requires Sensible(p)
  {
    if !enabled || docs == [] || topK <= 0 || query == [] || AverageLength(docs) <= 0.0 then []
    else Take(SortDescending(Scored(docs, query, p, ln, |docs|), Score), topK)
  }

  lemma {:induction false} ScoredExactly(docs: seq<Doc>, query: seq<string>, p: Params, ln: Log, n: nat)
    requires n <= |docs| && AverageLength(docs) > 0.0 && Sensible(p)
    ensures IndexOrdered(Scored(docs, query, p, ln, n))
    ensures forall h :: h in Scored(docs, query, p, ln, n)
              <==> 0 <= h.0 < n && h.1 == DocScore(docs, h.0, query, p, ln) > 0.0
  {
    if n > 0 {
      ScoredExactly(docs, query, p, ln, n - 1);
      var prev := Scored(docs, query, p, ln, n - 1);
      forall i | 0 <= i < |prev|
        ensures prev[i].0 < n - 1
      {
        assert prev[i] in prev;
      }
    }
  }

  /** The documents that rank before document `i`: higher score, or equal score and lower index. */
  ghost function Better(docs: seq<Doc>, query: seq<string>, p: Params, ln: Log, i: nat): set<Hit>
    requires i < |docs| && AverageLength(docs) > 0.0 && Sensible(p)
  {
    set h | h in Scored(docs, query, p, ln, |docs|) && Beats(h, (i, DocScore(docs, i, query, p, ln)))
  }

  /**
   Search is an exhaustive ranking: a document is returned if and only if it
   shares a token with the query and fewer than top_k documents rank before it.
   */
  lemma SearchIsExhaustive(docs: seq<Doc>, query: seq<string>, p: Params, ln: Log, topK: int, i: nat)
    requires i < |docs| && AverageLength(docs) > 0.0 && Sensible(p) && IsLog(ln) && topK > 0 && query != []
    ensures var hit := (i, DocScore(docs, i, query, p, ln));
            hit in Results(docs, query, p, ln, true, topK)
            <==> SharesToken(docs[i], query) && |Better(docs, query, p, ln, i)| < topK
    ensures Ranked(Results(docs, query, p, ln, true, topK))
  {
    hide Scored, DocScore;
    var hits := Scored(docs, query, p, ln, |docs|);
    var hit: Hit := (i, DocScore(docs, i, query, p, ln));
    ScoredExactly(docs, query, p, ln, |docs|);
    ScoreBounds(docs, i, query, p, ln);
    TopKExactly(hits, topK, hit);
    SortRanks(hits);
    assert Better(docs, query, p, ln, i) == set g | g in hits && Beats(g, hit);
  }
}
