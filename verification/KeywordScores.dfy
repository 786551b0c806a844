/**
 What BM25 scores mean, in terms of counts and lengths alone (backend/retriever.py
 `BM25Index`): the score of a term in closed form, and the preference for short
 documents that length normalisation is for.
 */
module KeywordScores {
  import opened Bm25

  // ------------------------------------------------------------------ counts are cardinalities

  function Places(tokens: seq<string>, term: string): set<nat> {
    set k: nat | k < |tokens| && tokens[k] == term
  }

  lemma {:induction false} CountIsCardinality(tokens: seq<string>, term: string)
    ensures Count(tokens, term) == |Places(tokens, term)|
  {
    if tokens != [] {
      var n := |tokens| - 1;
      var init := tokens[..n];
      CountIsCardinality(init, term);
      assert Places(tokens, term) == Places(init, term) + if tokens[n] == term then {n} else {};
    }
  }

  function Holders(docs: seq<Doc>, term: string): set<nat> {
    set k: nat | k < |docs| && term in docs[k]
  }

  lemma {:induction false} DocFreqIsCardinality(docs: seq<Doc>, term: string)
    ensures DocFreq(docs, term) == |Holders(docs, term)|
  {
    if docs != [] {
      var n := |docs| - 1;
      var init := docs[..n];
      DocFreqIsCardinality(init, term);
      assert Holders(docs, term) == Holders(init, term) + if term in docs[n] then {n} else {};
    }
  }

  /** All tokens of all documents. */
  function AllTokens(docs: seq<Doc>): seq<string> {
    if docs == [] then [] else docs[0] + AllTokens(docs[1..])
  }

  lemma {:induction false} AllTokensSnoc(docs: seq<Doc>, last: Doc)
    ensures |AllTokens(docs + [last])| == |AllTokens(docs)| + |last|
  {
    var longer := docs + [last];
    if docs == [] {
      assert longer[1..] == [];
    } else {
      AllTokensSnoc(docs[1..], last);
      assert longer[0] == docs[0] && longer[1..] == docs[1..] + [last];
    }
  }

  lemma {:induction false} TotalLengthCounts(docs: seq<Doc>)
    ensures TotalLength(docs) == |AllTokens(docs)|
  {
    if docs != [] {
      var init, last := docs[..|docs| - 1], docs[|docs| - 1];
      TotalLengthCounts(init);
      AllTokensSnoc(init, last);
      assert docs == init + [last];
    }
  }

  /** The average length is the mean: all tokens, shared out evenly. */
  lemma AverageIsMean(docs: seq<Doc>)
    requires docs != []
    ensures AverageLength(docs) * |docs| as real == |AllTokens(docs)| as real
  {
    TotalLengthCounts(docs);
    hide TotalLength, AllTokens;
    ShareTimesCount(TotalLength(docs) as real, |docs| as real);
  }

  lemma ShareTimesCount(total: real, n: real)
    requires n > 0.0
    ensures total / n * n == total
  {
  }

  // ------------------------------------------------------------------ scores in closed form

  lemma ScoreSnoc(docs: seq<Doc>, i: nat, query: seq<string>, p: Params, ln: Log)
    requires i < |docs| && AverageLength(docs) > 0.0 && Sensible(p) && query != []
    ensures DocScore(docs, i, query, p, ln)
            == DocScore(docs, i, query[..|query| - 1], p, ln) + Contribution(docs, i, query[|query| - 1], p, ln)
  {
  }

  /** One more token adds what it scores by itself. */
  lemma ScoreAdds(docs: seq<Doc>, i: nat, query: seq<string>, term: string, p: Params, ln: Log)
    requires i < |docs| && AverageLength(docs) > 0.0 && Sensible(p)
    ensures DocScore(docs, i, [], p, ln) == 0.0
    ensures DocScore(docs, i, query + [term], p, ln)
            == DocScore(docs, i, query, p, ln) + DocScore(docs, i, [term], p, ln)
  {
    var longer := query + [term];
    assert longer[..|longer| - 1] == query && longer[|longer| - 1] == term;
    assert [term][..0] == [];
    ScoreSnoc(docs, i, longer, p, ln);
    ScoreSnoc(docs, i, [term], p, ln);
  }

  lemma OneTermScore(docs: seq<Doc>, i: nat, term: string, p: Params, ln: Log)
    requires i < |docs| && AverageLength(docs) > 0.0 && Sensible(p)
    ensures DocScore(docs, i, [term], p, ln) == Contribution(docs, i, term, p, ln)
  {
    assert [term][..0] == [];
    ScoreSnoc(docs, i, [term], p, ln);
  }

  lemma RarityInClosedForm(n: nat, d: nat)
    requires d <= n
    ensures Rarity(n, d) == (n as real + 1.0) / (d as real + 0.5)
  {
    var x, y := (n - d) as real + 0.5, d as real + 0.5;
    assert x / y * y == x;
    assert (1.0 + x / y) * y == n as real + 1.0;
  }

  /** How long a document is compared with the average one. */
  function RelativeLength(docs: seq<Doc>, i: nat): real
    requires i < |docs| && AverageLength(docs) > 0.0
  {
    |docs[i]| as real / AverageLength(docs)
  }

  lemma NormInClosedForm(docs: seq<Doc>, i: nat, p: Params)
    requires i < |docs| && AverageLength(docs) > 0.0 && docs[i] != []
    ensures LengthNorm(docs, i, p) == Norm(p.k1, p.b, RelativeLength(docs, i))
  {
    var len, avg := |docs[i]| as real, AverageLength(docs);
    assert p.b * len / avg == p.b * (len / avg);
  }

  /**
   The score of one term from counts and lengths: `f` occurrences in the document,
   `df` of `n` documents that hold it, and the document's relative length.
   */
  lemma TermScore(docs: seq<Doc>, i: nat, term: string, p: Params, ln: Log)
    requires i < |docs| && AverageLength(docs) > 0.0 && Sensible(p)
    ensures term !in docs[i] ==> DocScore(docs, i, [term], p, ln) == 0.0
    ensures term in docs[i] ==>
              var f, df := |Places(docs[i], term)| as real, |Holders(docs, term)| as real;
              var norm := p.k1 * (1.0 + p.b * (RelativeLength(docs, i) - 1.0));
              && norm >= 0.0 && f >= 1.0
              && DocScore(docs, i, [term], p, ln)
                 == ln((|docs| as real + 1.0) / (df + 0.5)) * (f * (p.k1 + 1.0) / (f + norm))
  {
    hide Count, LengthNorm, AverageLength, RelativeLength, Idf, Contribution, DocScore;
    PresentTermScore(docs, i, term, p, ln);
    if term in docs[i] {
      NormInClosedForm(docs, i, p);
      IdfInClosedForm(docs, term, ln);
    }
  }

  /** The weight of a term that some document holds. */
  lemma IdfInClosedForm(docs: seq<Doc>, term: string, ln: Log)
    requires exists i :: 0 <= i < |docs| && term in docs[i]
    ensures Idf(docs, term, ln) == ln((|docs| as real + 1.0) / (|Holders(docs, term)| as real + 0.5))
  {
    DocFreqIsCardinality(docs, term);
    DocFreqBounds(docs, term);
    hide DocFreq, Rarity;
    RarityInClosedForm(|docs|, DocFreq(docs, term));
  }

  lemma PresentTermScore(docs: seq<Doc>, i: nat, term: string, p: Params, ln: Log)
    requires i < |docs| && AverageLength(docs) > 0.0 && Sensible(p)
    ensures LengthNorm(docs, i, p) >= 0.0
    ensures term !in docs[i] ==> DocScore(docs, i, [term], p, ln) == 0.0
    ensures term in docs[i] ==>
              && |Places(docs[i], term)| >= 1
              && DocScore(docs, i, [term], p, ln)
                 == Scaled(Idf(docs, term, ln), Saturation(|Places(docs[i], term)|, LengthNorm(docs, i, p), p.k1))
  {
    OneTermScore(docs, i, term, p, ln);
    CountPositive(docs[i], term);
    CountIsCardinality(docs[i], term);
    ContributionIsProduct(docs, i, term, p, ln);
    hide Count, LengthNorm, AverageLength, Idf, DocScore, Contribution, Saturation, Scaled;
  }

  /** In a document of average length the length plays no part. */
  lemma AverageDocumentScore(docs: seq<Doc>, i: nat, term: string, p: Params, ln: Log)
    requires i < |docs| && AverageLength(docs) > 0.0 && Sensible(p) && term in docs[i]
    requires |docs[i]| as real == AverageLength(docs)
    ensures var f := |Places(docs[i], term)| as real;
            && f >= 1.0
            && DocScore(docs, i, [term], p, ln) == Idf(docs, term, ln) * (f * (p.k1 + 1.0) / (f + p.k1))
  {
    assert RelativeLength(docs, i) == 1.0;
    NormInClosedForm(docs, i, p);
    hide LengthNorm, AverageLength, RelativeLength, Idf, DocScore;
    PresentTermScore(docs, i, term, p, ln);
    assert p.b * (RelativeLength(docs, i) - 1.0) == 0.0;
    assert LengthNorm(docs, i, p) == p.k1;
  }

  // ------------------------------------------------------------------ short documents

  /** Both documents hold every token of the query equally often. */
  predicate EquallyOften(docs: seq<Doc>, i: nat, j: nat, query: seq<string>)
    requires i < |docs| && j < |docs|
  {
    forall t :: t in query ==> |Places(docs[i], t)| == |Places(docs[j], t)|
  }

  lemma NormGrowsWithLength(docs: seq<Doc>, i: nat, j: nat, p: Params)
    requires i < |docs| && j < |docs| && AverageLength(docs) > 0.0 && Sensible(p) && 1 <= |docs[i]| < |docs[j]|
    ensures p.k1 > 0.0 && p.b > 0.0 ==> LengthNorm(docs, i, p) < LengthNorm(docs, j, p)
    ensures p.k1 == 0.0 || p.b == 0.0 ==> LengthNorm(docs, i, p) == LengthNorm(docs, j, p)
  {
    NormInClosedForm(docs, i, p);
    NormInClosedForm(docs, j, p);
    RelativeLengthGrows(docs, i, j);
    hide LengthNorm, AverageLength, RelativeLength, TotalLength, Norm;
    NormOrder(p.k1, p.b, RelativeLength(docs, i), RelativeLength(docs, j));
  }

  lemma RelativeLengthGrows(docs: seq<Doc>, i: nat, j: nat)
    requires i < |docs| && j < |docs| && AverageLength(docs) > 0.0 && |docs[i]| < |docs[j]|
    ensures RelativeLength(docs, i) < RelativeLength(docs, j)
  {
    hide AverageLength;
    var avg := AverageLength(docs);
    ScaleBoth(RelativeLength(docs, i), RelativeLength(docs, j), avg);
  }

  /** The length norm of a document by its relative length. */
  function Norm(k1: real, b: real, relative: real): real {
    k1 * (1.0 + b * (relative - 1.0))
  }

  lemma NormOrder(k1: real, b: real, s: real, t: real)
    requires k1 >= 0.0 && b >= 0.0 && s < t
    ensures k1 > 0.0 && b > 0.0 ==> Norm(k1, b, s) < Norm(k1, b, t)
    ensures k1 == 0.0 || b == 0.0 ==> Norm(k1, b, s) == Norm(k1, b, t)
  {
    if k1 > 0.0 && b > 0.0 {
      ScaleBoth(s - 1.0, t - 1.0, b);
      assert (s - 1.0) * b == b * (s - 1.0) && (t - 1.0) * b == b * (t - 1.0);
      var x, y := 1.0 + b * (s - 1.0), 1.0 + b * (t - 1.0);
      ScaleBoth(x, y, k1);
      assert x * k1 == k1 * x && y * k1 == k1 * y;
    } else if b == 0.0 {
      assert b * (s - 1.0) == 0.0 && b * (t - 1.0) == 0.0;
    }
  }

  lemma SaturationFalls(f: nat, norm: real, more: real, k1: real)
    requires f > 0 && 0.0 <= norm < more && k1 >= 0.0
    ensures Saturation(f, norm, k1) > Saturation(f, more, k1)
  {
    var x := f as real * (k1 + 1.0);
    ScaleBoth(0.0, f as real, k1 + 1.0);
    ScaleBoth(f as real + norm, f as real + more, x);
    CrossDivide(x, f as real + more, x, f as real + norm);
  }

  /** Of one token: never less in the shorter document, strictly more if it counts there. */
  lemma ShorterContributes(docs: seq<Doc>, i: nat, j: nat, term: string, p: Params, ln: Log)
    requires i < |docs| && j < |docs| && AverageLength(docs) > 0.0 && Sensible(p) && IsLog(ln)
    requires 1 <= |docs[i]| < |docs[j]| && Count(docs[i], term) == Count(docs[j], term)
    ensures p.k1 > 0.0 && p.b > 0.0 ==>
              && Contribution(docs, i, term, p, ln) >= Contribution(docs, j, term, p, ln)
              && (term in docs[i] ==> Contribution(docs, i, term, p, ln) > Contribution(docs, j, term, p, ln))
    ensures p.k1 == 0.0 || p.b == 0.0 ==> Contribution(docs, i, term, p, ln) == Contribution(docs, j, term, p, ln)
  {
    ContributionIsProduct(docs, i, term, p, ln);
    ContributionIsProduct(docs, j, term, p, ln);
    NormGrowsWithLength(docs, i, j, p);
    CountPositive(docs[i], term);
    CountPositive(docs[j], term);
    IdfPositive(docs, term, ln);
    var f: nat, idf := Count(docs[i], term), Idf(docs, term, ln);
    hide Idf, LengthNorm, Saturation, Count, AverageLength, Contribution, DocFreq, Scaled;
    if f == 0 {
      assert Contribution(docs, i, term, p, ln) == 0.0;
      assert Contribution(docs, j, term, p, ln) == 0.0;
    } else if p.k1 > 0.0 && p.b > 0.0 {
      assert term in docs[i] && idf > 0.0;
      var m, n := LengthNorm(docs, i, p), LengthNorm(docs, j, p);
      SaturationFalls(f, m, n, p.k1);
      ScaledMore(idf, Saturation(f, n, p.k1), Saturation(f, m, p.k1));
    }
  }

  /** A product that the solver need not look into. */
  function Scaled(k: real, x: real): real { k * x }

  lemma ScaledMore(idf: real, less: real, more: real)
    requires idf > 0.0 && less < more
    ensures Scaled(idf, less) < Scaled(idf, more)
  {
    ScaleBoth(less, more, idf);
    assert less * idf == idf * less && more * idf == idf * more;
  }

  lemma ContributionIsProduct(docs: seq<Doc>, i: nat, term: string, p: Params, ln: Log)
    requires i < |docs| && AverageLength(docs) > 0.0 && Sensible(p)
    ensures LengthNorm(docs, i, p) >= 0.0
    ensures Count(docs[i], term) == 0 ==> Contribution(docs, i, term, p, ln) == 0.0
    ensures Count(docs[i], term) > 0 ==>
              Contribution(docs, i, term, p, ln)
              == Scaled(Idf(docs, term, ln), Saturation(Count(docs[i], term), LengthNorm(docs, i, p), p.k1))
  {
    LengthNormBounds(docs, i, p);
  }

  /**
   Length normalisation: of two documents that hold every token of the query
   equally often the strictly shorter one scores strictly higher, if they hold any
   token at all; with `b` or `k1` 0 both score the same.
   */
  lemma {:induction false} ShorterScoresHigher(docs: seq<Doc>, i: nat, j: nat, query: seq<string>, p: Params, ln: Log)
    requires i < |docs| && j < |docs| && AverageLength(docs) > 0.0 && Sensible(p) && IsLog(ln)
    requires 1 <= |docs[i]| < |docs[j]| && EquallyOften(docs, i, j, query)
    ensures p.k1 > 0.0 && p.b > 0.0 ==>
              if exists t :: t in query && t in docs[i]
              then DocScore(docs, i, query, p, ln) > DocScore(docs, j, query, p, ln)
              else DocScore(docs, i, query, p, ln) == DocScore(docs, j, query, p, ln)
    ensures p.k1 == 0.0 || p.b == 0.0 ==> DocScore(docs, i, query, p, ln) == DocScore(docs, j, query, p, ln)
  {
    if query != [] {
      var init, last := query[..|query| - 1], query[|query| - 1];
      assert query == init + [last];
      ShorterScoresHigher(docs, i, j, init, p, ln);
      CountIsCardinality(docs[i], last);
      CountIsCardinality(docs[j], last);
      ShorterContributes(docs, i, j, last, p, ln);
      ScoreSnoc(docs, i, query, p, ln);
      ScoreSnoc(docs, j, query, p, ln);
      CountPositive(docs[i], last);
      CountPositive(docs[j], last);
    }
  }
}
